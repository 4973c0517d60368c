/** Comparison and exclusive-or of limbs, and the 160-bit identifiers they stand for. */
module BnIds {
  import opened SeqNum
  import opened Bn
  import opened BnShift
  import Ids

  // ---- comparison ------------------------------------------------------------------------

  /** The first limb that differs decides. */
  lemma FirstDifference(a: seq<U32>, b: seq<U32>, i: nat)
    requires |a| == |b| && i < |a| && a[..i] == b[..i] && a[i] < b[i]
    ensures Val(a) < Val(b)
  {
    hide Val;
    hide Pow;
    SplitVal(a, i);
    SplitVal(b, i);
    ValFrom(a, i);
    ValFrom(b, i);
    ValBound(a[i + 1..]);
    MulLeft(a[i] as int + 1, b[i], Pow(|a| - i - 1));
    Distribute(a[i], 1, Pow(|a| - i - 1));
  }

  /** `operator<`. */
  method LessThan(a: array<U32>, b: array<U32>) returns (less: bool)
    requires a.Length == b.Length
    ensures less <==> Val(a[..]) < Val(b[..])
  {
    hide Val;
    for i := 0 to a.Length
      invariant a[..i] == b[..i]
    {
      assert a[..][..i] == a[..i] && b[..][..i] == b[..i];
      if a[i] < b[i] {
        FirstDifference(a[..], b[..], i);
        return true;
      } else if a[i] > b[i] {
        FirstDifference(b[..], a[..], i);
        return false;
      }
    }
    assert a[..] == a[..a.Length] == b[..b.Length] == b[..];
    return false;
  }

  /** `operator==`: equal limbs, which is to say equal numbers. */
  method Same(a: array<U32>, b: array<U32>) returns (same: bool)
    requires a.Length == b.Length
    ensures same <==> Val(a[..]) == Val(b[..])
  {
    hide Val;
    for i := 0 to a.Length
      invariant a[..i] == b[..i]
    {
      if a[i] != b[i] {
        assert a[..][..i] == a[..i] && b[..][..i] == b[..i];
        if a[i] < b[i] {
          FirstDifference(a[..], b[..], i);
        } else {
          FirstDifference(b[..], a[..], i);
        }
        return false;
      }
    }
    assert a[..] == a[..a.Length] == b[..b.Length] == b[..];
    return true;
  }

  // ---- identifiers as limbs ----------------------------------------------------------------

  function Limb(x: Ids.Id, j: nat): (r: U32)
    requires j < 5
  {
    BitsBound(x[32 * (4 - j)..32 * (5 - j)]);
    Pow2Of32();
    Ids.Value(x[32 * (4 - j)..32 * (5 - j)])
  }

  function LimbsOf(x: Ids.Id): (r: seq<U32>)
    ensures |r| == 5
  {
    seq(5, j requires 0 <= j < 5 => Limb(x, j))
  }

  lemma {:induction false} BitsBound(b: seq<bool>)
    ensures Ids.Value(b) < Pow2(|b|)
  {
    if b != [] {
      BitsBound(b[1..]);
    }
  }

  lemma {:induction false} BitsConcat(a: seq<bool>, b: seq<bool>)
    ensures Ids.Value(a + b) == Ids.Value(a) + Pow2(|a|) * Ids.Value(b)
  {
    if a == [] {
      assert a + b == b;
    } else {
      assert (a + b)[1..] == a[1..] + b;
      BitsConcat(a[1..], b);
      MulAssoc(2, Pow2(|a| - 1), Ids.Value(b));
    }
  }

  lemma LimbsFrom(x: Ids.Id, j: nat)
    requires j <= 5
    ensures Val(LimbsOf(x)[j..]) == Ids.Value(x[..32 * (5 - j)])
    decreases 5 - j
  {
    hide Val;
    hide Pow;
    hide Pow2;
    hide Limb;
    hide Ids.Value;
    if j == 5 {
      ValEmpty();
      NoBits();
      assert LimbsOf(x)[5..] == [] && x[..0] == [];
    } else {
      LimbsFrom(x, j + 1);
      ValFrom(LimbsOf(x), j);
      var lo, hi := 32 * (4 - j), 32 * (5 - j);
      assert x[..hi] == x[..lo] + x[lo..hi];
      BitsConcat(x[..lo], x[lo..hi]);
      PowIsPow2(4 - j);
      LimbIs(x, j);
    }
  }

  lemma NoBits()
    ensures Ids.Value([]) == 0
  {
  }

  lemma LimbIs(x: Ids.Id, j: nat)
    requires j < 5
    ensures Limb(x, j) == Ids.Value(x[32 * (4 - j)..32 * (5 - j)])
  {
  }

  /** The limbs of an identifier stand for the same number as its bits, so they compare the same way. */
  lemma LimbsCompare(x: Ids.Id, y: Ids.Id)
    ensures Val(LimbsOf(x)) == Ids.Value(x)
    ensures Val(LimbsOf(x)) < Val(LimbsOf(y)) <==> Ids.Less(x, y)
    ensures LimbsOf(x) == LimbsOf(y) <==> x == y
  {
    LimbsFrom(x, 0);
    LimbsFrom(y, 0);
    assert LimbsOf(x)[0..] == LimbsOf(x) && LimbsOf(y)[0..] == LimbsOf(y) && x[..160] == x && y[..160] == y;
    Ids.LessIsNumeric(x, y);
    Ids.BelowIsNumeric(x, y);
  }

  // ---- exclusive or -------------------------------------------------------------------------

  function XorNat(a: nat, b: nat): (r: nat)
    decreases a + b
  {
    if a == 0 && b == 0 then 0
    else 2 * XorNat(a / 2, b / 2) + if a % 2 != b % 2 then 1 else 0
  }

  lemma {:induction false} XorBits(a: seq<bool>, b: seq<bool>, c: seq<bool>)
    requires |a| == |b| == |c| && forall i :: 0 <= i < |a| ==> c[i] == (a[i] != b[i])
    ensures XorNat(Ids.Value(a), Ids.Value(b)) == Ids.Value(c)
  {
    if a != [] {
      XorBits(a[1..], b[1..], c[1..]);
      XorStep(Ids.Value(a[1..]), Ids.Value(b[1..]), if a[0] then 1 else 0, if b[0] then 1 else 0);
    }
  }

  lemma XorStep(p: nat, q: nat, x: nat, y: nat)
    requires x <= 1 && y <= 1
    ensures XorNat(x + 2 * p, y + 2 * q) == 2 * XorNat(p, q) + if x != y then 1 else 0
  {
    assert (x + 2 * p) / 2 == p && (x + 2 * p) % 2 == x;
    assert (y + 2 * q) / 2 == q && (y + 2 * q) % 2 == y;
  }

  lemma XorLimb(x: Ids.Id, y: Ids.Id, j: nat)
    requires j < 5
    ensures XorNat(Limb(x, j), Limb(y, j)) == Limb(Ids.Xor(x, y), j)
  {
    var lo, hi := 32 * (4 - j), 32 * (5 - j);
    XorBits(x[lo..hi], y[lo..hi], Ids.Xor(x, y)[lo..hi]);
  }

  /** `operator^`: the limbs of the distance between two identifiers. */
  method XorOf(a: array<U32>, b: array<U32>, ghost x: Ids.Id, ghost y: Ids.Id) returns (n: array<U32>)
    requires a[..] == LimbsOf(x) && b[..] == LimbsOf(y)
    ensures fresh(n) && n[..] == LimbsOf(Ids.Xor(x, y))
  {
    hide Limb;
    hide XorNat;
    assert a[..][0] == a[0];
    n := new U32[5];
    for i := 0 to 5
      invariant a[..] == LimbsOf(x) && b[..] == LimbsOf(y)
      invariant forall k :: 0 <= k < i ==> n[k] == Limb(Ids.Xor(x, y), k)
    {
      XorLimb(x, y, i);
      assert a[i] == LimbsOf(x)[i] && b[i] == LimbsOf(y)[i];
      n[i] := XorNat(a[i], b[i]);
    }
  }
}
