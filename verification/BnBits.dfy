/** The bit tests of the routing table, on limbs: the masks, complements and shifted ones of `rttable.cpp`. */
module BnBits {
  import opened Arith
  import opened SeqNum
  import opened Bn
  import opened BnShift
  import opened BnIds
  import opened Ids

  /** The identifier with bit `i` alone, and the one with no bit. */
  function UnitId(i: int): Id {
    seq(160, j => j == i)
  }

  function AndId(x: Id, y: Id): (r: Id)
    ensures forall i :: 0 <= i < BITS ==> r[i] == (x[i] && y[i])
  {
    seq(160, i requires 0 <= i < 160 => x[i] && y[i])
  }

  function NotId(x: Id): (r: Id)
    ensures forall i :: 0 <= i < BITS ==> r[i] == !x[i]
  {
    seq(160, i requires 0 <= i < 160 => !x[i])
  }

  // ---- what they stand for -------------------------------------------------------------------

  lemma {:induction false} ValueOfNone(b: seq<bool>)
    requires forall i :: 0 <= i < |b| ==> !b[i]
    ensures Value(b) == 0
  {
    if b != [] {
      ValueOfNone(b[1..]);
    }
  }

  lemma {:induction false} ValueOfOne(b: seq<bool>, i: nat)
    requires i < |b| && forall j :: 0 <= j < |b| ==> b[j] == (j == i)
    ensures Value(b) == Pow2(i)
  {
    if i == 0 {
      ValueOfNone(b[1..]);
    } else {
      ValueOfOne(b[1..], i - 1);
    }
  }

  lemma UnitLimbs(s: seq<U32>, i: int)
    requires |s| == 5 && i < 160 && Val(s) == if i >= 0 then Pow2(i) else 0
    ensures s == LimbsOf(UnitId(i))
  {
    LimbsCompare(UnitId(i), UnitId(i));
    if i >= 0 {
      ValueOfOne(UnitId(i), i);
    } else {
      ValueOfNone(UnitId(i));
    }
    ValInjective(s, LimbsOf(UnitId(i)));
  }

  lemma UnitValue(i: int)
    requires i < 160
    ensures Val(LimbsOf(UnitId(i))) == if i >= 0 then Pow2(i) else 0
  {
    LimbsCompare(UnitId(i), UnitId(i));
    if i >= 0 {
      ValueOfOne(UnitId(i), i);
    } else {
      ValueOfNone(UnitId(i));
    }
  }

  lemma {:induction false} Pow2Grows(a: nat, b: nat)
    requires a < b
    ensures Pow2(a) < Pow2(b)
    decreases b
  {
    if a < b - 1 {
      Pow2Grows(a, b - 1);
    }
  }

  // ---- making and moving a mask ------------------------------------------------------------------

  /** `1 << i`. */
  method UnitAt(i: nat) returns (mask: array<U32>)
    requires i < 160
    ensures fresh(mask) && mask[..] == LimbsOf(UnitId(i))
  {
    hide Val;
    hide Pow;
    hide Pow2;
    hide LimbsOf;
    mask := new U32[5](j => if j == 4 then 1 else 0);
    OneLimb(mask[..]);
    ShiftLeft(mask, i);
    PowIsPow2(5);
    Pow2Grows(i, 160);
    DivModUnique(Pow2(i), Pow(5), 0, Pow2(i));
    UnitLimbs(mask[..], i);
  }

  lemma OneLimb(s: seq<U32>)
    requires s == [0, 0, 0, 0, 1]
    ensures Val(s) == 1
  {
    SplitVal(s, 4);
    ZeroVal(s[..4]);
    assert s[4..] == [1];
    assert Val([1]) == 1 * Pow(0) + Val([]);
  }

  /** `mask >>= 1`. */
  method Halve(mask: array<U32>, ghost i: int)
    requires 0 <= i < 160 && mask[..] == LimbsOf(UnitId(i))
    modifies mask
    ensures mask[..] == LimbsOf(UnitId(i - 1))
  {
    hide Val;
    hide Pow;
    hide LimbsOf;
    assert mask.Length == |mask[..]| == 5;
    UnitValue(i);
    ShiftRight(mask, 1);
    HalfOf(i);
    UnitLimbs(mask[..], i - 1);
  }

  lemma HalfOf(i: nat)
    ensures Pow2(i) / Pow2(1) == if i > 0 then Pow2(i - 1) else 0
  {
  }

  // ---- and, not ---------------------------------------------------------------------------------------

  lemma {:induction false} AndBits(a: seq<bool>, b: seq<bool>, c: seq<bool>)
    requires |a| == |b| == |c| && forall i :: 0 <= i < |a| ==> c[i] == (a[i] && b[i])
    ensures And(Value(a), Value(b)) == Value(c)
  {
    if a != [] {
      AndBits(a[1..], b[1..], c[1..]);
      AndStep(Value(a[1..]), Value(b[1..]), if a[0] then 1 else 0, if b[0] then 1 else 0);
    }
  }

  lemma AndStep(p: nat, q: nat, x: nat, y: nat)
    requires x <= 1 && y <= 1
    ensures And(x + 2 * p, y + 2 * q) == 2 * And(p, q) + if x == 1 && y == 1 then 1 else 0
  {
    assert (x + 2 * p) / 2 == p && (x + 2 * p) % 2 == x;
    assert (y + 2 * q) / 2 == q && (y + 2 * q) % 2 == y;
  }

  lemma {:induction false} NotBits(a: seq<bool>, c: seq<bool>)
    requires |a| == |c| && forall i :: 0 <= i < |a| ==> c[i] == !a[i]
    ensures Value(c) == Pow2(|a|) - 1 - Value(a)
  {
    if a != [] {
      NotBits(a[1..], c[1..]);
    }
  }

  lemma AndLimb(x: Id, y: Id, j: nat)
    requires j < 5
    ensures And(Limb(x, j), Limb(y, j)) == Limb(AndId(x, y), j)
  {
    var lo, hi := 32 * (4 - j), 32 * (5 - j);
    AndBits(x[lo..hi], y[lo..hi], AndId(x, y)[lo..hi]);
  }

  lemma NotLimb(x: Id, j: nat)
    requires j < 5
    ensures MODULUS - 1 - Limb(x, j) == Limb(NotId(x), j)
  {
    var lo, hi := 32 * (4 - j), 32 * (5 - j);
    Pow2Of32();
    NotBits(x[lo..hi], NotId(x)[lo..hi]);
  }

  /** `operator&=`. */
  method AndInto(a: array<U32>, b: array<U32>, ghost x: Id, ghost y: Id)
    requires a != b && a[..] == LimbsOf(x) && b[..] == LimbsOf(y)
    modifies a
    ensures a[..] == LimbsOf(AndId(x, y))
  {
    hide Limb;
    hide And;
    assert a.Length == |a[..]| == 5 && b.Length == |b[..]| == 5;
    for i := 0 to 5
      invariant forall k :: 0 <= k < i ==> a[k] == Limb(AndId(x, y), k)
      invariant forall k :: i <= k < 5 ==> a[k] == Limb(x, k)
    {
      AndLimb(x, y, i);
      assert b[i] == LimbsOf(y)[i];
      a[i] := And(a[i], b[i]);
    }
  }

  /** `operator~`. */
  method NotOf(a: array<U32>, ghost x: Id) returns (n: array<U32>)
    requires a[..] == LimbsOf(x)
    ensures fresh(n) && n[..] == LimbsOf(NotId(x))
  {
    hide Limb;
    assert a.Length == |a[..]| == 5;
    n := new U32[5];
    for i := 0 to 5
      invariant forall k :: 0 <= k < i ==> n[k] == Limb(NotId(x), k)
    {
      NotLimb(x, i);
      assert a[i] == LimbsOf(x)[i];
      n[i] := MODULUS - 1 - a[i];
    }
  }

  method IsZero(a: array<U32>) returns (zero: bool)
    ensures zero <==> Val(a[..]) == 0
  {
    hide Val;
    var z := new U32[a.Length](_ => 0);
    ZeroVal(z[..]);
    zero := Same(a, z);
  }

  // ---- the routing table's questions ---------------------------------------------------------------------

  lemma BitAlone(x: Id, i: nat)
    requires i < 160
    ensures Val(LimbsOf(AndId(x, UnitId(i)))) == if x[i] then Pow2(i) else 0
  {
    var y := AndId(x, UnitId(i));
    LimbsCompare(y, y);
    if x[i] {
      ValueOfOne(y, i);
    } else {
      ValueOfNone(y);
    }
  }

  /** `id2i`: a mask runs down from bit 159 until it meets a bit of the distance. */
  method Id2i(self: array<U32>, id: array<U32>, ghost x: Id, ghost y: Id) returns (i: int)
    requires self[..] == LimbsOf(x) && id[..] == LimbsOf(y)
    ensures i == TopDiff(x, y)
  {
    hide Val;
    hide Pow2;
    hide LimbsOf;
    ghost var z := Xor(x, y);
    var d := XorOf(self, id, x, y);
    var mask := UnitAt(159);
    i := 159;
    while i >= 0
      invariant -1 <= i < BITS && fresh(mask) && mask != d && d[..] == LimbsOf(z) && mask[..] == LimbsOf(UnitId(i))
      invariant forall j :: i < j < BITS ==> !z[j]
    {
      var t := Copied(d);
      AndInto(t, mask, z, UnitId(i));
      BitAlone(z, i);
      var none := IsZero(t);
      if !none {
        break;
      }
      Halve(mask, i);
      i := i - 1;
    }
    TopIs(z, i);
  }

  method Copied(a: array<U32>) returns (b: array<U32>)
    ensures fresh(b) && b[..] == a[..]
  {
    b := new U32[a.Length];
    forall k | 0 <= k < a.Length {
      b[k] := a[k];
    }
  }

  /** `id0 ^= 1 << i` turns bit `i` over, as the walk over the set bits does after each of them. */
  method FlipBit(id: array<U32>, i: nat, ghost x: Id) returns (r: array<U32>)
    requires i < 160 && id[..] == LimbsOf(x)
    ensures fresh(r) && r[..] == LimbsOf(x[i := !x[i]])
  {
    hide LimbsOf;
    var unit := UnitAt(i);
    r := XorOf(id, unit, x, UnitId(i));
    assert Xor(x, UnitId(i)) == x[i := !x[i]];
  }

  /** `(1 << i) & ~(self ^ id)` is not zero exactly when the two agree in bit `i`. */
  method BitIsClear(self: array<U32>, id: array<U32>, i: nat, ghost x: Id, ghost y: Id) returns (clear: bool)
    requires i < 160 && self[..] == LimbsOf(x) && id[..] == LimbsOf(y)
    ensures clear <==> !Xor(x, y)[i]
  {
    hide LimbsOf;
    hide Val;
    hide Pow2;
    var d := XorOf(self, id, x, y);
    var n := NotOf(d, Xor(x, y));
    var bits := UnitAt(i);
    AndInto(bits, n, UnitId(i), NotId(Xor(x, y)));
    assert AndId(UnitId(i), NotId(Xor(x, y))) == AndId(NotId(Xor(x, y)), UnitId(i));
    BitAlone(NotId(Xor(x, y)), i);
    var none := IsZero(bits);
    clear := !none;
  }
}
