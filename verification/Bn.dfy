/** Fixed-width numbers kept as 32-bit limbs, most significant first: `bn<uint32_t, N>` for any N. */
module Bn {
  import opened Arith
  import opened SeqNum

  type U64 = x: int | 0 <= x < 0x1_0000_0000_0000_0000

  // ---- what a row of limbs stands for ----------------------------------------------

  function Pow(n: nat): (p: nat)
    ensures p >= 1
  {
    if n == 0 then 1 else MODULUS * Pow(n - 1)
  }

  function Val(s: seq<U32>): (v: nat) {
    if s == [] then 0 else s[0] * Pow(|s| - 1) + Val(s[1..])
  }

  lemma MulAssoc(a: int, b: int, c: int)
    ensures a * b * c == a * (b * c)
  {
  }

  lemma Distribute(a: int, b: int, p: int)
    ensures (a + b) * p == a * p + b * p && p * (a + b) == p * a + p * b
  {
  }

  lemma {:induction false} PowAdd(a: nat, b: nat)
    ensures Pow(a + b) == Pow(a) * Pow(b)
  {
    if a > 0 {
      PowAdd(a - 1, b);
      MulAssoc(MODULUS, Pow(a - 1), Pow(b));
    }
  }

  lemma {:induction false} ValBound(s: seq<U32>)
    ensures Val(s) < Pow(|s|)
  {
    if s != [] {
      var p := Pow(|s| - 1);
      ValBound(s[1..]);
      Distribute(s[0], 1, p);
      MulLeft(s[0] as int + 1, MODULUS, p);
    }
  }

  lemma MulLeft(a: int, b: int, p: nat)
    requires a <= b
    ensures a * p <= b * p
  {
  }

  lemma {:induction false} ValConcat(a: seq<U32>, b: seq<U32>)
    ensures Val(a + b) == Val(a) * Pow(|b|) + Val(b)
  {
    if a == [] {
      assert a + b == b;
    } else {
      var p, q := Pow(|a| - 1), Pow(|b|);
      assert (a + b)[1..] == a[1..] + b;
      ValConcat(a[1..], b);
      PowAdd(|a| - 1, |b|);
      MulAssoc(a[0], p, q);
      Distribute(a[0] * p, Val(a[1..]), q);
    }
  }

  /** One limb more. */
  lemma ValFrom(s: seq<U32>, i: nat)
    requires i < |s|
    ensures Val(s[i..]) == s[i] * Pow(|s| - i - 1) + Val(s[i + 1..])
  {
    assert s[i..][1..] == s[i + 1..];
  }

  /** Two rows of the same length stand for the same number only if they are the same. */
  lemma {:induction false} ValInjective(s: seq<U32>, t: seq<U32>)
    requires |s| == |t| && Val(s) == Val(t)
    ensures s == t
  {
    if s != [] {
      var p := Pow(|s| - 1);
      ValBound(s[1..]);
      ValBound(t[1..]);
      DivModUnique(Val(s), p, s[0], Val(s[1..]));
      DivModUnique(Val(t), p, t[0], Val(t[1..]));
      ValInjective(s[1..], t[1..]);
      assert s == [s[0]] + s[1..] && t == [t[0]] + t[1..];
    }
  }

  /** Equal up to a multiple of 2^(32N), and in range. */
  lemma ModFrom(s: seq<U32>, q: int, x: int)
    requires Val(s) + q * Pow(|s|) == x
    ensures Val(s) == x % Pow(|s|)
  {
    ValBound(s);
    DivModUnique(x, Pow(|s|), q, Val(s));
  }

  // ---- addition ----------------------------------------------------------------------

  /** A column of an addition, carried over from the columns to its right. */
  lemma Column(x: int, y: int, carry: int, tmp: int, carry': int, p: int, v: int, vx: int, vy: int)
    requires x + y + carry == tmp + carry' * MODULUS && v + carry * p == vx + vy
    ensures tmp * p + v + carry' * (MODULUS * p) == (x * p + vx) + (y * p + vy)
  {
    assert (x + y + carry) * p == x * p + y * p + carry * p;
    assert (tmp + carry' * MODULUS) * p == tmp * p + carry' * MODULUS * p;
    MulAssoc(carry', MODULUS, p);
  }

  /** `operator+` and `operator+=`: the result may be written over either operand. */
  method Plus(dst: array<U32>, a: array<U32>, b: array<U32>)
    requires dst.Length == a.Length == b.Length
    modifies dst
    ensures Val(dst[..]) == (old(Val(a[..])) + old(Val(b[..]))) % Pow(dst.Length)
  {
    hide Val;
    hide Pow;
    ghost var x, y := a[..], b[..];
    var n := dst.Length;
    var carry: U32 := 0;
    ValEmpty();
    assert x[n..] == y[n..] == dst[n..] == [];
    for i := n downto 0
      invariant carry <= 1 && a[..i] == x[..i] && b[..i] == y[..i]
      invariant Val(dst[i..]) + carry * Pow(n - i) == Val(x[i..]) + Val(y[i..])
    {
      assert a[i] == a[..i + 1][i] == x[i] && b[i] == b[..i + 1][i] == y[i];
      var tmp := Add32(a[i], b[i]);
      ghost var c := carry;
      if tmp < a[i] {
        tmp := Add32(tmp, carry);
        carry := 1;
      } else {
        tmp := Add32(tmp, carry);
        carry := if tmp < carry then 1 else 0;
      }
      ghost var rest := dst[i + 1..];
      dst[i] := tmp;
      assert dst[i + 1..] == rest;
      ValFrom(x, i);
      ValFrom(y, i);
      ValFrom(dst[..], i);
      PowStep(n - i - 1);
      Column(x[i], y[i], c, tmp, carry, Pow(n - i - 1), Val(rest), Val(x[i + 1..]), Val(y[i + 1..]));
    }
    assert x[0..] == x && y[0..] == y && dst[0..] == dst[..];
    ModFrom(dst[..], carry, Val(x) + Val(y));
  }

  lemma ValEmpty()
    ensures Val([]) == 0
  {
  }

  lemma PowStep(n: nat)
    ensures Pow(n + 1) == MODULUS * Pow(n) && Pow(0) == 1
  {
  }

  /** From limb `i` on, `d` is `x` plus `rhs`, with `carry` still to be added on the left. */
  ghost predicate LimbAdded(d: seq<U32>, x: seq<U32>, rhs: int, i: nat, carry: int) {
    |d| == |x| && i <= |x| && Val(d[i..]) + carry * Pow(|x| - i) == Val(x[i..]) + rhs
  }

  lemma LimbAddedStart(d: seq<U32>, x: seq<U32>, rhs: U32)
    requires |d| == |x| > 0 && d[|x| - 1] == Add32(x[|x| - 1], rhs)
    ensures LimbAdded(d, x, rhs, |x| - 1, if d[|x| - 1] < x[|x| - 1] then 1 else 0)
  {
    var i := |x| - 1;
    ValFrom(x, i);
    ValFrom(d, i);
    assert x[|x|..] == d[|x|..] == [];
    PowStep(0);
  }

  lemma LimbAddedStep(d: seq<U32>, x: seq<U32>, rhs: int, i: nat, carry: U32)
    requires i < |x| && carry <= 1 && LimbAdded(d, x, rhs, i + 1, carry)
    ensures LimbAdded(d[i := Add32(x[i], carry)], x, rhs, i, if Add32(x[i], carry) < x[i] then 1 else 0)
  {
    hide Val;
    hide Pow;
    var tmp := Add32(x[i], carry);
    var d' := d[i := tmp];
    assert d'[i + 1..] == d[i + 1..];
    ValFrom(x, i);
    ValFrom(d', i);
    PowStep(|x| - i - 1);
    Column(x[i], 0, carry, tmp, if tmp < x[i] then 1 else 0, Pow(|x| - i - 1), Val(d[i + 1..]), Val(x[i + 1..]), rhs);
  }

  lemma LimbAddedEnd(d: seq<U32>, x: seq<U32>, rhs: int, carry: int)
    requires LimbAdded(d, x, rhs, 0, carry)
    ensures Val(d) == (Val(x) + rhs) % Pow(|d|)
  {
    assert x[0..] == x && d[0..] == d;
    ModFrom(d, carry, Val(x) + rhs);
  }

  /** `operator+=` with a single limb. */
  method PlusLimb(dst: array<U32>, a: array<U32>, rhs: U32)
    requires dst.Length == a.Length > 0
    modifies dst
    ensures Val(dst[..]) == (old(Val(a[..])) + rhs) % Pow(dst.Length)
  {
    hide Val;
    hide Pow;
    hide LimbAdded;
    ghost var x := a[..];
    var n := dst.Length;
    var tmp := Add32(a[n - 1], rhs);
    var carry: U32 := if tmp < a[n - 1] then 1 else 0;
    dst[n - 1] := tmp;
    LimbAddedStart(dst[..], x, rhs);
    for i := n - 1 downto 0
      invariant carry <= 1 && a[..i] == x[..i] && LimbAdded(dst[..], x, rhs, i, carry)
    {
      assert a[i] == a[..i + 1][i] == x[i];
      LimbAddedStep(dst[..], x, rhs, i, carry);
      tmp := Add32(a[i], carry);
      carry := if tmp < a[i] then 1 else 0;
      dst[i] := tmp;
    }
    LimbAddedEnd(dst[..], x, rhs, carry);
  }

  // ---- subtraction --------------------------------------------------------------------

  /** `operator-` takes a borrow from the next limb when a limb holds 2^32-1, nothing is subtracted from it and no borrow is due. */
  predicate FalseBorrow(a: seq<U32>, b: seq<U32>, i: nat)
    requires |a| == |b| && i < |a|
  {
    a[i] == MODULUS - 1 && b[i] == 0 && Val(a[i + 1..]) >= Val(b[i + 1..])
  }

  /** The borrow the code takes out of limb `i - 1`. */
  function Borrow(a: seq<U32>, b: seq<U32>, i: nat): (r: U32)
    requires |a| == |b| && i <= |a|
    ensures r <= 1
    decreases |a| - i
  {
    if i == |a| then 0
    else if Sub32(a[i], b[i]) > a[i] then 1
    else if Sub32(Sub32(a[i], b[i]), Borrow(a, b, i + 1)) == MODULUS - 1 then 1 else 0
  }

  function Difference(a: seq<U32>, b: seq<U32>): (r: seq<U32>)
    requires |a| == |b|
    ensures |r| == |a|
  {
    seq(|a|, i requires 0 <= i < |a| => Sub32(Sub32(a[i], b[i]), Borrow(a, b, i + 1)))
  }

  method Minus(dst: array<U32>, a: array<U32>, b: array<U32>)
    requires dst.Length == a.Length == b.Length
    modifies dst
    ensures dst[..] == Difference(old(a[..]), old(b[..]))
  {
    ghost var x, y := a[..], b[..];
    var n := dst.Length;
    var borrow: U32 := 0;
    for i := n downto 0
      invariant a[..i] == x[..i] && b[..i] == y[..i] && borrow == Borrow(x, y, i)
      invariant dst[i..] == Difference(x, y)[i..]
    {
      assert a[i] == a[..i + 1][i] == x[i] && b[i] == b[..i + 1][i] == y[i];
      var tmp := Sub32(a[i], b[i]);
      if tmp > a[i] {
        tmp := Sub32(tmp, borrow);
        borrow := 1;
      } else {
        tmp := Sub32(tmp, borrow);
        borrow := if tmp == MODULUS - 1 then 1 else 0;
      }
      dst[i] := tmp;
    }
  }

  lemma {:induction false} BorrowsTrue(a: seq<U32>, b: seq<U32>, i: nat)
    requires |a| == |b| && i <= |a| && forall k :: i <= k < |a| ==> !FalseBorrow(a, b, k)
    ensures Val(Difference(a, b)[i..]) + Val(b[i..]) == Val(a[i..]) + Borrow(a, b, i) * Pow(|a| - i)
    decreases |a| - i
  {
    var d := Difference(a, b);
    if i == |a| {
      assert d[i..] == b[i..] == a[i..] == [];
    } else {
      BorrowsTrue(a, b, i + 1);
      assert !FalseBorrow(a, b, i);
      var c := Borrow(a, b, i + 1);
      ValBound(a[i + 1..]);
      ValBound(b[i + 1..]);
      ValBound(d[i + 1..]);
      BorrowDue(Val(a[i + 1..]), Val(b[i + 1..]), Val(d[i + 1..]), c, Pow(|a| - i - 1));
      ValFrom(a, i);
      ValFrom(b, i);
      ValFrom(d, i);
      Column(d[i], b[i], c, a[i], Borrow(a, b, i), Pow(|a| - i - 1), Val(a[i + 1..]), Val(d[i + 1..]), Val(b[i + 1..]));
    }
  }

  lemma BorrowDue(va: int, vb: int, vd: int, c: int, p: int)
    requires 0 <= c <= 1 && vd + vb == va + c * p && 0 <= vd < p && 0 <= va
    ensures c == 0 <==> va >= vb
  {
  }

  lemma NotAMultiple(z: int, w: int, p: int)
    requires p >= 1
    ensures (z * MODULUS - 1) * p != w * (MODULUS * p)
  {
    MulAssoc(w, MODULUS, p);
    Cancel(z * MODULUS - 1, w * MODULUS, p);
  }

  lemma Cancel(x: int, y: int, p: int)
    requires p >= 1 && x != y
    ensures x * p != y * p
  {
    Distribute(x, -y, p);
    assert (x - y) * p == x * p - y * p;
  }

  /** A difference that is off by one in some limb is off by no multiple of the full width. */
  lemma CannotMakeUp(td: int, tb: int, ta: int, sd: int, sb: int, sa: int, high: int, low: int, e: int, q: int)
    requires low >= 1 && sd + sb == sa + (e * MODULUS - 1) * low
    ensures td * (MODULUS * low) + sd + (tb * (MODULUS * low) + sb) != ta * (MODULUS * low) + sa + q * (high * (MODULUS * low))
  {
    var p := MODULUS * low;
    var x := td + tb - ta;
    SumOfTops(td, tb, ta, p);
    MulAssoc(q, high, p);
    NotAMultiple(e, q * high - x, low);
    Distribute(q * high, -x, p);
    assert (q * high - x) * p == q * high * p - x * p;
  }

  /** Limb `i - 1` pays for the false borrow, and nothing to its left can make up for it. */
  lemma FalseBorrowShows(a: seq<U32>, b: seq<U32>, i: nat, q: int)
    requires |a| == |b| && 1 <= i < |a| && FalseBorrow(a, b, i)
    requires forall k :: i < k < |a| ==> !FalseBorrow(a, b, k)
    ensures Val(Difference(a, b)) + Val(b) != Val(a) + q * Pow(|a|)
  {
    hide Val;
    hide Difference;
    hide FalseBorrow;
    hide Pow;
    var d, n, k := Difference(a, b), |a|, i - 1;
    var e := LimbPays(a, b, i);
    ValConcat(d[..k], d[k..]);
    ValConcat(b[..k], b[k..]);
    ValConcat(a[..k], a[k..]);
    assert d[..k] + d[k..] == d && b[..k] + b[k..] == b && a[..k] + a[k..] == a;
    PowStep(n - i);
    PowAdd(k, n - k);
    CannotMakeUp(Val(d[..k]), Val(b[..k]), Val(a[..k]), Val(d[k..]), Val(b[k..]), Val(a[k..]), Pow(k), Pow(n - i), e, q);
  }

  lemma SumOfTops(x: int, y: int, z: int, p: int)
    ensures x * p + y * p - z * p == (x + y - z) * p
  {
  }

  lemma LimbDifference(a: seq<U32>, b: seq<U32>, i: nat) returns (e: int)
    requires |a| == |b| && i < |a|
    ensures Difference(a, b)[i] as int + b[i] + Borrow(a, b, i + 1) == a[i] + e * MODULUS
  {
    e := if Difference(a, b)[i] as int + b[i] + Borrow(a, b, i + 1) == a[i] then 0 else 1;
  }

  lemma LimbPays(a: seq<U32>, b: seq<U32>, i: nat) returns (e: int)
    requires |a| == |b| && 1 <= i < |a| && FalseBorrow(a, b, i)
    requires forall k :: i < k < |a| ==> !FalseBorrow(a, b, k)
    ensures var d := Difference(a, b);
            Val(d[i - 1..]) + Val(b[i - 1..]) == Val(a[i - 1..]) + (e * MODULUS - 1) * Pow(|a| - i)
  {
    hide Val;
    hide Pow;
    hide Difference;
    hide Borrow;
    hide FalseBorrow;
    var d, n := Difference(a, b), |a|;
    NothingDue(a, b, i);
    ValFrom(a, i - 1);
    ValFrom(b, i - 1);
    ValFrom(d, i - 1);
    e := LimbDifference(a, b, i - 1);
    SumOfTops(d[i - 1], b[i - 1], a[i - 1], Pow(n - i));
  }

  /** Up to the limb with the false borrow everything is right and nothing needs to be borrowed, yet a borrow is taken. */
  lemma NothingDue(a: seq<U32>, b: seq<U32>, i: nat)
    requires |a| == |b| && i < |a| && FalseBorrow(a, b, i)
    requires forall k :: i < k < |a| ==> !FalseBorrow(a, b, k)
    ensures Borrow(a, b, i) == 1 && Val(Difference(a, b)[i..]) + Val(b[i..]) == Val(a[i..])
  {
    var d, n := Difference(a, b), |a|;
    BorrowsTrue(a, b, i + 1);
    ValBound(d[i + 1..]);
    BorrowDue(Val(a[i + 1..]), Val(b[i + 1..]), Val(d[i + 1..]), Borrow(a, b, i + 1), Pow(n - i - 1));
    hide Val;
    hide Pow;
    ValFrom(a, i);
    ValFrom(b, i);
    ValFrom(d, i);
  }

  lemma {:induction false} LastFalseBorrow(a: seq<U32>, b: seq<U32>, i: nat) returns (k: nat)
    requires |a| == |b| && i < |a| && FalseBorrow(a, b, i)
    ensures i <= k < |a| && FalseBorrow(a, b, k) && forall j :: k < j < |a| ==> !FalseBorrow(a, b, j)
    decreases |a| - i
  {
    if j :| i < j < |a| && FalseBorrow(a, b, j) {
      k := LastFalseBorrow(a, b, j);
    } else {
      k := i;
    }
  }

  lemma MinusRight(a: seq<U32>, b: seq<U32>)
    requires |a| == |b| && forall i :: 1 <= i < |a| ==> !FalseBorrow(a, b, i)
    ensures Val(Difference(a, b)) == (Val(a) - Val(b)) % Pow(|a|)
  {
    hide Val;
    hide Pow;
    hide Difference;
    hide Borrow;
    hide FalseBorrow;
    var d, n := Difference(a, b), |a|;
    if n == 0 {
      ValEmpty();
      ModFrom(d, 0, 0);
    } else {
      BorrowsTrue(a, b, 1);
      var c := Borrow(a, b, 1);
      var e := LimbDifference(a, b, 0);
      assert a[0..] == a && b[0..] == b && d[0..] == d;
      ValFrom(a, 0);
      ValFrom(b, 0);
      ValFrom(d, 0);
      PowStep(n - 1);
      Column(d[0], b[0], c, a[0], e, Pow(n - 1), Val(a[1..]), Val(d[1..]), Val(b[1..]));
      ModFrom(d, -e, Val(a) - Val(b));
    }
  }

  /** Subtraction is subtraction modulo 2^(32N) exactly when no limb but the first takes a false borrow. */
  lemma MinusExact(a: seq<U32>, b: seq<U32>)
    requires |a| == |b|
    ensures Val(Difference(a, b)) == (Val(a) - Val(b)) % Pow(|a|) <==> forall i :: 1 <= i < |a| ==> !FalseBorrow(a, b, i)
  {
    hide Val;
    hide FalseBorrow;
    hide Difference;
    hide Pow;
    if i :| 1 <= i < |a| && FalseBorrow(a, b, i) {
      var k := LastFalseBorrow(a, b, i);
      var x, p := Val(a) - Val(b), Pow(|a|);
      FalseBorrowShows(a, b, k, -(x / p));
      assert x == p * (x / p) + x % p;
    } else {
      MinusRight(a, b);
    }
  }

  /** 2^33 - 1 minus zero comes out as 2^32 - 1. */
  lemma MinusFails()
    ensures Val(Difference([1, 0xFFFF_FFFF], [0, 0])) == 0xFFFF_FFFF
    ensures Val([1, 0xFFFF_FFFF]) - Val([0, 0]) == 0x1_FFFF_FFFF
  {
    var a: seq<U32>, b: seq<U32> := [1, 0xFFFF_FFFF], [0, 0];
    ValPair(1, 0xFFFF_FFFF);
    ValPair(0, 0);
    ValPair(0, 0xFFFF_FFFF);
    assert Borrow(a, b, 2) == 0;
    assert Borrow(a, b, 1) == 1;
    assert Difference(a, b) == [0, 0xFFFF_FFFF];
  }

  lemma ValPair(x: U32, y: U32)
    ensures Val([x, y]) == x * MODULUS + y
  {
    assert [x, y][1..] == [y] && [y][1..] == [];
    assert Val([y]) == y * Pow(0) + Val([]);
    assert Pow(1) == MODULUS;
  }

  // ---- multiplication -----------------------------------------------------------------

  lemma ProductBound(x: int, y: int)
    requires 0 <= x < MODULUS && 0 <= y < MODULUS
    ensures 0 <= x * y <= (MODULUS - 1) * (MODULUS - 1)
  {
    MulLeft(x, MODULUS - 1, y);
    MulLeft(y, MODULUS - 1, MODULUS - 1);
  }

  /** One column of a row: the 64-bit accumulator holds it without overflow. */
  lemma RowColumn(nv: int, r: int, m: int, carry: int, u: int, p: int, v: int, v0: int, vr: int)
    requires u == nv + r * m + carry && v + carry * p == v0 + m * vr
    ensures u % MODULUS * p + v + u / MODULUS * (MODULUS * p) == (nv * p + v0) + m * (r * p + vr)
  {
    assert u == u / MODULUS * MODULUS + u % MODULUS;
    assert (u / MODULUS * MODULUS + u % MODULUS) * p == u / MODULUS * MODULUS * p + u % MODULUS * p;
    MulAssoc(u / MODULUS, MODULUS, p);
    assert (nv + r * m + carry) * p == nv * p + r * m * p + carry * p;
    MulAssoc(m, r, p);
    Distribute(r * p, vr, m);
  }

  /**
   One row of the schoolbook product: add `m` times `rhs`, moved `d` limbs to the left, to `n`.
   Columns that would fall off on the left are skipped.
   */
  method AddRow(n: array<U32>, rhs: array<U32>, m: U32, d: nat) returns (ghost lost: int)
    requires n != rhs && n.Length == rhs.Length && d <= n.Length
    modifies n
    ensures n[n.Length - d..] == old(n[n.Length - d..])
    ensures Val(n[..n.Length - d]) + lost * Pow(n.Length - d) == old(Val(n[..n.Length - d])) + m * Val(rhs[d..])
  {
    hide Val;
    hide Pow;
    var len := n.Length;
    ghost var w := len - d;
    ghost var n0, r := n[..w], rhs[..];
    var carry: U32 := 0;
    ValEmpty();
    ghost var e := len;
    assert n[w..w] == n0[w..] == r[len..] == [];
    for j := len downto 0
      invariant e == (if j >= d then j else d) && n[w..] == old(n[w..]) && n[..e - d] == n0[..e - d]
      invariant Val(n[e - d..w]) + carry * Pow(len - e) == Val(n0[e - d..]) + m * Val(r[e..])
    {
      if j >= d {
        var ij := j - d;
        assert n[ij] == n[..ij + 1][ij] == n0[ij];
        ProductBound(rhs[j], m);
        var u: U64 := n[ij] + rhs[j] * m + carry;
        ghost var rest := n[ij + 1..w];
        RowColumn(n0[ij], r[j], m, carry, u, Pow(len - j - 1), Val(rest), Val(n0[ij + 1..]), Val(r[j + 1..]));
        n[ij] := u % MODULUS;
        carry := u / MODULUS;
        assert n[ij + 1..w] == rest && n[..w][ij..] == n[ij..w] && n[..w][ij + 1..] == rest;
        ValFrom(n[..w], ij);
        ValFrom(n0, ij);
        ValFrom(r, j);
        PowStep(len - j - 1);
        e := j;
      }
    }
    assert n[0..w] == n[..w] && n0[0..] == n0;
    lost := carry;
  }

  /** What a row adds to the whole number, up to what falls off on the left. */
  lemma RowAdds(u: int, u': int, low: int, r: int, h: int, m: int, lost: int, q: int, pw: int, pd: int, v: int, rv: int)
    requires u' + lost * pw == u + m * r && rv == h * pw + r && u * pd + low + q * (pw * pd) == rv * v
    ensures u' * pd + low + (q + lost + m * h) * (pw * pd) == rv * (m * pd + v)
  {
    assert (u' + lost * pw) * pd == u' * pd + lost * (pw * pd) by { MulAssoc(lost, pw, pd); }
    assert (u + m * r) * pd == u * pd + m * r * pd;
    assert (q + lost + m * h) * (pw * pd) == q * (pw * pd) + lost * (pw * pd) + m * h * (pw * pd);
    assert rv * (m * pd + v) == rv * (m * pd) + rv * v;
    assert (h * pw + r) * (m * pd) == h * pw * (m * pd) + r * (m * pd);
    Regroup(h, pw, m, pd);
    assert r * (m * pd) == m * r * pd by { MulAssoc(m, r, pd); MulAssoc(r, m, pd); }
  }

  lemma Regroup(h: int, pw: int, m: int, pd: int)
    ensures h * pw * (m * pd) == m * h * (pw * pd)
  {
    MulAssoc(h, pw, m * pd);
    MulAssoc(m, h, pw * pd);
    assert pw * (m * pd) == m * (pw * pd) by { MulAssoc(pw, m, pd); MulAssoc(m, pw, pd); }
    assert h * (m * (pw * pd)) == m * (h * (pw * pd)) by { MulAssoc(h, m, pw * pd); MulAssoc(m, h, pw * pd); }
  }

  /** `n` is the product of `r` with the limbs of `x` from `i` on, up to what fell off on the left. */
  ghost predicate RowsDone(n: seq<U32>, x: seq<U32>, r: seq<U32>, i: nat, q: int) {
    |n| == |x| == |r| && i <= |x| && Val(n) + q * Pow(|x|) == Val(r) * Val(x[i..])
  }

  lemma RowDone(was: seq<U32>, n: seq<U32>, x: seq<U32>, r: seq<U32>, i: nat, lost: int, q: int) returns (q': int)
    requires RowsDone(was, x, r, i + 1, q) && |n| == |was| && was[i + 1..] == n[i + 1..]
    requires Val(n[..i + 1]) + lost * Pow(i + 1) == Val(was[..i + 1]) + x[i] * Val(r[|x| - 1 - i..])
    ensures RowsDone(n, x, r, i, q')
  {
    hide Val;
    hide Pow;
    var d, w := |x| - 1 - i, i + 1;
    SplitVal(was, w);
    SplitVal(n, w);
    SplitVal(r, d);
    PowAdd(w, d);
    ValFrom(x, i);
    RowAdds(Val(was[..w]), Val(n[..w]), Val(n[w..]), Val(r[d..]), Val(r[..d]), x[i], lost, q, Pow(w), Pow(d), Val(x[i + 1..]), Val(r));
    q' := q + lost + x[i] * Val(r[..d]);
  }

  lemma RowsStart(n: seq<U32>, x: seq<U32>, r: seq<U32>)
    requires |n| == |x| == |r| && forall k :: 0 <= k < |n| ==> n[k] == 0
    ensures RowsDone(n, x, r, |x|, 0)
  {
    ZeroVal(n);
    assert x[|x|..] == [];
  }

  lemma RowsEnd(n: seq<U32>, x: seq<U32>, r: seq<U32>, q: int)
    requires RowsDone(n, x, r, 0, q)
    ensures Val(n) == Val(r) * Val(x) % Pow(|n|)
  {
    hide Val;
    hide Pow;
    assert x[0..] == x;
    ModFrom(n, q, Val(r) * Val(x));
  }

  /** `operator*`: the schoolbook product, truncated to the width of the operands. */
  method Times(a: array<U32>, rhs: array<U32>) returns (n: array<U32>)
    requires a.Length == rhs.Length
    ensures fresh(n) && n.Length == a.Length
    ensures Val(n[..]) == Val(rhs[..]) * Val(a[..]) % Pow(n.Length)
  {
    hide Val;
    hide Pow;
    hide RowsDone;
    var len := a.Length;
    n := new U32[len](_ => 0);
    ghost var x, r := a[..], rhs[..];
    ghost var q := 0;
    RowsStart(n[..], x, r);
    for i := len downto 0
      invariant a[..] == x && rhs[..] == r && RowsDone(n[..], x, r, i, q)
    {
      ghost var was := n[..];
      assert was[..i + 1] == n[..i + 1] && was[i + 1..] == n[i + 1..];
      ghost var lost := AddRow(n, rhs, a[i], len - 1 - i);
      assert n[..][..i + 1] == n[..i + 1] && n[..][i + 1..] == n[i + 1..];
      assert rhs[len - 1 - i..] == r[len - 1 - i..];
      q := RowDone(was, n[..], x, r, i, lost, q);
    }
    RowsEnd(n[..], x, r, q);
  }

  lemma SplitVal(s: seq<U32>, k: nat)
    requires k <= |s|
    ensures Val(s) == Val(s[..k]) * Pow(|s| - k) + Val(s[k..])
  {
    hide Val;
    hide Pow;
    ValConcat(s[..k], s[k..]);
    assert s[..k] + s[k..] == s;
  }

  lemma {:induction false} ZeroVal(s: seq<U32>)
    requires forall k :: 0 <= k < |s| ==> s[k] == 0
    ensures Val(s) == 0
  {
    if s != [] {
      ZeroVal(s[1..]);
    }
  }
}
