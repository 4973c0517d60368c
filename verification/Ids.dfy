/**
 160-bit identifiers and the XOR metric.

 An identifier is its bits, bit `i` having weight 2^i.  Two identifiers compare by the highest bit in
 which they differ, which is the order of the numbers they stand for.  BnIds.dfy ties them to `bn`'s limbs.
 */
module Ids {
  const BITS: int := 160

  type Id = s: seq<bool> | |s| == 160 witness seq(160, _ => false)

  function Xor(x: Id, y: Id): (r: Id)
    ensures forall i :: 0 <= i < BITS ==> r[i] == (x[i] != y[i])
  {
    seq(160, i requires 0 <= i < 160 => x[i] != y[i])
  }

  /** The highest set bit below `n`, or -1. */
  function TopBelow(d: seq<bool>, n: nat): (k: int)
    requires n <= |d|
    ensures -1 <= k < n
    ensures k >= 0 ==> d[k]
    ensures forall j :: k < j < n ==> !d[j]
  {
    if n == 0 then -1 else if d[n - 1] then n - 1 else TopBelow(d, n - 1)
  }

  /** The highest set bit of an identifier, or -1 for zero. */
  function Top(d: Id): (k: int)
    ensures -1 <= k < BITS
    ensures k >= 0 ==> d[k]
    ensures forall j :: k < j < BITS ==> !d[j]
  {
    TopBelow(d, 160)
  }

  lemma TopIs(d: Id, k: int)
    requires -1 <= k < BITS && (k >= 0 ==> d[k]) && forall j :: k < j < BITS ==> !d[j]
    ensures Top(d) == k
  {
  }

  /** The highest bit in which two identifiers differ, or -1. */
  function TopDiff(x: Id, y: Id): int {
    Top(Xor(x, y))
  }

  lemma TopDiffIs(x: Id, y: Id, k: int)
    requires 0 <= k < BITS && x[k] != y[k] && forall j :: k < j < BITS ==> x[j] == y[j]
    ensures TopDiff(x, y) == k
  {
    TopIs(Xor(x, y), k);
  }

  lemma SameIsZero(x: Id, y: Id)
    ensures TopDiff(x, y) == -1 <==> x == y
  {
    if TopDiff(x, y) == -1 {
      assert forall i :: 0 <= i < BITS ==> !Xor(x, y)[i];
    }
  }

  predicate Less(x: Id, y: Id) {
    var k := TopDiff(x, y);
    k >= 0 && y[k]
  }

  /** `x` is nearer to `t` than `y` is. */
  predicate Closer(t: Id, x: Id, y: Id) {
    Less(Xor(t, x), Xor(t, y))
  }

  /** Which of two identifiers is nearer is decided by one bit: the highest in which they differ. */
  lemma CloserBit(t: Id, x: Id, y: Id)
    ensures Closer(t, x, y) <==> x != y && !Xor(t, x)[TopDiff(x, y)]
    ensures Closer(t, x, y) <==> x != y && Xor(t, y)[TopDiff(x, y)]
  {
    SameIsZero(x, y);
    assert Xor(Xor(t, x), Xor(t, y)) == Xor(x, y);
  }

  lemma CloserTotal(t: Id, x: Id, y: Id)
    ensures x == y || Closer(t, x, y) || Closer(t, y, x)
    ensures !(Closer(t, x, y) && Closer(t, y, x))
    ensures !Closer(t, x, x)
  {
    CloserBit(t, x, y);
    CloserBit(t, y, x);
    CloserBit(t, x, x);
    assert Xor(x, y) == Xor(y, x);
  }

  lemma CloserTransitive(t: Id, x: Id, y: Id, z: Id)
    requires Closer(t, x, y) && Closer(t, y, z)
    ensures Closer(t, x, z)
  {
    CloserBit(t, x, y);
    CloserBit(t, y, z);
    SameIsZero(x, y);
    SameIsZero(y, z);
    var j, k := TopDiff(x, y), TopDiff(y, z);
    assert x[j] != y[j] && y[k] != z[k];
    assert Xor(t, y)[j] && !Xor(t, y)[k];
    var m := if j > k then j else k;
    TopAfter(x, y, j);
    TopAfter(y, z, k);
    TopDiffIs(x, z, m);
    CloserBit(t, x, z);
  }

  lemma TopAfter(x: Id, y: Id, k: int)
    requires k == TopDiff(x, y)
    ensures forall j :: k < j < BITS ==> x[j] == y[j]
  {
    assert forall j :: k < j < BITS ==> !Xor(x, y)[j];
  }

  // ---- the numbers they stand for ---------------------------------------------------

  function Value(bits: seq<bool>): (v: nat) {
    if bits == [] then 0 else (if bits[0] then 1 else 0) + 2 * Value(bits[1..])
  }

  /** Numeric order on bit strings, by the highest difference. */
  predicate Below(x: seq<bool>, y: seq<bool>)
    requires |x| == |y|
  {
    x != [] && (Below(x[1..], y[1..]) || (x[1..] == y[1..] && !x[0] && y[0]))
  }

  lemma {:induction false} BelowIsNumeric(x: seq<bool>, y: seq<bool>)
    requires |x| == |y|
    ensures Below(x, y) <==> Value(x) < Value(y)
    ensures Value(x) == Value(y) <==> x == y
  {
    if x != [] {
      BelowIsNumeric(x[1..], y[1..]);
      assert x == [x[0]] + x[1..] && y == [y[0]] + y[1..];
    }
  }

  lemma {:induction false} BelowByTop(x: seq<bool>, y: seq<bool>, k: nat)
    requires |x| == |y| && k < |x| && x[k] != y[k] && forall j :: k < j < |x| ==> x[j] == y[j]
    ensures Below(x, y) <==> y[k]
  {
    if k == 0 {
      assert x[1..] == y[1..];
      BelowIsNumeric(x[1..], y[1..]);
    } else {
      assert x[1..][k - 1] != y[1..][k - 1];
      BelowByTop(x[1..], y[1..], k - 1);
    }
  }

  lemma LessIsNumeric(x: Id, y: Id)
    ensures Less(x, y) <==> Value(x) < Value(y)
  {
    SameIsZero(x, y);
    var k := TopDiff(x, y);
    if k >= 0 {
      assert x[k] != y[k];
      TopAfter(x, y, k);
      BelowByTop(x, y, k);
    }
    BelowIsNumeric(x, y);
  }
}
