/** A circular buffer read from its head. */
module Ring {
  /** `i % len` for an index that is at most one lap ahead. */
  function Wrap(i: nat, len: nat): (r: nat)
    requires i < 2 * len
    ensures r < len
  {
    if i < len then i else i - len
  }

  /** How many places `i` lies after `head`. */
  function Offset(head: nat, i: nat, len: nat): (r: nat)
    requires head < len && i < len
    ensures r < len && Wrap(head + r, len) == i
  {
    if i >= head then i - head else i - head + len
  }

  /** The `n` slots of `a` that start at `head`. */
  function FromHead<T>(a: seq<T>, head: nat, n: nat): (r: seq<T>)
    requires n <= |a| && (n > 0 ==> head < |a|)
    ensures |r| == n
    ensures forall i :: 0 <= i < n ==> r[i] == a[Wrap(head + i, |a|)]
  {
    seq(n, i requires 0 <= i < n => a[Wrap(head + i, |a|)])
  }

  lemma Update<T>(a: seq<T>, head: nat, n: nat, k: nat, v: T)
    requires k < n <= |a| && head < |a|
    ensures FromHead(a[Wrap(head + k, |a|) := v], head, n) == FromHead(a, head, n)[k := v]
  {
  }

  lemma UpdateBeyond<T>(a: seq<T>, head: nat, n: nat, k: nat, v: T)
    requires n <= k < |a| && head < |a|
    ensures FromHead(a[Wrap(head + k, |a|) := v], head, n) == FromHead(a, head, n)
  {
  }

  lemma Push<T>(a: seq<T>, head: nat, n: nat, v: T)
    requires n < |a| && head < |a|
    ensures FromHead(a[Wrap(head + n, |a|) := v], head, n + 1) == FromHead(a, head, n) + [v]
  {
  }

  lemma Drop<T>(a: seq<T>, head: nat, n: nat, k: nat)
    requires k <= n <= |a| && head < |a|
    ensures FromHead(a, Wrap(head + k, |a|), n - k) == FromHead(a, head, n)[k..]
  {
  }

  /** A whole lap: the head slot is overwritten and becomes the last one. */
  lemma Rotate<T>(a: seq<T>, head: nat, v: T)
    requires head < |a|
    ensures FromHead(a[head := v], Wrap(head + 1, |a|), |a|) == FromHead(a, head, |a|)[1..] + [v]
  {
    var r := FromHead(a[head := v], Wrap(head + 1, |a|), |a|);
    forall i | 0 <= i < |a| ensures r[i] == (FromHead(a, head, |a|)[1..] + [v])[i] {
      if i < |a| - 1 {
        assert Wrap(Wrap(head + 1, |a|) + i, |a|) == Wrap(head + i + 1, |a|);
      }
    }
  }

  lemma OffsetOfWrap(head: nat, k: nat, len: nat)
    requires head < len && k < len
    ensures Offset(head, Wrap(head + k, len), len) == k
  {
  }

  /** Stepping the index by one steps the offset by one, short of a whole lap. */
  lemma NextOffset(head: nat, i: nat, len: nat)
    requires head < len && i < len && Offset(head, i, len) + 1 < len
    ensures Offset(head, Wrap(i + 1, len), len) == Offset(head, i, len) + 1
  {
  }

  /** Moving the head on brings every later index closer. */
  lemma OffsetDrop(head: nat, k: nat, i: nat, len: nat)
    requires head < len && i < len && k <= Offset(head, i, len)
    ensures Offset(Wrap(head + k, len), i, len) == Offset(head, i, len) - k
  {
  }

  lemma WrapShort(i: nat, len: nat)
    requires i < len
    ensures Wrap(i, len) == i
  {
  }

  lemma NextWrap(head: nat, k: nat, len: nat)
    requires head < len && k < len
    ensures Wrap(Wrap(head + k, len) + 1, len) == Wrap(head + k + 1, len)
  {
  }

  /** The index one past the last slot in use is ambiguous only when the ring is full. */
  lemma AtEnd(head: nat, used: nat, i: nat, len: nat)
    requires head < len && used <= len && i < len
    ensures i == Wrap(head + used, len) <==> Offset(head, i, len) == used || (used == len && i == head)
  {
  }

  lemma OffsetZero(head: nat, i: nat, len: nat)
    requires head < len && i < len
    ensures Offset(head, i, len) == 0 <==> i == head
  {
  }

  lemma WrapIsMod(i: nat, len: nat)
    requires i < 2 * len
    ensures Wrap(i, len) == i % len
  {
    if i >= len {
      assert i == 1 * len + (i - len);
      assert (i - len) / len == 0;
      assert i % len == (i - len) % len;
    }
  }
}
