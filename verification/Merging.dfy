/** Merging two contact lists by distance (`merge_nodes`). */
module Merging {
  import opened Ids
  import opened Nearest

  /** The contacts of `ys` whose identifiers do not occur in `xs`. */
  function Unknown(ys: seq<Addr>, xs: seq<Addr>): (r: seq<Addr>) {
    if ys == [] then []
    else (if ys[0].id in IdsOf(xs) then [] else [ys[0]]) + Unknown(ys[1..], xs)
  }

  lemma {:induction false} UnknownMembers(ys: seq<Addr>, xs: seq<Addr>, a: Addr)
    ensures a in Unknown(ys, xs) <==> a in ys && a.id !in IdsOf(xs)
  {
    if ys != [] {
      UnknownMembers(ys[1..], xs, a);
    }
  }

  lemma {:induction false} UnknownDistinct(ys: seq<Addr>, xs: seq<Addr>)
    requires DistinctIds(ys)
    ensures DistinctIds(Unknown(ys, xs))
  {
    if ys != [] {
      UnknownDistinct(ys[1..], xs);
      var rest := Unknown(ys[1..], xs);
      forall a | a in rest ensures a.id != ys[0].id {
        UnknownMembers(ys[1..], xs, a);
        var i :| 1 <= i < |ys| && ys[i] == a;
      }
    }
  }

  /** The specification: all of `v1`, and what `v2` adds to it, in distance order. */
  function Union(t: Id, v1: seq<Addr>, v2: seq<Addr>): seq<Addr> {
    SortBy(t, v1 + Unknown(v2, v1))
  }

  // ---- how far a merge has got --------------------------------------------------

  ghost predicate AllCloser(t: Id, xs: seq<Addr>, ys: seq<Addr>) {
    forall a, b :: a in xs && b in ys ==> Closer(t, a.id, b.id)
  }

  /** `dst` holds what the first `i` and `j` contacts contribute, and all of it is nearer than what is left. */
  ghost predicate Merged(t: Id, v1: seq<Addr>, v2: seq<Addr>, i: nat, j: nat, dst: seq<Addr>) {
    && i <= |v1| && j <= |v2|
    && Sorted(t, dst)
    && (forall a :: a in dst <==> a in v1[..i] || (a in v2[..j] && a.id !in IdsOf(v1)))
    && AllCloser(t, dst, v1[i..]) && AllCloser(t, dst, v2[j..])
  }

  lemma SortedFrom(t: Id, v: seq<Addr>, i: nat)
    requires Sorted(t, v) && i < |v|
    ensures AllCloser(t, [v[i]], v[i + 1..])
  {
    forall b | b in v[i + 1..] ensures Closer(t, v[i].id, b.id) {
      var k :| 0 <= k < |v[i + 1..]| && v[i + 1..][k] == b;
      assert v[i + 1 + k] == b;
    }
  }

  lemma HeadCloserThanRest(t: Id, x: Addr, v: seq<Addr>, j: nat)
    requires Sorted(t, v) && j <= |v| && (j < |v| ==> Closer(t, x.id, v[j].id))
    ensures AllCloser(t, [x], v[j..])
  {
    forall b | b in v[j..] ensures Closer(t, x.id, b.id) {
      var k :| 0 <= k < |v[j..]| && v[j..][k] == b;
      assert v[j + k] == b;
      if k > 0 {
        CloserTransitive(t, x.id, v[j].id, b.id);
      }
    }
  }

  lemma AppendSorted(t: Id, dst: seq<Addr>, x: Addr)
    requires Sorted(t, dst) && AllCloser(t, dst, [x])
    ensures Sorted(t, dst + [x])
  {
    forall k | 0 <= k < |dst| ensures Closer(t, dst[k].id, x.id) {
      assert dst[k] in dst && x in [x];
    }
  }

  lemma AppendCloser(t: Id, dst: seq<Addr>, x: Addr, ys: seq<Addr>, zs: seq<Addr>)
    requires AllCloser(t, dst, ys) && AllCloser(t, [x], zs) && forall b :: b in zs ==> b in ys
    ensures AllCloser(t, dst + [x], zs)
  {
    forall a, b | a in dst + [x] && b in zs ensures Closer(t, a.id, b.id) {
      if a !in dst {
        assert a in [x];
      }
    }
  }

  lemma TakeFirst(t: Id, v1: seq<Addr>, v2: seq<Addr>, i: nat, j: nat, dst: seq<Addr>)
    requires Sorted(t, v1) && Sorted(t, v2) && Merged(t, v1, v2, i, j, dst) && i < |v1|
    requires j < |v2| ==> Closer(t, v1[i].id, v2[j].id)
    ensures v1[i].id !in IdsOf(dst)
    ensures Merged(t, v1, v2, i + 1, j, dst + [v1[i]])
  {
    var x := v1[i];
    assert x in v1[i..];
    NotAmong(t, dst, v1[i..], x);
    AppendSorted(t, dst, x);
    SortedFrom(t, v1, i);
    AppendCloser(t, dst, x, v1[i..], v1[i + 1..]);
    HeadCloserThanRest(t, x, v2, j);
    AppendCloser(t, dst, x, v2[j..], v2[j..]);
    assert v1[..i + 1] == v1[..i] + [x];
  }

  lemma NotAmong(t: Id, dst: seq<Addr>, ys: seq<Addr>, x: Addr)
    requires AllCloser(t, dst, ys) && x in ys
    ensures x.id !in IdsOf(dst) && AllCloser(t, dst, [x])
  {
    forall a | a in dst ensures a.id != x.id {
      CloserTotal(t, a.id, x.id);
    }
  }

  /** A contact of `v2` that is nearer than the rest of `v1` is new to `v1`. */
  lemma NewToFirst(t: Id, v1: seq<Addr>, i: nat, dst: seq<Addr>, x: Addr)
    requires i <= |v1| && (forall a :: a in v1[..i] ==> a in dst)
    requires x.id !in IdsOf(dst) && AllCloser(t, [x], v1[i..])
    ensures x.id !in IdsOf(v1)
  {
    forall a | a in v1 ensures a.id != x.id {
      var k :| 0 <= k < |v1| && v1[k] == a;
      if k < i {
        assert v1[..i][k] == a;
        assert a in dst;
      } else {
        assert v1[i..][k - i] == a;
        assert x in [x];
        CloserTotal(t, x.id, a.id);
      }
    }
  }

  lemma TakeSecond(t: Id, v1: seq<Addr>, v2: seq<Addr>, i: nat, j: nat, dst: seq<Addr>)
    requires Sorted(t, v1) && Sorted(t, v2) && Merged(t, v1, v2, i, j, dst) && j < |v2|
    requires i < |v1| ==> Closer(t, v2[j].id, v1[i].id)
    ensures v2[j].id !in IdsOf(dst)
    ensures Merged(t, v1, v2, i, j + 1, dst + [v2[j]])
  {
    var x := v2[j];
    assert x in v2[j..];
    NotAmong(t, dst, v2[j..], x);
    AppendSorted(t, dst, x);
    SortedFrom(t, v2, j);
    AppendCloser(t, dst, x, v2[j..], v2[j + 1..]);
    HeadCloserThanRest(t, x, v1, i);
    AppendCloser(t, dst, x, v1[i..], v1[i..]);
    NewToFirst(t, v1, i, dst, x);
    assert v2[..j + 1] == v2[..j] + [x];
  }

  lemma TakeBoth(t: Id, v1: seq<Addr>, v2: seq<Addr>, i: nat, j: nat, dst: seq<Addr>)
    requires Sorted(t, v1) && Sorted(t, v2) && Merged(t, v1, v2, i, j, dst) && i < |v1| && j < |v2|
    requires v1[i].id == v2[j].id
    ensures v1[i].id !in IdsOf(dst)
    ensures Merged(t, v1, v2, i + 1, j + 1, dst + [v1[i]])
  {
    var x := v1[i];
    assert x in v1[i..];
    NotAmong(t, dst, v1[i..], x);
    AppendSorted(t, dst, x);
    SortedFrom(t, v1, i);
    AppendCloser(t, dst, x, v1[i..], v1[i + 1..]);
    SortedFrom(t, v2, j);
    assert v2[j] in [v2[j]];
    assert AllCloser(t, [x], v2[j + 1..]);
    AppendCloser(t, dst, x, v2[j..], v2[j + 1..]);
    assert v1[..i + 1] == v1[..i] + [x];
    assert v2[..j + 1] == v2[..j] + [v2[j]];
    assert x in v1;
  }

  // ---- what has been merged is the nearest part of the union -----------------------

  lemma RestOfUnion(t: Id, v1: seq<Addr>, v2: seq<Addr>, i: nat, j: nat, dst: seq<Addr>)
    requires Sorted(t, v1) && Sorted(t, v2) && Merged(t, v1, v2, i, j, dst)
    ensures var rest := v1[i..] + Unknown(v2[j..], v1);
            && ToSet(v1 + Unknown(v2, v1)) == ToSet(dst) + ToSet(rest)
            && AllCloser(t, dst, rest) && DistinctIds(rest)
  {
    var rest := v1[i..] + Unknown(v2[j..], v1);
    assert v1 == v1[..i] + v1[i..] && v2 == v2[..j] + v2[j..];
    forall a: Addr ensures a in v1 + Unknown(v2, v1) <==> a in dst || a in rest {
      UnknownMembers(v2, v1, a);
      UnknownMembers(v2[j..], v1, a);
    }
    forall a, b | a in dst && b in rest ensures Closer(t, a.id, b.id) {
      UnknownMembers(v2[j..], v1, b);
    }
    RestDistinct(t, v1, v2, i, j);
  }

  lemma RestDistinct(t: Id, v1: seq<Addr>, v2: seq<Addr>, i: nat, j: nat)
    requires Sorted(t, v1) && Sorted(t, v2) && i <= |v1| && j <= |v2|
    ensures DistinctIds(v1[i..] + Unknown(v2[j..], v1))
  {
    SortedDistinct(t, v1);
    SortedDistinct(t, v2);
    UnknownDistinct(v2[j..], v1);
    var u := Unknown(v2[j..], v1);
    var s := v1[i..] + u;
    forall k, l | 0 <= k < l < |s| ensures s[k].id != s[l].id {
      if k < |v1| - i <= l {
        UnknownMembers(v2[j..], v1, s[l]);
        assert s[k] == v1[i + k];
        assert v1[i + k] in v1;
      }
    }
  }

  lemma MergedIsNearest(t: Id, v1: seq<Addr>, v2: seq<Addr>, i: nat, j: nat, dst: seq<Addr>, max: int)
    requires Sorted(t, v1) && Sorted(t, v2) && Merged(t, v1, v2, i, j, dst)
    requires |dst| == max || (|dst| <= max && i == |v1| && j == |v2|) || (max <= 0 && dst == [])
    ensures dst == Take(Union(t, v1, v2), max)
  {
    var rest := v1[i..] + Unknown(v2[j..], v1);
    RestDistinct(t, v1, v2, 0, 0);
    assert v1[0..] == v1 && v2[0..] == v2;
    RestOfUnion(t, v1, v2, i, j, dst);
    SortedDistinct(t, dst);
    ChosenNearest(t, v1 + Unknown(v2, v1), dst, rest, max);
    SortByElements(t, dst);
    SortBySorted(t, dst);
    SortedUnique(t, SortBy(t, dst), dst);
  }

  // ---- lists with repeated identifiers ------------------------------------------------

  ghost predicate NoneCloser(t: Id, xs: seq<Addr>, ys: seq<Addr>) {
    forall a, b :: a in xs && b in ys ==> !Closer(t, b.id, a.id)
  }

  /** The output so far is in order, and nothing still to come is nearer. */
  ghost predicate InOrder(t: Id, v1: seq<Addr>, v2: seq<Addr>, i: nat, j: nat, dst: seq<Addr>) {
    i <= |v1| && j <= |v2| && Sorted(t, dst) && NoneCloser(t, dst, v1[i..]) && NoneCloser(t, dst, v2[j..])
  }

  lemma HeadNoneCloser(t: Id, x: Addr, v: seq<Addr>, j: nat)
    requires WeaklySorted(t, v) && j <= |v| && (j < |v| ==> !Closer(t, v[j].id, x.id))
    ensures NoneCloser(t, [x], v[j..])
  {
    forall b | b in v[j..] ensures !Closer(t, b.id, x.id) {
      var k :| 0 <= k < |v[j..]| && v[j..][k] == b;
      assert v[j + k] == b;
      if k > 0 {
        NotCloserTransitive(t, x.id, v[j].id, b.id);
      }
    }
  }

  lemma PushInOrder(t: Id, v1: seq<Addr>, v2: seq<Addr>, i: nat, j: nat, i': nat, j': nat, dst: seq<Addr>, x: Addr)
    requires InOrder(t, v1, v2, i, j, dst) && i <= i' <= |v1| && j <= j' <= |v2|
    requires x in v1[i..] || x in v2[j..]
    requires NoneCloser(t, [x], v1[i'..]) && NoneCloser(t, [x], v2[j'..])
    ensures InOrder(t, v1, v2, i', j', if x.id in IdsOf(dst) then dst else dst + [x])
  {
    assert v1[i'..] == v1[i..][i' - i..] && v2[j'..] == v2[j..][j' - j..];
    assert forall b :: b in v1[i'..] ==> b in v1[i..];
    assert forall b :: b in v2[j'..] ==> b in v2[j..];
    if x.id !in IdsOf(dst) {
      forall k | 0 <= k < |dst| ensures Closer(t, dst[k].id, x.id) {
        assert dst[k] in dst;
        CloserTotal(t, dst[k].id, x.id);
      }
      forall a, b | a in dst + [x] && (b in v1[i'..] || b in v2[j'..]) ensures !Closer(t, b.id, a.id) {
        assert a in dst || a in [x];
      }
    }
  }

  /** Consuming the nearer head (or both heads when they agree) keeps the output in order. */
  lemma ConsumeKeepsOrder(t: Id, v1: seq<Addr>, v2: seq<Addr>, i: nat, j: nat, di: nat, dj: nat, dst: seq<Addr>, x: Addr)
    requires WeaklySorted(t, v1) && WeaklySorted(t, v2) && InOrder(t, v1, v2, i, j, dst)
    requires di <= 1 && dj <= 1 && i + di <= |v1| && j + dj <= |v2| && di + dj > 0
    requires (di == 1 && x == v1[i]) || (dj == 1 && x == v2[j])
    requires di == 1 && dj == 1 ==> v1[i].id == v2[j].id
    requires di == 0 && i < |v1| ==> !Closer(t, v1[i].id, x.id)
    requires dj == 0 && j < |v2| ==> !Closer(t, v2[j].id, x.id)
    ensures InOrder(t, v1, v2, i + di, j + dj, if x.id in IdsOf(dst) then dst else dst + [x])
  {
    HeadNoneCloser(t, x, v1, i + di);
    HeadNoneCloser(t, x, v2, j + dj);
    PushInOrder(t, v1, v2, i, j, i + di, j + dj, dst, x);
  }

  ghost predicate TakenFrom(dst: seq<Addr>, v1: seq<Addr>, v2: seq<Addr>) {
    forall a :: a in dst ==> a in v1 || a in v2
  }

  /** How far the merge has got, for lists in distance order with and without repeated identifiers. */
  ghost predicate Progress(t: Id, v1: seq<Addr>, v2: seq<Addr>, i: nat, j: nat, dst: seq<Addr>, n: nat) {
    && TakenFrom(dst, v1, v2) && DistinctIds(dst)
    && (Sorted(t, v1) && Sorted(t, v2) ==> Merged(t, v1, v2, i, j, dst) && |dst| == n)
    && (WeaklySorted(t, v1) && WeaklySorted(t, v2) ==> InOrder(t, v1, v2, i, j, dst))
  }

  lemma PushDistinct(dst: seq<Addr>, x: Addr)
    requires DistinctIds(dst)
    ensures DistinctIds(if x.id in IdsOf(dst) then dst else dst + [x])
  {
    if x.id !in IdsOf(dst) {
      forall k | 0 <= k < |dst| ensures dst[k].id != x.id {
        assert dst[k] in dst;
      }
    }
  }

  /** One turn of the loop: the nearer head is consumed, or both heads when they agree. */
  lemma Consume(t: Id, v1: seq<Addr>, v2: seq<Addr>, i: nat, j: nat, di: nat, dj: nat, dst: seq<Addr>, n: nat, x: Addr)
    requires Progress(t, v1, v2, i, j, dst, n)
    requires di <= 1 && dj <= 1 && i + di <= |v1| && j + dj <= |v2| && di + dj > 0
    requires x == if di == 1 then v1[i] else v2[j]
    requires di == 1 && dj == 1 ==> v1[i].id == v2[j].id
    requires di == 0 && i < |v1| ==> Closer(t, x.id, v1[i].id)
    requires dj == 0 && j < |v2| ==> Closer(t, x.id, v2[j].id)
    ensures Progress(t, v1, v2, i + di, j + dj, if x.id in IdsOf(dst) then dst else dst + [x], n + 1)
  {
    hide Sorted;
    hide WeaklySorted;
    hide Merged;
    hide InOrder;
    PushDistinct(dst, x);
    hide IdsOf;
    hide DistinctIds;
    if Sorted(t, v1) && Sorted(t, v2) {
      if di == 0 {
        TakeSecond(t, v1, v2, i, j, dst);
      } else if dj == 0 {
        TakeFirst(t, v1, v2, i, j, dst);
      } else {
        TakeBoth(t, v1, v2, i, j, dst);
      }
    }
    if WeaklySorted(t, v1) && WeaklySorted(t, v2) {
      if di == 0 && i < |v1| {
        CloserTotal(t, x.id, v1[i].id);
      }
      if dj == 0 && j < |v2| {
        CloserTotal(t, x.id, v2[j].id);
      }
      ConsumeKeepsOrder(t, v1, v2, i, j, di, dj, dst, x);
    }
  }

  /** Push a contact unless its identifier is already there. */
  function Push(dst: seq<Addr>, a: Addr): seq<Addr> {
    if a.id in IdsOf(dst) then dst else dst + [a]
  }

  /** The merge from positions `i` and `j` on; a contact that is passed over still counts towards `max`. */
  function MergeFrom(t: Id, v1: seq<Addr>, v2: seq<Addr>, i: nat, j: nat, dst: seq<Addr>, n: nat, max: int): seq<Addr>
    requires i <= |v1| && j <= |v2|
    decreases |v1| - i + |v2| - j
  {
    if n >= max || (i == |v1| && j == |v2|) then dst
    else if i == |v1| then MergeFrom(t, v1, v2, i, j + 1, Push(dst, v2[j]), n + 1, max)
    else if j == |v2| then MergeFrom(t, v1, v2, i + 1, j, Push(dst, v1[i]), n + 1, max)
    else if v1[i].id == v2[j].id then MergeFrom(t, v1, v2, i + 1, j + 1, Push(dst, v1[i]), n + 1, max)
    else if Closer(t, v1[i].id, v2[j].id) then MergeFrom(t, v1, v2, i + 1, j, Push(dst, v1[i]), n + 1, max)
    else MergeFrom(t, v1, v2, i, j + 1, Push(dst, v2[j]), n + 1, max)
  }

  function Merge(t: Id, v1: seq<Addr>, v2: seq<Addr>, max: int): seq<Addr> {
    MergeFrom(t, v1, v2, 0, 0, [], 0, max)
  }

  /** What a merge promises, whatever the lists; more if they are in distance order; everything if their identifiers do not repeat. */
  ghost predicate GoodMerge(t: Id, v1: seq<Addr>, v2: seq<Addr>, max: int, dst: seq<Addr>) {
    && TakenFrom(dst, v1, v2) && DistinctIds(dst) && |dst| <= (if max > 0 then max else 0)
    && (WeaklySorted(t, v1) && WeaklySorted(t, v2) ==> Sorted(t, dst))
    && (Sorted(t, v1) && Sorted(t, v2) ==> dst == Take(Union(t, v1, v2), max))
  }

  lemma {:induction false} MergeFromGood(t: Id, v1: seq<Addr>, v2: seq<Addr>, i: nat, j: nat, dst: seq<Addr>, n: nat, max: int)
    requires i <= |v1| && j <= |v2| && Progress(t, v1, v2, i, j, dst, n) && (n <= max || n == 0) && |dst| <= n
    ensures GoodMerge(t, v1, v2, max, MergeFrom(t, v1, v2, i, j, dst, n, max))
    decreases |v1| - i + |v2| - j
  {
    hide Progress;
    hide GoodMerge;
    hide Closer;
    hide IdsOf;
    if n >= max || (i == |v1| && j == |v2|) {
      MergeEnds(t, v1, v2, i, j, dst, n, max);
    } else {
      var di, dj := Turn(t, v1, v2, i, j);
      var x := if di == 1 then v1[i] else v2[j];
      Consume(t, v1, v2, i, j, di, dj, dst, n, x);
      MergeFromGood(t, v1, v2, i + di, j + dj, Push(dst, x), n + 1, max);
    }
  }

  /** Which heads the next turn of the loop consumes. */
  lemma Turn(t: Id, v1: seq<Addr>, v2: seq<Addr>, i: nat, j: nat) returns (di: nat, dj: nat)
    requires i <= |v1| && j <= |v2| && (i < |v1| || j < |v2|)
    ensures di <= 1 && dj <= 1 && di + dj > 0 && i + di <= |v1| && j + dj <= |v2|
    ensures di == 1 && dj == 1 ==> v1[i].id == v2[j].id
    ensures di == 0 && i < |v1| ==> v1[i].id != v2[j].id && !Closer(t, v1[i].id, v2[j].id) && Closer(t, v2[j].id, v1[i].id)
    ensures dj == 0 && j < |v2| ==> v1[i].id != v2[j].id && Closer(t, v1[i].id, v2[j].id)
  {
    if i == |v1| {
      di, dj := 0, 1;
    } else if j == |v2| {
      di, dj := 1, 0;
    } else {
      CloserTotal(t, v1[i].id, v2[j].id);
      di := if v1[i].id == v2[j].id || Closer(t, v1[i].id, v2[j].id) then 1 else 0;
      dj := if v1[i].id == v2[j].id || di == 0 then 1 else 0;
    }
  }

  lemma MergeGood(t: Id, v1: seq<Addr>, v2: seq<Addr>, max: int)
    ensures GoodMerge(t, v1, v2, max, Merge(t, v1, v2, max))
  {
    MergeStarts(t, v1, v2);
    MergeFromGood(t, v1, v2, 0, 0, [], 0, max);
  }

  method MergeNodes(t: Id, v1: seq<Addr>, v2: seq<Addr>, max: int) returns (dst: seq<Addr>)
    ensures dst == Merge(t, v1, v2, max) && GoodMerge(t, v1, v2, max, dst)
  {
    hide GoodMerge;
    hide Closer;
    hide IdsOf;
    MergeGood(t, v1, v2, max);
    var i, j, n := 0, 0, 0;
    var already: set<Id> := {};
    dst := [];
    NoIds();
    while n < max
      invariant 0 <= i <= |v1| && 0 <= j <= |v2| && n >= 0 && already == IdsOf(dst)
      invariant MergeFrom(t, v1, v2, i, j, dst, n, max) == Merge(t, v1, v2, max)
      decreases |v1| - i + |v2| - j
    {
      if i == |v1| && j == |v2| {
        break;
      }
      if i == |v1| {
        dst, already := Append(dst, already, v2[j]);
        j := j + 1;
      } else if j == |v2| {
        dst, already := Append(dst, already, v1[i]);
        i := i + 1;
      } else if v1[i].id == v2[j].id {
        dst, already := Append(dst, already, v1[i]);
        i, j := i + 1, j + 1;
      } else if Closer(t, v1[i].id, v2[j].id) {
        dst, already := Append(dst, already, v1[i]);
        i := i + 1;
      } else {
        dst, already := Append(dst, already, v2[j]);
        j := j + 1;
      }
      n := n + 1;
    }
  }

  lemma NoIds()
    ensures IdsOf([]) == {}
  {
  }

  lemma MergeStarts(t: Id, v1: seq<Addr>, v2: seq<Addr>)
    ensures Progress(t, v1, v2, 0, 0, [], 0)
  {
  }

  lemma MergeEnds(t: Id, v1: seq<Addr>, v2: seq<Addr>, i: nat, j: nat, dst: seq<Addr>, n: nat, max: int)
    requires Progress(t, v1, v2, i, j, dst, n) && (n <= max || n == 0) && |dst| <= n
    requires n < max ==> i == |v1| && j == |v2|
    ensures GoodMerge(t, v1, v2, max, dst)
  {
    if Sorted(t, v1) && Sorted(t, v2) {
      MergedIsNearest(t, v1, v2, i, j, dst, max);
    }
  }

  method Append(dst: seq<Addr>, already: set<Id>, a: Addr) returns (dst': seq<Addr>, already': set<Id>)
    requires already == IdsOf(dst)
    ensures dst' == Push(dst, a) && already' == IdsOf(dst')
  {
    dst', already' := dst, already;
    if a.id !in already {
      dst', already' := dst + [a], already + {a.id};
    }
  }

  // ---- a list kept short while more and more is heard ---------------------------------------

  lemma UnionDistinct(v1: seq<Addr>, v2: seq<Addr>)
    requires DistinctIds(v1) && DistinctIds(v2)
    ensures DistinctIds(v1 + Unknown(v2, v1))
  {
    UnknownDistinct(v2, v1);
    var s := v1 + Unknown(v2, v1);
    forall k, l | 0 <= k < l < |s| ensures s[k].id != s[l].id {
      if k < |v1| <= l {
        UnknownMembers(v2, v1, s[l]);
        assert v1[k] in v1;
      }
    }
  }

  /** Ten nearest, and one chosen besides: one of the ten was not chosen. */
  lemma OneLeftOut(near: seq<Addr>, chosen: seq<Addr>, a: Addr) returns (n: Addr)
    requires DistinctIds(near) && DistinctIds(chosen) && |chosen| <= |near| && a in chosen && a !in near
    ensures n in near && n !in chosen
  {
    SizeOfSet(near);
    SizeOfSet(chosen);
    if b :| b in near && b !in chosen {
      n := b;
    } else {
      assert ToSet(near) + {a} <= ToSet(chosen);
      Smaller(ToSet(near) + {a}, ToSet(chosen));
      assert false;
    }
  }

  lemma Smaller(a: set<Addr>, b: set<Addr>)
    requires a <= b
    ensures |a| <= |b|
  {
    assert b == a + (b - a);
  }

  /** A contact dropped earlier does not come back: the ones that displaced it are still there, and nearer. */
  lemma NotBetter(t: Id, near: seq<Addr>, known: seq<Addr>, chosen: seq<Addr>, all: seq<Addr>, num: nat, a: Addr, b: Addr)
    requires IsNearest(t, near, known, num) && IsNearest(t, chosen, all, num) && forall n :: n in near ==> n in all
    requires b in known && b !in near && a in chosen
    ensures Closer(t, a.id, b.id)
  {
    if a !in near {
      SortedDistinct(t, near);
      SortedDistinct(t, chosen);
      var n := OneLeftOut(near, chosen, a);
      CloserTransitive(t, a.id, n.id, b.id);
    }
  }

  /** Merging into the ten nearest of what was known gives the ten nearest of all that is known now. */
  lemma ShortListStaysNearest(t: Id, known: seq<Addr>, near: seq<Addr>, v2: seq<Addr>, num: nat)
    requires DistinctIds(known) && near == Take(SortBy(t, known), num) && Sorted(t, v2)
    ensures DistinctIds(known + Unknown(v2, known))
    ensures Take(Union(t, near, v2), num) == Take(SortBy(t, known + Unknown(v2, known)), num)
  {
    hide SortBy;
    hide Closer;
    SortedDistinct(t, v2);
    UnionDistinct(known, v2);
    TakeIsNearest(t, known, num);
    SortedDistinct(t, near);
    UnionDistinct(near, v2);
    var some, all := near + Unknown(v2, near), known + Unknown(v2, known);
    var chosen := Take(SortBy(t, some), num);
    TakeIsNearest(t, some, num);
    ChosenFromAll(t, known, near, v2, chosen, num);
    NearestIsTake(t, chosen, all, num);
  }

  lemma ChosenFromAll(t: Id, known: seq<Addr>, near: seq<Addr>, v2: seq<Addr>, chosen: seq<Addr>, num: nat)
    requires IsNearest(t, near, known, num) && IsNearest(t, chosen, near + Unknown(v2, near), num)
    ensures IsNearest(t, chosen, known + Unknown(v2, known), num)
  {
    hide Closer;
    hide Unknown;
    hide Sorted;
    var some, all := near + Unknown(v2, near), known + Unknown(v2, known);
    forall a | a in chosen ensures a in all {
      FromAll(t, known, near, v2, chosen, num, a);
    }
    forall a, b | a in chosen && b in all && b !in chosen ensures Closer(t, a.id, b.id) && |chosen| == num {
      LeftOutFarther(t, known, near, v2, chosen, num, a, b);
    }
    forall b | b in all && b !in chosen ensures |chosen| == num {
      RoomUsed(t, known, near, v2, chosen, num, b);
    }
  }

  lemma FromAll(t: Id, known: seq<Addr>, near: seq<Addr>, v2: seq<Addr>, chosen: seq<Addr>, num: nat, a: Addr)
    requires IsNearest(t, near, known, num) && IsNearest(t, chosen, near + Unknown(v2, near), num) && a in chosen
    ensures a in known + Unknown(v2, known)
  {
    UnknownMembers(v2, known, a);
    UnknownMembers(v2, near, a);
    if a !in near && a.id in IdsOf(known) {
      var d :| d in known && d.id == a.id;
      assert d !in near;
      NotBetter(t, near, known, chosen, near + Unknown(v2, near), num, a, d);
      CloserTotal(t, a.id, d.id);
      assert false;
    }
  }

  lemma LeftOutFarther(t: Id, known: seq<Addr>, near: seq<Addr>, v2: seq<Addr>, chosen: seq<Addr>, num: nat, a: Addr, b: Addr)
    requires IsNearest(t, near, known, num) && IsNearest(t, chosen, near + Unknown(v2, near), num)
    requires a in chosen && b in known + Unknown(v2, known) && b !in chosen
    ensures Closer(t, a.id, b.id) && |chosen| == num
  {
    hide Closer;
    RoomUsed(t, known, near, v2, chosen, num, b);
    if b in known && b !in near {
      NotBetter(t, near, known, chosen, near + Unknown(v2, near), num, a, b);
    } else {
      StillThere(known, near, v2, b);
    }
  }

  lemma StillThere(known: seq<Addr>, near: seq<Addr>, v2: seq<Addr>, b: Addr)
    requires (forall n :: n in near ==> n in known) && b in known + Unknown(v2, known) && (b in known ==> b in near)
    ensures b in near + Unknown(v2, near)
  {
    UnknownMembers(v2, known, b);
    UnknownMembers(v2, near, b);
    IdsGrow(near, known);
  }

  lemma IdsGrow(xs: seq<Addr>, ys: seq<Addr>)
    requires forall a :: a in xs ==> a in ys
    ensures IdsOf(xs) <= IdsOf(ys)
  {
  }

  lemma RoomUsed(t: Id, known: seq<Addr>, near: seq<Addr>, v2: seq<Addr>, chosen: seq<Addr>, num: nat, b: Addr)
    requires IsNearest(t, near, known, num) && IsNearest(t, chosen, near + Unknown(v2, near), num)
    requires b in known + Unknown(v2, known) && b !in chosen
    ensures |chosen| == num
  {
    hide Closer;
    if b in known && b !in near {
      SortedDistinct(t, near);
      SortedDistinct(t, chosen);
      SizeOfSet(near);
      SizeOfSet(chosen);
      if forall n :: n in near ==> n in chosen {
        assert ToSet(near) <= ToSet(chosen);
        Smaller(ToSet(near), ToSet(chosen));
      }
    } else {
      StillThere(known, near, v2, b);
    }
  }
}
