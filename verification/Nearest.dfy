/** Contact lists in distance order. */
module Nearest {
  import opened Ids

  datatype Domain = Loopback | Inet | Inet6

  /** A contact: identifier and network address. */
  datatype Addr = Addr(id: Id, domain: Domain, host: nat, port: nat)

  ghost predicate Sorted(t: Id, xs: seq<Addr>) {
    forall i, j :: 0 <= i < j < |xs| ==> Closer(t, xs[i].id, xs[j].id)
  }

  /** In distance order, with repeated identifiers allowed. */
  ghost predicate WeaklySorted(t: Id, xs: seq<Addr>) {
    forall i, j :: 0 <= i < j < |xs| ==> !Closer(t, xs[j].id, xs[i].id)
  }

  ghost predicate DistinctIds(xs: seq<Addr>) {
    forall i, j :: 0 <= i < j < |xs| ==> xs[i].id != xs[j].id
  }

  function ToSet(xs: seq<Addr>): set<Addr> {
    set a | a in xs
  }

  function IdsOf(xs: seq<Addr>): set<Id> {
    set a | a in xs :: a.id
  }

  function Take(xs: seq<Addr>, n: int): seq<Addr> {
    if n <= 0 then [] else if n < |xs| then xs[..n] else xs
  }

  // ---- sorting -------------------------------------------------------------

  function Insert(t: Id, a: Addr, xs: seq<Addr>): (r: seq<Addr>) {
    if xs == [] || Closer(t, a.id, xs[0].id) then [a] + xs else [xs[0]] + Insert(t, a, xs[1..])
  }

  /** What `std::sort` leaves: for distinct identifiers there is only one sorted arrangement. */
  function SortBy(t: Id, xs: seq<Addr>): (r: seq<Addr>) {
    if xs == [] then [] else Insert(t, xs[0], SortBy(t, xs[1..]))
  }

  lemma {:induction false} InsertElements(t: Id, a: Addr, xs: seq<Addr>)
    ensures |Insert(t, a, xs)| == |xs| + 1
    ensures ToSet(Insert(t, a, xs)) == ToSet(xs) + {a}
  {
    if xs == [] || Closer(t, a.id, xs[0].id) {
    } else {
      InsertElements(t, a, xs[1..]);
      assert ToSet(xs) == ToSet(xs[1..]) + {xs[0]};
      var r := Insert(t, a, xs[1..]);
      assert ToSet([xs[0]] + r) == {xs[0]} + ToSet(r);
    }
  }

  lemma {:induction false} InsertSorted(t: Id, a: Addr, xs: seq<Addr>)
    requires Sorted(t, xs) && a.id !in IdsOf(xs)
    ensures Sorted(t, Insert(t, a, xs))
  {
    if xs == [] {
    } else if Closer(t, a.id, xs[0].id) {
      forall j | 0 <= j < |xs| ensures Closer(t, a.id, xs[j].id) {
        if j > 0 {
          CloserTransitive(t, a.id, xs[0].id, xs[j].id);
        }
      }
    } else {
      assert xs[0] in xs;
      CloserTotal(t, a.id, xs[0].id);
      InsertSorted(t, a, xs[1..]);
      InsertElements(t, a, xs[1..]);
      var r := Insert(t, a, xs[1..]);
      forall j | 0 <= j < |r| ensures Closer(t, xs[0].id, r[j].id) {
        assert r[j] in ToSet(xs[1..]) + {a};
      }
    }
  }

  lemma {:induction false} SortByElements(t: Id, xs: seq<Addr>)
    ensures |SortBy(t, xs)| == |xs| && ToSet(SortBy(t, xs)) == ToSet(xs)
  {
    if xs != [] {
      SortByElements(t, xs[1..]);
      InsertElements(t, xs[0], SortBy(t, xs[1..]));
      assert ToSet(xs) == ToSet(xs[1..]) + {xs[0]};
    }
  }

  lemma {:induction false} SortBySorted(t: Id, xs: seq<Addr>)
    requires DistinctIds(xs)
    ensures Sorted(t, SortBy(t, xs))
  {
    if xs != [] {
      SortBySorted(t, xs[1..]);
      SortByElements(t, xs[1..]);
      var r := SortBy(t, xs[1..]);
      forall a | a in r ensures a.id != xs[0].id {
        assert a in ToSet(xs[1..]);
        var i :| 1 <= i < |xs| && xs[i] == a;
      }
      InsertSorted(t, xs[0], r);
    }
  }

  lemma NotCloserTransitive(t: Id, x: Id, y: Id, z: Id)
    requires !Closer(t, y, x) && !Closer(t, z, y)
    ensures !Closer(t, z, x)
  {
    CloserTotal(t, x, y);
    CloserTotal(t, y, z);
    CloserTotal(t, x, z);
    if x != y && y != z {
      CloserTransitive(t, x, y, z);
    }
  }

  lemma {:induction false} InsertWeaklySorted(t: Id, a: Addr, xs: seq<Addr>)
    requires WeaklySorted(t, xs)
    ensures WeaklySorted(t, Insert(t, a, xs))
  {
    if xs == [] {
    } else if Closer(t, a.id, xs[0].id) {
      CloserTotal(t, a.id, xs[0].id);
      forall j | 0 <= j < |xs| ensures !Closer(t, xs[j].id, a.id) {
        if j > 0 {
          NotCloserTransitive(t, a.id, xs[0].id, xs[j].id);
        }
      }
    } else {
      InsertWeaklySorted(t, a, xs[1..]);
      InsertElements(t, a, xs[1..]);
      var r := Insert(t, a, xs[1..]);
      forall j | 0 <= j < |r| ensures !Closer(t, r[j].id, xs[0].id) {
        assert r[j] in ToSet(xs[1..]) + {a};
        if r[j] in xs[1..] {
          var k :| 0 <= k < |xs[1..]| && xs[1..][k] == r[j];
        }
      }
    }
  }

  lemma {:induction false} SortByWeaklySorted(t: Id, xs: seq<Addr>)
    ensures WeaklySorted(t, SortBy(t, xs))
  {
    if xs != [] {
      SortByWeaklySorted(t, xs[1..]);
      InsertWeaklySorted(t, xs[0], SortBy(t, xs[1..]));
    }
  }

  lemma SortedDistinct(t: Id, xs: seq<Addr>)
    requires Sorted(t, xs)
    ensures DistinctIds(xs)
  {
    forall i, j | 0 <= i < j < |xs| ensures xs[i].id != xs[j].id {
      CloserTotal(t, xs[i].id, xs[j].id);
    }
  }

  lemma EmptyTogether(xs: seq<Addr>)
    ensures ToSet(xs) == {} <==> xs == []
  {
    if xs != [] {
      assert xs[0] in ToSet(xs);
    }
  }

  /** There is only one way to put a set of contacts in distance order. */
  lemma {:induction false} SortedUnique(t: Id, xs: seq<Addr>, ys: seq<Addr>)
    requires Sorted(t, xs) && Sorted(t, ys) && ToSet(xs) == ToSet(ys)
    ensures xs == ys
  {
    EmptyTogether(xs);
    EmptyTogether(ys);
    if xs != [] {
      assert xs[0] in ToSet(ys);
      assert ys[0] in ToSet(xs);
      HeadsAgree(t, xs, ys);
      SortedDistinct(t, xs);
      SortedDistinct(t, ys);
      assert ToSet(xs[1..]) == ToSet(xs) - {xs[0]};
      assert ToSet(ys[1..]) == ToSet(ys) - {ys[0]};
      SortedUnique(t, xs[1..], ys[1..]);
      assert xs == [xs[0]] + xs[1..] && ys == [ys[0]] + ys[1..];
    }
  }

  lemma HeadsAgree(t: Id, xs: seq<Addr>, ys: seq<Addr>)
    requires Sorted(t, xs) && Sorted(t, ys) && xs != [] && ys != [] && xs[0] in ys && ys[0] in xs
    ensures xs[0] == ys[0]
  {
    var i :| 0 <= i < |xs| && xs[i] == ys[0];
    var j :| 0 <= j < |ys| && ys[j] == xs[0];
    CloserTotal(t, xs[0].id, ys[0].id);
  }

  /**
   The reason a partial search suffices: if everything chosen is nearer than everything left out, and
   the choice is big enough or leaves nothing out, sorting the choice gives the nearest of all.
   */
  lemma ChosenNearest(t: Id, all: seq<Addr>, chosen: seq<Addr>, rest: seq<Addr>, num: int)
    requires DistinctIds(all) && DistinctIds(chosen) && DistinctIds(rest)
    requires ToSet(all) == ToSet(chosen) + ToSet(rest)
    requires forall a, b :: a in chosen && b in rest ==> Closer(t, a.id, b.id)
    requires num <= |chosen| || rest == []
    ensures Take(SortBy(t, all), num) == Take(SortBy(t, chosen), num)
  {
    hide SortBy;
    hide Closer;
    var c, r := SortBy(t, chosen), SortBy(t, rest);
    SortByElements(t, all);
    SortByElements(t, chosen);
    SortByElements(t, rest);
    SortBySorted(t, all);
    SortBySorted(t, chosen);
    SortBySorted(t, rest);
    forall a, b | a in c && b in r ensures Closer(t, a.id, b.id) {
      assert a in ToSet(c) && b in ToSet(r);
      assert a in ToSet(chosen) && b in ToSet(rest);
    }
    SortedConcat(t, c, r);
    assert ToSet(c + r) == ToSet(c) + ToSet(r);
    SortedUnique(t, SortBy(t, all), c + r);
    if rest == [] {
      assert c + r == c;
    }
  }

  lemma SortedConcat(t: Id, c: seq<Addr>, r: seq<Addr>)
    requires Sorted(t, c) && Sorted(t, r)
    requires forall a, b :: a in c && b in r ==> Closer(t, a.id, b.id)
    ensures Sorted(t, c + r)
  {
    hide Closer;
    var s := c + r;
    forall i, j | 0 <= i < j < |s| ensures Closer(t, s[i].id, s[j].id) {
      if i < |c| <= j {
        assert s[i] in c && s[j] in r;
      }
    }
  }

  // ---- being the nearest of a set, without sorting it ------------------------------------

  lemma {:induction false} SizeOfSet(xs: seq<Addr>)
    requires DistinctIds(xs)
    ensures |ToSet(xs)| == |xs|
  {
    if xs != [] {
      SizeOfSet(xs[1..]);
      assert ToSet(xs) == ToSet(xs[1..]) + {xs[0]};
      assert xs[0] !in xs[1..];
    }
  }

  /** `xs` is in order, comes from `all`, and leaves out only contacts farther than any of its own, and only for want of room. */
  ghost predicate IsNearest(t: Id, xs: seq<Addr>, all: seq<Addr>, num: nat) {
    && Sorted(t, xs) && |xs| <= num
    && (forall a :: a in xs ==> a in all)
    && (forall a, b :: a in xs && b in all && b !in xs ==> Closer(t, a.id, b.id))
    && (forall b :: b in all && b !in xs ==> |xs| == num)
  }

  function Others(all: seq<Addr>, xs: seq<Addr>): (r: seq<Addr>) {
    if all == [] then [] else (if all[0] in xs then [] else [all[0]]) + Others(all[1..], xs)
  }

  lemma {:induction false} OthersMembers(all: seq<Addr>, xs: seq<Addr>, a: Addr)
    ensures a in Others(all, xs) <==> a in all && a !in xs
  {
    if all != [] {
      OthersMembers(all[1..], xs, a);
    }
  }

  lemma {:induction false} OthersDistinct(all: seq<Addr>, xs: seq<Addr>)
    requires DistinctIds(all)
    ensures DistinctIds(Others(all, xs))
  {
    if all != [] {
      OthersDistinct(all[1..], xs);
      var rest := Others(all[1..], xs);
      forall a | a in rest ensures a.id != all[0].id {
        OthersMembers(all[1..], xs, a);
        var i :| 1 <= i < |all| && all[i] == a;
      }
    }
  }

  lemma NearestIsTake(t: Id, xs: seq<Addr>, all: seq<Addr>, num: nat)
    requires IsNearest(t, xs, all, num) && DistinctIds(all)
    ensures xs == Take(SortBy(t, all), num)
  {
    hide SortBy;
    hide Closer;
    var rest := Others(all, xs);
    forall a: Addr ensures a in rest <==> a in all && a !in xs {
      OthersMembers(all, xs, a);
    }
    hide Others;
    assert ToSet(all) == ToSet(xs) + ToSet(rest);
    OthersDistinct(all, xs);
    SortedDistinct(t, xs);
    if rest != [] {
      assert rest[0] in rest;
    }
    ChosenNearest(t, all, xs, rest, num);
    SortByElements(t, xs);
    SortBySorted(t, xs);
    SortedUnique(t, SortBy(t, xs), xs);
  }

  lemma TakeIsNearest(t: Id, all: seq<Addr>, num: nat)
    requires DistinctIds(all)
    ensures IsNearest(t, Take(SortBy(t, all), num), all, num)
  {
    hide SortBy;
    hide Closer;
    var s := SortBy(t, all);
    var xs := Take(s, num);
    SortByElements(t, all);
    SortBySorted(t, all);
    forall a | a in xs ensures a in all {
      assert a in ToSet(s);
    }
    forall a, b | a in xs && b in all && b !in xs ensures Closer(t, a.id, b.id) && |xs| == num {
      assert b in ToSet(s);
      var i :| 0 <= i < |xs| && xs[i] == a;
      var j :| 0 <= j < |s| && s[j] == b;
      assert xs == s[..|xs|];
      assert forall k :: 0 <= k < |xs| ==> s[k] == xs[k];
    }
    forall b | b in all && b !in xs ensures |xs| == num {
      assert b in ToSet(s);
    }
  }
}
