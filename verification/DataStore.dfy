/** The DHT's value store and the ownership rule for unique values. */
module DataStore {
  import opened Ids

  type Bytes = seq<int>

  datatype Slot = Slot(id: Id, key: Bytes)

  /** What is kept with a value; values are told apart by their bytes alone. */
  datatype Entry = Entry(src: Id, unique: bool, ttl: int, original: int, storedTime: int)

  datatype Sdata = Sdata(id: Id, key: Bytes, value: Bytes, entry: Entry)

  type Items = map<Bytes, Entry>
  type Stored = map<Slot, Items>

  function SlotOf(d: Sdata): Slot {
    Slot(d.id, d.key)
  }

  /** A unique value is alone under its key, and no key is kept without values. */
  ghost predicate ItemsOk(items: Items) {
    items != map[] && forall v :: v in items && items[v].unique ==> items.Keys == {v}
  }

  ghost predicate StoreOk(st: Stored) {
    forall s :: s in st ==> ItemsOk(st[s])
  }

  // ---- the operations on one key ----------------------------------------------------

  /** Whether a unique value holds the key. */
  predicate HeldUnique(items: Items) {
    exists v :: v in items && items[v].unique
  }

  /** Refreshing the same value of the same owner keeps everything but its times. */
  function Renew(e: Entry, d: Entry, original: int): Entry {
    e.(ttl := d.ttl, storedTime := d.storedTime, original := original)
  }

  /** What `add_sdata` makes of the values under a key that is present. */
  function AddTo(items: Items, d: Sdata, isOrigin: bool): (r: Items) {
    if d.entry.unique then
      if |items| > 1 then items
      else if forall v :: v in items ==> items[v].src == d.entry.src && items[v].unique then
        map[d.value := if d.value in items then Renew(items[d.value], d.entry, d.entry.original) else d.entry]
      else items
    else if HeldUnique(items) then items
    else if d.value !in items then items[d.value := d.entry]
    else if items[d.value].src != d.entry.src then items
    else items[d.value := Renew(items[d.value], d.entry, if isOrigin then d.entry.original else items[d.value].original)]
  }

  lemma AddToOk(items: Items, d: Sdata, isOrigin: bool)
    requires ItemsOk(items)
    ensures ItemsOk(AddTo(items, d, isOrigin))
  {
    var r := AddTo(items, d, isOrigin);
    assert r == items || d.value in r;
    if !d.entry.unique && !HeldUnique(items) {
      assert forall v :: v in items ==> !items[v].unique;
    }
  }

  function AddSdata(st: Stored, d: Sdata, isOrigin: bool): (r: Stored) {
    var s := SlotOf(d);
    if s !in st then st[s := map[d.value := d.entry]] else st[s := AddTo(st[s], d, isOrigin)]
  }

  /** Only the source of a value may erase it; a key left without values is dropped. */
  function EraseSdata(st: Stored, d: Sdata): (r: Stored)
    requires SlotOf(d) in st ==> d.value in st[SlotOf(d)]
  {
    var s := SlotOf(d);
    if s !in st || st[s][d.value].src != d.entry.src then st
    else if st[s] - {d.value} == map[] then st - {s}
    else st[s := st[s] - {d.value}]
  }

  predicate Expired(e: Entry, now: int) {
    now - e.storedTime > e.ttl
  }

  function LiveItems(items: Items, now: int): Items {
    map v | v in items && !Expired(items[v], now) :: items[v]
  }

  function Swept(st: Stored, now: int): (r: Stored) {
    map s | s in st && LiveItems(st[s], now) != map[] :: LiveItems(st[s], now)
  }

  // ---- every run keeps the rule ------------------------------------------------------

  datatype Op = Add(d: Sdata, isOrigin: bool) | Erase(d: Sdata) | Sweep(now: int)

  /** Erasing something that is not there is not allowed. */
  predicate Allowed(st: Stored, op: Op) {
    op.Erase? && SlotOf(op.d) in st ==> op.d.value in st[SlotOf(op.d)]
  }

  function Do(st: Stored, op: Op): Stored
    requires Allowed(st, op)
  {
    match op
    case Add(d, isOrigin) => AddSdata(st, d, isOrigin)
    case Erase(d) => EraseSdata(st, d)
    case Sweep(now) => Swept(st, now)
  }

  ghost predicate Run(states: seq<Stored>, ops: seq<Op>) {
    && |states| == |ops| + 1
    && (forall i :: 0 <= i < |ops| ==> Allowed(states[i], ops[i]) && states[i + 1] == Do(states[i], ops[i]))
  }

  lemma DoKeepsOk(st: Stored, op: Op)
    requires StoreOk(st) && Allowed(st, op)
    ensures StoreOk(Do(st, op))
  {
    match op
    case Add(d, isOrigin) =>
      if SlotOf(d) in st {
        AddToOk(st[SlotOf(d)], d, isOrigin);
      } else {
        assert d.value in map[d.value := d.entry];
      }
    case Erase(d) =>
    case Sweep(now) =>
  }

  /** From an empty store on, a key that holds a unique value never holds another. */
  lemma {:induction false} UniqueAlone(states: seq<Stored>, ops: seq<Op>, n: nat)
    requires Run(states, ops) && states[0] == map[] && n < |states|
    ensures StoreOk(states[n])
  {
    if n > 0 {
      UniqueAlone(states, ops, n - 1);
      DoKeepsOk(states[n - 1], ops[n - 1]);
    }
  }

  /** The key holds exactly this unique value. */
  ghost predicate Owned(st: Stored, s: Slot, v: Bytes, e: Entry) {
    s in st && st[s] == map[v := e] && e.unique
  }

  /** An operation that neither comes from the owner nor sweeps after the value's time. */
  predicate Foreign(op: Op, s: Slot, e: Entry) {
    match op
    case Add(d, _) => SlotOf(d) != s || d.entry.src != e.src
    case Erase(d) => SlotOf(d) != s || d.entry.src != e.src
    case Sweep(now) => !Expired(e, now)
  }

  lemma ForeignLeavesAlone(st: Stored, op: Op, s: Slot, v: Bytes, e: Entry)
    requires Owned(st, s, v, e) && Allowed(st, op) && Foreign(op, s, e)
    ensures Owned(Do(st, op), s, v, e)
  {
    assert v in st[s] && st[s][v] == e;
    match op
    case Add(d, isOrigin) =>
      if SlotOf(d) == s {
        assert HeldUnique(st[s]);
        assert AddTo(st[s], d, isOrigin) == st[s];
      }
    case Erase(d) =>
    case Sweep(now) =>
      assert LiveItems(st[s], now) == st[s];
  }

  /** Nobody but its source can replace or erase a unique value before it expires, whatever happens around it. */
  lemma {:induction false} OwnershipHolds(states: seq<Stored>, ops: seq<Op>, s: Slot, v: Bytes, e: Entry, n: nat)
    requires Run(states, ops) && Owned(states[0], s, v, e) && n < |states|
    requires forall i :: 0 <= i < |ops| ==> Foreign(ops[i], s, e)
    ensures Owned(states[n], s, v, e)
  {
    if n > 0 {
      OwnershipHolds(states, ops, s, v, e, n - 1);
      ForeignLeavesAlone(states[n - 1], ops[n - 1], s, v, e);
    }
  }

  /** The source itself replaces its value by a unique one, and may erase it. */
  lemma OwnerReplaces(st: Stored, d: Sdata, isOrigin: bool, s: Slot, v: Bytes, e: Entry)
    requires Owned(st, s, v, e) && SlotOf(d) == s && d.entry.src == e.src && d.entry.unique
    ensures v != d.value ==> Owned(AddSdata(st, d, isOrigin), s, d.value, d.entry)
    ensures v == d.value ==> s !in EraseSdata(st, d)
  {
    assert |st[s]| == 1;
  }

  // ---- value by value ----------------------------------------------------------------------

  datatype Found = Nothing | Kept(entry: Entry)

  /** What is stored of a value under a key. */
  function Find(st: Stored, s: Slot, v: Bytes): Found {
    if s in st && v in st[s] then Kept(st[s][v]) else Nothing
  }

  /**
   When a value offered is taken: under an absent key always; a unique one only in place of a unique one of the same
   source; another one unless the key is held by a unique value or the value by another source.
   */
  predicate Taken(st: Stored, d: Sdata) {
    var s := SlotOf(d);
    || s !in st
    || (d.entry.unique && forall v :: v in st[s] ==> st[s][v].unique && st[s][v].src == d.entry.src)
    || (!d.entry.unique && !HeldUnique(st[s]) && (d.value in st[s] ==> st[s][d.value].src == d.entry.src))
  }

  /** The entry a value has once taken: as offered, but a value renewed by others than its origin keeps its own `original`. */
  function Given(st: Stored, d: Sdata, isOrigin: bool): Entry {
    var was := Find(st, SlotOf(d), d.value);
    if was.Kept? && !d.entry.unique && !isOrigin then d.entry.(original := was.entry.original) else d.entry
  }

  lemma UniqueIsOne(items: Items, d: Sdata)
    requires ItemsOk(items) && forall v :: v in items ==> items[v].unique && items[v].src == d.entry.src
    ensures |items| == 1
  {
    var v :| v in items;
    assert items.Keys == {v};
    assert |items.Keys| == 1;
  }

  lemma NotUnique(items: Items, v: Bytes)
    requires !HeldUnique(items) && v in items
    ensures !items[v].unique
  {
  }

  /** An addition that is taken puts the value there with the times given, and takes away only the unique value it replaces. */
  lemma AddExact(st: Stored, d: Sdata, isOrigin: bool, s: Slot, v: Bytes)
    requires StoreOk(st)
    ensures Find(AddSdata(st, d, isOrigin), s, v) ==
            if !Taken(st, d) then Find(st, s, v)
            else if s == SlotOf(d) && v == d.value then Kept(Given(st, d, isOrigin))
            else if s == SlotOf(d) && d.entry.unique then Nothing
            else Find(st, s, v)
  {
    var t := SlotOf(d);
    if t in st {
      if d.entry.unique && Taken(st, d) {
        UniqueIsOne(st[t], d);
      } else if d.value in st[t] && !HeldUnique(st[t]) {
        NotUnique(st[t], d.value);
      }
    }
  }

  /** An erasure takes away the value it names if it comes from the value's source, and nothing else. */
  lemma EraseExact(st: Stored, d: Sdata, s: Slot, v: Bytes)
    requires SlotOf(d) in st ==> d.value in st[SlotOf(d)]
    ensures var was := Find(st, s, v);
            Find(EraseSdata(st, d), s, v) ==
            if s == SlotOf(d) && v == d.value && was.Kept? && was.entry.src == d.entry.src then Nothing else was
  {
    var t := SlotOf(d);
    assert t in st && v in st[t] && v != d.value ==> v in st[t] - {d.value};
  }

  /** A sweep leaves exactly the values whose time is not up. */
  lemma SweepExact(st: Stored, now: int, s: Slot, v: Bytes)
    ensures var was := Find(st, s, v);
            Find(Swept(st, now), s, v) == if was.Kept? && now - was.entry.storedTime <= was.entry.ttl then was else Nothing
  {
    if s in st && v in st[s] && !Expired(st[s][v], now) {
      assert v in LiveItems(st[s], now);
    }
  }

  /** An operation that may change a value: its source offers it again or a unique one in its place, its source erases it, its time is up. */
  predicate Touches(op: Op, s: Slot, v: Bytes, e: Entry) {
    match op
    case Add(d, _) => SlotOf(d) == s && d.entry.src == e.src && (d.value == v || (d.entry.unique && e.unique))
    case Erase(d) => SlotOf(d) == s && d.entry.src == e.src && d.value == v
    case Sweep(now) => now - e.storedTime > e.ttl
  }

  lemma UntouchedStays(st: Stored, op: Op, s: Slot, v: Bytes, e: Entry)
    requires StoreOk(st) && Allowed(st, op) && Find(st, s, v) == Kept(e) && !Touches(op, s, v, e)
    ensures Find(Do(st, op), s, v) == Kept(e)
  {
    match op
    case Add(d, isOrigin) => AddExact(st, d, isOrigin, s, v);
    case Erase(d) => EraseExact(st, d, s, v);
    case Sweep(now) => SweepExact(st, now, s, v);
  }

  /** In every run a stored value keeps its entry until its source or its time touches it. */
  lemma {:induction false} ValueStays(states: seq<Stored>, ops: seq<Op>, i: nat, n: nat, s: Slot, v: Bytes, e: Entry)
    requires Run(states, ops) && states[0] == map[] && i <= n < |states| && Find(states[i], s, v) == Kept(e)
    requires forall k :: i <= k < n ==> !Touches(ops[k], s, v, e)
    ensures Find(states[n], s, v) == Kept(e)
  {
    hide StoreOk;
    hide Touches;
    hide Do;
    hide Find;
    if n > i {
      ValueStays(states, ops, i, n - 1, s, v, e);
      UniqueAlone(states, ops, n - 1);
      UntouchedStays(states[n - 1], ops[n - 1], s, v, e);
    }
  }

  /** In every run a value offered and taken is there from then on, with the times given, until it is touched. */
  lemma TakenIsThere(states: seq<Stored>, ops: seq<Op>, i: nat, n: nat)
    requires Run(states, ops) && states[0] == map[] && i < n < |states| && ops[i].Add? && Taken(states[i], ops[i].d)
    requires var d := ops[i].d;
             forall k :: i < k < n ==> !Touches(ops[k], SlotOf(d), d.value, Given(states[i], d, ops[i].isOrigin))
    ensures var d := ops[i].d;
            Find(states[n], SlotOf(d), d.value) == Kept(Given(states[i], d, ops[i].isOrigin))
  {
    hide Taken;
    hide Given;
    hide Touches;
    hide StoreOk;
    var d := ops[i].d;
    UniqueAlone(states, ops, i);
    AddExact(states[i], d, ops[i].isOrigin, SlotOf(d), d.value);
    assert states[i + 1] == Do(states[i], ops[i]);
    hide AddSdata;
    hide Find;
    ValueStays(states, ops, i + 1, n, SlotOf(d), d.value, Given(states[i], d, ops[i].isOrigin));
  }

  /** In every run nothing whose time is up survives a sweep, and an erasure by its source takes a value away. */
  lemma GoneWhenDue(states: seq<Stored>, ops: seq<Op>, i: nat, s: Slot, v: Bytes)
    requires Run(states, ops) && i < |ops| && Find(states[i], s, v).Kept?
    ensures var e := Find(states[i], s, v).entry;
            && (ops[i].Sweep? && ops[i].now - e.storedTime > e.ttl ==> Find(states[i + 1], s, v) == Nothing)
            && (ops[i].Erase? && SlotOf(ops[i].d) == s && ops[i].d.value == v && ops[i].d.entry.src == e.src ==>
                  Find(states[i + 1], s, v) == Nothing)
  {
    assert Allowed(states[i], ops[i]) && states[i + 1] == Do(states[i], ops[i]);
    if ops[i].Sweep? {
      SweepExact(states[i], ops[i].now, s, v);
    } else if ops[i].Erase? {
      EraseExact(states[i], ops[i].d, s, v);
    }
  }

  // ---- in place --------------------------------------------------------------------------

  class Store {
    var stored: Stored

    constructor ()
      ensures stored == map[]
    {
      stored := map[];
    }

    method Add(d: Sdata, isOrigin: bool)
      requires StoreOk(stored)
      modifies this
      ensures StoreOk(stored) && stored == AddSdata(old(stored), d, isOrigin)
    {
      DoKeepsOk(stored, Op.Add(d, isOrigin));
      var s := SlotOf(d);
      if s !in stored {
        stored := stored[s := map[d.value := d.entry]];
      } else {
        var items := Merge(stored[s], d, isOrigin);
        stored := stored[s := items];
      }
    }

    /** The values under a key that is present, once `d` has been offered. */
    method Merge(was: Items, d: Sdata, isOrigin: bool) returns (items: Items)
      requires ItemsOk(was)
      ensures items == AddTo(was, d, isOrigin)
    {
      items := was;
      if |items| == 1 {
        var v :| v in items;
        OneItem(items, v);
        var e := items[v];
        if d.entry.unique {
          if e.src == d.entry.src && e.unique {
            if v == d.value {
              items := map[v := Renew(e, d.entry, d.entry.original)];
            } else {
              items := map[d.value := d.entry];
            }
          }
          return;
        }
        if e.unique {
          return;
        }
      } else {
        ManyItems(items);
        if d.entry.unique {
          return;
        }
      }
      if d.value !in items {
        items := items[d.value := d.entry];
      } else if items[d.value].src == d.entry.src {
        var original := if isOrigin then d.entry.original else items[d.value].original;
        items := items[d.value := Renew(items[d.value], d.entry, original)];
      }
    }

    method Erase(d: Sdata)
      requires StoreOk(stored) && (SlotOf(d) in stored ==> d.value in stored[SlotOf(d)])
      modifies this
      ensures StoreOk(stored) && stored == EraseSdata(old(stored), d)
    {
      DoKeepsOk(stored, Op.Erase(d));
      var s := SlotOf(d);
      if s !in stored || stored[s][d.value].src != d.entry.src {
        return;
      }
      var items := stored[s] - {d.value};
      stored := if items == map[] then stored - {s} else stored[s := items];
    }

    /** The sweep: expired values go, keys left without values go too. */
    method Refresh(now: int)
      requires StoreOk(stored)
      modifies this
      ensures StoreOk(stored) && stored == Swept(old(stored), now)
    {
      hide PartSwept;
      hide Swept;
      hide StoreOk;
      var todo := stored.Keys;
      ghost var st := stored;
      SweepStart(st, now);
      while todo != {}
        invariant PartSwept(st, stored, todo, now)
        decreases |todo|
      {
        var s :| s in todo;
        SweepOne(st, stored, todo, now, s);
        var items := LiveItems(stored[s], now);
        stored := if items == map[] then stored - {s} else stored[s := items];
        todo := todo - {s};
      }
      SweepEnd(st, stored, now);
    }
  }

  /** Keys in `todo` are untouched, the others are as the sweep leaves them. */
  ghost predicate PartSwept(st: Stored, cur: Stored, todo: set<Slot>, now: int) {
    && (forall s :: s in todo ==> s in st && s in cur && cur[s] == st[s])
    && (forall s :: s !in todo ==> (s in cur <==> s in Swept(st, now)))
    && (forall s :: s !in todo && s in cur ==> cur[s] == Swept(st, now)[s])
  }

  lemma SweepStart(st: Stored, now: int)
    ensures PartSwept(st, st, st.Keys, now)
  {
  }

  lemma SweepEnd(st: Stored, cur: Stored, now: int)
    requires PartSwept(st, cur, {}, now)
    ensures cur == Swept(st, now) && (StoreOk(st) ==> StoreOk(cur))
  {
    hide StoreOk;
    assert cur.Keys == Swept(st, now).Keys;
    if StoreOk(st) {
      DoKeepsOk(st, Sweep(now));
    }
  }

  lemma SweepOne(st: Stored, cur: Stored, todo: set<Slot>, now: int, s: Slot)
    requires PartSwept(st, cur, todo, now) && s in todo
    ensures s in cur
    ensures var items := LiveItems(cur[s], now);
            PartSwept(st, if items == map[] then cur - {s} else cur[s := items], todo - {s}, now)
  {
  }

  lemma OneItem(items: Items, v: Bytes)
    requires |items| == 1 && v in items
    ensures items.Keys == {v} && items == map[v := items[v]]
  {
    assert items.Keys == {v} + (items.Keys - {v});
  }

  lemma ManyItems(items: Items)
    requires ItemsOk(items) && |items| != 1
    ensures |items| > 1 && !HeldUnique(items)
  {
    assert |items| != 0;
    forall v | v in items ensures !items[v].unique {
      assert items[v].unique ==> |items.Keys| == 1;
    }
  }
}
