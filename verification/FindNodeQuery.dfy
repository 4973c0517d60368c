/**
 The iterative find-node query of the DHT.

 A query is a value `Q`, and `After` says what a reply or a timeout makes of it; the theorems are about
 every run of such events.  The class at the end is the query record updated in place.
 */
module FindNodeQuery {
  import opened Ids
  import opened Nearest
  import opened Merging
  import Table = RoutingTable

  const MAX_QUERY: int := 6
  const NUM_FIND_NODE: int := 10

  /** The identifier a query started through a bare address goes by until its node answers. */
  function Zero(): Id {
    seq(160, _ => false)
  }

  datatype Q = Q(
    self: Id, dst: Id,
    boot: bool,               // started through a bare address: one question went to an unknown node
    nodes: seq<Addr>,         // the nearest contacts known so far
    sent: set<Id>,            // not to be asked: asked already, answered already, or the owner
    timers: set<Id>,          // asked, and the answer is awaited
    numQuery: int,
    live: bool,               // still registered under its nonce
    asked: seq<Id>,           // every question to a known contact, in order
    answers: seq<seq<Addr>>)  // every call of the user's callback

  // ---- what one event does -------------------------------------------------------------

  function Ask(q: Q, id: Id): Q {
    q.(timers := q.timers + {id}, sent := q.sent + {id}, asked := q.asked + [id], numQuery := q.numQuery + 1)
  }

  /** Ask candidates in distance order from position `k` on, until six questions are out. */
  function AskFrom(q: Q, k: nat): (r: Q)
    ensures r == q.(timers := r.timers, sent := r.sent, asked := r.asked, numQuery := r.numQuery)
    decreases |q.nodes| - k
  {
    if k >= |q.nodes| || q.numQuery >= MAX_QUERY then q
    else AskFrom(if q.nodes[k].id in q.sent then q else Ask(q, q.nodes[k].id), k + 1)
  }

  lemma AskFromOnce(q: Q, k: nat)
    ensures AskFrom(q, k) ==
            if k >= |q.nodes| || q.numQuery >= MAX_QUERY then q
            else AskFrom(if q.nodes[k].id in q.sent then q else Ask(q, q.nodes[k].id), k + 1)
  {
  }

  function Finish(q: Q): Q {
    q.(answers := q.answers + [q.nodes], live := false, timers := {})
  }

  /** With nothing out after asking, the user gets the list and the query is over. */
  function AskOrFinish(q: Q): Q {
    var r := AskFrom(q, 0);
    if r.numQuery == 0 then Finish(r) else r
  }

  /** A query towards `dst`, starting from what the routing table knows. */
  function TableStart(self: Id, dst: Id, nodes: seq<Addr>): Q {
    var q := Q(self, dst, false, nodes, {self}, {}, 0, true, [], []);
    if nodes == [] then Finish(q) else AskOrFinish(q)
  }

  /** A query for the own neighbourhood through a bare address, tracked under identifier zero. */
  function BareStart(self: Id): Q {
    Q(self, self, true, [], {self}, {Zero()}, 1, true, [], [])
  }

  /** Drop the contacts with identifier `id`. */
  function Without(xs: seq<Addr>, id: Id): (r: seq<Addr>) {
    if xs == [] then []
    else (if xs[0].id == id then [] else [xs[0]]) + Without(xs[1..], id)
  }

  /**
   A reply carries its contacts in the order `std::sort` leaves them.  `headerOk`: nonce, destination and
   target match; `lengthOk`: the message is of a known address family and has the length its contact count announces.
   */
  datatype Event = Reply(from: Addr, contacts: seq<Addr>, headerOk: bool, lengthOk: bool) | Expires(id: Id)

  /** Which outstanding question a reply from `from` settles, if any. */
  function Settles(q: Q, from: Id): (r: set<Id>)
    ensures r <= q.timers && |r| <= 1
  {
    if from in q.timers then {from} else if Zero() in q.timers then {Zero()} else {}
  }

  /** Whether an event stops a timer. */
  predicate Settling(q: Q, e: Event) {
    e.Expires? || (q.live && e.headerOk && Settles(q, e.from.id) != {})
  }

  /** An accepted reply of the wrong length: its timer is stopped, but the counter is not lowered. */
  predicate Leaky(q: Q, e: Event) {
    e.Reply? && Settling(q, e) && !e.lengthOk
  }

  predicate Informs(q: Q, e: Event) {
    e.Reply? && Settling(q, e) && e.lengthOk
  }

  /** Only a timer that is set can fire. */
  ghost predicate Allowed(q: Q, e: Event) {
    (e.Expires? ==> e.id in q.timers) && (e.Reply? ==> WeaklySorted(q.dst, e.contacts))
  }

  function AfterReply(q: Q, from: Addr, contacts: seq<Addr>): Q {
    AskOrFinish(q.(timers := q.timers - Settles(q, from.id), sent := q.sent + {from.id}, numQuery := q.numQuery - 1,
                nodes := Merge(q.dst, q.nodes, contacts, NUM_FIND_NODE)))
  }

  function AfterTimeout(q: Q, id: Id): Q {
    AskOrFinish(q.(timers := q.timers - {id}, sent := q.sent + {id}, numQuery := q.numQuery - 1,
                nodes := if id == Zero() then q.nodes else Without(q.nodes, id)))
  }

  function After(q: Q, e: Event): Q {
    if !Settling(q, e) then q
    else match e
      case Expires(id) => AfterTimeout(q, id)
      case Reply(from, contacts, _, lengthOk) =>
        if lengthOk then AfterReply(q, from, contacts) else q.(timers := q.timers - Settles(q, from.id))
  }

  // ---- the invariant ---------------------------------------------------------------------

  ghost predicate Distinct(xs: seq<Id>) {
    forall i, j :: 0 <= i < j < |xs| ==> xs[i] != xs[j]
  }

  function Members(xs: seq<Id>): set<Id> {
    set x | x in xs
  }

  function Probes(q: Q): nat {
    if q.boot then 1 else 0
  }

  /** The only question out is the one to the unknown node. */
  predicate Probing(q: Q) {
    q.boot && q.asked == [] && q.nodes == [] && q.timers == {Zero()}
  }

  ghost predicate Tallied(q: Q, leaks: nat, settled: nat) {
    q.numQuery == |q.timers| + leaks && q.numQuery <= MAX_QUERY && settled + |q.timers| == |q.asked| + Probes(q)
  }

  ghost predicate Orderly(q: Q) {
    && Distinct(q.asked) && Members(q.asked) <= q.sent && q.self in q.sent
    && Sorted(q.dst, q.nodes) && |q.nodes| <= NUM_FIND_NODE
  }

  /** Between an event and the asking that follows it. */
  ghost predicate Between(q: Q, leaks: nat, settled: nat) {
    Tallied(q, leaks, settled) && Orderly(q) && q.live && q.answers == [] && q.timers <= q.sent
  }

  /** In flight: something is out, and no candidate waits unless six questions are.  Over: answered once, nothing out. */
  ghost predicate Ok(q: Q, leaks: nat, settled: nat) {
    && Tallied(q, leaks, settled) && Orderly(q) && (q.timers <= q.sent || Probing(q))
    && (if q.live then q.numQuery > 0 && q.answers == [] && (q.numQuery == MAX_QUERY || IdsOf(q.nodes) <= q.sent)
        else q.numQuery == 0 && q.timers == {} && q.answers == [q.nodes] && IdsOf(q.nodes) <= q.sent)
  }

  lemma NewQuestion(asked: seq<Id>, id: Id, sent: set<Id>)
    requires Distinct(asked) && Members(asked) <= sent && id !in sent
    ensures Distinct(asked + [id]) && Members(asked + [id]) <= sent + {id}
  {
    forall k | 0 <= k < |asked| ensures asked[k] != id {
      assert asked[k] in Members(asked);
    }
  }

  lemma AskKeeps(q: Q, leaks: nat, settled: nat, id: Id)
    requires Between(q, leaks, settled) && id !in q.sent && q.numQuery < MAX_QUERY
    ensures Between(Ask(q, id), leaks, settled)
  {
    hide Sorted;
    hide Distinct;
    hide Members;
    NewQuestion(q.asked, id, q.sent);
  }

  lemma {:induction false} AskFromKeeps(q: Q, leaks: nat, settled: nat, k: nat)
    requires Between(q, leaks, settled) && forall i :: 0 <= i < k && i < |q.nodes| ==> q.nodes[i].id in q.sent
    ensures var r := AskFrom(q, k);
            Between(r, leaks, settled) && q.sent <= r.sent && (r.numQuery == MAX_QUERY || IdsOf(r.nodes) <= r.sent)
    decreases |q.nodes| - k
  {
    hide Orderly;
    hide Tallied;
    if k < |q.nodes| && q.numQuery < MAX_QUERY {
      var id := q.nodes[k].id;
      if id in q.sent {
        AskFromKeeps(q, leaks, settled, k + 1);
      } else {
        AskKeeps(q, leaks, settled, id);
        AskFromKeeps(Ask(q, id), leaks, settled, k + 1);
      }
    } else {
      AtMostSix(q, leaks, settled);
    }
  }

  lemma AtMostSix(q: Q, leaks: nat, settled: nat)
    requires Tallied(q, leaks, settled)
    ensures q.numQuery <= MAX_QUERY
  {
  }

  lemma AskOrFinishKeeps(q: Q, leaks: nat, settled: nat)
    requires Between(q, leaks, settled)
    ensures Ok(AskOrFinish(q), leaks, settled)
  {
    AskFromKeeps(q, leaks, settled, 0);
    hide AskFrom;
    hide Sorted;
    hide Distinct;
    hide Members;
    hide IdsOf;
  }

  lemma {:induction false} WithoutOrdered(t: Id, xs: seq<Addr>, id: Id)
    requires Sorted(t, xs)
    ensures Sorted(t, Without(xs, id)) && |Without(xs, id)| <= |xs|
    ensures forall a :: a in Without(xs, id) <==> a in xs && a.id != id
  {
    if xs != [] {
      WithoutOrdered(t, xs[1..], id);
      var rest := Without(xs[1..], id);
      forall k | 0 <= k < |rest| ensures Closer(t, xs[0].id, rest[k].id) {
        assert rest[k] in xs[1..];
      }
    }
  }

  lemma {:induction false} WithoutSnoc(xs: seq<Addr>, k: nat, id: Id)
    requires k <= |xs|
    ensures k == 0 ==> Without(xs[..k], id) == []
    ensures k < |xs| ==> Without(xs[..k + 1], id) == Without(xs[..k], id) + if xs[k].id == id then [] else [xs[k]]
  {
    if 0 < k < |xs| {
      assert xs[..k][1..] == xs[1..][..k - 1] && xs[..k + 1][1..] == xs[1..][..k];
      WithoutSnoc(xs[1..], k - 1, id);
    } else if k < |xs| {
      assert xs[..1][1..] == [];
    }
  }

  lemma SortedIsWeak(t: Id, xs: seq<Addr>)
    requires Sorted(t, xs)
    ensures WeaklySorted(t, xs)
  {
    forall i, j | 0 <= i < j < |xs| ensures !Closer(t, xs[j].id, xs[i].id) {
      CloserTotal(t, xs[i].id, xs[j].id);
    }
  }

  lemma OneFewer(settled: set<Id>, timers: set<Id>)
    requires settled <= timers && settled != {} && |settled| <= 1
    ensures |timers - settled| == |timers| - 1
  {
    var x :| x in settled;
    assert settled == {x} + (settled - {x});
    assert timers == (timers - settled) + settled;
  }

  /** Stopping the timer of one question. */
  lemma TimerStopped(q: Q, leaks: nat, settled: nat, s: set<Id>)
    requires Ok(q, leaks, settled) && s <= q.timers && s != {} && |s| <= 1
    ensures |q.timers - s| == |q.timers| - 1 && q.live && q.answers == [] && q.timers - s <= q.sent
  {
    OneFewer(s, q.timers);
    if Probing(q) {
      assert q.timers - s == {} by { assert |q.timers| == 1; }
    }
  }

  /** One question settled by or for `id`, and another list of candidates. */
  lemma QuestionSettled(q: Q, leaks: nat, settled: nat, s: set<Id>, id: Id, nodes: seq<Addr>)
    requires Ok(q, leaks, settled) && s <= q.timers && s != {} && |s| <= 1
    requires Sorted(q.dst, nodes) && |nodes| <= NUM_FIND_NODE
    ensures Between(q.(timers := q.timers - s, sent := q.sent + {id}, numQuery := q.numQuery - 1, nodes := nodes), leaks, settled + 1)
  {
    hide Sorted;
    hide Distinct;
    hide Members;
    hide IdsOf;
    hide Probing;
    TimerStopped(q, leaks, settled, s);
  }

  lemma ReplyKeeps(q: Q, leaks: nat, settled: nat, from: Addr, contacts: seq<Addr>)
    requires Ok(q, leaks, settled) && q.live && Settles(q, from.id) != {} && WeaklySorted(q.dst, contacts)
    ensures Ok(AfterReply(q, from, contacts), leaks, settled + 1)
  {
    SortedIsWeak(q.dst, q.nodes);
    MergeGood(q.dst, q.nodes, contacts, NUM_FIND_NODE);
    QuestionSettled(q, leaks, settled, Settles(q, from.id), from.id, Merge(q.dst, q.nodes, contacts, NUM_FIND_NODE));
    hide Ok;
    hide Between;
    hide AskOrFinish;
    hide Settles;
    AskOrFinishKeeps(q.(timers := q.timers - Settles(q, from.id), sent := q.sent + {from.id}, numQuery := q.numQuery - 1,
                     nodes := Merge(q.dst, q.nodes, contacts, NUM_FIND_NODE)), leaks, settled + 1);
  }

  lemma CandidatesSorted(q: Q, leaks: nat, settled: nat)
    requires Ok(q, leaks, settled)
    ensures Sorted(q.dst, q.nodes) && |q.nodes| <= NUM_FIND_NODE
  {
  }

  lemma TimeoutKeeps(q: Q, leaks: nat, settled: nat, id: Id)
    requires Ok(q, leaks, settled) && id in q.timers
    ensures Ok(AfterTimeout(q, id), leaks, settled + 1)
  {
    hide Ok;
    hide Between;
    hide AskOrFinish;
    hide Without;
    hide Sorted;
    CandidatesSorted(q, leaks, settled);
    WithoutOrdered(q.dst, q.nodes, id);
    QuestionSettled(q, leaks, settled, {id}, id, if id == Zero() then q.nodes else Without(q.nodes, id));
    AskOrFinishKeeps(q.(timers := q.timers - {id}, sent := q.sent + {id}, numQuery := q.numQuery - 1,
                     nodes := if id == Zero() then q.nodes else Without(q.nodes, id)), leaks, settled + 1);
  }

  lemma LeakKeeps(q: Q, leaks: nat, settled: nat, from: Id)
    requires Ok(q, leaks, settled) && Settles(q, from) != {}
    ensures Ok(q.(timers := q.timers - Settles(q, from)), leaks + 1, settled + 1)
  {
    TimerStopped(q, leaks, settled, Settles(q, from));
  }

  lemma AfterKeeps(q: Q, leaks: nat, settled: nat, e: Event)
    requires Ok(q, leaks, settled) && Allowed(q, e)
    ensures Ok(After(q, e), leaks + (if Leaky(q, e) then 1 else 0), settled + (if Settling(q, e) then 1 else 0))
  {
    hide Ok;
    hide AfterReply;
    hide AfterTimeout;
    if Settling(q, e) {
      match e
      case Expires(id) => TimeoutKeeps(q, leaks, settled, id);
      case Reply(from, contacts, _, lengthOk) =>
        if lengthOk {
          ReplyKeeps(q, leaks, settled, from, contacts);
        } else {
          LeakKeeps(q, leaks, settled, from.id);
        }
    }
  }

  lemma StartsOk(self: Id, dst: Id, nodes: seq<Addr>)
    requires Sorted(dst, nodes) && |nodes| <= NUM_FIND_NODE
    ensures Ok(TableStart(self, dst, nodes), 0, 0) && TableStart(self, dst, nodes).nodes == nodes
    ensures Ok(BareStart(self), 0, 0)
  {
    var q := Q(self, dst, false, nodes, {self}, {}, 0, true, [], []);
    assert Between(q, 0, 0);
    if nodes != [] {
      AskOrFinishKeeps(q, 0, 0);
    }
    assert |{Zero()}| == 1;
  }

  // ---- every run ----------------------------------------------------------------------------

  ghost predicate IsStart(q: Q) {
    || q == BareStart(q.self)
    || (Sorted(q.dst, q.nodes) && |q.nodes| <= NUM_FIND_NODE && q == TableStart(q.self, q.dst, q.nodes))
  }

  ghost predicate Run(states: seq<Q>, events: seq<Event>) {
    && |states| == |events| + 1 && IsStart(states[0])
    && (forall i :: 0 <= i < |events| ==> Allowed(states[i], events[i]) && states[i + 1] == After(states[i], events[i]))
  }

  /** How many of the first `n` events stopped a timer. */
  ghost function Settled(states: seq<Q>, events: seq<Event>, n: nat): nat
    requires n <= |events| < |states|
  {
    if n == 0 then 0 else Settled(states, events, n - 1) + if Settling(states[n - 1], events[n - 1]) then 1 else 0
  }

  /** How many of them did so without lowering the counter. */
  ghost function Leaks(states: seq<Q>, events: seq<Event>, n: nat): nat
    requires n <= |events| < |states|
  {
    if n == 0 then 0 else Leaks(states, events, n - 1) + if Leaky(states[n - 1], events[n - 1]) then 1 else 0
  }

  lemma {:induction false} RunOk(states: seq<Q>, events: seq<Event>, n: nat)
    requires Run(states, events) && n < |states|
    ensures Ok(states[n], Leaks(states, events, n), Settled(states, events, n))
  {
    hide Ok;
    hide After;
    if n == 0 {
      var q := states[0];
      if q == BareStart(q.self) {
        StartsOk(q.self, q.self, []);
      } else {
        StartsOk(q.self, q.dst, q.nodes);
      }
    } else {
      RunOk(states, events, n - 1);
      AfterKeeps(states[n - 1], Leaks(states, events, n - 1), Settled(states, events, n - 1), events[n - 1]);
    }
  }

  lemma {:induction false} NoLeaks(states: seq<Q>, events: seq<Event>, n: nat)
    requires n <= |events| < |states|
    ensures Leaks(states, events, n) == 0 <==> forall j :: 0 <= j < n ==> !Leaky(states[j], events[j])
  {
    if n > 0 {
      NoLeaks(states, events, n - 1);
    }
  }

  /**
   The counter is the number of questions out exactly as long as no reply of the wrong length has been accepted;
   after one the query never ends and its user never hears from it.
   */
  lemma CounterExact(states: seq<Q>, events: seq<Event>, n: nat)
    requires Run(states, events) && n < |states|
    ensures states[n].numQuery == |states[n].timers| <==> forall j :: 0 <= j < n ==> !Leaky(states[j], events[j])
    ensures forall j :: 0 <= j < n && Leaky(states[j], events[j]) ==> states[n].live && states[n].answers == []
  {
    RunOk(states, events, n);
    NoLeaks(states, events, n);
  }

  /**
   The callback fires at most once, and at the moment the counter reaches zero: until then the query is live and
   silent, from then on it is over, nothing is out, and every contact reported was asked or has answered.
   */
  lemma OneAnswer(states: seq<Q>, events: seq<Event>, n: nat)
    requires Run(states, events) && n < |states|
    ensures var q := states[n];
            && (q.live <==> q.numQuery > 0) && (q.live <==> q.answers == []) && |q.answers| <= 1
            && (!q.live ==> q.timers == {} && q.answers == [q.nodes] && IdsOf(q.nodes) <= q.sent)
            && ((forall j :: 0 <= j < n ==> !Leaky(states[j], events[j])) ==> (q.live <==> q.timers != {}))
  {
    RunOk(states, events, n);
    NoLeaks(states, events, n);
  }

  lemma OverIgnores(q: Q, leaks: nat, settled: nat, e: Event)
    requires Ok(q, leaks, settled) && !q.live && Allowed(q, e)
    ensures After(q, e) == q
  {
  }

  /** Once over, a query changes no more: no event is accepted. */
  lemma {:induction false} OverForGood(states: seq<Q>, events: seq<Event>, i: nat, n: nat)
    requires Run(states, events) && i <= n < |states| && !states[i].live
    ensures states[n] == states[i]
  {
    hide Ok;
    hide After;
    hide Allowed;
    if n > i {
      OverForGood(states, events, i, n - 1);
      RunOk(states, events, n - 1);
      OverIgnores(states[n - 1], Leaks(states, events, n - 1), Settled(states, events, n - 1), events[n - 1]);
    }
  }

  /** Every question is settled once or still out; at most six are out; nobody is asked twice, the owner never. */
  lemma QuestionsConserved(states: seq<Q>, events: seq<Event>, n: nat)
    requires Run(states, events) && n < |states|
    ensures Settled(states, events, n) + |states[n].timers| == |states[n].asked| + Probes(states[n])
    ensures |states[n].timers| <= MAX_QUERY && Distinct(states[n].asked)
    ensures states[n].self !in states[n].asked
  {
    RunOk(states, events, n);
    OwnerNotAsked(states, events, n);
  }

  lemma {:induction false} OwnerNotAsked(states: seq<Q>, events: seq<Event>, n: nat)
    requires Run(states, events) && n < |states|
    ensures states[n].self == states[0].self && states[n].self !in states[n].asked
  {
    if n == 0 {
      var q := states[0];
      if q != BareStart(q.self) {
        AskFromSkips(Q(q.self, q.dst, false, q.nodes, {q.self}, {}, 0, true, [], []), 0);
      }
    } else {
      OwnerNotAsked(states, events, n - 1);
      RunOk(states, events, n - 1);
      OwnerNotAskedNext(states[n - 1], events[n - 1]);
    }
  }

  lemma OwnerNotAskedNext(q: Q, e: Event)
    requires q.self in q.sent && q.self !in q.asked
    ensures After(q, e).self == q.self && q.self !in After(q, e).asked
  {
    if Settling(q, e) {
      match e
      case Expires(id) =>
        AskFromSkips(q.(timers := q.timers - {id}, sent := q.sent + {id}, numQuery := q.numQuery - 1,
                        nodes := if id == Zero() then q.nodes else Without(q.nodes, id)), 0);
      case Reply(from, contacts, _, lengthOk) =>
        AskFromSkips(q.(timers := q.timers - Settles(q, from.id), sent := q.sent + {from.id}, numQuery := q.numQuery - 1,
                        nodes := Merge(q.dst, q.nodes, contacts, NUM_FIND_NODE)), 0);
    }
  }

  lemma {:induction false} AskFromSkips(q: Q, k: nat)
    requires q.self in q.sent && q.self !in q.asked
    ensures q.self !in AskFrom(q, k).asked
    decreases |q.nodes| - k
  {
    if k < |q.nodes| && q.numQuery < MAX_QUERY {
      AskFromSkips(if q.nodes[k].id in q.sent then q else Ask(q, q.nodes[k].id), k + 1);
    }
  }

  // ---- what has been heard ----------------------------------------------------------------------

  /** Every contact heard of so far beside those in `base`, by the address it was first heard under. */
  ghost function Known(base: seq<Addr>, states: seq<Q>, events: seq<Event>, n: nat): seq<Addr>
    requires n <= |events| < |states|
  {
    if n == 0 then base
    else
      var known := Known(base, states, events, n - 1);
      if Informs(states[n - 1], events[n - 1]) then known + Unknown(events[n - 1].contacts, known) else known
  }

  /** Candidates and questions come from what has been heard. */
  ghost predicate Sourced(q: Q, ids: set<Id>) {
    IdsOf(q.nodes) <= ids && Members(q.asked) <= ids
  }

  lemma {:induction false} AskFromSourced(q: Q, k: nat, ids: set<Id>)
    requires Sourced(q, ids)
    ensures Sourced(AskFrom(q, k), ids)
    decreases |q.nodes| - k
  {
    if k < |q.nodes| && q.numQuery < MAX_QUERY {
      var id := q.nodes[k].id;
      assert id in IdsOf(q.nodes);
      assert Members(q.asked + [id]) == Members(q.asked) + {id};
      AskFromSourced(if id in q.sent then q else Ask(q, id), k + 1, ids);
    }
  }

  lemma AskOrFinishSourced(q: Q, ids: set<Id>)
    requires Sourced(q, ids)
    ensures Sourced(AskOrFinish(q), ids)
  {
    AskFromSourced(q, 0, ids);
  }

  lemma KnownIds(known: seq<Addr>, contacts: seq<Addr>)
    ensures IdsOf(known + Unknown(contacts, known)) == IdsOf(known) + IdsOf(contacts)
  {
    var all := known + Unknown(contacts, known);
    forall x | x in IdsOf(contacts) ensures x in IdsOf(all) {
      var a :| a in contacts && a.id == x;
      UnknownMembers(contacts, known, a);
      if a.id in IdsOf(known) {
        var b :| b in known && b.id == x;
        assert b in all;
      } else {
        assert a in all;
      }
    }
    forall a | a in all ensures a in known || a in contacts {
      UnknownMembers(contacts, known, a);
    }
    forall a | a in known ensures a in all {
    }
  }

  lemma MergeSourced(q: Q, contacts: seq<Addr>, known: seq<Addr>)
    requires IdsOf(q.nodes) <= IdsOf(known)
    ensures IdsOf(Merge(q.dst, q.nodes, contacts, NUM_FIND_NODE)) <= IdsOf(known) + IdsOf(contacts)
  {
    var m := Merge(q.dst, q.nodes, contacts, NUM_FIND_NODE);
    MergeGood(q.dst, q.nodes, contacts, NUM_FIND_NODE);
    forall x | x in IdsOf(m) ensures x in IdsOf(known) + IdsOf(contacts) {
      var a :| a in m && a.id == x;
      assert a in q.nodes || a in contacts;
      assert a in q.nodes ==> x in IdsOf(q.nodes);
    }
  }

  lemma {:induction false} RunSourced(states: seq<Q>, events: seq<Event>, n: nat)
    requires Run(states, events) && n < |states|
    ensures Sourced(states[n], IdsOf(Known(states[0].nodes, states, events, n)))
  {
    if n == 0 {
      StartSourced(states[0]);
    } else {
      RunSourced(states, events, n - 1);
      RunOk(states, events, n - 1);
      NextSourced(states[n - 1], events[n - 1], Known(states[0].nodes, states, events, n - 1));
    }
  }

  lemma StartSourced(q: Q)
    requires IsStart(q)
    ensures Sourced(q, IdsOf(q.nodes))
  {
    if q != BareStart(q.self) && q.nodes != [] {
      var q0 := Q(q.self, q.dst, false, q.nodes, {q.self}, {}, 0, true, [], []);
      assert Sourced(q0, IdsOf(q.nodes));
      AskOrFinishSourced(q0, IdsOf(q.nodes));
    }
  }

  lemma TimeoutSourced(q: Q, id: Id, ids: set<Id>)
    requires Sourced(q, ids) && Sorted(q.dst, q.nodes)
    ensures Sourced(AfterTimeout(q, id), ids)
  {
    WithoutOrdered(q.dst, q.nodes, id);
    hide Sorted;
    hide AskOrFinish;
    AskOrFinishSourced(q.(timers := q.timers - {id}, sent := q.sent + {id}, numQuery := q.numQuery - 1,
                          nodes := if id == Zero() then q.nodes else Without(q.nodes, id)), ids);
  }

  lemma ReplySourced(q: Q, from: Addr, contacts: seq<Addr>, known: seq<Addr>)
    requires Sourced(q, IdsOf(known))
    ensures Sourced(AfterReply(q, from, contacts), IdsOf(known + Unknown(contacts, known)))
  {
    hide AskOrFinish;
    hide IdsOf;
    hide Settles;
    KnownIds(known, contacts);
    MergeSourced(q, contacts, known);
    AskOrFinishSourced(q.(timers := q.timers - Settles(q, from.id), sent := q.sent + {from.id}, numQuery := q.numQuery - 1,
                          nodes := Merge(q.dst, q.nodes, contacts, NUM_FIND_NODE)), IdsOf(known) + IdsOf(contacts));
  }

  lemma NextSourced(q: Q, e: Event, known: seq<Addr>)
    requires Sourced(q, IdsOf(known)) && Sorted(q.dst, q.nodes)
    ensures Sourced(After(q, e), IdsOf(if Informs(q, e) then known + Unknown(e.contacts, known) else known))
  {
    hide Sorted;
    hide IdsOf;
    hide AfterReply;
    hide AfterTimeout;
    if Settling(q, e) {
      match e
      case Expires(id) => TimeoutSourced(q, id, IdsOf(known));
      case Reply(from, contacts, _, lengthOk) => ReplySourced(q, from, contacts, known);
    }
  }

  lemma {:induction false} DistinctSize(xs: seq<Id>)
    requires Distinct(xs)
    ensures |Members(xs)| == |xs|
  {
    if xs != [] {
      DistinctSize(xs[1..]);
      assert Members(xs) == Members(xs[1..]) + {xs[0]};
      assert xs[0] !in xs[1..];
    }
  }

  lemma SubsetSize(a: set<Id>, b: set<Id>)
    requires a <= b
    ensures |a| <= |b|
  {
    assert b == a + (b - a);
  }

  /** However the run goes, a query asks no more nodes than it has heard of. */
  lemma QuestionsBounded(states: seq<Q>, events: seq<Event>, n: nat)
    requires Run(states, events) && n < |states|
    ensures |states[n].asked| <= |IdsOf(Known(states[0].nodes, states, events, n))|
  {
    RunOk(states, events, n);
    RunSourced(states, events, n);
    DistinctSize(states[n].asked);
    SubsetSize(Members(states[n].asked), IdsOf(Known(states[0].nodes, states, events, n)));
  }

  /** No known node fell silent, and no reply named a node twice. */
  ghost predicate Undisturbed(states: seq<Q>, events: seq<Event>, n: nat)
    requires n <= |events| < |states|
  {
    forall j :: 0 <= j < n ==>
      && (events[j].Expires? ==> events[j].id == Zero())
      && (Informs(states[j], events[j]) ==> Sorted(states[j].dst, events[j].contacts))
  }

  /**
   If no known node fell silent, the list is the ten nearest of everything heard and of `base`, the contacts from which
   the first list was chosen, although only ten were ever kept.
   */
  lemma {:induction false} NearestHeard(base: seq<Addr>, states: seq<Q>, events: seq<Event>, n: nat)
    requires Run(states, events) && n < |states| && Undisturbed(states, events, n)
    requires DistinctIds(base) && states[0].nodes == Take(SortBy(states[0].dst, base), NUM_FIND_NODE)
    ensures states[n].dst == states[0].dst && DistinctIds(Known(base, states, events, n))
    ensures states[n].nodes == Take(SortBy(states[n].dst, Known(base, states, events, n)), NUM_FIND_NODE)
  {
    if n > 0 {
      NearestHeard(base, states, events, n - 1);
      RunOk(states, events, n - 1);
      NextNearest(states[n - 1], events[n - 1], Known(base, states, events, n - 1));
    }
  }

  /** What the look-up yields is a list to start from: sorted, at most ten, the nearest of the whole table and the owner. */
  lemma TableStarts(self: Id, table: Table.Table, dst: Id)
    requires Table.RowsOk(self, table)
    ensures var all := Table.Gather(self, table, Table.AllGroups(table));
            var q := TableStart(self, dst, Table.NearestContacts(self, table, dst, NUM_FIND_NODE));
            && IsStart(q) && DistinctIds(all) && q.dst == dst && q.nodes == Take(SortBy(dst, all), NUM_FIND_NODE)
  {
    var all := Table.Gather(self, table, Table.AllGroups(table));
    Table.CollectDistinct(self, table, Table.AllGroups(table), -1, BITS);
    SortBySorted(dst, all);
    var nodes := Take(SortBy(dst, all), NUM_FIND_NODE);
    assert Sorted(dst, nodes);
    StartsOk(self, dst, nodes);
    hide SortBy;
    hide Sorted;
  }

  /** So an undisturbed query ends with the ten nearest of the whole table and of everything it heard. */
  lemma NearestKnown(self: Id, table: Table.Table, dst: Id, states: seq<Q>, events: seq<Event>, n: nat)
    requires Table.RowsOk(self, table) && Run(states, events) && n < |states| && Undisturbed(states, events, n)
    requires states[0] == TableStart(self, dst, Table.NearestContacts(self, table, dst, NUM_FIND_NODE))
    ensures var all := Table.Gather(self, table, Table.AllGroups(table));
            states[n].nodes == Take(SortBy(dst, Known(all, states, events, n)), NUM_FIND_NODE)
  {
    TableStarts(self, table, dst);
    hide Run;
    hide Undisturbed;
    hide TableStart;
    NearestHeard(Table.Gather(self, table, Table.AllGroups(table)), states, events, n);
  }

  lemma NextNearest(q: Q, e: Event, known: seq<Addr>)
    requires Sorted(q.dst, q.nodes) && DistinctIds(known) && q.nodes == Take(SortBy(q.dst, known), NUM_FIND_NODE)
    requires (e.Expires? ==> e.id == Zero()) && (Informs(q, e) ==> Sorted(q.dst, e.contacts))
    ensures var known' := if Informs(q, e) then known + Unknown(e.contacts, known) else known;
            && After(q, e).dst == q.dst && DistinctIds(known')
            && After(q, e).nodes == Take(SortBy(q.dst, known'), NUM_FIND_NODE)
  {
    hide SortBy;
    hide Sorted;
    hide Take;
    hide Union;
    hide Merge;
    hide Unknown;
    if Informs(q, e) {
      MergeGood(q.dst, q.nodes, e.contacts, NUM_FIND_NODE);
      ShortListStaysNearest(q.dst, known, q.nodes, e.contacts, NUM_FIND_NODE);
    }
  }

  // ---- silent nodes ------------------------------------------------------------------------------------

  lemma AskOrFinishNodes(q: Q)
    ensures AskOrFinish(q).nodes == q.nodes && AskOrFinish(q).dst == q.dst
  {
    hide AskFrom;
  }

  /** A timeout settles its question and takes the silent node, and no other, from the candidates. */
  lemma SilenceExact(q: Q, leaks: nat, settled: nat, id: Id)
    requires Ok(q, leaks, settled) && id in q.timers && id != Zero()
    ensures var r := After(q, Expires(id));
            && Sorted(r.dst, r.nodes) && r.dst == q.dst
            && (forall a :: a in r.nodes <==> a in q.nodes && a.id != id)
  {
    CandidatesSorted(q, leaks, settled);
    WithoutOrdered(q.dst, q.nodes, id);
    hide Ok;
    hide Without;
    hide Sorted;
    hide AskOrFinish;
    AskOrFinishNodes(q.(timers := q.timers - {id}, sent := q.sent + {id}, numQuery := q.numQuery - 1, nodes := Without(q.nodes, id)));
  }

  /** An accepted reply that names the node. */
  predicate Names(q: Q, e: Event, id: Id) {
    Informs(q, e) && id in IdsOf(e.contacts)
  }

  lemma NewCandidate(q: Q, leaks: nat, settled: nat, e: Event, id: Id)
    requires Ok(q, leaks, settled) && Allowed(q, e) && id in IdsOf(After(q, e).nodes) && id !in IdsOf(q.nodes)
    ensures Names(q, e, id)
  {
    var a :| a in After(q, e).nodes && a.id == id;
    assert a !in q.nodes;
    if Settling(q, e) {
      CandidatesSorted(q, leaks, settled);
      hide Ok;
      hide AskOrFinish;
      hide Merge;
      match e
      case Expires(x) =>
        WithoutOrdered(q.dst, q.nodes, x);
        AskOrFinishNodes(q.(timers := q.timers - {x}, sent := q.sent + {x}, numQuery := q.numQuery - 1,
                            nodes := if x == Zero() then q.nodes else Without(q.nodes, x)));
      case Reply(from, contacts, _, lengthOk) =>
        MergeGood(q.dst, q.nodes, contacts, NUM_FIND_NODE);
        AskOrFinishNodes(q.(timers := q.timers - Settles(q, from.id), sent := q.sent + {from.id}, numQuery := q.numQuery - 1,
                            nodes := Merge(q.dst, q.nodes, contacts, NUM_FIND_NODE)));
    }
  }

  /** In every run a known node that fell silent is a candidate later only if an accepted reply has named it again since. */
  lemma {:induction false} SilentNodeGone(states: seq<Q>, events: seq<Event>, j: nat, n: nat, id: Id)
    requires Run(states, events) && j < n < |states| && events[j] == Expires(id) && id != Zero() && id in IdsOf(states[n].nodes)
    ensures exists k :: j < k < n && Names(states[k], events[k], id)
  {
    var m := n - 1;
    RunOk(states, events, m);
    assert Allowed(states[m], events[m]) && states[m + 1] == After(states[m], events[m]);
    if m == j {
      SilenceExact(states[m], Leaks(states, events, m), Settled(states, events, m), id);
    } else if id in IdsOf(states[m].nodes) {
      SilentNodeGone(states, events, j, m, id);
    } else {
      NewCandidate(states[m], Leaks(states, events, m), Settled(states, events, m), events[m], id);
    }
  }

  /** Why a candidate may go: it fell silent, or a reply brought ten nearer ones; only a reply that repeats a node may cost more. */
  ghost predicate Displaced(q: Q, e: Event, x: Id) {
    || (e.Expires? && e.id == x)
    || (Informs(q, e) && !Sorted(q.dst, e.contacts))
    || (Informs(q, e) && |After(q, e).nodes| == NUM_FIND_NODE && forall a :: a in After(q, e).nodes ==> Closer(q.dst, a.id, x))
  }

  lemma MergedOut(t: Id, v1: seq<Addr>, v2: seq<Addr>, num: nat, a: Addr)
    requires Sorted(t, v1) && Sorted(t, v2) && a in v1 && a !in Take(Union(t, v1, v2), num)
    ensures |Take(Union(t, v1, v2), num)| == num && forall b :: b in Take(Union(t, v1, v2), num) ==> Closer(t, b.id, a.id)
  {
    SortedDistinct(t, v1);
    SortedDistinct(t, v2);
    UnionDistinct(v1, v2);
    TakeIsNearest(t, v1 + Unknown(v2, v1), num);
  }

  lemma CandidateLost(q: Q, leaks: nat, settled: nat, e: Event, a: Addr)
    requires Ok(q, leaks, settled) && Allowed(q, e) && a in q.nodes && a !in After(q, e).nodes
    ensures Displaced(q, e, a.id)
  {
    CandidatesSorted(q, leaks, settled);
    hide Ok;
    hide AskOrFinish;
    hide Merge;
    hide Sorted;
    hide Union;
    hide Take;
    if Settling(q, e) {
      match e
      case Expires(x) =>
        WithoutOrdered(q.dst, q.nodes, x);
        AskOrFinishNodes(q.(timers := q.timers - {x}, sent := q.sent + {x}, numQuery := q.numQuery - 1,
                            nodes := if x == Zero() then q.nodes else Without(q.nodes, x)));
      case Reply(from, contacts, _, lengthOk) =>
        MergeGood(q.dst, q.nodes, contacts, NUM_FIND_NODE);
        AskOrFinishNodes(q.(timers := q.timers - Settles(q, from.id), sent := q.sent + {from.id}, numQuery := q.numQuery - 1,
                            nodes := Merge(q.dst, q.nodes, contacts, NUM_FIND_NODE)));
        if lengthOk && Sorted(q.dst, contacts) {
          MergedOut(q.dst, q.nodes, contacts, NUM_FIND_NODE, a);
        }
    }
  }

  /** In every run, timeouts included, a candidate is lost only for such a cause. */
  lemma {:induction false} LostForCause(states: seq<Q>, events: seq<Event>, i: nat, n: nat, a: Addr)
    requires Run(states, events) && i <= n < |states| && a in states[i].nodes && a !in states[n].nodes
    ensures exists k :: i <= k < n && Displaced(states[k], events[k], a.id)
  {
    hide Ok;
    hide Displaced;
    if n > i {
      var m := n - 1;
      if a in states[m].nodes {
        RunOk(states, events, m);
        assert Allowed(states[m], events[m]) && states[m + 1] == After(states[m], events[m]);
        CandidateLost(states[m], Leaks(states, events, m), Settled(states, events, m), events[m], a);
      } else {
        LostForCause(states, events, i, m, a);
      }
    }
  }

  /**
   The list is not always the ten nearest of the nodes heard of that answer: an eleventh is forgotten, and stays so when
   one of the ten falls silent.
   */
  lemma ForgottenNode(q: Q, leaks: nat, settled: nat, from: Addr, z: Addr, id: Id)
    requires Ok(q, leaks, settled) && q.live && from.id in q.timers && id in q.timers && id != from.id && id != Zero()
    requires |q.nodes| == NUM_FIND_NODE && id in IdsOf(q.nodes) && forall a :: a in q.nodes ==> Closer(q.dst, a.id, z.id)
    ensures var q1 := After(q, Reply(from, [z], true, true));
            var q2 := After(q1, Expires(id));
            q1.nodes == q.nodes && |q2.nodes| < NUM_FIND_NODE && z !in q2.nodes && z.id != id
  {
    CandidatesSorted(q, leaks, settled);
    FarthestNotTaken(q.dst, q.nodes, z, NUM_FIND_NODE);
    MergeGood(q.dst, q.nodes, [z], NUM_FIND_NODE);
    SortedIsWeak(q.dst, q.nodes);
    WithoutOrdered(q.dst, q.nodes, id);
    hide Ok;
    hide AskOrFinish;
    hide Merge;
    hide Union;
    var q1 := After(q, Reply(from, [z], true, true));
    AskOrFinishNodes(q.(timers := q.timers - Settles(q, from.id), sent := q.sent + {from.id}, numQuery := q.numQuery - 1,
                        nodes := Merge(q.dst, q.nodes, [z], NUM_FIND_NODE)));
    AskOrFinishNodes(q1.(timers := q1.timers - {id}, sent := q1.sent + {id}, numQuery := q1.numQuery - 1, nodes := Without(q1.nodes, id)));
    WithoutShorter(q.nodes, id);
    CloserIrreflexive(q.dst, z.id);
  }

  lemma {:induction false} WithoutShorter(xs: seq<Addr>, id: Id)
    ensures |Without(xs, id)| <= |xs| && (id in IdsOf(xs) ==> |Without(xs, id)| < |xs|)
  {
    if xs != [] {
      WithoutShorter(xs[1..], id);
      if id in IdsOf(xs) && xs[0].id != id {
        var a :| a in xs && a.id == id;
        assert a in xs[1..];
      }
    }
  }

  lemma CloserIrreflexive(t: Id, x: Id)
    ensures !Closer(t, x, x)
  {
  }

  lemma FarthestNotTaken(t: Id, xs: seq<Addr>, z: Addr, num: nat)
    requires Sorted(t, xs) && |xs| == num && forall a :: a in xs ==> Closer(t, a.id, z.id)
    ensures Sorted(t, [z]) && Take(Union(t, xs, [z]), num) == xs
  {
    forall a | a in xs ensures a.id != z.id {
      CloserIrreflexive(t, z.id);
    }
    assert Unknown([z], xs) == [z];
    SortedDistinct(t, xs);
    var all := xs + [z];
    assert Sorted(t, all);
    SortedDistinct(t, all);
    SortByElements(t, all);
    SortBySorted(t, all);
    SortedUnique(t, SortBy(t, all), all);
    assert all[..num] == xs;
  }

  // ---- who has been asked --------------------------------------------------------------------------------

  lemma {:induction false} AskFromAsks(q: Q, k: nat, id: Id)
    requires id in AskFrom(q, k).sent
    ensures id in q.sent || id in AskFrom(q, k).asked
    decreases |q.nodes| - k
  {
    if k < |q.nodes| && q.numQuery < MAX_QUERY {
      var q1 := if q.nodes[k].id in q.sent then q else Ask(q, q.nodes[k].id);
      AskFromAsks(q1, k + 1, id);
      AskFromKeepsAsked(q1, k + 1, id);
    }
  }

  lemma {:induction false} AskFromKeepsAsked(q: Q, k: nat, id: Id)
    ensures id in q.asked ==> id in AskFrom(q, k).asked
    decreases |q.nodes| - k
  {
    if k < |q.nodes| && q.numQuery < MAX_QUERY {
      AskFromKeepsAsked(if q.nodes[k].id in q.sent then q else Ask(q, q.nodes[k].id), k + 1, id);
    }
  }

  /** An event that is an answer from `id`, or its silence. */
  predicate HeardFrom(q: Q, e: Event, id: Id) {
    (Informs(q, e) && e.from.id == id) || (e.Expires? && e.id == id)
  }

  lemma NextAsked(q: Q, e: Event, id: Id)
    ensures id in After(q, e).sent ==> id in q.sent || id in After(q, e).asked || HeardFrom(q, e, id)
    ensures id in q.asked ==> id in After(q, e).asked
  {
    hide AskFrom;
    hide Merge;
    hide Without;
    if Settling(q, e) && !Leaky(q, e) {
      var mid := if e.Expires? then q.(timers := q.timers - {e.id}, sent := q.sent + {e.id}, numQuery := q.numQuery - 1,
                                       nodes := if e.id == Zero() then q.nodes else Without(q.nodes, e.id))
                 else q.(timers := q.timers - Settles(q, e.from.id), sent := q.sent + {e.from.id}, numQuery := q.numQuery - 1,
                         nodes := Merge(q.dst, q.nodes, e.contacts, NUM_FIND_NODE));
      assert After(q, e) == AskOrFinish(mid);
      AskFromKeepsAsked(mid, 0, id);
      if id in AskFrom(mid, 0).sent {
        AskFromAsks(mid, 0, id);
      }
    }
  }

  /** In every run a node counts as dealt with only if it is the owner, was asked, has answered, or fell silent. */
  lemma {:induction false} DealtWithMeansAsked(states: seq<Q>, events: seq<Event>, n: nat, id: Id)
    requires Run(states, events) && n < |states| && id in states[n].sent
    ensures id == states[0].self || id in states[n].asked || exists k :: 0 <= k < n && HeardFrom(states[k], events[k], id)
  {
    if n == 0 {
      StartAsked(states[0], id);
    } else {
      var m := n - 1;
      NextAsked(states[m], events[m], id);
      assert states[m + 1] == After(states[m], events[m]);
      hide After;
      hide HeardFrom;
      if id in states[m].sent {
        DealtWithMeansAsked(states, events, m, id);
      }
    }
  }

  lemma StartAsked(q: Q, id: Id)
    requires IsStart(q) && id in q.sent
    ensures id == q.self || id in q.asked
  {
    if q != BareStart(q.self) && q.nodes != [] {
      AskFromAsks(Q(q.self, q.dst, false, q.nodes, {q.self}, {}, 0, true, [], []), 0, id);
    }
  }

  // ---- a reply of the wrong length -------------------------------------------------------------------

  /** With nothing out a live query takes no notice of anything any more. */
  lemma {:induction false} Stuck(states: seq<Q>, events: seq<Event>, i: nat, n: nat)
    requires Run(states, events) && i <= n < |states| && states[i].live && states[i].timers == {}
    ensures states[n] == states[i]
  {
    if n > i {
      Stuck(states, events, i, n - 1);
      assert Allowed(states[n - 1], events[n - 1]);
    }
  }

  /** Two events: the only answer to a bootstrap question comes damaged, then whole.  The query waits for ever. */
  lemma DamagedAnswer(self: Id, from: Addr)
    ensures var bad, good := Reply(from, [], true, false), Reply(from, [], true, true);
            var q0 := BareStart(self);
            var q1 := q0.(timers := {});
            && Run([q0, q1, q1], [bad, good]) && Leaky(q0, bad)
            && q1.live && q1.numQuery == 1 && q1.timers == {} && q1.answers == []
  {
    var bad, good := Reply(from, [], true, false), Reply(from, [], true, true);
    var q0 := BareStart(self);
    assert Settles(q0, from.id) == {Zero()};
    assert q0.timers - {Zero()} == {};
  }

  // ---- in place ---------------------------------------------------------------------------------------

  class Query {
    const self: Id
    const dst: Id
    const boot: bool
    var nodes: seq<Addr>
    var sent: set<Id>
    var timers: set<Id>
    var numQuery: int
    var live: bool
    ghost var asked: seq<Id>
    ghost var answers: seq<seq<Addr>>

    ghost function View(): Q
      reads this
    {
      Q(self, dst, boot, nodes, sent, timers, numQuery, live, asked, answers)
    }

    /** `find_node` towards `dst`, starting from what the routing table knows. */
    constructor FromTable(self: Id, dst: Id, nodes: seq<Addr>)
      ensures View() == TableStart(self, dst, nodes)
    {
      this.self, this.dst, this.boot, this.nodes := self, dst, false, nodes;
      sent, timers, numQuery, live, asked, answers := {self}, {}, 0, true, [], [];
      new;
      if nodes == [] {
        Report();
      } else {
        SendFind();
      }
    }

    /** `find_node` through a bare address. */
    constructor Bootstrap(self: Id)
      ensures View() == BareStart(self)
    {
      this.self, this.dst, this.boot, this.nodes := self, self, true, [];
      sent, timers, numQuery, live, asked, answers := {self}, {Zero()}, 1, true, [], [];
    }

    /** Call the user back and forget the query. */
    method Report()
      modifies this`answers, this`live, this`timers
      ensures View() == Finish(old(View()))
    {
      answers := answers + [nodes];
      timers := {};
      live := false;
    }

    method SendFind()
      modifies this
      ensures View() == AskOrFinish(old(View()))
    {
      hide AskFrom;
      ghost var goal := AskFrom(View(), 0);
      var k := 0;
      while k < |nodes| && numQuery < MAX_QUERY
        invariant 0 <= k <= |nodes| && AskFrom(View(), k) == goal
      {
        AskFromOnce(View(), k);
        var id := nodes[k].id;
        if id !in sent {
          timers := timers + {id};
          sent := sent + {id};
          asked := asked + [id];
          numQuery := numQuery + 1;
        }
        k := k + 1;
      }
      AskFromOnce(View(), k);
      if numQuery == 0 {
        Report();
      }
    }

    /** The node stops being a candidate. */
    method DropCandidate(id: Id)
      modifies this`nodes
      ensures nodes == Without(old(nodes), id)
    {
      hide Without;
      var tmp := nodes;
      nodes := [];
      var i := 0;
      assert tmp[..0] == [];
      WithoutSnoc(tmp, 0, id);
      while i < |tmp|
        invariant 0 <= i <= |tmp| && nodes == Without(tmp[..i], id)
      {
        WithoutSnoc(tmp, i, id);
        if tmp[i].id != id {
          nodes := nodes + [tmp[i]];
        }
        i := i + 1;
      }
      assert tmp[..i] == tmp;
    }

    /** No answer from `id` in time. */
    method Timeout(id: Id)
      requires id in timers
      modifies this
      ensures View() == After(old(View()), Expires(id))
    {
      hide Without;
      sent := sent + {id};
      numQuery := numQuery - 1;
      timers := timers - {id};
      if id != Zero() {
        DropCandidate(id);
      }
      SendFind();
    }

    method RecvReply(from: Addr, reply: seq<Addr>, headerOk: bool, lengthOk: bool)
      modifies this
      ensures View() == After(old(View()), Reply(from, SortBy(dst, reply), headerOk, lengthOk))
    {
      hide SortBy;
      hide Merge;
      hide GoodMerge;
      if !live || !headerOk {
        return;
      }
      if from.id in timers {
        timers := timers - {from.id};
      } else if Zero() in timers {
        timers := timers - {Zero()};
      } else {
        return;
      }
      if !lengthOk {
        return;
      }
      sent := sent + {from.id};
      numQuery := numQuery - 1;
      nodes := MergeNodes(dst, nodes, SortBy(dst, reply), NUM_FIND_NODE);
      SendFind();
    }

    /** What `RecvReply` makes of a reply is an event of a run. */
    lemma ReplyAllowed(from: Addr, reply: seq<Addr>, headerOk: bool, lengthOk: bool)
      ensures Allowed(View(), Reply(from, SortBy(dst, reply), headerOk, lengthOk))
    {
      SortByWeaklySorted(dst, reply);
    }

    /** One call from outside; a timer that is not set does not fire. */
    method Handle(call: Call) returns (ghost e: Event)
      modifies this
      ensures Allowed(old(View()), e) && View() == After(old(View()), e)
    {
      hide After;
      hide SortBy;
      hide WeaklySorted;
      match call
      case GetsReply(from, reply, headerOk, lengthOk) =>
        ReplyAllowed(from, reply, headerOk, lengthOk);
        e := Reply(from, SortBy(dst, reply), headerOk, lengthOk);
        RecvReply(from, reply, headerOk, lengthOk);
      case Fires(id) =>
        if id in timers {
          e := Expires(id);
          Timeout(id);
        } else {
          NothingHappens(View());
          e := Unexpected(dst);
        }
    }

    lemma NothingHappens(q: Q)
      ensures Allowed(q, Unexpected(dst)) && After(q, Unexpected(dst)) == q
    {
    }

    /** Any sequence of calls is a run, so everything said of runs holds of this record. */
    method HandleAll(calls: seq<Call>) returns (ghost states: seq<Q>, ghost events: seq<Event>)
      requires IsStart(View())
      modifies this
      ensures Run(states, events) && |events| == |calls|
      ensures states[0] == old(View()) && states[|events|] == View()
    {
      hide IsStart;
      hide After;
      hide Allowed;
      states, events := [View()], [];
      for i := 0 to |calls|
        invariant |events| == i && |states| == i + 1 && states[0] == old(View()) && states[i] == View()
        invariant forall k :: 0 <= k < i ==> Allowed(states[k], events[k]) && states[k + 1] == After(states[k], events[k])
      {
        ghost var e := Handle(calls[i]);
        states, events := states + [View()], events + [e];
      }
    }
  }

  /** What reaches a query from outside. */
  datatype Call = GetsReply(from: Addr, contacts: seq<Addr>, headerOk: bool, lengthOk: bool) | Fires(id: Id)

  /** A reply with a wrong header, which is ignored. */
  function Unexpected(id: Id): Event {
    Reply(Addr(id, Inet, 0, 0), [], false, false)
  }

  /** `find_node`: the nearest contacts the table knows are where a query starts. */
  method FindNode(rt: Table.RtTable, dst: Id) returns (q: Query)
    requires rt.Valid()
    ensures fresh(q) && IsStart(q.View())
    ensures q.View() == TableStart(rt.self, dst, Table.NearestContacts(rt.self, rt.table, dst, NUM_FIND_NODE))
  {
    TableStarts(rt.self, rt.table, dst);
    hide IsStart;
    hide TableStart;
    hide Table.NearestContacts;
    var nodes := rt.Lookup(dst, NUM_FIND_NODE);
    q := new Query.FromTable(rt.self, dst, nodes);
  }
}
