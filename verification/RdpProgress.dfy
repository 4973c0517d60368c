/**
 The transport cannot get stuck.

 Runs are timed here: each host has one retry limit, and its clock does not go back.  While both sides are open,
 deliveries alone of segments that are on the wire lead to a state in which the receiver has every byte its peer
 accepted.  If the network has lost everything it carried, one tick of the sender repairs that, as long as no
 segment has been waiting beyond the sender's retry limit; once one has, the next tick ends the connection.
 */
module RdpProgress {
  import opened SeqNum
  import opened Seqs
  import opened Bytes
  import opened Segments
  import opened RdpSpec
  import opened RdpSystem
  import opened RdpProof
  import opened RdpProofReceive
  import opened RdpProofStep
  import opened RdpTheorems
  import opened RdpOnWire

  function SideOf(s: System, first: bool): Side {
    if first then s.a else s.b
  }

  predicate BothOpen(s: System) {
    s.a.con.state.Open? && s.b.con.state.Open?
  }

  // ---- the awaited chunk is on the wire ---------------------------------------------------------

  /** Chunk `k` of a sender travels under the number `k` after its first. */
  lemma SlotNumber(x: Side, y: Side, i: nat)
    requires Inv(x, y) && x.heard && i < x.con.ostand
    ensures i < |x.con.swnd| && Sub32(x.con.swnd[i].seqnum, x.con.sndIss) == Una(x) + i + 1
    ensures x.con.swnd[i].isAcked <==> x.con.swnd[i].pbuf.None?
  {
    assert SentSlotOk(x.con.swnd[i], Add32(x.con.sndUna, i + 1));
    AddAdd(x.con.sndIss, Una(x), i + 1);
    AddSub(x.con.sndIss, Una(x) + i + 1);
  }

  lemma SlotData(x: Side, y: Side, i: nat)
    requires Inv(x, y) && i < |x.con.swnd| && x.con.swnd[i].pbuf.Some?
    ensures 0 < |Contents(x.con.swnd[i])| <= RBUF_MAX - HEAD_SIZE
  {
    assert BuffersOk(x.con.swnd, x.log) && ChunksOk(x);
    assert x.con.swnd[i].pbuf.value == x.log[|x.log| - |x.con.swnd| + i];
  }

  /** Sent slot `i`, not yet acknowledged, as a segment on the wire. */
  lemma SlotOnWire(x: Side, y: Side, i: nat) returns (seg: Segment)
    requires Inv(x, y) && x.heard && OnWire(x.con, x.net) && i < x.con.ostand && i < |x.con.swnd| && !x.con.swnd[i].isAcked
    ensures seg in x.net && !seg.rst && !seg.syn && !seg.eak && seg.dlen > 0 && Sub32(seg.seqnum, x.con.sndIss) == Una(x) + i + 1
  {
    SlotNumber(x, y, i);
    SlotData(x, y, i);
    hide Inv;
    assert InAir(x.net, x.con.swnd[i]);
    seg :| seg in x.net && Carries(seg, x.con.swnd[i]);
  }

  /** A segment on the wire moves the receiver on. */
  lemma NextArrives(x: Side, y: Side, now: int) returns (seg: Segment)
    requires Inv(x, y) && Settled(x) && Settled(y) && x.con.state.Open? && y.con.state.Open?
    requires OnWire(x.con, x.net) && Rc(y) < Sent(x)
    ensures var b := Deliver(seg, false, 0, now);
            && Enabled(y, x, b) && Defined(y, b) && Apply(y, b).log == y.log
            && Rc(Apply(y, b)) > Rc(y) && Apply(y, b).con.state.Open?
  {
    var i := Rc(y) - Una(x);
    BasicStates(x, y);
    BasicStates(y, x);
    ReleasedOnlyWhenHeld(x, y, Rc(y) + 1);
    SlotNumber(x, y, i);
    seg := SlotOnWire(x, y, i);
    hide Inv;
    AlwaysDefined(y, x, Deliver(seg, false, 0, now));
    InSequenceAdvances(y, x, seg, now);
  }

  // ---- everything sent has been received, but the window is full ---------------------------------

  lemma NextNumber(x: Side, y: Side)
    requires Inv(x, y) && x.heard
    ensures x.con.sndNxt == Add32(x.con.sndIss, Sent(x) + 1) && Sent(x) + 1 < MODULUS
  {
    AddSub(x.con.sndUna, x.con.sndNxt);
    AddAdd(x.con.sndIss, Una(x), x.con.ostand + 1);
  }

  /** An old segment is answered with an ack of everything received. */
  lemma OldSegmentAnswered(x: Side, y: Side, seg: Segment, now: int)
    requires Inv(x, y) && y.heard && y.con.state.Open? && Wf(y.con) && EackListPresent(seg)
    requires Una(x) < Sub32(seg.seqnum, x.con.sndIss) <= Rc(y)
    ensures var r := InOpen(y.con, seg, now);
            r.out == [AckSeg(y.con)] && r.con == y.con.(rcvAck := y.con.rcvCur)
  {
    AddSub(x.con.sndIss, seg.seqnum);
    AddSub(x.con.sndIss, y.con.rcvCur);
    AcceptanceExact(x.con.sndIss, Rc(y), Sub32(seg.seqnum, x.con.sndIss), |y.con.rwnd|);
    AcceptanceTestsAgree(y.con, seg.seqnum);
  }

  lemma WindowFull(x: Side, y: Side)
    requires Inv(x, y) && x.heard && Settled(x) && HasWindows(x.con.state) && Sent(x) < |x.log|
    ensures 0 < x.con.ostand <= |x.con.swnd|
  {
  }

  /** The oldest segment out, which has arrived, arrives again and draws an ack. */
  lemma OldArrives(x: Side, y: Side, now: int) returns (seg: Segment)
    requires Inv(x, y) && Settled(x) && Settled(y) && x.con.state.Open? && y.con.state.Open?
    requires OnWire(x.con, x.net) && Rc(y) == Sent(x) < |x.log|
    ensures var b := Deliver(seg, false, 0, now);
            Enabled(y, x, b) && Defined(y, b) &&
            var y1 := Apply(y, b);
            && y1.log == y.log && y1.con == y.con.(rcvAck := y.con.rcvCur) && Rc(y1) == Rc(y) && AckSeg(y1.con) in y1.net
  {
    BasicStates(x, y);
    BasicStates(y, x);
    WindowFull(x, y);
    HeadNeverEacked(x, y);
    seg := SlotOnWire(x, y, 0);
    var b := Deliver(seg, false, 0, now);
    AlwaysDefined(y, x, b);
    OldSegmentAnswered(x, y, seg, now);
    hide Inv;
    assert Apply(y, b) == Put(y, InOpen(y.con, seg, now));
  }

  /** An ack of everything sent passes the receiver's window test. */
  lemma AckAccepted(x: Side, y: Side)
    requires Inv(x, y) && x.heard && y.heard
    ensures OpenAccepts(x.con, AckSeg(y.con).seqnum)
  {
    NextNumber(y, x);
    AddSub(y.con.sndIss, x.con.rcvCur);
    SubAdd(y.con.sndIss, Sent(y) + 1, Rc(x));
    AcceptanceTestsAgree(x.con, y.con.sndNxt);
  }

  /** It releases every sent slot, and waiting chunks are sent. */
  lemma AckOpensWindow(x: Side, y: Side, now: int)
    requires Inv(x, y) && x.heard && y.heard && NoStall(x.con) && Rc(y) == Sent(x) < |x.log|
    ensures var r := RecvAck(x.con, y.con.rcvCur, now).con;
            |x.log| - |r.swnd| + r.ostand > Sent(x)
  {
    AddSub(x.con.sndIss, y.con.rcvCur);
    SubAdd(x.con.sndIss, Rc(y), Una(x));
    assert Sub32(y.con.rcvCur, x.con.sndUna) == x.con.ostand;
    var p := PopAcked(x.con, y.con.rcvCur);
    assert |p.swnd| == |x.con.swnd| - x.con.ostand;
    hide SendOstand;
  }

  lemma AckInOpen(x: Side, y: Side, now: int)
    requires Inv(x, y) && x.heard && y.heard && x.con.state.Open? && Wf(x.con) && Rc(y) == Sent(x) < |x.log|
    ensures Sent(Put(x, InOpen(x.con, AckSeg(y.con), now))) > Sent(x)
    ensures InOpen(x.con, AckSeg(y.con), now).con.state.Open?
  {
    AckAccepted(x, y);
    AckOpensWindow(x, y, now);
    hide RecvAck;
    hide Inv;
  }

  lemma AckArrives(x: Side, y: Side, now: int)
    requires Inv(x, y) && Settled(x) && x.con.state.Open? && y.con.state.Open? && Rc(y) == Sent(x) < |x.log|
    requires AckSeg(y.con) in y.net
    ensures var c := Deliver(AckSeg(y.con), false, 0, now);
            Enabled(x, y, c) && Defined(x, c) && Apply(x, c).log == x.log && Apply(x, c).con.state.Open? && Sent(Apply(x, c)) > Sent(x)
  {
    BasicStates(x, y);
    BasicStates(y, x);
    AlwaysDefined(x, y, Deliver(AckSeg(y.con), false, 0, now));
    AckInOpen(x, y, now);
  }

  // ---- timed runs -----------------------------------------------------------------------------------

  /** A stretch of a run, who moved in each step, and how. */
  datatype History = History(run: seq<System>, who: seq<bool>, acts: seq<Action>)

  ghost predicate Path(p: History) {
    && |p.run| == |p.acts| + 1 && |p.who| == |p.acts|
    && (forall i :: 0 <= i < |p.acts| ==> Next(p.run[i], p.run[i + 1], p.who[i], p.acts[i]))
    && (forall i :: 0 <= i < |p.run| ==> Small(p.run[i]))
  }

  ghost predicate Real(h: History) {
    Run(h.run, h.who, h.acts)
  }

  ghost function Last(p: History): System
    requires Path(p)
  {
    p.run[|p.run| - 1]
  }

  /** The retry limits of the two hosts. */
  datatype Limits = Limits(a: int, b: int)

  function LimitOf(l: Limits, first: bool): int {
    if first then l.a else l.b
  }

  predicate HasTime(a: Action) {
    a.Deliver? || a.Sends? || a.OpenTicks?
  }

  function TimeOf(a: Action): int
    requires HasTime(a)
  {
    a.now
  }

  /** Each host keeps to its retry limit, and its clock does not go back. */
  ghost predicate Timed(who: seq<bool>, acts: seq<Action>, l: Limits) {
    && |who| == |acts|
    && (forall i :: 0 <= i < |acts| && acts[i].OpenTicks? ==> acts[i].maxRetrans == LimitOf(l, who[i]))
    && (forall i, j :: 0 <= i < j < |acts| && who[i] == who[j] && HasTime(acts[i]) && HasTime(acts[j]) ==>
          TimeOf(acts[i]) <= TimeOf(acts[j]))
  }

  /** The latest time a host has seen. */
  function Clock(who: seq<bool>, acts: seq<Action>, first: bool): (t: int)
    requires |who| == |acts|
    ensures forall i :: 0 <= i < |acts| && who[i] == first && HasTime(acts[i]) ==> TimeOf(acts[i]) <= t
  {
    if acts == [] then 0
    else
      var n := |acts| - 1;
      var t := Clock(who[..n], acts[..n], first);
      if who[n] == first && HasTime(acts[n]) && TimeOf(acts[n]) > t then TimeOf(acts[n]) else t
  }

  /** The stretch `p` comes after the run `h`, on the same clocks. */
  ghost predicate Follows(h: History, p: History, l: Limits) {
    Path(p) && Timed(h.who + p.who, h.acts + p.acts, l)
  }

  ghost function Now(h: History, p: History, l: Limits, first: bool): int
    requires Follows(h, p, l)
  {
    Clock(h.who + p.who, h.acts + p.acts, first)
  }

  /** Deliveries, and nothing else, lead from `p` on to `q`. */
  ghost predicate DeliversOn(p: History, q: History) {
    && p.run <= q.run && p.who <= q.who && p.acts <= q.acts
    && (forall i :: |p.acts| <= i < |q.acts| ==> q.acts[i].Deliver?)
  }

  lemma DeliversOnTwice(p: History, q: History, r: History)
    requires DeliversOn(p, q) && DeliversOn(q, r)
    ensures DeliversOn(p, r)
  {
    forall i | |p.acts| <= i < |r.acts| ensures r.acts[i].Deliver? {
      if i < |q.acts| {
        assert r.acts[i] == q.acts[i];
      }
    }
  }

  ghost predicate CanMove(s: System, first: bool, a: Action) {
    && Enabled(SideOf(s, first), SideOf(s, !first), a) && Defined(SideOf(s, first), a)
    && (|Apply(SideOf(s, first), a).log| == |SideOf(s, first).log| || |Apply(SideOf(s, first), a).log| < LIMIT)
  }

  ghost function Moved(s: System, first: bool, a: Action): System
    requires CanMove(s, first, a)
  {
    if first then s.(a := Apply(s.a, a)) else s.(b := Apply(s.b, a))
  }

  lemma MovedSides(s: System, first: bool, a: Action)
    requires CanMove(s, first, a)
    ensures SideOf(Moved(s, first, a), first) == Apply(SideOf(s, first), a)
    ensures SideOf(Moved(s, first, a), !first) == SideOf(s, !first)
    ensures Next(s, Moved(s, first, a), first, a) && (Small(s) ==> Small(Moved(s, first, a)))
  {
    hide Enabled;
    hide Defined;
    hide Apply;
  }

  lemma TimedSnoc(who: seq<bool>, acts: seq<Action>, l: Limits, first: bool, a: Action)
    requires Timed(who, acts, l) && (a.OpenTicks? ==> a.maxRetrans == LimitOf(l, first))
    requires HasTime(a) ==> TimeOf(a) >= Clock(who, acts, first)
    ensures Timed(who + [first], acts + [a], l)
  {
  }

  lemma PathSnoc(p: History, first: bool, a: Action, s': System)
    requires Path(p) && Next(Last(p), s', first, a) && Small(s')
    ensures Path(History(p.run + [s'], p.who + [first], p.acts + [a]))
  {
    hide Next;
    hide Small;
    var q := History(p.run + [s'], p.who + [first], p.acts + [a]);
    forall i | 0 <= i < |q.acts| ensures Next(q.run[i], q.run[i + 1], q.who[i], q.acts[i]) {
      if i < |p.acts| {
        assert Next(p.run[i], p.run[i + 1], p.who[i], p.acts[i]);
      }
    }
  }

  /** One more step, which keeps the invariant. */
  lemma OneMore(h: History, p: History, l: Limits, first: bool, a: Action) returns (q: History)
    requires Follows(h, p, l) && CanMove(Last(p), first, a) && Good(Last(p))
    requires (HasTime(a) ==> TimeOf(a) >= Now(h, p, l, first)) && (a.OpenTicks? ==> a.maxRetrans == LimitOf(l, first))
    ensures Follows(h, q, l) && Good(Last(q)) && (a.Deliver? ==> DeliversOn(p, q))
    ensures q == History(p.run + [Last(q)], p.who + [first], p.acts + [a])
    ensures SideOf(Last(q), first) == Apply(SideOf(Last(p), first), a) && SideOf(Last(q), !first) == SideOf(Last(p), !first)
  {
    hide Apply;
    hide Good;
    hide Next;
    hide Timed;
    hide Clock;
    var s := Last(p);
    MovedSides(s, first, a);
    var s' := Moved(s, first, a);
    hide Moved;
    hide CanMove;
    assert Small(s);
    NextKeepsGood(s, s', first, a);
    PathSnoc(p, first, a, s');
    q := History(p.run + [s'], p.who + [first], p.acts + [a]);
    TimedSnoc(h.who + p.who, h.acts + p.acts, l, first, a);
    assert h.who + p.who + [first] == h.who + q.who && h.acts + p.acts + [a] == h.acts + q.acts;
  }

  /** Both sides open, and what the sender still keeps of what it sent is on the wire. */
  ghost predicate Ready(s: System, first: bool) {
    Good(s) && BothOpen(s) && OnWire(SideOf(s, first).con, SideOf(s, first).net)
  }

  ghost predicate PairOk(x: Side, y: Side) {
    Inv(x, y) && Settled(x) && Settled(y)
  }

  lemma PairsOk(s: System, first: bool)
    requires Good(s)
    ensures PairOk(SideOf(s, first), SideOf(s, !first)) && PairOk(SideOf(s, !first), SideOf(s, first))
  {
    hide Local;
    hide Flow;
  }

  /** Something sent is missing at the receiver: a segment on the wire mends it. */
  lemma SentIsReceived(h: History, p: History, l: Limits, first: bool) returns (q: History)
    requires Follows(h, p, l) && Ready(Last(p), first)
    requires Rc(SideOf(Last(p), !first)) < Sent(SideOf(Last(p), first))
    ensures Follows(h, q, l) && DeliversOn(p, q) && Ready(Last(q), first) && |q.acts| == |p.acts| + 1
    ensures SideOf(Last(q), first) == SideOf(Last(p), first) && Rc(SideOf(Last(q), !first)) > Rc(SideOf(Last(p), !first))
  {
    hide Apply;
    hide Defined;
    hide Path;
    hide Timed;
    hide DeliversOn;
    hide Good;
    hide Inv;
    hide OnWire;
    hide Sent;
    hide Rc;
    PairsOk(Last(p), first);
    var now := Now(h, p, l, !first);
    var seg := NextArrives(SideOf(Last(p), first), SideOf(Last(p), !first), now);
    q := OneMore(h, p, l, !first, Deliver(seg, false, 0, now));
  }

  /** Everything sent has arrived, but more waits behind a full window: the old segment draws an ack, which opens it. */
  lemma WindowOpens(h: History, p: History, l: Limits, first: bool) returns (q: History)
    requires Follows(h, p, l) && Ready(Last(p), first)
    requires Rc(SideOf(Last(p), !first)) == Sent(SideOf(Last(p), first)) < |SideOf(Last(p), first).log|
    ensures Follows(h, q, l) && DeliversOn(p, q) && Ready(Last(q), first) && |q.acts| == |p.acts| + 2
    ensures SideOf(Last(q), first).log == SideOf(Last(p), first).log
    ensures Rc(SideOf(Last(q), !first)) == Rc(SideOf(Last(p), !first)) < Sent(SideOf(Last(q), first))
  {
    hide Apply;
    hide Defined;
    hide Path;
    hide Timed;
    hide DeliversOn;
    hide Good;
    hide Inv;
    hide OnWire;
    hide Sent;
    hide Rc;
    PairsOk(Last(p), first);
    var x, y := SideOf(Last(p), first), SideOf(Last(p), !first);
    var now := Now(h, p, l, !first);
    var seg := OldArrives(x, y, now);
    var p1 := OneMore(h, p, l, !first, Deliver(seg, false, 0, now));
    var y1 := SideOf(Last(p1), !first);
    PairsOk(Last(p1), first);
    var now1 := Now(h, p1, l, first);
    AckArrives(x, y1, now1);
    var b := Deliver(AckSeg(y1.con), false, 0, now1);
    ApplyOnWire(x, b);
    q := OneMore(h, p1, l, first, b);
    DeliversOnTwice(p, p1, q);
  }

  // ---- everything arrives ------------------------------------------------------------------------------

  ghost predicate AllThere(x: Side, y: Side) {
    y.received + Flatten(y.con.rqueue) == x.accepted
  }

  lemma AllReceived(x: Side, y: Side)
    requires Inv(x, y) && Rc(y) == |x.log|
    ensures AllThere(x, y)
  {
    assert x.log[..|x.log|] == x.log;
  }

  lemma NeverAhead(x: Side, y: Side)
    requires Inv(x, y)
    ensures Rc(y) <= Sent(x) <= |x.log| && x.accepted == Flatten(x.log)
  {
  }

  /** Whenever accepted data is missing at the receiver, one to three deliveries bring the receiver further. */
  lemma ProgressPossible(h: History, p: History, l: Limits, first: bool) returns (q: History)
    requires Follows(h, p, l) && Ready(Last(p), first)
    requires Rc(SideOf(Last(p), !first)) < |SideOf(Last(p), first).log|
    ensures Follows(h, q, l) && DeliversOn(p, q) && Ready(Last(q), first) && |q.acts| <= |p.acts| + 3
    ensures SideOf(Last(q), first).log == SideOf(Last(p), first).log
    ensures Rc(SideOf(Last(q), !first)) > Rc(SideOf(Last(p), !first))
  {
    hide Path;
    hide Timed;
    hide DeliversOn;
    hide Good;
    hide Inv;
    hide OnWire;
    hide Sent;
    hide Rc;
    PairsOk(Last(p), first);
    NeverAhead(SideOf(Last(p), first), SideOf(Last(p), !first));
    if Rc(SideOf(Last(p), !first)) < Sent(SideOf(Last(p), first)) {
      q := SentIsReceived(h, p, l, first);
    } else {
      var p1 := WindowOpens(h, p, l, first);
      q := SentIsReceived(h, p1, l, first);
      DeliversOnTwice(p, p1, q);
    }
  }

  lemma {:induction false} DeliverAll(h: History, p: History, l: Limits, first: bool) returns (q: History)
    requires Follows(h, p, l) && Ready(Last(p), first)
    ensures Follows(h, q, l) && DeliversOn(p, q) && BothOpen(Last(q))
    ensures AllThere(SideOf(Last(q), first), SideOf(Last(q), !first))
    ensures SideOf(Last(q), first).accepted == SideOf(Last(p), first).accepted
    decreases |SideOf(Last(p), first).log| - Rc(SideOf(Last(p), !first))
  {
    PairsOk(Last(p), first);
    NeverAhead(SideOf(Last(p), first), SideOf(Last(p), !first));
    hide Path;
    hide Timed;
    hide Good;
    hide Inv;
    hide OnWire;
    hide Rc;
    hide AllThere;
    if Rc(SideOf(Last(p), !first)) < |SideOf(Last(p), first).log| {
      hide DeliversOn;
      var p1 := ProgressPossible(h, p, l, first);
      PairsOk(Last(p1), first);
      NeverAhead(SideOf(Last(p1), first), SideOf(Last(p1), !first));
      q := DeliverAll(h, p1, l, first);
      DeliversOnTwice(p, p1, q);
    } else {
      AllReceived(SideOf(Last(p), first), SideOf(Last(p), !first));
      q := p;
    }
  }

  /** In every run what a side sent and still needs is on the wire. */
  lemma {:induction false} ReachableOnWire(h: History, n: nat, first: bool)
    requires Real(h) && n < |h.run|
    ensures OnWire(SideOf(h.run[n], first).con, SideOf(h.run[n], first).net)
  {
    hide OnWire;
    hide Good;
    hide Next;
    hide Init;
    hide Small;
    if n == 0 {
      OnWireAtFirst(h.run[0], first);
    } else {
      ReachableOnWire(h, n - 1, first);
      ReachableGood(h.run, h.who, h.acts, n - 1);
      var i := n - 1;
      OnWireNext(h.run[i], h.run[i + 1], h.who[i], h.acts[i], first);
    }
  }

  lemma OnWireAtFirst(s: System, first: bool)
    requires Init(s)
    ensures OnWire(SideOf(s, first).con, SideOf(s, first).net)
  {
    EmptyOnWire(SideOf(s, first).con, SideOf(s, first).net);
  }

  lemma OnWireNext(s: System, s': System, who: bool, a: Action, first: bool)
    requires Good(s) && Next(s, s', who, a) && OnWire(SideOf(s, first).con, SideOf(s, first).net)
    ensures OnWire(SideOf(s', first).con, SideOf(s', first).net)
  {
    hide OnWire;
    hide Inv;
    hide Apply;
    hide Enabled;
    PairsOk(s, first);
    if who == first {
      AlwaysDefined(SideOf(s, first), SideOf(s, !first), a);
      hide Defined;
      ApplyOnWire(SideOf(s, first), a);
    }
  }

  /** The end of a run, and nothing after it. */
  ghost function Standstill(h: History): History
    requires Real(h)
  {
    History([h.run[|h.run| - 1]], [], [])
  }

  /**
   Whatever the network has lost, repeated or reordered so far, while both sides are open every timed run goes on, by
   deliveries of segments on the wire alone, to a state in which the receiver has exactly the bytes its peer accepted.
   */
  lemma EverythingCanArrive(h: History, l: Limits, first: bool) returns (q: History)
    requires Real(h) && Timed(h.who, h.acts, l) && BothOpen(h.run[|h.run| - 1])
    ensures Follows(h, q, l) && DeliversOn(Standstill(h), q) && BothOpen(Last(q))
    ensures AllThere(SideOf(Last(q), first), SideOf(Last(q), !first))
    ensures SideOf(Last(q), first).accepted == SideOf(h.run[|h.run| - 1], first).accepted
    ensures Real(Joined(h, q)) && Timed(Joined(h, q).who, Joined(h, q).acts, l)
  {
    var n := |h.run| - 1;
    ReachableGood(h.run, h.who, h.acts, n);
    ReachableOnWire(h, n, first);
    var p := Standstill(h);
    assert h.who + [] == h.who && h.acts + [] == h.acts;
    hide Good;
    hide OnWire;
    hide AllThere;
    q := DeliverAll(h, p, l, first);
    assert q.run[0] == p.run[0];
    JoinedReal(h, q);
  }

  function Joined(h: History, q: History): History {
    if |q.run| == 0 then h else History(h.run + q.run[1..], h.who + q.who, h.acts + q.acts)
  }

  lemma JoinedReal(h: History, q: History)
    requires Real(h) && Path(q) && q.run[0] == h.run[|h.run| - 1]
    ensures Real(Joined(h, q))
  {
    hide Next;
    hide Small;
    hide Init;
    var j, n := Joined(h, q), |h.acts|;
    forall i | 0 <= i < |j.acts| ensures Next(j.run[i], j.run[i + 1], j.who[i], j.acts[i]) {
      if i < n {
        assert Next(h.run[i], h.run[i + 1], h.who[i], h.acts[i]);
      } else {
        var k := i - n;
        assert Next(q.run[k], q.run[k + 1], q.who[k], q.acts[k]);
        assert j.run[i] == q.run[k] && j.run[i + 1] == q.run[k + 1];
      }
    }
  }

  // ---- after a total loss --------------------------------------------------------------------------------

  /** No segment out has been waiting beyond the limit. */
  predicate Patient(c: Con, i: nat, maxRetrans: int) {
    forall k :: i <= k < c.ostand && k < |c.swnd| && !c.swnd[k].isAcked ==> c.swnd[k].rtSec <= maxRetrans
  }

  /** A tick leaves the connection open exactly if none has. */
  lemma {:induction false} TickExact(c: Con, i: nat, now: int, maxRetrans: int)
    requires SendWindowOk(c)
    ensures RetransmitFrom(c, i, now, maxRetrans).con.state == if Patient(c, i, maxRetrans) then c.state else Closed
    decreases c.ostand - i
  {
    hide SlotsOk;
    SlotsCounted(c);
    if i < c.ostand {
      var s := c.swnd[i];
      ResentOk(c, i, now);
      if !s.isAcked && s.rtSec <= maxRetrans && now - s.sentTime > s.rtSec {
        var c1 := RetransmitOne(c, i, now).con;
        TickExact(c1, i + 1, now, maxRetrans);
        assert forall k :: i < k < c.ostand ==> c1.swnd[k] == c.swnd[k];
      } else if s.isAcked || s.rtSec <= maxRetrans {
        TickExact(c, i + 1, now, maxRetrans);
      }
    }
  }

  lemma {:induction false} LateEnough(c: Con, n: nat, t: int) returns (now: int)
    requires n <= |c.swnd|
    ensures now >= t && forall k :: 0 <= k < n ==> now - c.swnd[k].sentTime > c.swnd[k].rtSec
  {
    if n == 0 {
      now := t;
    } else {
      now := LateEnough(c, n - 1, t);
      var due := c.swnd[n - 1].sentTime + c.swnd[n - 1].rtSec + 1;
      now := if now > due then now else due;
    }
  }

  /** Such a tick puts every one of them on the wire, whatever was there before. */
  lemma {:induction false} AllResent(c: Con, i: nat, now: int, maxRetrans: int, net: set<Segment>)
    requires SendWindowOk(c) && i <= c.ostand && Airborne(c, net, i) && Patient(c, i, maxRetrans)
    requires forall k :: i <= k < c.ostand ==> now - c.swnd[k].sentTime > c.swnd[k].rtSec
    ensures var r := RetransmitFrom(c, i, now, maxRetrans); OnWire(r.con, net + SetOf(r.out))
    decreases c.ostand - i
  {
    hide Carries;
    assert SetOf([]) == {};
    if i == c.ostand {
      AirMore(c, net, {}, i);
    } else if c.swnd[i].isAcked {
      AllResent(c, i + 1, now, maxRetrans, net);
    } else {
      var first := RetransmitOne(c, i, now);
      ResentSlotCarried(c, i, now);
      SlotSent(c, net, i, first.con, i, first.out[0]);
      AllResent(first.con, i + 1, now, maxRetrans, net + {first.out[0]});
      OneThenRest(net, first.out[0], RetransmitFrom(first.con, i + 1, now, maxRetrans).out);
    }
  }

  /** Every segment in the network is lost. */
  function Silenced(s: System): System {
    System(s.a.(net := {}), s.b.(net := {}))
  }

  lemma SilencedFlow(s: Side, r: Side)
    requires Flow(s, r)
    ensures Flow(s.(net := {}), r.(net := {}))
  {
    var s', r' := s.(net := {}), r.(net := {});
    forall i | s.heard && 0 <= i < s.con.ostand <= |s.con.swnd| && s.con.swnd[i].isAcked
      ensures EackedNo(s', r', s.con.swnd[i].seqnum)
    {
      assert EackedNo(s, r, s.con.swnd[i].seqnum);
    }
  }

  lemma SilencedGood(s: System)
    requires Good(s)
    ensures Good(Silenced(s))
  {
    SilencedFlow(s.a, s.b);
    SilencedFlow(s.b, s.a);
    SilencedLocal(s.a);
    SilencedLocal(s.b);
    hide Flow;
    hide Local;
  }

  lemma SilencedLocal(x: Side)
    requires Local(x)
    ensures Local(x.(net := {}))
  {
  }

  /** One late tick of the sender. */
  lemma TickResends(x: Side, y: Side, t: int, maxRetrans: int, ackDue: bool) returns (now: int)
    requires Inv(x, y) && Settled(x) && x.con.state.Open? && Patient(x.con, 0, maxRetrans)
    ensures var a := OpenTicks(now, maxRetrans, ackDue);
            && now >= t && Enabled(x, y, a) && Defined(x, a) && Apply(x, a).log == x.log && Apply(x, a).accepted == x.accepted
            && Apply(x, a).con.state.Open? && OnWire(Apply(x, a).con, Apply(x, a).net)
  {
    hide Inv;
    hide Carries;
    BasicStates(x, y);
    AlwaysDefined(x, y, OpenTicks(t, maxRetrans, ackDue));
    Basics(x, y);
    now := LateEnough(x.con, x.con.ostand, t);
    TickExact(x.con, 0, now, maxRetrans);
    AllResent(x.con, 0, now, maxRetrans, x.net);
    hide RetransmitFrom;
    hide DelayedAck;
    hide OnWire;
    var a := RetransmitFrom(x.con, 0, now, maxRetrans);
    if ackDue {
      var d := DelayedAck(a.con);
      SameWindowOnWire(a.con, d.con, x.net + SetOf(a.out), SetOf(d.out));
      SetOfConcat(a.out, d.out);
      assert x.net + SetOf(a.out + d.out) == x.net + SetOf(a.out) + SetOf(d.out);
    }
  }

  /**
   Even if the network has lost everything it carried: if no segment of the sender has been waiting beyond its retry
   limit, one tick of the sender and deliveries of what is sent from then on bring the receiver all the sender accepted.
   */
  lemma LossIsRepaired(h: History, l: Limits, first: bool, ackDue: bool) returns (q: History)
    requires Real(h) && Timed(h.who, h.acts, l) && BothOpen(h.run[|h.run| - 1])
    requires Patient(SideOf(h.run[|h.run| - 1], first).con, 0, LimitOf(l, first))
    ensures Follows(h, q, l) && q.run[0] == Silenced(h.run[|h.run| - 1]) && BothOpen(Last(q))
    ensures |q.acts| > 0 && q.acts[0].OpenTicks? && q.who[0] == first && forall i :: 0 < i < |q.acts| ==> q.acts[i].Deliver?
    ensures AllThere(SideOf(Last(q), first), SideOf(Last(q), !first))
    ensures SideOf(Last(q), first).accepted == SideOf(h.run[|h.run| - 1], first).accepted
  {
    hide Good;
    hide Inv;
    hide Path;
    hide Timed;
    hide OnWire;
    hide AllThere;
    hide Patient;
    hide Apply;
    hide Defined;
    SilencedStart(h, l);
    var p := History([Silenced(h.run[|h.run| - 1])], [], []);
    var s := Last(p);
    PairsOk(s, first);
    SamePatience(h.run[|h.run| - 1], first, LimitOf(l, first));
    var now := TickResends(SideOf(s, first), SideOf(s, !first), Now(h, p, l, first), LimitOf(l, first), ackDue);
    var p1 := OneMore(h, p, l, first, OpenTicks(now, LimitOf(l, first), ackDue));
    q := DeliverAll(h, p1, l, first);
    FirstStepKept(p1, q);
  }

  lemma SilencedStart(h: History, l: Limits)
    requires Real(h) && Timed(h.who, h.acts, l)
    ensures var s := Silenced(h.run[|h.run| - 1]);
            Follows(h, History([s], [], []), l) && Good(s)
  {
    hide Next;
    hide Inv;
    hide Timed;
    var n := |h.run| - 1;
    ReachableGood(h.run, h.who, h.acts, n);
    SilencedGood(h.run[n]);
    assert Small(h.run[n]);
    assert h.who + [] == h.who && h.acts + [] == h.acts;
  }

  lemma SamePatience(s: System, first: bool, maxRetrans: int)
    requires Patient(SideOf(s, first).con, 0, maxRetrans)
    ensures Patient(SideOf(Silenced(s), first).con, 0, maxRetrans)
  {
  }

  lemma FirstStepKept(p: History, q: History)
    requires DeliversOn(p, q) && |p.run| == 2 && |p.acts| == |p.who| == 1
    ensures |q.run| > 0 && |q.acts| > 0 && |q.who| > 0
    ensures q.run[0] == p.run[0] && q.acts[0] == p.acts[0] && q.who[0] == p.who[0]
    ensures forall i :: 0 < i < |q.acts| ==> q.acts[i].Deliver?
  {
  }

  /** That condition is exact: a tick, whenever it comes, ends the connection if and only if it fails. */
  lemma ImpatienceEnds(c: Con, now: int, maxRetrans: int, ackDue: bool)
    requires Wf(c) && c.state.Open?
    ensures OpenTick(c, now, maxRetrans, ackDue).con.state.Closed? <==> !Patient(c, 0, maxRetrans)
  {
    TickExact(c, 0, now, maxRetrans);
    hide RetransmitFrom;
    hide DelayedAck;
  }

  /** The retry limit a host starts with. */
  const MAX_RETRANS: int := 32

  /** Ticks at the given times, until the connection is no longer open. */
  function Ticks(c: Con, times: seq<int>): Con
    requires Wf(c)
    decreases |times|
  {
    if times == [] || !c.state.Open? then c
    else Ticks(OpenTick(c, times[0], MAX_RETRANS, false).con, times[1..])
  }

  /** One sent segment, as its timer stands. */
  function Waiting(c: Con, sentTime: int, rtSec: int): Con
    requires |c.swnd| == 1
  {
    c.(swnd := [c.swnd[0].(sentTime := sentTime, rtSec := rtSec)])
  }

  lemma LateTick(c: Con, t: int, rt: int, now: int)
    requires Wf(c) && c.state.Open? && |c.swnd| == c.ostand == 1 && !c.swnd[0].isAcked && rt <= MAX_RETRANS && now - t > rt
    ensures Wf(Waiting(c, t, rt)) && OpenTick(Waiting(c, t, rt), now, MAX_RETRANS, false).con == Waiting(c, now, 2 * rt)
  {
    var w := Waiting(c, t, rt);
    var first := RetransmitOne(w, 0, now);
    assert SlotsOk(w.swnd, w.ostand, w.sndUna);
    assert first.con == Waiting(c, now, 2 * rt);
    assert RetransmitFrom(first.con, 1, now, MAX_RETRANS) == Step(first.con, []);
  }

  /** Six tries in a little over a minute, and at the tick after them, whenever it comes, the connection is broken. */
  lemma PatienceRunsOut(c: Con, now: int, ackDue: bool)
    requires Wf(c) && c.state.Open? && |c.swnd| == c.ostand == 1 && !c.swnd[0].isAcked
    ensures var c0 := Waiting(c, 0, 1);
            Wf(c0) && Ticks(c0, [2, 5, 10, 19, 36, 69]) == Waiting(c, 69, 64)
    ensures Wf(Waiting(c, 69, 64)) && OpenTick(Waiting(c, 69, 64), now, MAX_RETRANS, ackDue).con.state.Closed?
  {
    hide OpenTick;
    hide SendWindowOk;
    hide RecvWindowOk;
    LateTick(c, 0, 1, 2);
    LateTick(c, 2, 2, 5);
    LateTick(c, 5, 4, 10);
    LateTick(c, 10, 8, 19);
    LateTick(c, 19, 16, 36);
    LateTick(c, 36, 32, 69);
    TicksOnce(Waiting(c, 0, 1), [2, 5, 10, 19, 36, 69]);
    TicksOnce(Waiting(c, 2, 2), [5, 10, 19, 36, 69]);
    TicksOnce(Waiting(c, 5, 4), [10, 19, 36, 69]);
    TicksOnce(Waiting(c, 10, 8), [19, 36, 69]);
    TicksOnce(Waiting(c, 19, 16), [36, 69]);
    TicksOnce(Waiting(c, 36, 32), [69]);
    var w := Waiting(c, 69, 64);
    assert w.swnd[0].rtSec > MAX_RETRANS;
    ImpatienceEnds(w, now, MAX_RETRANS, ackDue);
  }

  lemma TicksOnce(c: Con, times: seq<int>)
    requires Wf(c) && c.state.Open? && times != []
    ensures Ticks(c, times) == Ticks(OpenTick(c, times[0], MAX_RETRANS, false).con, times[1..])
  {
  }
}
