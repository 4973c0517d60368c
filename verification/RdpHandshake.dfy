/**
 Opening and closing a connection: every handshake that is under way can complete, unless both sides have received the other's
 SYN before sending their own acknowledgement; two such sides repeat their SYNs for ever.
 */
module RdpHandshake {
  import opened SeqNum
  import opened Seqs
  import opened Bytes
  import opened Segments
  import opened RdpSpec
  import opened RdpSystem
  import opened RdpProof
  import opened RdpProofReceive
  import opened RdpProofStep
  import opened RdpTheorems
  import opened RdpOnWire
  import opened RdpProgress

  // ---- what opens a connection ---------------------------------------------------------------

  /** An acknowledgement of the own first number that a connection in SYN-RCVD accepts. */
  predicate Confirms(c: Con, s: Segment) {
    SynRcvdAccepts(c, s.seqnum) && !s.rst && !s.syn && !s.eak && s.ack && s.acknum == c.sndIss
  }

  /** A connection in SYN-RCVD opens exactly on such a segment; a passive one only while its port is listened on. */
  lemma ConfirmedExact(c: Con, s: Segment, listening: bool)
    requires Wf(c) && c.state.SynRcvd?
    ensures InSynRcvd(c, s, listening).con.state.Open? <==> Confirms(c, s) && (!c.pasv || listening)
    ensures InSynRcvd(c, s, listening).con.state.CloseWaitActive? <==> Confirms(c, s) && c.pasv && !listening
  {
    hide RecvData;
    hide DelayedAck;
    hide SendWindowOk;
    hide RecvWindowOk;
  }

  /** A connection in SYN-SENT opens exactly on a SYN that acknowledges its own first number, and then says so. */
  lemma GreetedExact(c: Con, s: Segment)
    requires c.state.SynSent?
    ensures var r := InSynSent(c, s);
            && (r.con.state.Open? <==> s.syn && s.ack && !s.rst && s.acknum == c.sndIss && |s.body| >= 4)
            && (r.con.state.Open? ==> r.out == [AckSeg(r.con)] && r.con.rcvCur == s.seqnum)
            && (r.con.state.SynRcvd? <==> s.syn && !s.ack && !s.rst && |s.body| >= 4)
            && (r.con.state.Closed? <==> s.rst && s.ack)
            && (s.ack && !s.rst && s.acknum != c.sndIss ==> |r.out| == 1 && Rejects(r.out[0], s) && r.con == c)
  {
  }

  /** A reset numbered one after what the segment acknowledges. */
  predicate Rejects(a: Segment, s: Segment) {
    a.rst && !a.ack && a.seqnum == Add32(s.acknum, 1)
  }

  /** A connection in SYN-RCVD ends exactly on an acceptable reset or on another SYN; what it cannot accept it answers with an ack. */
  lemma SynRcvdEndsExactly(c: Con, s: Segment, listening: bool)
    requires Wf(c) && c.state.SynRcvd?
    ensures var r := InSynRcvd(c, s, listening);
            var again := s.syn && s.seqnum == c.rcvCur;
            && (r.con.state.Closed? <==> !again && SynRcvdAccepts(c, s.seqnum) && (s.rst || s.syn))
            && (!again && !SynRcvdAccepts(c, s.seqnum) ==> r.out == [AckSeg(c)])
            && (again ==> |r.out| == 1 && r.out[0].syn && r.con == c)
            && (!again && SynRcvdAccepts(c, s.seqnum) && !s.rst && !s.syn && !s.eak && s.ack && s.acknum != c.sndIss ==>
                  |r.out| == 1 && Rejects(r.out[0], s))
            && (!again && SynRcvdAccepts(c, s.seqnum) && !s.rst && !s.syn && s.eak ==>
                  |r.out| == 1 && r.con == c && r.out[0].rst && r.out[0].seqnum == s.acknum % 0x100 + 1)
  {
    hide RecvData;
    hide DelayedAck;
    hide SendWindowOk;
    hide RecvWindowOk;
    hide SynRcvdAccepts;
  }

  /** A listener is called exactly by a SYN without other flags that is long enough, and answers an ack or a NUL with a reset. */
  lemma ListenerExact(c: Con, s: Segment, iss: U32)
    requires c.state.Listen?
    ensures var r := InListen(c, s, iss);
            && (r.con.state.SynRcvd? <==> ListenerTakes(s)) && (!ListenerTakes(s) ==> r.con == c)
            && (ListenerTakes(s) ==> r.con.sndIss == iss && r.con.rcvIrs == s.seqnum && r.con.pasv)
            && (!s.rst && (s.ack || s.nul) ==> |r.out| == 1 && Rejects(r.out[0], s))
  {
  }

  // ---- SYNs are on the wire ---------------------------------------------------------------------

  /** Who is opening has said so, and has accepted nothing from its user yet. */
  ghost predicate SynOnWire(x: Side) {
    && (x.con.state.SynSent? ==> SynSeg(x.con) in x.net)
    && (x.con.state.SynRcvd? ==> SynAckSeg(x.con) in x.net && x.log == [])
  }

  lemma NothingYet(x: Side, y: Side)
    requires Inv(x, y)
    ensures x.con.state.SynSent? || x.con.state.Listen? ==> x.log == []
  {
  }

  /** A step leaves a connection in SYN-SENT as it was, and in SYN-RCVD as it was or with its answer just sent. */
  ghost predicate SpokeUp(c: Con, r: Step) {
    && (r.con.state.SynSent? ==> (c.state.SynSent? && r.con == c) || SynSeg(r.con) in r.out)
    && (r.con.state.SynRcvd? ==>
          || (c.state.SynRcvd? && SynAckSeg(r.con) == SynAckSeg(c))
          || ((c.state.Listen? || c.state.SynSent?) && SynAckSeg(r.con) in r.out))
  }

  lemma EarlySpeaksUp(c: Con, s: Segment, iss: U32)
    ensures c.state.Listen? ==> SpokeUp(c, InListen(c, s, iss))
    ensures c.state.SynSent? ==> SpokeUp(c, InSynSent(c, s))
  {
  }

  lemma SynRcvdSpeaksUp(c: Con, s: Segment, listening: bool)
    requires Wf(c) && c.state.SynRcvd?
    ensures SpokeUp(c, InSynRcvd(c, s, listening))
  {
    hide RecvData;
    hide DelayedAck;
    hide SendWindowOk;
    hide RecvWindowOk;
    hide SynRcvdAccepts;
  }

  lemma OpenSpeaksUp(c: Con, s: Segment, now: int)
    requires Wf(c) && c.state.Open? && EackListPresent(s)
    ensures SpokeUp(c, InOpen(c, s, now))
  {
    hide InOpenAcks;
    hide RecvData;
    hide DelayedAck;
    hide SynSeg;
    hide SynAckSeg;
  }

  lemma InputSpeaksUp(c: Con, s: Segment, listening: bool, iss: U32, now: int)
    requires Wf(c) && SynSentOk(c) && EackListPresent(s)
    ensures SpokeUp(c, Input(c, s, listening, iss, now))
  {
    hide SendWindowOk;
    hide RecvWindowOk;
    hide InListen;
    hide InSynSent;
    hide InSynRcvd;
    hide InOpen;
    EarlySpeaksUp(c, s, iss);
    if c.state.SynRcvd? {
      SynRcvdSpeaksUp(c, s, listening);
    } else if c.state.Open? {
      OpenSpeaksUp(c, s, now);
    }
  }

  lemma OthersSpeakUp(c: Con, iss: U32, giveUp: bool)
    requires Wf(c)
    ensures SpokeUp(c, Connect(c, iss)) && SpokeUp(c, Close(c)) && SpokeUp(c, SynTick(c, giveUp)) && SpokeUp(c, RstTick(c, giveUp))
  {
    hide DelayedAck;
    hide SendWindowOk;
    hide RecvWindowOk;
    assert SynSeg(Connect(c, iss).con) in Connect(c, iss).out;
  }

  lemma TickSpeaksUp(c: Con, now: int, maxRetrans: int, ackDue: bool)
    requires Wf(c) && c.state.Open?
    ensures SpokeUp(c, OpenTick(c, now, maxRetrans, ackDue))
  {
    hide RetransmitFrom;
    hide DelayedAck;
  }

  lemma PutSpokeUp(x: Side, y: Side, r: Step)
    requires Inv(x, y) && SynOnWire(x) && SpokeUp(x.con, r)
    ensures SynOnWire(Put(x, r))
  {
    NothingYet(x, y);
    hide Inv;
    hide SynSeg;
    hide SynAckSeg;
  }

  lemma ApplySynOnWire(x: Side, y: Side, a: Action)
    requires Inv(x, y) && Defined(x, a) && SynOnWire(x)
    ensures SynOnWire(Apply(x, a))
  {
    hide Inv;
    hide SynOnWire;
    hide SpokeUp;
    hide Input;
    hide Connect;
    hide Close;
    hide OpenTick;
    hide SynTick;
    hide RstTick;
    hide SendChunks;
    hide SendWindowOk;
    hide RecvWindowOk;
    hide InputDefined;
    var c := x.con;
    match a
    case Connecting(iss) =>
      OthersSpeakUp(c, iss, false);
      PutSpokeUp(x, y, Connect(c, iss));
    case Deliver(seg, listening, iss, now) =>
      Present(c, seg, now);
      InputSpeaksUp(c, seg, listening, iss, now);
      PutSpokeUp(x, y, Input(c, seg, listening, iss, now));
    case Sends(buf, now) => SendsSyn(x, buf, now);
    case Receives(room) => ReceivesSyn(x, room);
    case Closes =>
      OthersSpeakUp(c, 0, false);
      PutSpokeUp(x, y, Close(c));
    case OpenTicks(now, maxRetrans, ackDue) =>
      TickSpeaksUp(c, now, maxRetrans, ackDue);
      PutSpokeUp(x, y, OpenTick(c, now, maxRetrans, ackDue));
    case SynTicks(giveUp) =>
      OthersSpeakUp(c, 0, giveUp);
      PutSpokeUp(x, y, SynTick(c, giveUp));
    case RstTicks(giveUp) =>
      OthersSpeakUp(c, 0, giveUp);
      PutSpokeUp(x, y, RstTick(c, giveUp));
  }

  lemma Present(c: Con, s: Segment, now: int)
    requires Wf(c) && InputDefined(c, s, now)
    ensures EackListPresent(s)
  {
  }

  lemma SendsSyn(x: Side, buf: seq<Byte>, now: int)
    requires SynOnWire(x) && Defined(x, Sends(buf, now))
    ensures SynOnWire(Apply(x, Sends(buf, now)))
  {
    hide SendChunks;
    hide SynSeg;
    hide SynAckSeg;
    hide SendWindowOk;
    hide RecvWindowOk;
  }

  lemma ReceivesSyn(x: Side, room: int)
    requires SynOnWire(x) && Defined(x, Receives(room))
    ensures SynOnWire(Apply(x, Receives(room)))
  {
    hide Fitting;
    hide Flatten;
  }

  lemma {:induction false} ReachableSyn(h: History, n: nat, first: bool)
    requires Real(h) && n < |h.run|
    ensures SynOnWire(SideOf(h.run[n], first))
  {
    hide SynOnWire;
    hide Good;
    hide Next;
    hide Init;
    hide Small;
    if n == 0 {
      SynAtFirst(h.run[0], first);
    } else {
      ReachableSyn(h, n - 1, first);
      ReachableGood(h.run, h.who, h.acts, n - 1);
      var i := n - 1;
      SynNext(h.run[i], h.run[i + 1], h.who[i], h.acts[i], first);
    }
  }

  lemma SynAtFirst(s: System, first: bool)
    requires Init(s)
    ensures SynOnWire(SideOf(s, first))
  {
  }

  lemma SynNext(s: System, s': System, who: bool, a: Action, first: bool)
    requires Good(s) && Next(s, s', who, a) && SynOnWire(SideOf(s, first))
    ensures SynOnWire(SideOf(s', first))
  {
    hide SynOnWire;
    hide Inv;
    hide Apply;
    hide Enabled;
    PairsOk(s, first);
    if who == first {
      AlwaysDefined(SideOf(s, first), SideOf(s, !first), a);
      hide Defined;
      ApplySynOnWire(SideOf(s, first), SideOf(s, !first), a);
    }
  }

  // ---- the three deliveries ------------------------------------------------------------------------

  /** A side that is opening knows nothing of its peer's data, nor the peer of its. */
  lemma OpeningNumbers(x: Side, y: Side)
    requires Inv(x, y) && x.con.state.SynSent?
    ensures Sent(x) == 0 && Rc(y) == 0 && (y.heard ==> y.con.rcvCur == x.con.sndIss)
  {
    if y.heard {
      AddSub(y.con.rcvIrs, y.con.rcvCur);
    }
  }

  /** The SYN reaches a listener, or another side that is opening. */
  lemma SynArrives(x: Side, y: Side, iss: U32, now: int)
    requires Inv(x, y) && Settled(y) && x.con.state.SynSent? && (y.con.state.Listen? || y.con.state.SynSent?)
    requires SynSeg(x.con) in x.net
    ensures var b := Deliver(SynSeg(x.con), true, iss, now);
            && Enabled(y, x, b) && Defined(y, b) && Apply(y, b).log == y.log == []
            && Apply(y, b).con.state.SynRcvd? && SynAckSeg(Apply(y, b).con) in Apply(y, b).net
  {
    NothingYet(y, x);
    AlwaysDefined(y, x, Deliver(SynSeg(x.con), true, iss, now));
    SynFacts(y, x, SynSeg(x.con));
    hide Inv;
    hide InputDefined;
  }

  /** The answer reaches the side that sent the SYN. */
  lemma SynAckArrives(x: Side, y: Side, now: int)
    requires Inv(x, y) && Settled(x) && x.con.state.SynSent? && y.con.state.SynRcvd? && SynAckSeg(y.con) in y.net
    ensures var b := Deliver(SynAckSeg(y.con), true, 0, now);
            && Enabled(x, y, b) && Defined(x, b) && Apply(x, b).log == x.log
            && Apply(x, b).con.state.Open? && AckSeg(Apply(x, b).con) in Apply(x, b).net
  {
    var s := SynAckSeg(y.con);
    var b := Deliver(s, true, 0, now);
    OpeningNumbers(x, y);
    BasicStates(y, x);
    AlwaysDefined(x, y, b);
    SynFacts(x, y, s);
    hide Inv;
    hide InputDefined;
    GreetedExact(x.con, s);
    var r := InSynSent(x.con, s);
    assert Apply(x, b) == Put(x, r);
    hide InSynSent;
    hide Input;
    assert AckSeg(r.con) in r.out;
  }

  /** Or a side that is open already, whose ack was lost: it acknowledges again. */
  lemma SynAckRepeated(x: Side, y: Side, now: int)
    requires Inv(x, y) && Settled(x) && x.con.state.Open? && y.con.state.SynRcvd? && SynAckSeg(y.con) in y.net
    ensures var b := Deliver(SynAckSeg(y.con), true, 0, now);
            && Enabled(x, y, b) && Defined(x, b) && Apply(x, b).log == x.log
            && Apply(x, b).con.state.Open? && AckSeg(Apply(x, b).con) in Apply(x, b).net
  {
    var s := SynAckSeg(y.con);
    var b := Deliver(s, true, 0, now);
    BasicStates(x, y);
    AlwaysDefined(x, y, b);
    SynRejectedWhenOpen(x, y, s);
    hide Inv;
    hide InputDefined;
    var r := InOpen(x.con, s, now);
    assert Apply(x, b) == Put(x, r);
    assert AckSeg(r.con) in r.out;
  }

  lemma AckNumbers(x: Side, y: Side)
    requires Inv(x, y) && x.heard && y.con.state.SynRcvd? && y.log == []
    ensures Confirms(y.con, AckSeg(x.con))
  {
    NextNumber(x, y);
    AddSub(y.con.sndIss, x.con.rcvCur);
    AddSub(x.con.sndIss, y.con.rcvCur);
    AddSub(x.con.sndIss, Sent(x) + 1);
    AddAdd(x.con.sndIss, Rc(y), 2048);
    AddSub(x.con.sndIss, Rc(y) + 2048);
  }

  /** The ack reaches the side that is waiting for it. */
  lemma AckOpens(x: Side, y: Side, now: int)
    requires Inv(x, y) && Settled(y) && x.con.state.Open? && y.con.state.SynRcvd? && y.log == [] && AckSeg(x.con) in x.net
    ensures var b := Deliver(AckSeg(x.con), true, 0, now);
            Enabled(y, x, b) && Defined(y, b) && Apply(y, b).log == y.log && Apply(y, b).con.state.Open?
  {
    var b := Deliver(AckSeg(x.con), true, 0, now);
    BasicStates(x, y);
    AlwaysDefined(y, x, b);
    AckNumbers(x, y);
    hide Inv;
    hide InputDefined;
    ConfirmedExact(y.con, AckSeg(x.con), true);
  }

  // ---- as runs ----------------------------------------------------------------------------------------

  /** Side `first` is opening, and the other is listening, opening too, or has answered; or only the last ack is missing. */
  predicate UnderWay(s: System, first: bool) {
    var x, y := SideOf(s, first).con.state, SideOf(s, !first).con.state;
    (x.SynSent? && (y.Listen? || y.SynSent? || y.SynRcvd?)) || (x.Open? && y.SynRcvd?)
  }

  predicate SameLogs(s: System, s': System) {
    s'.a.log == s.a.log && s'.b.log == s.b.log
  }

  /** The segment the next step of the handshake needs is on the wire. */
  ghost predicate Spoken(s: System, first: bool) {
    var x, y := SideOf(s, first), SideOf(s, !first);
    if y.con.state.SynRcvd? then SynAckSeg(y.con) in y.net && y.log == [] else SynSeg(x.con) in x.net
  }

  lemma {:induction false} LastTwo(h: History, p: History, l: Limits, first: bool) returns (q: History)
    requires Follows(h, p, l) && Good(Last(p)) && SideOf(Last(p), !first).con.state.SynRcvd? && Spoken(Last(p), first)
    requires SideOf(Last(p), first).con.state.SynSent? || SideOf(Last(p), first).con.state.Open?
    ensures Follows(h, q, l) && DeliversOn(p, q) && Good(Last(q)) && BothOpen(Last(q)) && SameLogs(Last(p), Last(q))
    ensures |q.acts| == |p.acts| + 2
  {
    hide Apply;
    hide Defined;
    hide Path;
    hide Timed;
    hide DeliversOn;
    hide Good;
    hide Inv;
    hide AckSeg;
    hide SynAckSeg;
    PairsOk(Last(p), first);
    var x, y := SideOf(Last(p), first), SideOf(Last(p), !first);
    var now := Now(h, p, l, first);
    if x.con.state.SynSent? {
      SynAckArrives(x, y, now);
    } else {
      SynAckRepeated(x, y, now);
    }
    var p1 := OneMore(h, p, l, first, Deliver(SynAckSeg(y.con), true, 0, now));
    PairsOk(Last(p1), first);
    var x1 := SideOf(Last(p1), first);
    var now1 := Now(h, p1, l, !first);
    AckOpens(x1, y, now1);
    q := OneMore(h, p1, l, !first, Deliver(AckSeg(x1.con), true, 0, now1));
    DeliversOnTwice(p, p1, q);
  }

  lemma Shake(h: History, p: History, l: Limits, first: bool, iss: U32) returns (q: History)
    requires Follows(h, p, l) && Good(Last(p)) && UnderWay(Last(p), first) && Spoken(Last(p), first)
    ensures Follows(h, q, l) && DeliversOn(p, q) && Good(Last(q)) && BothOpen(Last(q)) && SameLogs(Last(p), Last(q))
    ensures |q.acts| <= |p.acts| + 3
  {
    hide Apply;
    hide Defined;
    hide Path;
    hide Timed;
    hide DeliversOn;
    hide Good;
    hide Inv;
    hide SynSeg;
    hide SynAckSeg;
    if SideOf(Last(p), !first).con.state.SynRcvd? {
      q := LastTwo(h, p, l, first);
    } else {
      PairsOk(Last(p), first);
      var x, y := SideOf(Last(p), first), SideOf(Last(p), !first);
      var now := Now(h, p, l, !first);
      SynArrives(x, y, iss, now);
      var p1 := OneMore(h, p, l, !first, Deliver(SynSeg(x.con), true, iss, now));
      q := LastTwo(h, p1, l, first);
      DeliversOnTwice(p, p1, q);
    }
  }

  /** In every timed run with a handshake under way, at most three deliveries of segments on the wire open both sides. */
  lemma HandshakeCompletes(h: History, l: Limits, first: bool, iss: U32) returns (q: History)
    requires Real(h) && Timed(h.who, h.acts, l) && UnderWay(h.run[|h.run| - 1], first)
    ensures Follows(h, q, l) && DeliversOn(Standstill(h), q) && |q.acts| <= 3
    ensures BothOpen(Last(q)) && SameLogs(h.run[|h.run| - 1], Last(q))
    ensures Real(Joined(h, q)) && Timed(Joined(h, q).who, Joined(h, q).acts, l)
    ensures Joined(h, q).run[|Joined(h, q).run| - 1] == Last(q)
  {
    hide Good;
    hide Next;
    hide Init;
    hide Small;
    hide Timed;
    var n := |h.run| - 1;
    ReachableGood(h.run, h.who, h.acts, n);
    ReachableSyn(h, n, first);
    ReachableSyn(h, n, !first);
    var p := Standstill(h);
    StandstillFollows(h, l);
    q := Shake(h, p, l, first, iss);
    assert q.run[0] == p.run[0];
    JoinedReal(h, q);
  }

  // ---- after a total loss ---------------------------------------------------------------------------------

  /** The tick of a side that is opening, and has not given up, says again what it said last. */
  lemma TickSpeaks(x: Side, y: Side)
    requires Inv(x, y) && Settled(x) && (x.con.state.SynSent? || x.con.state.SynRcvd?)
    ensures var a := SynTicks(false);
            && Enabled(x, y, a) && Defined(x, a) && Apply(x, a).log == x.log && Apply(x, a).con == x.con
            && (if x.con.state.SynRcvd? then SynAckSeg(x.con) else SynSeg(x.con)) in Apply(x, a).net
  {
    AlwaysDefined(x, y, SynTicks(false));
    hide Inv;
    var r := SynTick(x.con, false);
    assert r.out[0] in r.out;
  }

  /** Even if the network has lost everything it carried, one tick and at most three deliveries open both sides. */
  lemma HandshakeSurvivesLoss(h: History, l: Limits, first: bool, iss: U32) returns (q: History)
    requires Real(h) && Timed(h.who, h.acts, l) && UnderWay(h.run[|h.run| - 1], first)
    ensures Follows(h, q, l) && q.run[0] == Silenced(h.run[|h.run| - 1]) && BothOpen(Last(q))
    ensures 0 < |q.acts| <= 4 && q.acts[0] == SynTicks(false) && forall i :: 0 < i < |q.acts| ==> q.acts[i].Deliver?
  {
    hide Good;
    hide Inv;
    hide Path;
    hide Timed;
    hide Apply;
    hide Defined;
    hide SynSeg;
    hide SynAckSeg;
    var n := |h.run| - 1;
    SilencedStart(h, l);
    ReachableSyn(h, n, !first);
    var p := History([Silenced(h.run[n])], [], []);
    var s := Last(p);
    PairsOk(s, first);
    var who := if SideOf(s, !first).con.state.SynRcvd? then !first else first;
    TickSpeaks(SideOf(s, who), SideOf(s, !who));
    var p1 := OneMore(h, p, l, who, SynTicks(false));
    q := Shake(h, p1, l, first, iss);
    FirstStepKept(p1, q);
  }

  // ---- from the first SYN to the last byte --------------------------------------------------------------------

  /** `send` takes everything there is room for. */
  lemma {:induction false} SendTakesAll(c: Con, buf: seq<Byte>, now: int)
    requires SendWindowOk(c) && NoStall(c) && c.state.Open? && ChunkSize(c) > 0
    requires 0 < |buf| <= ChunkSize(c) * (4 * c.sndMax as int - |c.swnd|)
    ensures var r := SendChunks(c, buf, now);
            r.total == |buf| && |r.step.con.swnd| == |c.swnd| + |r.chunks|
    decreases |buf|
  {
    hide SendOstand;
    hide SlotsOk;
    var size := FirstSize(c, buf);
    var room := 4 * c.sndMax as int - |c.swnd|;
    OneLess(ChunkSize(c), room);
    SendChunksCases(c, buf, now);
    hide SendChunks;
    if size < |buf| {
      SendTakesAll(Enqueue(c, buf[..size], now).con, buf[size..], now);
    }
  }

  lemma OneLess(a: int, n: int)
    requires a > 0
    ensures a * n == a * (n - 1) + a && (a * n > 0 ==> n > 0)
  {
    if n <= 0 {
      assert a * n <= 0;
    }
  }

  /** The user of an open connection whose log is empty sends. */
  lemma FirstSend(x: Side, y: Side, buf: seq<Byte>, now: int)
    requires Inv(x, y) && Settled(x) && x.con.state.Open? && x.log == [] && 0 < |buf| <= 3_538_944
    ensures var a := Sends(buf, now);
            Enabled(x, y, a) && Defined(x, a) && |Apply(x, a).log| < LIMIT && Apply(x, a).con.state.Open? && Apply(x, a).accepted == buf
  {
    hide Inv;
    hide SendChunks;
    hide RecvWindowOk;
    hide SlotsOk;
    var a := Sends(buf, now);
    BasicStates(x, y);
    AlwaysDefined(x, y, a);
    Basics(x, y);
    NothingBuffered(x, y);
    SendTakesAll(x.con, buf, now);
    var r := SendChunks(x.con, buf, now);
    SlotsBounded(r.step.con);
    assert Taken(buf, |buf|) == buf;
  }

  lemma NothingBuffered(x: Side, y: Side)
    requires Inv(x, y) && x.log == []
    ensures x.con.swnd == [] && x.accepted == []
  {
  }

  lemma SlotsBounded(c: Con)
    requires SendWindowOk(c)
    ensures |c.swnd| <= 4 * c.sndMax as int
  {
  }

  lemma StepOn(h: History, l: Limits, first: bool, a: Action) returns (h': History)
    requires Real(h) && Timed(h.who, h.acts, l) && CanMove(h.run[|h.run| - 1], first, a)
    requires (HasTime(a) ==> TimeOf(a) >= Clock(h.who, h.acts, first)) && (a.OpenTicks? ==> a.maxRetrans == LimitOf(l, first))
    ensures Real(h') && Timed(h'.who, h'.acts, l) && h'.acts == h.acts + [a] && h'.who == h.who + [first] && h.run <= h'.run
    ensures SideOf(h'.run[|h'.run| - 1], first) == Apply(SideOf(h.run[|h.run| - 1], first), a)
    ensures SideOf(h'.run[|h'.run| - 1], !first) == SideOf(h.run[|h.run| - 1], !first)
  {
    hide Good;
    hide Next;
    hide Init;
    hide Small;
    hide Timed;
    hide Clock;
    hide Apply;
    hide CanMove;
    ReachableGood(h.run, h.who, h.acts, |h.run| - 1);
    var p := Standstill(h);
    StandstillFollows(h, l);
    assert h.who + p.who == h.who && h.acts + p.acts == h.acts;
    var q := OneMore(h, p, l, first, a);
    JoinedReal(h, q);
    h' := Joined(h, q);
    assert q.run[1..] == [Last(q)];
  }

  /**
   From the first SYN to the last byte: once one side has sent its SYN to a listener, or to another side that is opening
   or has answered, deliveries open both sides; and whatever either then sends, up to what its window holds, further
   deliveries bring to the other side, exactly.
   */
  lemma ConnectedAndDelivered(h: History, l: Limits, first: bool, iss: U32, sender: bool, buf: seq<Byte>)
    returns (h': History, m: nat)
    requires Real(h) && Timed(h.who, h.acts, l) && UnderWay(h.run[|h.run| - 1], first)
    requires SideOf(h.run[|h.run| - 1], first).con.state.SynSent? && 0 < |buf| <= 3_538_944
    ensures Real(h') && Timed(h'.who, h'.acts, l) && h.run <= h'.run && h.acts <= h'.acts && BothOpen(h'.run[|h'.run| - 1])
    ensures |h.acts| <= m < |h'.acts| && h'.who[m] == sender && h'.acts[m].Sends? && h'.acts[m].buf == buf
    ensures forall i :: |h.acts| <= i < |h'.acts| && i != m ==> h'.acts[i].Deliver?
    ensures var y := SideOf(h'.run[|h'.run| - 1], !sender);
            y.received + Flatten(y.con.rqueue) == buf
  {
    hide Next;
    hide Init;
    hide Small;
    hide Timed;
    hide Good;
    hide Inv;
    hide Apply;
    hide Defined;
    hide Clock;
    hide CanMove;
    hide Onward;
    hide Joined;
    hide DeliversOn;
    hide UnderWay;
    var q := HandshakeCompletes(h, l, first, iss);
    var h1 := Joined(h, q);
    JoinedActs(h, q);
    LogsEmpty(h, first);
    m := |h1.acts|;
    var h2 := SendFirst(h1, l, sender, buf);
    var q2 := EverythingCanArrive(h2, l, sender);
    JoinedActs(h2, q2);
    h' := Joined(h2, q2);
    OnwardAround(h, h1, h2, h');
  }

  lemma SendFirst(h: History, l: Limits, sender: bool, buf: seq<Byte>) returns (h': History)
    requires Real(h) && Timed(h.who, h.acts, l) && BothOpen(h.run[|h.run| - 1])
    requires SideOf(h.run[|h.run| - 1], sender).log == [] && 0 < |buf| <= 3_538_944
    ensures Real(h') && Timed(h'.who, h'.acts, l) && h.run <= h'.run && h'.who == h.who + [sender] && |h'.acts| == |h.acts| + 1
    ensures h.acts <= h'.acts && h'.acts[|h.acts|].Sends? && h'.acts[|h.acts|].buf == buf
    ensures BothOpen(h'.run[|h'.run| - 1]) && SideOf(h'.run[|h'.run| - 1], sender).accepted == buf
  {
    hide Next;
    hide Init;
    hide Small;
    hide Timed;
    hide Good;
    hide Inv;
    hide Apply;
    hide Defined;
    hide Clock;
    var s := h.run[|h.run| - 1];
    ReachableGood(h.run, h.who, h.acts, |h.run| - 1);
    PairsOk(s, sender);
    var now := Clock(h.who, h.acts, sender);
    FirstSend(SideOf(s, sender), SideOf(s, !sender), buf, now);
    h' := StepOn(h, l, sender, Sends(buf, now));
  }

  /** Deliveries alone lead from one run to the other. */
  ghost predicate Onward(h: History, h': History) {
    h.run <= h'.run && h.acts <= h'.acts && h.who <= h'.who && forall i :: |h.acts| <= i < |h'.acts| ==> h'.acts[i].Deliver?
  }

  lemma OnwardAround(h: History, h1: History, h2: History, h3: History)
    requires Onward(h, h1) && Onward(h2, h3) && |h1.who| == |h1.acts|
    requires h1.run <= h2.run && h1.acts <= h2.acts && h1.who <= h2.who && |h2.who| == |h2.acts| == |h1.acts| + 1
    ensures h.run <= h3.run && h.acts <= h3.acts && |h.acts| <= |h1.acts| < |h3.acts| && |h1.who| < |h3.who|
    ensures h3.acts[|h1.acts|] == h2.acts[|h1.acts|] && h3.who[|h1.who|] == h2.who[|h1.who|]
    ensures forall i :: |h.acts| <= i < |h3.acts| && i != |h1.acts| ==> h3.acts[i].Deliver?
  {
    forall i | |h.acts| <= i < |h3.acts| && i != |h1.acts| ensures h3.acts[i].Deliver? {
      if i < |h1.acts| {
        assert h3.acts[i] == h2.acts[i] == h1.acts[i];
      }
    }
  }

  lemma JoinedActs(h: History, q: History)
    requires Real(h) && Path(q) && DeliversOn(Standstill(h), q)
    ensures var j := Joined(h, q);
            && h.run <= j.run && h.acts <= j.acts && h.who <= j.who && |j.acts| == |j.who| && j.run != []
            && j.run[|j.run| - 1] == Last(q) && Onward(h, j)
  {
    hide Next;
    hide Small;
    hide Init;
    var j := Joined(h, q);
    assert q.run[0] == h.run[|h.run| - 1];
    forall i | |h.acts| <= i < |j.acts| ensures j.acts[i].Deliver? {
      assert j.acts[i] == q.acts[i - |h.acts|];
    }
  }

  lemma LogsEmpty(h: History, first: bool)
    requires Real(h) && UnderWay(h.run[|h.run| - 1], first) && SideOf(h.run[|h.run| - 1], first).con.state.SynSent?
    ensures h.run[|h.run| - 1].a.log == [] && h.run[|h.run| - 1].b.log == []
  {
    hide Next;
    hide Small;
    hide Init;
    hide Inv;
    var s := h.run[|h.run| - 1];
    ReachableGood(h.run, h.who, h.acts, |h.run| - 1);
    ReachableSyn(h, |h.run| - 1, !first);
    PairsOk(s, first);
    NothingYet(SideOf(s, first), SideOf(s, !first));
    NothingYet(SideOf(s, !first), SideOf(s, first));
  }

  lemma StandstillFollows(h: History, l: Limits)
    requires Real(h) && Timed(h.who, h.acts, l)
    ensures Follows(h, Standstill(h), l)
  {
    assert h.who + [] == h.who && h.acts + [] == h.acts;
  }

  // ---- closing ------------------------------------------------------------------------------------------------

  /** `close` on an open connection puts a reset on the wire. */
  lemma CloseSide(x: Side, y: Side)
    requires Inv(x, y) && Settled(x) && x.con.state.Open?
    ensures Enabled(x, y, Closes) && Defined(x, Closes) && Apply(x, Closes).log == x.log && Apply(x, Closes).con.state.CloseWaitActive?
    ensures Apply(x, Closes).con.sndNxt == x.con.sndNxt && ResetOf(Apply(x, Closes).con) in Apply(x, Closes).net
  {
    AlwaysDefined(x, y, Closes);
    hide Inv;
    hide DelayedAck;
    var r := Close(x.con);
    var reset := RstSeg(x.con, x.con.sndNxt);
    assert ResetOf(r.con) == reset && reset in r.out;
  }

  /** The reset a closing connection sends, and sends again at a tick. */
  function ResetOf(c: Con): Segment {
    RstSeg(c, c.sndNxt)
  }

  /** An open peer takes it, starts to close and asks for the last word. */
  lemma ResetArrives(x: Side, y: Side, now: int)
    requires Inv(x, y) && Settled(y) && x.heard && y.con.state.Open? && ResetOf(x.con) in x.net
    ensures var b := Deliver(ResetOf(x.con), true, 0, now);
            && Enabled(y, x, b) && Defined(y, b) && Apply(y, b).log == y.log
            && Apply(y, b).con.state.CloseWaitPasv? && RstFinSeg(y.con) in Apply(y, b).net
  {
    var b := Deliver(ResetOf(x.con), true, 0, now);
    BasicStates(y, x);
    AlwaysDefined(y, x, b);
    AckAccepted(y, x);
    hide Inv;
    hide InputDefined;
    hide DelayedAck;
    hide OpenAccepts;
    var r := InOpen(y.con, ResetOf(x.con), now);
    assert RstFinSeg(y.con) in r.out;
    assert Apply(y, b) == Put(y, r);
  }

  /** The side that closed has it. */
  lemma LastWord(x: Side, y: Side, seg: Segment, now: int)
    requires Inv(x, y) && Settled(x) && x.con.state.CloseWaitActive? && seg in y.net && seg.rst && seg.fin
    ensures var b := Deliver(seg, true, 0, now);
            && Enabled(x, y, b) && Defined(x, b) && Apply(x, b).log == x.log && Apply(x, b).con == x.con && FinSeg(x.con) in Apply(x, b).net
  {
    AlwaysDefined(x, y, Deliver(seg, true, 0, now));
    hide Inv;
    hide InputDefined;
    var r := InCloseWaitActive(x.con, seg);
    assert FinSeg(x.con) in r.out;
  }

  /** In every timed run with both sides open, a close by either and two deliveries leave both closing, and the last word said. */
  lemma CloseCompletes(h: History, l: Limits, first: bool) returns (h': History)
    requires Real(h) && Timed(h.who, h.acts, l) && BothOpen(h.run[|h.run| - 1])
    ensures Real(h') && Timed(h'.who, h'.acts, l) && h.run <= h'.run && h.acts <= h'.acts && |h'.acts| == |h.acts| + 3
    ensures h'.acts[|h.acts|] == Closes && h'.acts[|h.acts| + 1].Deliver? && h'.acts[|h.acts| + 2].Deliver?
    ensures var x, y := SideOf(h'.run[|h'.run| - 1], first), SideOf(h'.run[|h'.run| - 1], !first);
            x.con.state.CloseWaitActive? && y.con.state.CloseWaitPasv? && FinSeg(x.con) in x.net
  {
    hide Next;
    hide Init;
    hide Small;
    hide Timed;
    hide Good;
    hide Inv;
    hide Apply;
    hide Defined;
    hide Clock;
    hide RstSeg;
    var x, y := SideOf(h.run[|h.run| - 1], first), SideOf(h.run[|h.run| - 1], !first);
    AtEnd(h, first);
    CloseSide(x, y);
    var h1 := StepOn(h, l, first, Closes);
    var x1 := SideOf(h1.run[|h1.run| - 1], first);
    AtEnd(h1, first);
    BasicStates(x1, y);
    var t := Clock(h1.who, h1.acts, !first);
    ResetArrives(x1, y, t);
    var h2 := StepOn(h1, l, !first, Deliver(ResetOf(x1.con), true, 0, t));
    var y2 := SideOf(h2.run[|h2.run| - 1], !first);
    AtEnd(h2, first);
    var u := Clock(h2.who, h2.acts, first);
    LastWord(x1, y2, RstFinSeg(y.con), u);
    h' := StepOn(h2, l, first, Deliver(RstFinSeg(y.con), true, 0, u));
  }

  /** The reset comes again at every tick until the side gives up, so losing it does no harm. */
  lemma ResetRepeated(x: Side, y: Side)
    requires Inv(x, y) && Settled(x) && x.con.state.CloseWaitActive?
    ensures var a := RstTicks(false);
            Enabled(x, y, a) && Defined(x, a) && Apply(x, a).con == x.con && ResetOf(x.con) in Apply(x, a).net
  {
    AlwaysDefined(x, y, RstTicks(false));
    hide Inv;
    var r := RstTick(x.con, false);
    assert ResetOf(x.con) in r.out;
  }

  /**
   Whatever of the closing exchange is lost comes again: a closing side repeats its reset to a peer that still sends
   acks, the peer answers every reset, its own tick asks again, and the answer is still a FIN.
   */
  lemma ClosingRepeats(active: Con, passive: Con, s: Segment)
    requires active.state.CloseWaitActive? && passive.state.CloseWaitPasv?
    ensures s.ack && !(s.rst && s.fin) ==> InCloseWaitActive(active, s).out == [ResetOf(active)]
    ensures InCloseWaitPasv(passive, ResetOf(active)).out == [RstFinSeg(passive)]
    ensures RstTick(passive, false).out == [RstFinSeg(passive)] && RstTick(active, false).out == [ResetOf(active)]
    ensures InCloseWaitActive(active, RstFinSeg(passive)).out == [FinSeg(active)]
    ensures RstTick(passive, true).con.state.Closed? && RstTick(active, true).con.state.Closed?
  {
  }

  lemma AbortNumbers(x: Side, y: Side)
    requires Inv(x, y) && (x.con.state.SynSent? || x.con.state.SynRcvd?) && x.log == [] && y.con.state.SynRcvd?
    ensures SynRcvdAccepts(y.con, x.con.sndNxt)
  {
    BasicStates(x, y);
    if x.heard {
      NextNumber(x, y);
    }
    AddSub(x.con.sndIss, 1);
    AddSub(x.con.sndIss, y.con.rcvCur);
    AddAdd(x.con.sndIss, Rc(y), 2048);
    AddSub(x.con.sndIss, Rc(y) + 2048);
  }

  /** Closing while opening ends the attempt, and the reset sent ends it for a peer that has answered. */
  lemma AbortUnderstood(x: Side, y: Side)
    requires Inv(x, y) && Settled(x) && Settled(y) && (x.con.state.SynSent? || x.con.state.SynRcvd?) && x.log == []
    ensures Defined(x, Closes) && Apply(x, Closes).con.state.Closed? && ResetOf(x.con) in Apply(x, Closes).net
    ensures y.con.state.SynRcvd? ==> Wf(y.con) && InSynRcvd(y.con, ResetOf(x.con), true).con.state.Closed?
  {
    AlwaysDefined(x, y, Closes);
    AlwaysDefined(y, x, Closes);
    if y.con.state.SynRcvd? {
      AbortNumbers(x, y);
      SynRcvdEndsExactly(y.con, ResetOf(x.con), true);
    }
    hide Inv;
    hide InSynRcvd;
    hide SynRcvdAccepts;
    assert ResetOf(x.con) in Close(x.con).out;
  }

  lemma AtEnd(h: History, first: bool)
    requires Real(h)
    ensures PairOk(SideOf(h.run[|h.run| - 1], first), SideOf(h.run[|h.run| - 1], !first))
    ensures PairOk(SideOf(h.run[|h.run| - 1], !first), SideOf(h.run[|h.run| - 1], first))
  {
    hide Next;
    hide Init;
    hide Good;
    ReachableGood(h.run, h.who, h.acts, |h.run| - 1);
    PairsOk(h.run[|h.run| - 1], first);
  }

  // ---- SYNs that cross -------------------------------------------------------------------------------------------

  ghost predicate OnlySyns(net: set<Segment>) {
    forall seg :: seg in net ==> seg.syn && !seg.rst
  }

  /** Both sides have answered a SYN, and nothing but SYNs has ever been sent. */
  ghost predicate Crossed(s: System) {
    && s.a.con.state.SynRcvd? && s.b.con.state.SynRcvd? && s.a.log == [] && s.b.log == []
    && OnlySyns(s.a.net) && OnlySyns(s.b.net)
  }

  /** Every SYN draws another SYN, which acknowledges nothing. */
  lemma SynForSyn(x: Side, y: Side, seg: Segment, listening: bool)
    requires Inv(x, y) && Settled(x) && x.con.state.SynRcvd? && y.log == [] && seg in y.net && seg.syn && !seg.rst
    ensures InSynRcvd(x.con, seg, listening) == Step(x.con, [SynAckAgain(x.con)])
  {
    SynFacts(x, y, seg);
    AddSub(x.con.rcvIrs, x.con.rcvCur);
  }

  predicate KeepsTrying(a: Action) {
    !a.Closes? && a != SynTicks(true)
  }

  lemma CrossedSide(x: Side, y: Side, a: Action)
    requires Inv(x, y) && Settled(x) && x.con.state.SynRcvd? && x.log == [] && y.log == [] && OnlySyns(x.net) && OnlySyns(y.net)
    requires Enabled(x, y, a) && Defined(x, a) && KeepsTrying(a)
    ensures var x' := Apply(x, a); x'.con.state.SynRcvd? && x'.log == [] && OnlySyns(x'.net)
  {
    if a.Deliver? {
      SynForSyn(x, y, a.seg, a.listening);
    }
    hide Inv;
    hide InputDefined;
    hide InSynRcvd;
    hide SendChunks;
    hide RetransmitFrom;
  }

  /** Such sides never open, as long as neither gives up: the code has no answer to a SYN that is already acknowledged. */
  lemma {:induction false} CrossedForever(p: History, n: nat)
    requires Path(p) && Good(p.run[0]) && Crossed(p.run[0]) && n < |p.run|
    requires forall a :: a in p.acts ==> KeepsTrying(a)
    ensures Good(p.run[n]) && Crossed(p.run[n])
  {
    hide Good;
    hide Crossed;
    hide Next;
    hide Small;
    if n > 0 {
      CrossedForever(p, n - 1);
      var i := n - 1;
      NextKeepsGood(p.run[i], p.run[i + 1], p.who[i], p.acts[i]);
      CrossedNext(p.run[i], p.run[i + 1], p.who[i], p.acts[i]);
    }
  }

  lemma CrossedNext(s: System, s': System, who: bool, a: Action)
    requires Good(s) && Crossed(s) && Next(s, s', who, a) && KeepsTrying(a)
    ensures Crossed(s')
  {
    hide Inv;
    hide Apply;
    hide Enabled;
    hide OnlySyns;
    PairsOk(s, who);
    AlwaysDefined(SideOf(s, who), SideOf(s, !who), a);
    hide Defined;
    CrossedSide(SideOf(s, who), SideOf(s, !who), a);
  }

  /** A side that has sent a SYN and heard nothing but SYNs. */
  ghost predicate Calling(x: Side) {
    OnlySyns(x.net) && x.log == [] && SynSeg(x.con) in x.net
  }

  lemma DialSide(x: Side, y: Side, iss: U32)
    requires Inv(x, y) && Settled(x) && x.con.state.Closed? && !x.issued && x.net == {} && x.log == []
    ensures var a := Connecting(iss);
            && Enabled(x, y, a) && Defined(x, a) && Apply(x, a).log == x.log
            && Apply(x, a).con.state.SynSent? && Calling(Apply(x, a))
  {
    AlwaysDefined(x, y, Connecting(iss));
    hide Inv;
    var r := Connect(x.con, iss);
    assert SynSeg(r.con) in r.out;
  }

  lemma CrossSide(x: Side, y: Side, now: int)
    requires Inv(x, y) && Settled(x) && x.con.state.SynSent? && Calling(x) && Calling(y)
    ensures var a := Deliver(SynSeg(y.con), false, 0, now);
            && Enabled(x, y, a) && Defined(x, a) && Apply(x, a).log == x.log
            && Apply(x, a).con.state.SynRcvd? && Calling(Apply(x, a))
  {
    var s := SynSeg(y.con);
    AlwaysDefined(x, y, Deliver(s, false, 0, now));
    SynFacts(x, y, s);
    hide Inv;
    hide InputDefined;
  }

  lemma Dial(h: History, l: Limits, first: bool, iss: U32) returns (h': History)
    requires Real(h) && Timed(h.who, h.acts, l)
    requires var x := SideOf(h.run[|h.run| - 1], first); x.con.state.Closed? && !x.issued && x.net == {} && x.log == []
    ensures Real(h') && Timed(h'.who, h'.acts, l) && h.run <= h'.run && |h'.acts| == |h.acts| + 1
    ensures SideOf(h'.run[|h'.run| - 1], first).con.state.SynSent? && Calling(SideOf(h'.run[|h'.run| - 1], first))
    ensures SideOf(h'.run[|h'.run| - 1], !first) == SideOf(h.run[|h.run| - 1], !first)
  {
    hide Next;
    hide Init;
    hide Small;
    hide Timed;
    hide Good;
    hide Inv;
    hide Apply;
    hide Defined;
    hide Calling;
    var s := h.run[|h.run| - 1];
    ReachableGood(h.run, h.who, h.acts, |h.run| - 1);
    PairsOk(s, first);
    DialSide(SideOf(s, first), SideOf(s, !first), iss);
    h' := StepOn(h, l, first, Connecting(iss));
  }

  lemma Cross(h: History, l: Limits, first: bool) returns (h': History)
    requires Real(h) && Timed(h.who, h.acts, l) && SideOf(h.run[|h.run| - 1], first).con.state.SynSent?
    requires Calling(SideOf(h.run[|h.run| - 1], first)) && Calling(SideOf(h.run[|h.run| - 1], !first))
    ensures Real(h') && Timed(h'.who, h'.acts, l) && h.run <= h'.run && |h'.acts| == |h.acts| + 1
    ensures SideOf(h'.run[|h'.run| - 1], first).con.state.SynRcvd? && Calling(SideOf(h'.run[|h'.run| - 1], first))
    ensures SideOf(h'.run[|h'.run| - 1], !first) == SideOf(h.run[|h.run| - 1], !first)
  {
    hide Next;
    hide Init;
    hide Small;
    hide Timed;
    hide Good;
    hide Inv;
    hide Apply;
    hide Defined;
    hide Clock;
    hide Calling;
    hide SynSeg;
    var s := h.run[|h.run| - 1];
    ReachableGood(h.run, h.who, h.acts, |h.run| - 1);
    PairsOk(s, first);
    var now := Clock(h.who, h.acts, first);
    CrossSide(SideOf(s, first), SideOf(s, !first), now);
    h' := StepOn(h, l, first, Deliver(SynSeg(SideOf(s, !first).con), false, 0, now));
  }

  /** What crossing takes: two active opens, and each SYN delivered before the answer to the other. */
  lemma SynsCross(s0: System, i: U32, j: U32) returns (h: History)
    requires Init(s0) && s0.a.con.state.Closed? && s0.b.con.state.Closed?
    ensures Real(h) && Timed(h.who, h.acts, Limits(MAX_RETRANS, MAX_RETRANS)) && h.run[0] == s0 && |h.acts| == 4
    ensures Good(h.run[4]) && Crossed(h.run[4])
  {
    hide Next;
    hide Timed;
    hide Good;
    hide OnlySyns;
    hide SynSeg;
    var l := Limits(MAX_RETRANS, MAX_RETRANS);
    var h0 := History([s0], [], []);
    assert Small(s0);
    TimedNothing(l);
    var h1 := Dial(h0, l, true, i);
    var h2 := Dial(h1, l, false, j);
    var h3 := Cross(h2, l, true);
    h := Cross(h3, l, false);
    ReachableGood(h.run, h.who, h.acts, 4);
  }

  lemma TimedNothing(l: Limits)
    ensures Timed([], [], l)
  {
  }
}
