/** Every action of either side keeps the two-party invariant. */
module RdpProofStep {
  import opened SeqNum
  import opened Bytes
  import opened Segments
  import opened RdpSpec
  import opened RdpSystem
  import opened RdpProof
  import opened RdpProofReceive

  // ---- moves that only talk, or only change state ------------------------------

  lemma PutSame(x: Side, y: Side, out: seq<Segment>)
    requires Inv(x, y)
    ensures Put(x, Step(x.con, out)) == x.(net := x.net + SetOf(out))
  {
  }

  lemma QuietKeeps(x: Side, y: Side)
    requires Inv(x, y)
    ensures Put(x, Step(x.con, [])) == x
  {
    PutSame(x, y, []);
    assert SetOf([]) == {};
  }

  lemma OneSegKeeps(x: Side, y: Side, seg: Segment)
    requires Inv(x, y) && ShapeOk(x, seg) && Truthful(y, x, seg)
    ensures Inv(Put(x, Step(x.con, [seg])), y)
  {
    PutSame(x, y, [seg]);
    assert SetOf([seg]) == {seg};
    EmitKeeps(x, y, seg);
  }

  predicate IsReset(seg: Segment) {
    seg.rst && seg.body == [] && !seg.syn && !seg.eak
  }

  lemma ResetKeeps(x: Side, y: Side, seg: Segment)
    requires Inv(x, y) && IsReset(seg)
    ensures Inv(Put(x, Step(x.con, [seg])), y)
  {
    OneSegKeeps(x, y, seg);
  }

  lemma TalkKeeps(x: Side, y: Side, r: Step)
    requires Inv(x, y) && r.con == x.con && (r.out == [] || (|r.out| == 1 && IsReset(r.out[0])))
    ensures Inv(Put(x, r), y)
  {
    if r.out == [] {
      QuietKeeps(x, y);
    } else {
      assert r.out == [r.out[0]];
      ResetKeeps(x, y, r.out[0]);
    }
  }

  /** A side that knows its peer changes state, or notes that everything received has been acked. */
  lemma StateKeeps(x: Side, y: Side, state: State, rcvAck: U32)
    requires Inv(x, y) && x.heard && !state.Listen? && !state.SynSent?
    ensures Inv(x.(con := x.con.(state := state, rcvAck := rcvAck)), y)
  {
    BenignKeeps(x, x.(con := x.con.(state := state, rcvAck := rcvAck)), y);
  }

  /** Move to another state, then put one segment on the wire. */
  lemma StateThenSeg(x: Side, y: Side, c: Con, seg: Segment)
    requires Inv(x, y) && x.heard && !c.state.Listen? && !c.state.SynSent?
    requires c == x.con.(state := c.state, rcvAck := c.rcvAck)
    requires ShapeOk(x, seg) && Truthful(y, x, seg)
    ensures Inv(Put(x, Step(c, [seg])), y)
  {
    var x1 := x.(con := c);
    StateKeeps(x, y, c.state, c.rcvAck);
    assert x1.con == c;
    assert ShapeOk(x1, seg) && Truthful(y, x1, seg);
    OneSegKeeps(x1, y, seg);
    assert Put(x1, Step(c, [seg])) == Put(x, Step(c, [seg]));
  }

  lemma StateOnly(x: Side, y: Side, c: Con)
    requires Inv(x, y) && x.heard && !c.state.Listen? && !c.state.SynSent?
    requires c == x.con.(state := c.state, rcvAck := c.rcvAck)
    ensures Inv(Put(x, Step(c, [])), y)
  {
    StateKeeps(x, y, c.state, c.rcvAck);
    PutNothing(x.(con := c));
    assert Put(x, Step(c, [])) == Put(x.(con := c), Step(c, []));
  }

  /** Acknowledge everything that can be acknowledged, then change state and send a last segment. */
  lemma AckThenState(x: Side, y: Side, state: State, seg: Segment)
    requires Inv(x, y) && x.heard && !state.Listen? && !state.SynSent? && IsReset(seg)
    ensures var a := DelayedAck(x.con);
            Inv(Put(x, Step(a.con.(state := state), a.out + [seg])), y)
  {
    hide Inv;
    Basics(x, y);
    var a := DelayedAck(x.con);
    DelayedAckKeeps(x, y);
    var x1 := Put(x, a);
    StateThenSeg(x1, y, x1.con.(state := state), seg);
    PutTwice(x, a, Step(a.con.(state := state), [seg]));
  }

  // ---- the handshake --------------------------------------------------------------

  /** A side that has not drawn its first number has told its peer nothing, and the peer knows nothing of it. */
  lemma NotIssued(x: Side, y: Side)
    requires Inv(x, y) && !x.issued
    ensures !y.heard && Rc(y) == 0 && !x.heard
    ensures forall seg :: seg in y.net ==> !PlainAck(seg) && !seg.eak
    ensures forall seg :: seg in x.net ==> seg.rst || (!seg.syn && !seg.ack && seg.dlen == 0 && seg.body == [] && !seg.eak)
  {
    forall seg | seg in y.net ensures !PlainAck(seg) && !seg.eak {
      assert ShapeOk(y, seg);
    }
    forall seg | seg in x.net ensures seg.rst || (!seg.syn && !seg.ack && seg.dlen == 0 && seg.body == [] && !seg.eak) {
      assert ShapeOk(x, seg);
    }
  }

  /** The conditions under which a side may draw its number or learn of its peer. */
  ghost predicate Opening(x: Side, x1: Side, y: Side) {
    && !x.heard && x1.issued && (x.issued ==> x1.con.sndIss == x.con.sndIss)
    && x1 == x.(con := x1.con, issued := x1.issued, heard := x1.heard)
    && x1.con.swnd == [] && x1.con.ostand == 0 && x1.con.rqueue == []
    && x1.con.sndUna == x1.con.sndIss && x1.con.sndNxt == Add32(x1.con.sndIss, 1)
    && SynSentOk(x1.con) && !x1.con.state.Listen?
    && (!x1.heard ==> !HasWindows(x1.con.state))
    && (x1.heard ==>
          && y.issued && x1.con.rcvIrs == y.con.sndIss == x1.con.rcvCur
          && x1.con.rwnd == FreeSlots(2048) && !x1.con.state.SynSent?
          && x1.con.sndMax == RCV_MAX && x1.con.rcvMax == RCV_MAX && x1.con.sbufMax == RBUF_MAX)
  }

  lemma LocalAfterOpening(x: Side, x1: Side, y: Side)
    requires Inv(x, y) && Opening(x, x1, y)
    ensures Local(x1)
  {
    if !x.issued {
      NotIssued(x, y);
    }
    ShapesKept(x, x1);
  }

  lemma FlowOutOfOpening(x: Side, x1: Side, y: Side)
    requires Inv(x, y) && Opening(x, x1, y)
    ensures Flow(x1, y)
  {
    if x.issued {
      AckOkOfSender(x, x1, y);
    } else {
      NotIssued(x, y);
    }
  }

  lemma FlowIntoOpening(x: Side, x1: Side, y: Side)
    requires Inv(x, y) && Opening(x, x1, y)
    ensures Flow(y, x1)
  {
    assert Rc(x1) == Rc(x) == 0;
    forall k: int {:trigger HasSeg(x1, k)} | HasSeg(x, k) ensures HasSeg(x1, k) {
    }
    AcksOfReceiver(y, x, x1);
  }

  lemma OpeningKeeps(x: Side, x1: Side, y: Side)
    requires Inv(x, y) && Opening(x, x1, y)
    ensures Inv(x1, y)
  {
    LocalAfterOpening(x, x1, y);
    FlowOutOfOpening(x, x1, y);
    FlowIntoOpening(x, x1, y);
  }

  lemma ConnectKeeps(x: Side, y: Side, iss: U32)
    requires Inv(x, y) && Settled(x) && x.con.state.Closed? && !x.issued
    ensures Inv(Put(x, Connect(x.con, iss)), y)
  {
    var r := Connect(x.con, iss);
    var x1 := x.(con := r.con, issued := true);
    OpeningKeeps(x, x1, y);
    OneSegKeeps(x1, y, r.out[0]);
    assert Put(x1, Step(r.con, [r.out[0]])) == Put(x, r);
  }

  /** A SYN of an honest peer: its number is the peer's first, its limits are the defaults. */
  lemma SynFacts(x: Side, y: Side, seg: Segment)
    requires Inv(x, y) && seg in y.net && seg.syn && !seg.rst
    ensures y.issued && seg.seqnum == y.con.sndIss && |seg.body| == 4
    ensures Read16(seg.body, 0) == RCV_MAX && Read16(seg.body, 2) == RBUF_MAX
    ensures seg.ack ==> y.heard
  {
    assert ShapeOk(y, seg);
  }

  lemma LearnKeeps(x: Side, x1: Side, y: Side, out: Segment)
    requires Inv(x, y) && Opening(x, x1, y) && x1.heard && HasWindows(x1.con.state)
    requires ShapeOk(x1, out) && !out.eak && (PlainAck(out) ==> out.acknum == x1.con.rcvCur)
    ensures Inv(Put(x, Step(x1.con, [out])), y)
  {
    OpeningKeeps(x, x1, y);
    assert Truthful(y, x1, out);
    OneSegKeeps(x1, y, out);
    assert Put(x1, Step(x1.con, [out])) == Put(x, Step(x1.con, [out]));
  }

  lemma InListenKeeps(x: Side, y: Side, seg: Segment, iss: U32)
    requires Inv(x, y) && x.con.state.Listen? && seg in y.net && SegmentSafe(seg)
    ensures Inv(Put(x, InListen(x.con, seg, iss)), y)
  {
    var r := InListen(x.con, seg, iss);
    if !seg.rst && !seg.ack && !seg.nul && seg.syn {
      SynFacts(x, y, seg);
      LearnKeeps(x, x.(con := r.con, issued := true, heard := true), y, r.out[0]);
    } else {
      TalkKeeps(x, y, r);
    }
  }

  lemma InSynSentKeeps(x: Side, y: Side, seg: Segment)
    requires Inv(x, y) && x.con.state.SynSent? && seg in y.net && SegmentSafe(seg)
    ensures Inv(Put(x, InSynSent(x.con, seg)), y)
  {
    var r := InSynSent(x.con, seg);
    if seg.ack && !seg.rst && seg.acknum != x.con.sndIss {
      ResetKeeps(x, y, r.out[0]);
    } else if seg.rst {
      GiveUpKeeps(x, y, r.con);
    } else if seg.syn {
      SynFacts(x, y, seg);
      LearnKeeps(x, x.(con := r.con, heard := true), y, r.out[0]);
    } else {
      QuietKeeps(x, y);
    }
  }

  /** A connection still waiting for the peer's SYN may be given up. */
  lemma GiveUpKeeps(x: Side, y: Side, c: Con)
    requires Inv(x, y) && x.con.state.SynSent?
    requires c == x.con || c == x.con.(state := Closed)
    ensures Inv(Put(x, Step(c, [])), y) && Put(x, Step(c, [])) == x.(con := c)
  {
    assert SetOf([]) == {};
    assert !x.heard && x.issued;
    assert Put(x, Step(c, [])) == x.(con := c);
    if c != x.con {
      assert Opening(x, x.(con := c), y);
      OpeningKeeps(x, x.(con := c), y);
    }
  }

  // ---- a segment arrives at a connection that knows its peer ---------------------------

  lemma InSynRcvdKeeps(x: Side, y: Side, seg: Segment, listening: bool)
    requires Inv(x, y) && Settled(x) && x.con.state.SynRcvd? && seg in y.net && SegmentSafe(seg)
    ensures Inv(Put(x, InSynRcvd(x.con, seg, listening)), y)
  {
    var c := x.con;
    assert x.heard;
    assert ShapeOk(y, seg);
    hide Inv;
    Basics(x, y);
    var reset := RstSeg(c, Add32(seg.acknum, 1));
    if seg.syn && seg.seqnum == c.rcvCur {
      OneSegKeeps(x, y, SynAckAgain(c));
    } else if !SynRcvdAccepts(c, seg.seqnum) {
      AckSegTruthful(x, y);
      StateThenSeg(x, y, c.(rcvAck := c.rcvCur), AckSeg(c));
    } else if seg.rst {
      StateOnly(x, y, c.(state := Closed));
    } else if seg.syn {
      StateThenSeg(x, y, c.(state := Closed), reset);
    } else if seg.eak {
      ResetKeeps(x, y, RstSeg(c, Add32(seg.acknum % 0x100, 1)));
    } else if !seg.ack {
      PutNothing(x);
    } else if seg.acknum != c.sndIss {
      ResetKeeps(x, y, reset);
    } else {
      SynRcvdOpens(x, y, seg, listening);
    }
  }

  lemma AckSegTruthful(x: Side, y: Side)
    requires Inv(x, y) && x.heard
    ensures ShapeOk(x, AckSeg(x.con)) && Truthful(y, x, AckSeg(x.con))
  {
  }

  lemma SynRcvdOpens(x: Side, y: Side, seg: Segment, listening: bool)
    requires Inv(x, y) && x.heard && seg in y.net && !seg.rst && !seg.syn && !seg.nul
    ensures var c1 := x.con.(state := Open);
            && (Wf(c1) ==> Inv(Put(x, Close(c1)), y))
            && Inv(Put(x, Step(c1, [])), y)
            && (seg.dlen as int == |seg.body| && seg.body != [] && RecvWindowOk(c1) ==> Inv(Put(x, RecvData(c1, seg.body, seg.seqnum)), y))
  {
    hide Inv;
    Basics(x, y);
    var c1 := x.con.(state := Open);
    var x1 := x.(con := c1);
    StateKeeps(x, y, Open, x.con.rcvAck);
    assert x1 == x.(con := x.con.(state := Open, rcvAck := x.con.rcvAck));
    StateOnly(x, y, c1);
    AckThenState(x1, y, CloseWaitActive, RstSeg(c1, c1.sndNxt));
    if Wf(c1) {
      assert Put(x1, Close(c1)) == Put(x, Close(c1));
    }
    if seg.dlen as int == |seg.body| && seg.body != [] {
      RecvDataKeeps(x1, y, seg);
      var r := RecvData(c1, seg.body, seg.seqnum);
      assert Put(x1, r) == Put(x, r);
    }
  }

  /** In an honest run no SYN passes the acceptance test of an open connection. */
  lemma SynRejectedWhenOpen(x: Side, y: Side, seg: Segment)
    requires Inv(x, y) && x.heard && seg in y.net && seg.syn && !seg.rst
    ensures !OpenAccepts(x.con, seg.seqnum)
  {
    SynFacts(x, y, seg);
    AcceptanceTestsAgree(x.con, seg.seqnum);
    AddSub(y.con.sndIss, x.con.rcvCur);
    AcceptanceExact(y.con.sndIss, Rc(x), 0, |x.con.rwnd|);
  }

  lemma OpenAcksKeep(x: Side, y: Side, seg: Segment, now: int)
    requires Inv(x, y) && NoStall(x.con) && x.heard && seg in y.net && !seg.rst && !seg.syn && EackListPresent(seg)
    ensures Inv(Put(x, AfterAck(x.con, seg, now)), y)
    ensures Inv(Put(x, InOpenAcks(x.con, seg, now)), y)
  {
    hide Inv;
    Basics(x, y);
    var r := InOpenAcks(x.con, seg, now);
    var a := AfterAck(x.con, seg, now);
    var x1 := Put(x, a);
    if seg.ack {
      var xp := x.(con := PopAcked(x.con, seg.acknum));
      PopKeeps(x, y, seg);
      SendOstandKeeps(xp, y, now);
      assert Put(xp, a) == x1;
    } else {
      PutNothing(x);
    }
    assert Inv(x1, y);
    if seg.eak {
      EacksAreTrue(x1, y, seg);
      MarkAllKeeps(x1, y, Eacks(seg));
      assert Put(x, r) == x1.(con := MarkAllEacked(x1.con, Eacks(seg)));
    }
  }

  lemma EacksAreTrue(x: Side, y: Side, seg: Segment)
    requires Inv(x, y) && seg in y.net && seg.eak && EackListPresent(seg)
    ensures forall e :: e in Eacks(seg) ==> EackedNo(x, y, e)
  {
    assert AckOk(x, y, seg);
  }

  lemma InOpenKeeps(x: Side, y: Side, seg: Segment, now: int)
    requires Inv(x, y) && Settled(x) && x.con.state.Open? && seg in y.net && SegmentSafe(seg)
    ensures Inv(Put(x, InOpen(x.con, seg, now)), y)
  {
    var c := x.con;
    assert x.heard;
    assert ShapeOk(y, seg);
    hide Inv;
    Basics(x, y);
    if !OpenAccepts(c, seg.seqnum) {
      AckSegTruthful(x, y);
      StateThenSeg(x, y, c.(rcvAck := c.rcvCur), AckSeg(c));
    } else if seg.rst {
      AckThenState(x, y, CloseWaitPasv, RstFinSeg(c));
    } else {
      if seg.syn {
        SynRejectedWhenOpen(x, y, seg);
      }
      OpenAcksKeep(x, y, seg, now);
      if CarriesData(seg) {
        var a := InOpenAcks(c, seg, now);
        PayloadAfterPlainHead(seg);
        RecvDataKeeps(Put(x, a), y, seg);
        PutTwice(x, a, RecvData(a.con, seg.body, seg.seqnum));
      }
    }
  }

  lemma InCloseWaitKeeps(x: Side, y: Side, seg: Segment)
    requires Inv(x, y)
    ensures Inv(Put(x, InCloseWaitActive(x.con, seg)), y)
    ensures Inv(Put(x, InCloseWaitPasv(x.con, seg)), y)
  {
    QuietKeeps(x, y);
    OneSegKeeps(x, y, FinSeg(x.con));
    ResetKeeps(x, y, RstSeg(x.con, x.con.sndNxt));
    ResetKeeps(x, y, RstFinSeg(x.con));
  }

  lemma InClosedKeeps(x: Side, y: Side, seg: Segment)
    requires Inv(x, y)
    ensures Inv(Put(x, InClosed(x.con, seg)), y)
  {
    QuietKeeps(x, y);
    ResetKeeps(x, y, RstSeg(x.con, Add32(seg.acknum, 1)));
    ResetKeeps(x, y, RstAckSeg(x.con, seg.seqnum));
  }

  // ---- nothing undefined is ever reached ------------------------------------------------

  /** The oldest unacknowledged segment is never acknowledged out of order. */
  lemma {:induction false} EackListHarmless(x: Side, y: Side, eacks: seq<U32>)
    requires Inv(x, y) && x.heard && forall e :: e in eacks ==> EackedNo(x, y, e)
    ensures EackListKeepsRing(x.con, eacks)
    decreases |eacks|
  {
    hide Inv;
    hide SlotsOk;
    hide EackedNo;
    Basics(x, y);
    if eacks != [] {
      var x1 := x.(con := MarkEacked(x.con, eacks[0]));
      EackHarmless(x, y, eacks[0]);
      MarkKeeps(x, y, eacks[0]);
      forall e | e in eacks[1..] ensures EackedNo(x1, y, e) {
        EackedNoOfSender(x, x1, y, e);
      }
      EackListHarmless(x1, y, eacks[1..]);
    }
  }

  lemma EackHarmless(x: Side, y: Side, e: U32)
    requires Inv(x, y) && x.heard && EackedNo(x, y, e)
    ensures EackKeepsRing(x.con, e)
  {
    HeadNeverEacked(x, y);
    AddAdd(x.con.sndIss, Una(x), 1);
  }

  lemma HeadNeverEacked(x: Side, y: Side)
    requires Inv(x, y) && x.heard
    ensures x.con.ostand > 0 ==> !x.con.swnd[0].isAcked
  {
    if x.con.ostand > 0 {
      var s := x.con.swnd[0];
      assert SentSlotOk(s, Add32(x.con.sndUna, 1));
      AddAdd(x.con.sndIss, Una(x), 1);
      AddSub(x.con.sndIss, Una(x) + 1);
      assert !EackedNo(x, y, s.seqnum);
    }
  }

  lemma AlwaysDefined(x: Side, y: Side, a: Action)
    requires Inv(x, y) && Settled(x) && Enabled(x, y, a)
    ensures Defined(x, a)
  {
    if a.Deliver? {
      var seg := a.seg;
      assert ShapeOk(y, seg);
      if x.con.state.Open? && seg.eak {
        OpenAcksKeep(x, y, seg, a.now);
        var x1 := Put(x, AfterAck(x.con, seg, a.now));
        EacksAreTrue(x1, y, seg);
        EackListHarmless(x1, y, Eacks(seg));
      }
    }
  }

  // ---- one move ----------------------------------------------------------------------------

  lemma DeliverKeeps(x: Side, y: Side, seg: Segment, listening: bool, iss: U32, now: int)
    requires Inv(x, y) && Settled(x) && seg in y.net && Wf(x.con) && SynSentOk(x.con) && SegmentSafe(seg)
    ensures Inv(Put(x, Input(x.con, seg, listening, iss, now)), y)
  {
    hide Inv;
    match x.con.state
    case Closed => InClosedKeeps(x, y, seg);
    case Listen => InListenKeeps(x, y, seg, iss);
    case SynSent => InSynSentKeeps(x, y, seg);
    case SynRcvd => InSynRcvdKeeps(x, y, seg, listening);
    case Open => InOpenKeeps(x, y, seg, now);
    case CloseWaitPasv => InCloseWaitKeeps(x, y, seg);
    case CloseWaitActive => InCloseWaitKeeps(x, y, seg);
  }

  lemma SendKeeps(x: Side, y: Side, buf: seq<Byte>, now: int)
    requires Inv(x, y) && Defined(x, Sends(buf, now)) && |Apply(x, Sends(buf, now)).log| < LIMIT
    ensures Inv(Apply(x, Sends(buf, now)), y)
  {
    var s := Send(x.con, buf, now);
    if x.con.state.Open? && buf != [] {
      SendChunksKeeps(x, y, buf, now);
      assert Apply(x, Sends(buf, now)) == AfterSend(x, s, buf);
    } else {
      QuietKeeps(x, y);
      assert Apply(x, Sends(buf, now)) == x;
    }
  }

  lemma BasicStates(x: Side, y: Side)
    requires Inv(x, y)
    ensures HasWindows(x.con.state) ==> x.heard && x.issued
    ensures x.con.state.SynSent? ==> !x.heard && x.issued
  {
  }

  lemma CloseKeeps(x: Side, y: Side)
    requires Inv(x, y) && Wf(x.con)
    ensures Inv(Put(x, Close(x.con)), y)
  {
    BasicStates(x, y);
    hide Inv;
    if x.con.state.Open? {
      AckThenState(x, y, CloseWaitActive, RstSeg(x.con, x.con.sndNxt));
    } else if x.con.state.SynRcvd? {
      StateThenSeg(x, y, x.con.(state := Closed), RstSeg(x.con, x.con.sndNxt));
    } else if x.con.state.SynSent? {
      var x1 := x.(con := x.con.(state := Closed));
      GiveUpKeeps(x, y, x1.con);
      ResetKeeps(x1, y, RstSeg(x.con, x.con.sndNxt));
      assert Put(x1, Step(x1.con, [RstSeg(x.con, x.con.sndNxt)])) == Put(x, Close(x.con));
    } else {
      QuietKeeps(x, y);
    }
  }

  lemma OpenTickKeeps(x: Side, y: Side, now: int, maxRetrans: int, ackDue: bool)
    requires Inv(x, y) && Wf(x.con) && x.con.state.Open?
    ensures Inv(Put(x, OpenTick(x.con, now, maxRetrans, ackDue)), y)
  {
    assert x.heard;
    hide Inv;
    Basics(x, y);
    var a := RetransmitFrom(x.con, 0, now, maxRetrans);
    RetransmitKeeps(x, y, 0, now, maxRetrans);
    if a.con.state.Open? && ackDue {
      DelayedAckKeeps(Put(x, a), y);
      PutTwice(x, a, DelayedAck(a.con));
    }
  }

  lemma SynTickKeeps(x: Side, y: Side, giveUp: bool)
    requires Inv(x, y) && (x.con.state.SynSent? || x.con.state.SynRcvd?)
    ensures Inv(Put(x, SynTick(x.con, giveUp)), y)
  {
    if x.con.state.SynRcvd? {
      StateOnly(x, y, x.con.(state := Closed));
      OneSegKeeps(x, y, SynAckSeg(x.con));
    } else {
      GiveUpKeeps(x, y, x.con.(state := Closed));
      OneSegKeeps(x, y, SynSeg(x.con));
    }
  }

  lemma RstTickKeeps(x: Side, y: Side, giveUp: bool)
    requires Inv(x, y) && (x.con.state.CloseWaitActive? || x.con.state.CloseWaitPasv?)
    ensures Inv(Put(x, RstTick(x.con, giveUp)), y)
  {
    StateOnly(x, y, x.con.(state := Closed));
    ResetKeeps(x, y, RstSeg(x.con, x.con.sndNxt));
    ResetKeeps(x, y, RstFinSeg(x.con));
  }

  lemma ApplyKeeps(x: Side, y: Side, a: Action)
    requires Inv(x, y) && Settled(x) && Enabled(x, y, a) && Defined(x, a) && |Apply(x, a).log| < LIMIT
    ensures Inv(Apply(x, a), y)
  {
    hide Inv;
    match a
    case Connecting(iss) => ConnectKeeps(x, y, iss);
    case Deliver(seg, listening, iss, now) => DeliverKeeps(x, y, seg, listening, iss, now);
    case Sends(buf, now) => SendKeeps(x, y, buf, now);
    case Receives(room) => ReceiveKeeps(x, y, room);
    case Closes => CloseKeeps(x, y);
    case OpenTicks(now, maxRetrans, ackDue) => OpenTickKeeps(x, y, now, maxRetrans, ackDue);
    case SynTicks(giveUp) => SynTickKeeps(x, y, giveUp);
    case RstTicks(giveUp) => RstTickKeeps(x, y, giveUp);
  }
}
