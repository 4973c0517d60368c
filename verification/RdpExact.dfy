/** What the operations of a connection do, said of the windows and the wire and not through the functions that do it. */
module RdpExact {
  import opened SeqNum
  import opened Seqs
  import opened Bytes
  import opened Segments
  import opened RdpSpec
  import opened RdpSystem
  import opened RdpProof
  import opened RdpProofReceive
  import opened RdpProofStep
  import opened RdpTheorems
  import opened RdpProgress

  // ---- acknowledging ------------------------------------------------------------------------

  /** Something held out of order has not been reported. */
  predicate Unreported(w: seq<RcvSlot>) {
    exists i :: 0 <= i < |w| && w[i].Held? && !w[i].eacked
  }

  lemma {:induction false} ScanFinds(w: seq<RcvSlot>, budget: nat)
    requires budget > 0
    ensures EackScan(w, budget).1 == [] <==> !Unreported(w)
    ensures !Unreported(w) ==> EackScan(w, budget).0 == w
  {
    if w != [] {
      if w[0].Held? && !w[0].eacked {
        assert Unreported(w);
      } else {
        ScanFinds(w[1..], budget);
        assert forall i :: 1 <= i < |w| ==> w[i] == w[1..][i - 1];
        assert w == [w[0]] + w[1..];
      }
    }
  }

  /** A delayed ack is sent unless everything has been acknowledged and reported; it is one segment, and names all received. */
  lemma AckExact(c: Con)
    requires RecvWindowOk(c)
    ensures var r := DelayedAck(c);
            && (r.out == [] <==> c.rcvCur == c.rcvAck && !Unreported(c.rwnd))
            && (r.out == [] ==> r.con == c)
            && (r.out != [] ==> |r.out| == 1 && Acks(r.out[0], c.rcvCur))
            && r.con.rcvAck == c.rcvCur
  {
    ScanFinds(c.rwnd, MAX_EACK);
    hide EackScan;
  }

  predicate Acks(seg: Segment, number: U32) {
    seg.ack && !seg.rst && seg.acknum == number
  }

  ghost predicate Acked(net: set<Segment>, number: U32) {
    exists seg :: seg in net && Acks(seg, number)
  }

  /** How many numbers received in sequence have not been acknowledged. */
  function Lag(c: Con): int {
    Sub32(c.rcvCur, c.rcvAck)
  }

  /** What has been acknowledged is on the wire, and it is all but a quarter of the window. */
  ghost predicate AckKept(c: Con, net: set<Segment>) {
    Acked(net, c.rcvAck) && Lag(c) <= c.rcvMax as int / 4
  }

  lemma StillAcked(net: set<Segment>, more: set<Segment>, number: U32)
    requires Acked(net, number)
    ensures Acked(net + more, number)
  {
    var seg :| seg in net && Acks(seg, number);
    assert seg in net + more;
  }

  lemma NowAcked(net: set<Segment>, out: seq<Segment>, seg: Segment)
    requires seg in out && seg.ack && !seg.rst
    ensures Acked(net + SetOf(out), seg.acknum)
  {
    assert seg in net + SetOf(out);
  }

  lemma SameAcks(c: Con, c': Con, net: set<Segment>, more: set<Segment>)
    requires AckKept(c, net) && c'.rcvAck == c.rcvAck && c'.rcvCur == c.rcvCur && c'.rcvMax == c.rcvMax
    ensures AckKept(c', net + more)
  {
    StillAcked(net, more, c.rcvAck);
  }

  /** After a delayed ack everything received in sequence is acknowledged on the wire. */
  lemma DelayedAckKept(c: Con, net: set<Segment>)
    requires RecvWindowOk(c) && Acked(net, c.rcvAck)
    ensures var r := DelayedAck(c);
            AckKept(r.con, net + SetOf(r.out)) && r.con.rcvAck == r.con.rcvCur == c.rcvCur
  {
    hide DelayedAck;
    hide RecvWindowOk;
    AckExact(c);
    var r := DelayedAck(c);
    if r.out == [] {
      StillAcked(net, SetOf(r.out), c.rcvAck);
    } else {
      NowAcked(net, r.out, r.out[0]);
    }
  }

  lemma AbsorbedAcks(c: Con, data: seq<Byte>, seqnum: U32)
    requires RecvWindowOk(c) && InRecvWindow(c, seqnum)
    ensures var r := Absorb(c, data, seqnum); RecvWindowOk(r) && r.rcvAck == c.rcvAck && r.rcvMax == c.rcvMax
  {
  }

  lemma RecvDataKept(c: Con, data: seq<Byte>, seqnum: U32, net: set<Segment>)
    requires RecvWindowOk(c) && AckKept(c, net)
    ensures var r := RecvData(c, data, seqnum);
            && AckKept(r.con, net + SetOf(r.out))
            && (InRecvWindow(c, seqnum) && data == [] ==> r.con.rcvAck == r.con.rcvCur)
  {
    hide Absorb;
    hide DelayedAck;
    hide RecvWindowOk;
    if InRecvWindow(c, seqnum) {
      AbsorbedAcks(c, data, seqnum);
      var c1 := Absorb(c, data, seqnum);
      DelayedAckKept(c1, net);
      StillAcked(net, SetOf([]), c.rcvAck);
    } else {
      SameAcks(c, c, net, SetOf([]));
    }
  }

  lemma AckSegKept(c: Con, net: set<Segment>)
    ensures AckKept(c.(rcvAck := c.rcvCur), net + SetOf([AckSeg(c)]))
  {
    NowAcked(net, [AckSeg(c)], AckSeg(c));
  }

  lemma DelayedThenMore(c: Con, state: State, seg: Segment, net: set<Segment>)
    requires RecvWindowOk(c) && AckKept(c, net)
    ensures var a := DelayedAck(c); AckKept(a.con.(state := state), net + SetOf(a.out + [seg]))
  {
    hide DelayedAck;
    hide RecvWindowOk;
    var a := DelayedAck(c);
    DelayedAckKept(c, net);
    SameAcks(a.con, a.con.(state := state), net + SetOf(a.out), SetOf([seg]));
    SetOfConcat(a.out, [seg]);
    assert net + SetOf(a.out + [seg]) == net + SetOf(a.out) + SetOf([seg]);
  }

  lemma CloseKept(c: Con, net: set<Segment>)
    requires Wf(c) && AckKept(c, net)
    ensures AckKept(Close(c).con, net + SetOf(Close(c).out))
  {
    hide DelayedAck;
    hide AckKept;
    if c.state.Open? {
      DelayedThenMore(c, CloseWaitActive, RstSeg(c, c.sndNxt), net);
    } else {
      SameAcks(c, Close(c).con, net, SetOf(Close(c).out));
    }
  }

  lemma InSynRcvdKept(c: Con, s: Segment, listening: bool, net: set<Segment>)
    requires Wf(c) && c.state.SynRcvd? && AckKept(c, net)
    ensures var r := InSynRcvd(c, s, listening); AckKept(r.con, net + SetOf(r.out))
  {
    hide RecvData;
    hide Close;
    hide AckKept;
    hide SynRcvdAccepts;
    hide SendWindowOk;
    var r := InSynRcvd(c, s, listening);
    var c1 := c.(state := Open);
    SameAcks(c, c1, net, {});
    assert net + {} == net;
    if !(s.syn && s.seqnum == c.rcvCur) && !SynRcvdAccepts(c, s.seqnum) {
      AckSegKept(c, net);
    } else if r.con.rcvAck == c.rcvAck && r.con.rcvCur == c.rcvCur && r.con.rcvMax == c.rcvMax {
      SameAcks(c, r.con, net, SetOf(r.out));
    } else {
      SameRecvWindow(c, c1);
      CloseKept(c1, net);
      RecvDataKept(c1, s.body, s.seqnum, net);
    }
  }

  lemma SameRecvWindow(c: Con, c': Con)
    requires Wf(c) && HasWindows(c.state) && c' == c.(state := c'.state)
    ensures Wf(c') && RecvWindowOk(c')
  {
  }

  lemma InOpenKept(c: Con, s: Segment, now: int, net: set<Segment>)
    requires Wf(c) && c.state.Open? && EackListPresent(s) && AckKept(c, net)
    ensures var r := InOpen(c, s, now); AckKept(r.con, net + SetOf(r.out))
  {
    hide InOpenAcks;
    hide RecvData;
    hide DelayedAck;
    hide AckKept;
    hide OpenAccepts;
    var r := InOpen(c, s, now);
    if !OpenAccepts(c, s.seqnum) {
      AckSegKept(c, net);
    } else if s.rst {
      DelayedThenMore(c, CloseWaitPasv, RstFinSeg(c), net);
    } else if s.nul && s.body == [] {
      RecvDataKept(c, [], s.seqnum, net);
    } else if s.nul || s.syn {
      SameAcks(c, r.con, net, SetOf(r.out));
    } else {
      var a := InOpenAcks(c, s, now);
      SameAcks(c, a.con, net, SetOf(a.out));
      if CarriesData(s) {
        RecvDataKept(a.con, Payload(s), s.seqnum, net + SetOf(a.out));
        var d := RecvData(a.con, Payload(s), s.seqnum);
        SetOfConcat(a.out, d.out);
        assert net + SetOf(a.out + d.out) == net + SetOf(a.out) + SetOf(d.out);
      }
    }
  }

  lemma TickKept(c: Con, now: int, maxRetrans: int, ackDue: bool, net: set<Segment>)
    requires Wf(c) && c.state.Open? && AckKept(c, net)
    ensures var r := OpenTick(c, now, maxRetrans, ackDue);
            && AckKept(r.con, net + SetOf(r.out))
            && (ackDue && r.con.state.Open? ==> r.con.rcvAck == r.con.rcvCur == c.rcvCur)
  {
    hide RetransmitFrom;
    hide DelayedAck;
    var a := RetransmitFrom(c, 0, now, maxRetrans);
    SameAcks(c, a.con, net, SetOf(a.out));
    if a.con.state.Open? && ackDue {
      var d := DelayedAck(a.con);
      DelayedAckKept(a.con, net + SetOf(a.out));
      SetOfConcat(a.out, d.out);
      assert net + SetOf(a.out + d.out) == net + SetOf(a.out) + SetOf(d.out);
    }
  }

  /** A connection that has just learned of its peer has acknowledged the peer's SYN. */
  lemma LearnedKept(c: Con, s: Segment, iss: U32, net: set<Segment>)
    ensures c.state.Listen? && HasWindows(InListen(c, s, iss).con.state) ==>
              AckKept(InListen(c, s, iss).con, net + SetOf(InListen(c, s, iss).out))
    ensures c.state.SynSent? && HasWindows(InSynSent(c, s).con.state) ==>
              AckKept(InSynSent(c, s).con, net + SetOf(InSynSent(c, s).out))
  {
    if c.state.Listen? && HasWindows(InListen(c, s, iss).con.state) {
      var r := InListen(c, s, iss);
      NowAcked(net, r.out, r.out[0]);
    }
    if c.state.SynSent? && HasWindows(InSynSent(c, s).con.state) {
      var r := InSynSent(c, s);
      NowAcked(net, r.out, r.out[0]);
    }
  }

  /** The same for whatever a side may do. */
  ghost predicate SideAcks(x: Side) {
    x.heard ==> AckKept(x.con, x.net)
  }

  lemma InputKept(c: Con, s: Segment, listening: bool, iss: U32, now: int, net: set<Segment>)
    requires Wf(c) && SynSentOk(c) && EackListPresent(s)
    ensures var r := Input(c, s, listening, iss, now);
            && (AckKept(c, net) && !c.state.Listen? && !c.state.SynSent? ==> AckKept(r.con, net + SetOf(r.out)))
            && ((c.state.Listen? || c.state.SynSent?) && HasWindows(r.con.state) ==> AckKept(r.con, net + SetOf(r.out)))
            && (c.state.Closed? ==> r.con.state.Closed?)
  {
    hide AckKept;
    hide InListen;
    hide InSynSent;
    hide InSynRcvd;
    hide InOpen;
    hide SendWindowOk;
    hide RecvWindowOk;
    LearnedKept(c, s, iss, net);
    var r := Input(c, s, listening, iss, now);
    if AckKept(c, net) && !c.state.Listen? && !c.state.SynSent? {
      if c.state.SynRcvd? {
        InSynRcvdKept(c, s, listening, net);
      } else if c.state.Open? {
        InOpenKept(c, s, now, net);
      } else {
        SameAcks(c, r.con, net, SetOf(r.out));
      }
    }
  }

  lemma KnownStates(x: Side, y: Side)
    requires Inv(x, y)
    ensures x.heard ==> !x.con.state.Listen? && !x.con.state.SynSent?
    ensures !x.heard ==> !HasWindows(x.con.state)
    ensures !x.issued ==> !x.heard
  {
  }

  lemma ApplySideAcks(x: Side, y: Side, a: Action)
    requires Inv(x, y) && Enabled(x, y, a) && Defined(x, a) && SideAcks(x)
    ensures SideAcks(Apply(x, a))
  {
    hide Inv;
    hide AckKept;
    hide Input;
    hide Connect;
    hide Close;
    hide OpenTick;
    hide SendChunks;
    hide SendWindowOk;
    hide RecvWindowOk;
    hide InputDefined;
    var c := x.con;
    KnownStates(x, y);
    match a
    case Connecting(iss) => ConnectQuiet(c, iss);
    case Deliver(seg, listening, iss, now) =>
      Listed(c, seg, now);
      InputKept(c, seg, listening, iss, now, x.net);
    case Sends(buf, now) =>
      if x.heard {
        SameAcks(c, Apply(x, a).con, x.net, SetOf(Send(c, buf, now).step.out));
      }
    case Receives(room) =>
      if x.heard {
        SameAcks(c, Apply(x, a).con, x.net, {});
        assert x.net + {} == x.net;
      }
    case Closes =>
      CloseQuiet(c);
      if x.heard {
        CloseKept(c, x.net);
      }
    case OpenTicks(now, maxRetrans, ackDue) => TickKept(c, now, maxRetrans, ackDue, x.net);
    case SynTicks(giveUp) =>
      if x.heard {
        SameAcks(c, Apply(x, a).con, x.net, SetOf(SynTick(c, giveUp).out));
      }
    case RstTicks(giveUp) =>
      if x.heard {
        SameAcks(c, Apply(x, a).con, x.net, SetOf(RstTick(c, giveUp).out));
      }
  }

  lemma ConnectQuiet(c: Con, iss: U32)
    ensures !HasWindows(Connect(c, iss).con.state)
  {
  }

  lemma CloseQuiet(c: Con)
    requires Wf(c)
    ensures HasWindows(Close(c).con.state) ==> HasWindows(c.state)
  {
    hide DelayedAck;
  }

  lemma Listed(c: Con, s: Segment, now: int)
    requires Wf(c) && InputDefined(c, s, now)
    ensures EackListPresent(s)
  {
  }

  /** In every run all but a quarter of the window of what a side has received in sequence is acknowledged on the wire. */
  lemma {:induction false} ReceivedIsAcked(h: History, n: nat, first: bool)
    requires Real(h) && n < |h.run|
    ensures SideAcks(SideOf(h.run[n], first))
  {
    hide AckKept;
    hide Good;
    hide Next;
    hide Init;
    hide Small;
    if n == 0 {
      AcksAtFirst(h.run[0], first);
    } else {
      ReceivedIsAcked(h, n - 1, first);
      ReachableGood(h.run, h.who, h.acts, n - 1);
      var i := n - 1;
      AcksNext(h.run[i], h.run[i + 1], h.who[i], h.acts[i], first);
    }
  }

  lemma AcksAtFirst(s: System, first: bool)
    requires Init(s)
    ensures SideAcks(SideOf(s, first))
  {
  }

  lemma AcksNext(s: System, s': System, who: bool, a: Action, first: bool)
    requires Good(s) && Next(s, s', who, a) && SideAcks(SideOf(s, first))
    ensures SideAcks(SideOf(s', first))
  {
    hide SideAcks;
    hide Inv;
    hide Apply;
    PairsOk(s, first);
    if who == first {
      AlwaysDefined(SideOf(s, first), SideOf(s, !first), a);
      hide Defined;
      ApplySideAcks(SideOf(s, first), SideOf(s, !first), a);
    }
  }

  /** In every run, after a tick at which an ack was due, everything received in sequence is acknowledged on the wire. */
  lemma DueAckIsSent(h: History, n: nat)
    requires Real(h) && n < |h.acts| && h.acts[n].OpenTicks? && h.acts[n].ackDue && SideOf(h.run[n + 1], h.who[n]).con.state.Open?
    ensures var x := SideOf(h.run[n + 1], h.who[n]); Acked(x.net, x.con.rcvCur)
  {
    hide Init;
    hide Small;
    hide Good;
    hide Inv;
    hide AckKept;
    hide OpenTick;
    hide SendWindowOk;
    hide RecvWindowOk;
    ReceivedIsAcked(h, n, h.who[n]);
    ReachableGood(h.run, h.who, h.acts, n);
    PairsOk(h.run[n], h.who[n]);
    var x, a := SideOf(h.run[n], h.who[n]), h.acts[n];
    var y := SideOf(h.run[n], !h.who[n]);
    assert Next(h.run[n], h.run[n + 1], h.who[n], h.acts[n]);
    AlwaysDefined(x, y, a);
    BasicStates(x, y);
    TickKept(x.con, a.now, a.maxRetrans, true, x.net);
    KeptMeansAcked(OpenTick(x.con, a.now, a.maxRetrans, true).con, Apply(x, a).net);
  }

  lemma KeptMeansAcked(c: Con, net: set<Segment>)
    requires AckKept(c, net)
    ensures Acked(net, c.rcvAck)
  {
  }

  /** A NUL segment in sequence is received and acknowledged at once. */
  lemma NulAnswered(c: Con, s: Segment, now: int)
    requires Wf(c) && c.state.Open? && EackListPresent(s) && Lag(c) <= c.rcvMax as int / 4
    requires s.nul && !s.rst && s.body == [] && s.seqnum == Add32(c.rcvCur, 1)
    ensures var r := InOpen(c, s, now);
            && 1 <= Sub32(r.con.rcvCur, c.rcvCur) <= 2 * c.rcvMax as int
            && |r.out| == 1 && Acks(r.out[0], r.con.rcvCur) && r.con.rcvAck == r.con.rcvCur
  {
    AddSub(c.rcvCur, 1);
    var c1 := Absorb(c, [], s.seqnum);
    HeadTaken(c, [], s.seqnum);
    AckExact(c1);
    hide DelayedAck;
    hide Absorb;
  }

  lemma HeadTaken(c: Con, data: seq<Byte>, seqnum: U32)
    requires RecvWindowOk(c) && InRecvWindow(c, seqnum) && Sub32(seqnum, c.rcvCur) == 1 && Lag(c) <= c.rcvMax as int / 4
    ensures var r := Absorb(c, data, seqnum); 1 <= Sub32(r.rcvCur, c.rcvCur) <= 2 * c.rcvMax as int && r.rcvCur != c.rcvAck
  {
    var w := PutData(c, data, seqnum);
    var n := LeadingHeld(w);
    assert w[0].Held?;
    assert n >= 1;
    AddSub(c.rcvCur, n);
  }

  // ---- being acknowledged -------------------------------------------------------------------------------

  /** A cumulative ack in the window releases exactly the slots up to the number it names; any other releases nothing. */
  lemma PopExact(c: Con, acknum: U32)
    requires SendWindowOk(c)
    ensures var r := PopAcked(c, acknum);
            if Sub32(acknum, c.sndUna) <= c.ostand then
              && r.sndUna == acknum && r.sndNxt == c.sndNxt
              && r.swnd == c.swnd[|c.swnd| - |r.swnd|..]
              && (forall i :: 0 <= i < c.ostand ==>
                    (i < |c.swnd| - |r.swnd| <==> Sub32(c.swnd[i].seqnum, c.sndUna) <= Sub32(acknum, c.sndUna)))
            else r == c
  {
    if Sub32(acknum, c.sndUna) <= c.ostand {
      forall i | 0 <= i < c.ostand ensures Sub32(c.swnd[i].seqnum, c.sndUna) == i + 1 {
        assert SentSlotOk(c.swnd[i], Add32(c.sndUna, i + 1));
        AddSub(c.sndUna, i + 1);
      }
    }
  }

  /** An extended ack releases exactly the sent slot that carries its number. */
  lemma MarkExact(c: Con, e: U32, i: nat)
    requires SendWindowOk(c) && i < |c.swnd|
    ensures var r := MarkEacked(c, e);
            && |r.swnd| == |c.swnd|
            && r.swnd[i] == if c.swnd[i].isSent && c.swnd[i].seqnum == e then c.swnd[i].(pbuf := None, isAcked := true) else c.swnd[i]
  {
    if i < c.ostand {
      assert SentSlotOk(c.swnd[i], Add32(c.sndUna, i + 1));
      AddAdd(c.sndUna, 1, i);
      AddSub(Add32(c.sndUna, 1), i);
      AddSub(Add32(c.sndUna, 1), e);
    } else {
      assert UnsentSlotOk(c.swnd[i]);
    }
  }

  /** A list of them releases exactly the sent slots whose numbers it names. */
  lemma {:induction false} MarkAllExact(c: Con, eacks: seq<U32>, i: nat)
    requires SendWindowOk(c) && i < |c.swnd|
    ensures var r := MarkAllEacked(c, eacks);
            && |r.swnd| == |c.swnd|
            && r.swnd[i] == if c.swnd[i].isSent && c.swnd[i].seqnum in eacks then c.swnd[i].(pbuf := None, isAcked := true) else c.swnd[i]
    decreases |eacks|
  {
    hide SlotsOk;
    hide MarkEacked;
    if eacks != [] {
      MarkExact(c, eacks[0], i);
      MarkAllExact(MarkEacked(c, eacks[0]), eacks[1..], i);
    }
  }

  /** An open connection heeds an acceptable list: after the cumulative ack, exactly the slots it names are released. */
  lemma EacksHeeded(c: Con, s: Segment, now: int, i: nat)
    requires Wf(c) && c.state.Open? && EackListPresent(s) && s.eak && !s.rst && !s.nul && !s.syn
    requires 0 < Sub32(s.seqnum, c.rcvCur) <= |c.rwnd| && i < |AfterAck(c, s, now).con.swnd|
    ensures var w, r := AfterAck(c, s, now).con.swnd, InOpen(c, s, now).con.swnd;
            && |r| == |w|
            && r[i] == if w[i].isSent && w[i].seqnum in Eacks(s) then w[i].(pbuf := None, isAcked := true) else w[i]
  {
    AcceptanceTestsAgree(c, s.seqnum);
    MarkAllExact(AfterAck(c, s, now).con, Eacks(s), i);
    hide AfterAck;
    hide MarkAllEacked;
    hide RecvData;
    hide OpenAccepts;
  }

  // ---- the two ends of the byte stream ---------------------------------------------------------------------

  /** `receive` takes whole packets as long as they fit, and stops only at one that does not. */
  lemma {:induction false} FittingExact(q: seq<seq<Byte>>, room: int)
    ensures var n := Fitting(q, room);
            && (n > 0 ==> |Flatten(q[..n])| <= room)
            && (n == |q| || |Flatten(q[..n + 1])| > room)
  {
    if q != [] && |q[0]| <= room {
      FittingExact(q[1..], room - |q[0]|);
      var n := Fitting(q, room);
      FlattenFirst(q, n);
      if n < |q| {
        FlattenFirst(q, n + 1);
      }
      assert n == 1 ==> Flatten(q[1..][..0]) == [];
    } else if q != [] {
      FlattenFirst(q, 1);
      assert Flatten(q[1..][..0]) == [];
    }
  }

  lemma FlattenFirst(q: seq<seq<Byte>>, n: nat)
    requires 0 < n <= |q|
    ensures Flatten(q[..n]) == q[0] + Flatten(q[1..][..n - 1])
  {
    assert q[..n] == [q[0]] + q[1..][..n - 1];
    FlattenConcat([q[0]], q[1..][..n - 1]);
    assert Flatten([q[0]]) == q[0];
  }

  /** What `send` takes is the front of the buffer in chunks of full size but for the last, and it stops only at a full ring. */
  lemma {:induction false} SendExact(c: Con, buf: seq<Byte>, now: int)
    requires SendWindowOk(c) && NoStall(c) && c.state.Open? && ChunkSize(c) > 0 && |buf| > 0
    ensures var r := SendChunks(c, buf, now);
            && r.total <= |buf| && Flatten(r.chunks) == buf[..r.total]
            && (r.total == |buf| || |r.step.con.swnd| == 4 * c.sndMax as int)
            && |r.step.con.swnd| == |c.swnd| + |r.chunks|
            && (forall i :: 0 <= i < |r.chunks| ==> 0 < |r.chunks[i]| <= ChunkSize(c))
            && (forall i :: 0 <= i < |r.chunks| ==> |r.chunks[i]| == ChunkSize(c) || (r.total == |buf| && i == |r.chunks| - 1))
    decreases |buf|
  {
    hide SendOstand;
    hide SlotsOk;
    hide Flatten;
    FlattenNone();
    if !CanEnqueue(c) {
      RingFull(c);
    } else {
      var size := FirstSize(c, buf);
      SendChunksCases(c, buf, now);
      hide SendChunks;
      var first := Enqueue(c, buf[..size], now);
      if size < |buf| {
        SendExact(first.con, buf[size..], now);
        var rest := SendChunks(first.con, buf[size..], now);
        FlattenFront(buf[..size], rest.chunks);
        assert buf[..size] + buf[size..][..rest.total] == buf[..size + rest.total];
      } else {
        FlattenFront(buf[..size], []);
        assert buf[..size] + [] == buf[..size];
        assert [buf[..size]] + [] == [buf[..size]];
      }
    }
  }

  lemma FlattenNone()
    ensures Flatten<Byte>([]) == []
  {
  }

  lemma RingFull(c: Con)
    requires SendWindowOk(c) && c.state.Open? && !CanEnqueue(c)
    ensures |c.swnd| == 4 * c.sndMax as int
  {
  }

  lemma FlattenFront(chunk: seq<Byte>, rest: seq<seq<Byte>>)
    ensures Flatten([chunk] + rest) == chunk + Flatten(rest)
  {
    FlattenConcat([chunk], rest);
    assert Flatten([chunk]) == chunk;
  }

  // ---- what ends a connection ------------------------------------------------------------------------------

  /** An open connection stops being open exactly on an acceptable reset or SYN; the first starts to close it, the second ends it. */
  lemma OpenEndsExactly(c: Con, s: Segment, now: int)
    requires Wf(c) && c.state.Open? && EackListPresent(s)
    ensures var r := InOpen(c, s, now);
            var inside := 0 < Sub32(s.seqnum, c.rcvCur) <= |c.rwnd|;
            && (r.con.state.Open? <==> !(inside && (s.rst || (s.syn && !s.nul))))
            && (r.con.state.CloseWaitPasv? <==> inside && s.rst)
            && (!inside ==> r.out == [AckSeg(c)] && r.con.rwnd == c.rwnd && r.con.swnd == c.swnd)
            && (inside && s.rst ==> RstFinSeg(c) in r.out)
  {
    AcceptanceTestsAgree(c, s.seqnum);
    hide InOpenAcks;
    hide RecvData;
    hide DelayedAck;
    hide OpenAccepts;
    hide SendWindowOk;
    if s.rst {
      var a := DelayedAck(c);
      assert RstFinSeg(c) in a.out + [RstFinSeg(c)];
    }
  }

  /** No connection: every segment but a reset is answered, once. */
  lemma RefusedUnlessReset(c: Con, s: Segment)
    ensures |InClosed(c, s).out| == if s.rst then 0 else 1
    ensures !s.rst && (s.ack || s.nul) ==> InClosed(c, s).out[0].rst && InClosed(c, s).out[0].seqnum == Add32(s.acknum, 1)
    ensures !s.rst && !s.ack && !s.nul ==> Refuses(InClosed(c, s).out[0], s)
  {
  }

  predicate Refuses(a: Segment, s: Segment) {
    a.rst && a.ack && a.acknum == s.seqnum
  }
}
