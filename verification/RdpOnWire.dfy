/** Whatever has been sent and is still needed by its sender is on the wire, and no action changes that. */
module RdpOnWire {
  import opened SeqNum
  import opened Bytes
  import opened Segments
  import opened RdpSpec
  import opened RdpSystem
  import opened RdpProof

  /** The segment carries what the slot holds, under its number. */
  predicate Carries(seg: Segment, s: SndSlot) {
    && seg.ack && !seg.rst && !seg.syn && !seg.nul && !seg.eak && seg.hlen == 10 && seg.seqnum == s.seqnum
    && seg.body == Contents(s) && seg.dlen as int == |Contents(s)| % 0x1_0000
  }

  ghost predicate InAir(net: set<Segment>, s: SndSlot) {
    exists seg :: seg in net && Carries(seg, s)
  }

  ghost predicate Airborne(c: Con, net: set<Segment>, n: nat) {
    forall i :: 0 <= i < n && i < |c.swnd| && !c.swnd[i].isAcked ==> InAir(net, c.swnd[i])
  }

  /** Every slot sent and not acknowledged out of order has been put on the wire. */
  ghost predicate OnWire(c: Con, net: set<Segment>) {
    Airborne(c, net, c.ostand)
  }

  lemma AirMore(c: Con, net: set<Segment>, more: set<Segment>, n: nat)
    requires Airborne(c, net, n)
    ensures Airborne(c, net + more, n)
  {
    forall i | 0 <= i < n && i < |c.swnd| && !c.swnd[i].isAcked ensures InAir(net + more, c.swnd[i]) {
      var seg :| seg in net && Carries(seg, c.swnd[i]);
      assert seg in net + more;
    }
  }

  lemma SameWindowOnWire(c: Con, c': Con, net: set<Segment>, more: set<Segment>)
    requires OnWire(c, net) && c'.swnd == c.swnd && c'.ostand == c.ostand
    ensures OnWire(c', net + more)
  {
    AirMore(c, net, more, c.ostand);
  }

  lemma SlotSent(c: Con, net: set<Segment>, n: nat, c': Con, k: nat, seg: Segment)
    requires Airborne(c, net, n) && |c'.swnd| == |c.swnd| && Carries(seg, SlotAt(c', k))
    requires forall i :: 0 <= i < n && i < |c.swnd| && i != k ==> c'.swnd[i] == c.swnd[i]
    ensures Airborne(c', net + {seg}, if k == n then n + 1 else n)
  {
    forall i | 0 <= i < (if k == n then n + 1 else n) && i < |c'.swnd| && !c'.swnd[i].isAcked
      ensures InAir(net + {seg}, c'.swnd[i])
    {
      if i == k {
        assert seg in net + {seg};
      } else {
        var t :| t in net && Carries(t, c.swnd[i]);
        assert t in net + {seg};
      }
    }
  }

  function SlotAt(c: Con, k: nat): SndSlot {
    if k < |c.swnd| then c.swnd[k] else SndSlot(None, 0, false, false, 0, 0)
  }

  lemma {:induction false} SendOstandOnWire(c: Con, now: int, net: set<Segment>)
    requires SendWindowOk(c) && OnWire(c, net)
    ensures var r := SendOstand(c, now); OnWire(r.con, net + SetOf(r.out))
    decreases |c.swnd| - c.ostand
  {
    hide Carries;
    if c.ostand < |c.swnd| && Sub32(c.sndNxt, c.sndUna) < c.sndMax {
      var first := SendOne(c, now);
      NextSlotCarried(c, now);
      SlotSent(c, net, c.ostand, first.con, c.ostand, first.out[0]);
      assert SetOf(first.out) == {first.out[0]};
      SendOstandOnWire(first.con, now, net + SetOf(first.out));
      var rest := SendOstand(first.con, now);
      SetOfConcat(first.out, rest.out);
      assert net + SetOf(first.out + rest.out) == net + SetOf(first.out) + SetOf(rest.out);
    } else {
      AirMore(c, net, {}, c.ostand);
      assert SetOf([]) == {};
    }
  }

  lemma NextSlotCarried(c: Con, now: int)
    requires c.ostand < |c.swnd|
    ensures var r := SendOne(c, now); r.out == [r.out[0]] && Carries(r.out[0], SlotAt(r.con, c.ostand))
  {
  }

  lemma {:induction false} SendChunksOnWire(c: Con, buf: seq<Byte>, now: int, net: set<Segment>)
    requires SendWindowOk(c) && NoStall(c) && ChunkSize(c) >= 0 && |buf| > 0 && OnWire(c, net)
    ensures var r := SendChunks(c, buf, now).step; OnWire(r.con, net + SetOf(r.out))
    decreases |buf|, 4 * c.sndMax as int - |c.swnd|
  {
    hide InAir;
    hide SendOstand;
    assert SetOf([]) == {};
    if CanEnqueue(c) {
      var size := FirstSize(c, buf);
      var first := Enqueue(c, buf[..size], now);
      EnqueueOnWire(c, buf[..size], now, net);
      if size < |buf| {
        SendChunksOnWire(first.con, buf[size..], now, net + SetOf(first.out));
        var rest := SendChunks(first.con, buf[size..], now).step;
        SetOfConcat(first.out, rest.out);
        assert net + SetOf(first.out + rest.out) == net + SetOf(first.out) + SetOf(rest.out);
      } else {
        assert buf[..size] == buf;
      }
    } else {
      AirMore(c, net, {}, c.ostand);
    }
  }

  lemma EnqueueOnWire(c: Con, data: seq<Byte>, now: int, net: set<Segment>)
    requires SendWindowOk(c) && CanEnqueue(c) && OnWire(c, net)
    ensures var r := Enqueue(c, data, now); OnWire(r.con, net + SetOf(r.out))
  {
    hide InAir;
    assert OnWire(PutChunk(c, data), net);
    SendOstandOnWire(PutChunk(c, data), now, net);
  }

  lemma PopOnWire(c: Con, acknum: U32, net: set<Segment>)
    requires SendWindowOk(c) && OnWire(c, net)
    ensures OnWire(PopAcked(c, acknum), net)
  {
    hide InAir;
  }

  lemma {:induction false} MarkOnWire(c: Con, eacks: seq<U32>, net: set<Segment>)
    requires SendWindowOk(c) && OnWire(c, net)
    ensures OnWire(MarkAllEacked(c, eacks), net)
    decreases |eacks|
  {
    hide InAir;
    if eacks != [] {
      assert OnWire(MarkEacked(c, eacks[0]), net);
      MarkOnWire(MarkEacked(c, eacks[0]), eacks[1..], net);
    }
  }

  /** Acknowledgements release slots and let waiting ones out. */
  lemma AcksOnWire(c: Con, s: Segment, now: int, net: set<Segment>)
    requires SendWindowOk(c) && NoStall(c) && EackListPresent(s) && OnWire(c, net)
    ensures var r := InOpenAcks(c, s, now); OnWire(r.con, net + SetOf(r.out))
  {
    hide Airborne;
    hide SendOstand;
    hide PopAcked;
    assert SetOf([]) == {};
    var a := AfterAck(c, s, now);
    if s.ack {
      PopOnWire(c, s.acknum, net);
      SendOstandOnWire(PopAcked(c, s.acknum), now, net);
    } else {
      SameWindowOnWire(c, c, net, {});
    }
    if s.eak {
      MarkOnWire(a.con, Eacks(s), net + SetOf(a.out));
    }
  }

  lemma InOpenOnWire(c: Con, s: Segment, now: int, net: set<Segment>)
    requires Wf(c) && c.state.Open? && EackListPresent(s) && OnWire(c, net)
    ensures var r := InOpen(c, s, now); OnWire(r.con, net + SetOf(r.out))
  {
    hide Airborne;
    hide InOpenAcks;
    hide RecvData;
    hide DelayedAck;
    hide SendWindowOk;
    hide OpenAccepts;
    var r := InOpen(c, s, now);
    if OpenAccepts(c, s.seqnum) && !s.rst && !s.nul && !s.syn {
      AcksOnWire(c, s, now, net);
      var a := InOpenAcks(c, s, now);
      if CarriesData(s) {
        var d := RecvData(a.con, Payload(s), s.seqnum);
        SameWindowOnWire(a.con, d.con, net + SetOf(a.out), SetOf(d.out));
        SetOfConcat(a.out, d.out);
        assert net + SetOf(a.out + d.out) == net + SetOf(a.out) + SetOf(d.out);
      }
    } else {
      SameWindowOnWire(c, r.con, net, SetOf(r.out));
    }
  }

  /** The other handlers leave the send window alone or start with an empty one. */
  lemma OtherInput(c: Con, s: Segment, listening: bool, iss: U32, now: int)
    requires Wf(c) && SynSentOk(c) && EackListPresent(s) && !c.state.Open?
    ensures var r := Input(c, s, listening, iss, now).con;
            (r.swnd == c.swnd && r.ostand == c.ostand) || r.swnd == []
  {
    hide RecvData;
    hide DelayedAck;
    hide SendWindowOk;
    hide RecvWindowOk;
  }

  /** A pass of the timer puts slots on the wire again and takes none away. */
  lemma {:induction false} RetransmitOnWire(c: Con, i: nat, now: int, maxRetrans: int, net: set<Segment>)
    requires SendWindowOk(c) && OnWire(c, net)
    ensures var r := RetransmitFrom(c, i, now, maxRetrans); OnWire(r.con, net + SetOf(r.out))
    decreases c.ostand - i
  {
    hide Carries;
    hide SlotsOk;
    SlotsCounted(c);
    AirMore(c, net, {}, c.ostand);
    assert SetOf([]) == {};
    if i < c.ostand {
      var s := c.swnd[i];
      if !s.isAcked && s.rtSec <= maxRetrans && now - s.sentTime > s.rtSec {
        var first := RetransmitOne(c, i, now);
        ResentSlotCarried(c, i, now);
        SlotSent(c, net, c.ostand, first.con, i, first.out[0]);
        ResentOk(c, i, now);
        RetransmitOnWire(first.con, i + 1, now, maxRetrans, net + {first.out[0]});
        OneThenRest(net, first.out[0], RetransmitFrom(first.con, i + 1, now, maxRetrans).out);
      } else if s.isAcked || s.rtSec <= maxRetrans {
        RetransmitOnWire(c, i + 1, now, maxRetrans, net);
      }
    }
  }

  lemma SlotsCounted(c: Con)
    requires SendWindowOk(c)
    ensures c.ostand <= |c.swnd|
  {
  }

  lemma ResentOk(c: Con, i: nat, now: int)
    requires SendWindowOk(c) && i < c.ostand
    ensures i < |c.swnd| && SendWindowOk(RetransmitOne(c, i, now).con)
  {
  }

  lemma ResentSlotCarried(c: Con, i: nat, now: int)
    requires i < |c.swnd|
    ensures var r := RetransmitOne(c, i, now); r.out == [r.out[0]] && Carries(r.out[0], SlotAt(r.con, i))
  {
  }

  lemma OneThenRest(net: set<Segment>, seg: Segment, rest: seq<Segment>)
    ensures net + SetOf([seg] + rest) == net + {seg} + SetOf(rest)
  {
    SetOfConcat([seg], rest);
    assert SetOf([seg]) == {seg};
  }

  lemma TickOnWire(c: Con, now: int, maxRetrans: int, ackDue: bool, net: set<Segment>)
    requires Wf(c) && c.state.Open? && OnWire(c, net)
    ensures var r := OpenTick(c, now, maxRetrans, ackDue); OnWire(r.con, net + SetOf(r.out))
  {
    hide Airborne;
    hide RetransmitFrom;
    hide DelayedAck;
    var a := RetransmitFrom(c, 0, now, maxRetrans);
    RetransmitOnWire(c, 0, now, maxRetrans, net);
    if a.con.state.Open? && ackDue {
      var d := DelayedAck(a.con);
      SameWindowOnWire(a.con, d.con, net + SetOf(a.out), SetOf(d.out));
      SetOfConcat(a.out, d.out);
      assert net + SetOf(a.out + d.out) == net + SetOf(a.out) + SetOf(d.out);
    }
  }

  /** Every action keeps it so. */
  lemma ApplyOnWire(x: Side, a: Action)
    requires Defined(x, a) && OnWire(x.con, x.net)
    ensures OnWire(Apply(x, a).con, Apply(x, a).net)
  {
    hide SendChunks;
    hide OpenTick;
    hide InOpen;
    hide DelayedAck;
    hide Input;
    hide Airborne;
    hide SendWindowOk;
    hide RecvWindowOk;
    var x' := Apply(x, a);
    match a
    case Deliver(seg, listening, iss, now) =>
      DeliverOnWire(x.con, seg, listening, iss, now, x.net);
    case Sends(buf, now) =>
      if x.con.state.Open? && buf != [] {
        SendChunksOnWire(x.con, buf, now, x.net);
      } else {
        SameWindowOnWire(x.con, x'.con, x.net, SetOf([]));
      }
    case OpenTicks(now, maxRetrans, ackDue) => TickOnWire(x.con, now, maxRetrans, ackDue, x.net);
    case Connecting(iss) => EmptyOnWire(x'.con, x'.net);
    case Closes => SameWindowOnWire(x.con, x'.con, x.net, SetOf(Close(x.con).out));
    case Receives(_) =>
      SameWindowOnWire(x.con, x'.con, x.net, {});
      assert x.net + {} == x.net;
    case SynTicks(giveUp) => SameWindowOnWire(x.con, x'.con, x.net, SetOf(SynTick(x.con, giveUp).out));
    case RstTicks(giveUp) => SameWindowOnWire(x.con, x'.con, x.net, SetOf(RstTick(x.con, giveUp).out));
  }

  lemma EmptyOnWire(c: Con, net: set<Segment>)
    requires c.swnd == []
    ensures OnWire(c, net)
  {
  }

  lemma DeliverOnWire(c: Con, seg: Segment, listening: bool, iss: U32, now: int, net: set<Segment>)
    requires Wf(c) && SynSentOk(c) && EackListPresent(seg) && OnWire(c, net)
    ensures var r := Input(c, seg, listening, iss, now); OnWire(r.con, net + SetOf(r.out))
  {
    hide Airborne;
    hide InOpen;
    hide InSynRcvd;
    hide InSynSent;
    hide InListen;
    hide InClosed;
    hide InCloseWaitActive;
    hide InCloseWaitPasv;
    var r := Input(c, seg, listening, iss, now);
    if c.state.Open? {
      InOpenOnWire(c, seg, now, net);
    } else {
      OtherInput(c, seg, listening, iss, now);
      if r.con.swnd == [] {
        EmptyOnWire(r.con, net + SetOf(r.out));
      } else {
        SameWindowOnWire(c, r.con, net, SetOf(r.out));
      }
    }
  }
}
