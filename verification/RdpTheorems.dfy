/** What the transport promises, over every run of two endpoints and an adversarial network. */
module RdpTheorems {
  import opened SeqNum
  import opened Seqs
  import opened Bytes
  import opened Segments
  import opened RdpSpec
  import opened RdpSystem
  import opened RdpProof
  import opened RdpProofReceive
  import opened RdpProofStep

  // ---- the invariant holds in every reachable state ------------------------------

  /** A connection gets past the handshake only on an ack that names its own first number. */
  lemma OpensOnlyOnOwnAck(c: Con, s: Segment, listening: bool, iss: U32, now: int)
    requires Wf(c) && SynSentOk(c) && SegmentSafe(s)
    requires !PastHandshake(c.state) && PastHandshake(Input(c, s, listening, iss, now).con.state)
    ensures s.ack && !s.rst && s.acknum == c.sndIss
    ensures c.state.SynSent? || c.state.SynRcvd?
    ensures c.state.SynSent? ==> s.syn && Input(c, s, listening, iss, now).con.rcvIrs == s.seqnum
  {
  }

  lemma AgreementKept(x: Side, y: Side, a: Action)
    requires Inv(x, y) && Agreed(x, y) && Enabled(x, y, a) && Defined(x, a)
    ensures Agreed(Apply(x, a), y)
  {
    if a.Deliver? && !PastHandshake(x.con.state) && PastHandshake(Apply(x, a).con.state) {
      OpensOnlyOnOwnAck(x.con, a.seg, a.listening, a.iss, a.now);
      assert ShapeOk(y, a.seg);
    }
  }

  lemma SettledKept(x: Side, a: Action)
    requires Defined(x, a)
    ensures Settled(Apply(x, a))
  {
    if a.Receives? {
      assert Wf(x.con);
    }
  }

  lemma HeardGrows(x: Side, a: Action)
    requires Defined(x, a)
    ensures x.heard ==> Apply(x, a).heard
  {
  }

  lemma MoveKeeps(x: Side, x': Side, y: Side, a: Action)
    requires Inv(x, y) && Settled(x) && Agreed(x, y) && Agreed(y, x)
    requires Moves(x, x', y, a) && |x'.log| < LIMIT
    ensures Inv(x', y) && Settled(x') && Agreed(x', y) && Agreed(y, x')
  {
    AlwaysDefined(x, y, a);
    ApplyKeeps(x, y, a);
    AgreementKept(x, y, a);
    SettledKept(x, a);
    HeardGrows(x, a);
  }

  lemma InitGood(s: System)
    requires Init(s)
    ensures Good(s)
  {
  }

  lemma NextKeepsGood(s: System, s': System, first: bool, a: Action)
    requires Good(s) && Next(s, s', first, a) && Small(s')
    ensures Good(s')
  {
    if first {
      MoveKeeps(s.a, s'.a, s.b, a);
    } else {
      MoveKeeps(s.b, s'.b, s.a, a);
    }
  }

  /** A run: in step `i` the side named by `who[i]` performs `acts[i]`. */
  ghost predicate Run(run: seq<System>, who: seq<bool>, acts: seq<Action>) {
    && |run| == |acts| + 1 && |who| == |acts|
    && Init(run[0])
    && (forall i :: 0 <= i < |acts| ==> Next(run[i], run[i + 1], who[i], acts[i]))
    && (forall i :: 0 <= i < |run| ==> Small(run[i]))
  }

  lemma {:induction false} ReachableGood(run: seq<System>, who: seq<bool>, acts: seq<Action>, n: nat)
    requires Run(run, who, acts) && n < |run|
    ensures Good(run[n])
  {
    if n == 0 {
      InitGood(run[0]);
    } else {
      ReachableGood(run, who, acts, n - 1);
      NextKeepsGood(run[n - 1], run[n], who[n - 1], acts[n - 1]);
    }
  }

  // ---- end-to-end safety ------------------------------------------------------------

  lemma PrefixOfAccepted(x: Side, y: Side)
    requires Inv(x, y)
    ensures x.received + Flatten(x.con.rqueue) <= y.accepted
  {
    FlattenConcat(y.log[..Rc(x)], y.log[Rc(x)..]);
    assert y.log[..Rc(x)] + y.log[Rc(x)..] == y.log;
  }

  /** Whatever the network does, each side's reader sees a prefix of what the other side's writer handed over. */
  lemma DeliveryIsPrefix(run: seq<System>, who: seq<bool>, acts: seq<Action>, n: nat)
    requires Run(run, who, acts) && n < |run|
    ensures run[n].a.received + Flatten(run[n].a.con.rqueue) <= run[n].b.accepted
    ensures run[n].b.received + Flatten(run[n].b.con.rqueue) <= run[n].a.accepted
  {
    ReachableGood(run, who, acts, n);
    PrefixOfAccepted(run[n].a, run[n].b);
    PrefixOfAccepted(run[n].b, run[n].a);
  }

  // ---- release safety ------------------------------------------------------------------

  /** Chunk `k` is still buffered by its sender. */
  predicate Buffered(x: Side, k: int) {
    var i := k - Una(x) - 1;
    1 <= k <= |x.log| && 0 <= i < |x.con.swnd| && x.con.swnd[i].pbuf == Some(x.log[k - 1])
  }

  lemma ReleasedOnlyWhenHeld(x: Side, y: Side, k: int)
    requires Inv(x, y) && 1 <= k <= |x.log|
    ensures Buffered(x, k) || HasSeg(y, k)
  {
    var i := k - Una(x) - 1;
    if i >= 0 && x.con.swnd[i].pbuf.None? {
      ReleasedSlot(x, y, i);
    }
  }

  lemma ReleasedSlot(x: Side, y: Side, i: nat)
    requires Inv(x, y) && i < |x.con.swnd| && x.con.swnd[i].pbuf.None?
    ensures HasSeg(y, Una(x) + i + 1)
  {
    var s := x.con.swnd[i];
    assert x.heard && i < x.con.ostand;
    assert SentSlotOk(s, Add32(x.con.sndUna, i + 1));
    AddAdd(x.con.sndIss, Una(x), i + 1);
    assert EackedNo(x, y, s.seqnum);
    AddSub(x.con.sndIss, Una(x) + i + 1);
  }

  /**
   A chunk's buffer is dropped only if the receiver already has the chunk, and the oldest
   unacknowledged segment is never acknowledged out of order, so `recv_eack` never moves the head.
   */
  lemma ReleaseSafety(run: seq<System>, who: seq<bool>, acts: seq<Action>, n: nat, k: int)
    requires Run(run, who, acts) && n < |run|
    ensures 1 <= k <= |run[n].a.log| ==> Buffered(run[n].a, k) || HasSeg(run[n].b, k)
    ensures 1 <= k <= |run[n].b.log| ==> Buffered(run[n].b, k) || HasSeg(run[n].a, k)
    ensures run[n].a.heard && 0 < run[n].a.con.ostand <= |run[n].a.con.swnd| ==> !run[n].a.con.swnd[0].isAcked
    ensures run[n].b.heard && 0 < run[n].b.con.ostand <= |run[n].b.con.swnd| ==> !run[n].b.con.swnd[0].isAcked
  {
    ReachableGood(run, who, acts, n);
    var s := run[n];
    if 1 <= k <= |s.a.log| {
      ReleasedOnlyWhenHeld(s.a, s.b, k);
    }
    if 1 <= k <= |s.b.log| {
      ReleasedOnlyWhenHeld(s.b, s.a, k);
    }
    if s.a.heard {
      HeadNeverEacked(s.a, s.b);
    }
    if s.b.heard {
      HeadNeverEacked(s.b, s.a);
    }
  }

  /** The chunk a receiver is waiting for can always still be supplied: its sender has it buffered. */
  lemma NextChunkRecoverable(run: seq<System>, who: seq<bool>, acts: seq<Action>, n: nat)
    requires Run(run, who, acts) && n < |run|
    ensures Rc(run[n].b) < |run[n].a.log| ==> Buffered(run[n].a, Rc(run[n].b) + 1)
    ensures Rc(run[n].a) < |run[n].b.log| ==> Buffered(run[n].b, Rc(run[n].a) + 1)
  {
    ReachableGood(run, who, acts, n);
    var s := run[n];
    if Rc(s.b) < |s.a.log| {
      ReleasedOnlyWhenHeld(s.a, s.b, Rc(s.b) + 1);
    }
    if Rc(s.a) < |s.b.log| {
      ReleasedOnlyWhenHeld(s.b, s.a, Rc(s.a) + 1);
    }
  }

  /** A buffered sent slot whose timer has run out is put on the wire again, unless the connection breaks first. */
  lemma {:induction false} RetransmitCovers(c: Con, i: nat, k: nat, now: int, maxRetrans: int)
    requires SendWindowOk(c) && i <= k < c.ostand && !c.swnd[k].isAcked && now - c.swnd[k].sentTime > c.swnd[k].rtSec
    ensures var r := RetransmitFrom(c, i, now, maxRetrans);
            r.con.state.Closed? || DataSeg(c, Contents(c.swnd[k]), c.swnd[k].seqnum) in r.out
    decreases k - i
  {
    var s := c.swnd[i];
    if s.isAcked {
      RetransmitCovers(c, i + 1, k, now, maxRetrans);
    } else if s.rtSec <= maxRetrans && i < k {
      if now - s.sentTime > s.rtSec {
        RetransmitCovers(RetransmitOne(c, i, now).con, i + 1, k, now, maxRetrans);
      } else {
        RetransmitCovers(c, i + 1, k, now, maxRetrans);
      }
    }
  }

  /** Acknowledgements carried by a data segment do not disturb the receiving half. */
  lemma DataInOpen(c: Con, seg: Segment, now: int)
    requires Wf(c) && c.state.Open? && SegmentSafe(seg) && OpenAccepts(c, seg.seqnum)
    requires !seg.rst && !seg.nul && !seg.syn && seg.hlen == 10 && 0 < seg.dlen as int == |seg.body|
    ensures var c' := InOpen(c, seg, now).con;
            c'.rcvCur == RecvData(c, seg.body, seg.seqnum).con.rcvCur && c'.rcvIrs == c.rcvIrs && c'.state.Open?
  {
    PayloadAfterPlainHead(seg);
    var a := InOpenAcks(c, seg, now);
    SameReceive(a.con, c, seg.body, seg.seqnum);
  }

  /** What is received does not depend on the sending half. */
  lemma SameReceive(c: Con, c': Con, data: seq<Byte>, seqnum: U32)
    requires RecvWindowOk(c) && RecvWindowOk(c') && c.rwnd == c'.rwnd && c.rcvCur == c'.rcvCur
    ensures RecvData(c, data, seqnum).con.rcvCur == RecvData(c', data, seqnum).con.rcvCur
  {
  }

  /** A segment carrying the chunk waited for always moves the receiver on. */
  lemma InSequenceAdvances(x: Side, y: Side, seg: Segment, now: int)
    requires Inv(x, y) && Settled(x) && x.con.state.Open? && seg in y.net && !seg.rst && !seg.syn && seg.dlen > 0
    requires InputSafe(x.con, seg, now)
    requires Sub32(seg.seqnum, y.con.sndIss) == Rc(x) + 1
    ensures Rc(Put(x, InOpen(x.con, seg, now))) > Rc(x) && InOpen(x.con, seg, now).con.state.Open?
  {
    assert ShapeOk(y, seg) && DataOk(y, seg) && x.heard && Rc(x) < LIMIT;
    AddSub(y.con.sndIss, x.con.rcvCur);
    AddSub(y.con.sndIss, seg.seqnum);
    AddAdd(y.con.sndIss, Rc(x), 1);
    assert Sub32(seg.seqnum, x.con.rcvCur) == 1;
    PutDataAgrees(x, y, seg);
    DeliveredInOrder(PutData(x.con, seg.body, seg.seqnum), y, Rc(x));
    RcAfterAbsorb(x, seg.body, seg.seqnum);
    Basics(x, y);
    hide Inv;
    AcceptanceTestsAgree(x.con, seg.seqnum);
    DataInOpen(x.con, seg, now);
    assert PutData(x.con, seg.body, seg.seqnum)[0].Held?;
  }

  /**
   What a delayed ack reports: at most 64 numbers, all read back by the peer's parser, each held beyond the next
   expected one and not reported before; and if there was room for more, everything held has been reported.
   */
  lemma EackReport(c: Con, s: Segment, e: U32)
    requires RecvWindowOk(c) && s in DelayedAck(c).out
    ensures s.ack && s.acknum == c.rcvCur && |DelayedAck(c).out| == 1
    ensures s.eak ==> EackListPresent(s) && 0 < |Eacks(s)| <= MAX_EACK
    ensures s.eak && e in Eacks(s) ==> exists i :: 1 <= i < |c.rwnd| && ReportedAt(c, DelayedAck(c).con, i, e)
    ensures !s.eak || |Eacks(s)| < MAX_EACK ==> AllReported(DelayedAck(c).con)
  {
    hide EackScan;
    var (w, seqs) := EackScan(c.rwnd, MAX_EACK);
    if seqs != [] {
      EackRoundTrip(s, seqs);
      if e in seqs {
        var i := ScanListsHeld(c.rwnd, MAX_EACK, e);
        assert ReportedAt(c, DelayedAck(c).con, i, e);
      }
    }
    if |seqs| < MAX_EACK {
      ScanComplete(c.rwnd, MAX_EACK);
      assert forall i :: 0 <= i < |w| ==> SameButEacked(c.rwnd[i], w[i]);
    }
  }

  /** Slot `i` held number `e`, had not been reported, and now has. */
  predicate ReportedAt(c: Con, c': Con, i: nat, e: U32) {
    && i < |c.rwnd| == |c'.rwnd| && c.rwnd[i].Held? && !c.rwnd[i].eacked && c'.rwnd[i] == c.rwnd[i].(eacked := true)
    && i < 0x2_0000 && e == c.rwnd[i].seqnum == Add32(c.rcvCur, i + 1)
  }

  predicate AllReported(c: Con) {
    forall i :: 0 <= i < |c.rwnd| && c.rwnd[i].Held? ==> c.rwnd[i].eacked
  }

  /**
   Refusals.  A segment for no connection is answered at most once and always with a reset; a reset is not answered,
   so two such endpoints fall silent.  The peer understands: a SYN refused this way ends its connection attempt, and
   an open connection whose ack is refused starts to close.
   */
  lemma RefusalUnderstood(c: Con, d: Con, s: Segment, a: Segment, now: int)
    requires a in InClosed(c, s).out
    ensures InClosed(c, s).con == c && InClosed(c, s).out == [a] && !s.rst && a.rst && a.body == []
    ensures InClosed(d, a).out == []
    ensures d.state.SynSent? && SynSentOk(d) && s == SynSeg(d) ==> InSynSent(d, a).con == d.(state := Closed)
    ensures d.state.Open? && Wf(d) && s == AckSeg(d) ==> InOpen(d, a, now).con.state.CloseWaitPasv?
  {
    hide DelayedAck;
    AddSub(d.rcvCur, 1);
  }

  /**
   Closing.  Whatever starts it, an exchange between two closing endpoints ends: the passive side answers only with a
   reset that asks for the last word, the active side has it, and nothing answers that.
   */
  lemma ClosingExchangeEnds(active: Con, active': Con, passive: Con, s: Segment)
    ensures forall a :: a in InCloseWaitPasv(passive, s).out ==> InCloseWaitActive(active, a).out == [FinSeg(active)]
    ensures InCloseWaitPasv(passive, FinSeg(active)).out == []
    ensures forall a :: a in InCloseWaitActive(active, s).out ==> InCloseWaitActive(active', a).out == []
    ensures InCloseWaitActive(active, s).con == active && InCloseWaitPasv(passive, s).con == passive
  {
  }

  /** The length of the send ring, the modulus of every index into it. */
  function RingLength(c: Con): int {
    4 * c.sndMax as int
  }

  /**
   A SYN sets up a connection that can ever send, with a ring to compute indices in, exactly if it allows at least one
   segment.  Otherwise `send` accepts nothing, and the first ack computes an index modulo 0.
   */
  lemma UsableExact(c: Con, s: Segment, iss: U32)
    requires (c.state.Listen? && ListenerTakes(s)) || (c.state.SynSent? && SynSentOk(c) && OpenerTakes(c, s))
    ensures var c1 := if c.state.Listen? then InListen(c, s, iss).con else InSynSent(c, s).con;
            && HasWindows(c1.state)
            && (CanEnqueue(c1.(state := Open)) <==> Read16(s.body, 0) >= 1)
            && (RingLength(c1) > 0 <==> Read16(s.body, 0) >= 1)
            && (Wf(c1) <==> Read16(s.body, 0) >= 1)
  {
  }

  /** A SYN that allows none: the listener takes it, and what it sets up is not in order and has an empty ring. */
  lemma ZeroWindowTaken(c: Con, seqnum: U32, iss: U32)
    requires c.state.Listen?
    ensures var s := Segment(true, false, false, false, false, false, 12, c.rport, c.lport, 0, seqnum, 0, SynBody(0, RBUF_MAX));
            var c1 := InListen(c, s, iss).con;
            ListenerTakes(s) && c1.state.SynRcvd? && RingLength(c1) == 0 && !Wf(c1) && !CanEnqueue(c1.(state := Open))
  {
  }

  /** Against a peer that extended-acknowledges the oldest segment the ring is lost: one sent segment is enough. */
  lemma HeadEackBreaksRing(data: seq<Byte>)
    ensures var slot := SndSlot(Some(data), 0, false, true, 1, 1);
            var c := Con(Open, false, 0, 0, 2, 0, RCV_MAX, 0, RBUF_MAX, 0, RCV_MAX, 0, 0, [slot], 1, FreeSlots(2048), []);
            Wf(c) && AckInWindow(c, 1) && !EackKeepsRing(c, 1)
  {
  }

  /** No run reaches a state from which the program would read, divide or advance the ring out of range. */
  lemma NothingUndefined(run: seq<System>, who: seq<bool>, acts: seq<Action>, n: nat, a: Action)
    requires Run(run, who, acts) && n < |run|
    ensures Enabled(run[n].a, run[n].b, a) ==> Defined(run[n].a, a)
    ensures Enabled(run[n].b, run[n].a, a) ==> Defined(run[n].b, a)
  {
    ReachableGood(run, who, acts, n);
    if Enabled(run[n].a, run[n].b, a) {
      AlwaysDefined(run[n].a, run[n].b, a);
    }
    if Enabled(run[n].b, run[n].a, a) {
      AlwaysDefined(run[n].b, run[n].a, a);
    }
  }

  // ---- handshake agreement ----------------------------------------------------------------

  /** Once either side is open, each side's idea of the other's first number is right. */
  lemma HandshakeAgreement(run: seq<System>, who: seq<bool>, acts: seq<Action>, n: nat)
    requires Run(run, who, acts) && n < |run|
    ensures PastHandshake(run[n].a.con.state) || PastHandshake(run[n].b.con.state) ==>
              && run[n].a.heard && run[n].b.heard
              && run[n].a.con.rcvIrs == run[n].b.con.sndIss
              && run[n].b.con.rcvIrs == run[n].a.con.sndIss
  {
    ReachableGood(run, who, acts, n);
  }

  // ---- the windows ---------------------------------------------------------------------------

  /** Positions of the numbers in use, and the limit the peer set, in every state with windows. */
  lemma WindowsInOrder(run: seq<System>, who: seq<bool>, acts: seq<Action>, n: nat)
    requires Run(run, who, acts) && n < |run|
    ensures HasWindows(run[n].a.con.state) ==> SendWindowOk(run[n].a.con) && NoStall(run[n].a.con) && RecvWindowOk(run[n].a.con)
    ensures HasWindows(run[n].b.con.state) ==> SendWindowOk(run[n].b.con) && NoStall(run[n].b.con) && RecvWindowOk(run[n].b.con)
    ensures Una(run[n].a) <= Rc(run[n].b) <= Sent(run[n].a)
    ensures Una(run[n].b) <= Rc(run[n].a) <= Sent(run[n].b)
  {
    ReachableGood(run, who, acts, n);
  }
}
