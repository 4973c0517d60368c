/** The receiving half: keeping data, delivering it in order, acknowledging it. */
module RdpProofReceive {
  import opened SeqNum
  import opened Seqs
  import opened Bytes
  import opened Segments
  import opened RdpSpec
  import opened RdpSystem
  import opened RdpProof

  // ---- which numbers pass the acceptance test -------------------------------

  /** In terms of positions, an old position `k <= cur` passes exactly when it lies a full cycle behind. */
  lemma AcceptanceExact(iss: U32, cur: U32, k: U32, window: nat)
    requires window < 0x2_0000
    ensures var off := Sub32(Add32(iss, k), Add32(iss, cur));
            0 < off <= window <==> cur < k <= cur + window || cur - k >= MODULUS - window
  {
    SubAdd(iss, k, cur);
  }

  /** At the far end of the cycle the test goes wrong: number 0 passes again once all but the window has gone by. */
  lemma OldNumberPasses(iss: U32)
    ensures var cur, k, window: nat := 0xFFFF_F800, 0, 2048;
            && k < cur && cur == MODULUS - window
            && 0 < Sub32(Add32(iss, k), Add32(iss, cur)) <= window
            && !(0 < Sub32(Add32(iss, k), Add32(iss, cur - 1)) <= window)
  {
    AcceptanceExact(iss, 0xFFFF_F800, 0, 2048);
    AcceptanceExact(iss, 0xFFFF_F7FF, 0, 2048);
  }

  /** The test made on arrival in OPEN agrees with the one made by the receive window. */
  lemma AcceptanceTestsAgree(c: Con, seqnum: U32)
    requires RecvWindowOk(c)
    ensures OpenAccepts(c, seqnum) <==> InRecvWindow(c, seqnum)
  {
  }

  // ---- keeping data -----------------------------------------------------------

  /** Every held slot is the right chunk of the peer. */
  ghost predicate WindowAgrees(w: seq<RcvSlot>, s: Side, rc: int) {
    0 <= rc && forall i :: 0 <= i < |w| ==> w[i].Held? ==>
      rc + i + 1 <= Sent(s) <= |s.log| && w[i].data == s.log[rc + i]
  }

  /** A data segment that passes the test lies ahead of the window, at its own position. */
  lemma InWindowPosition(x: Side, y: Side, seg: Segment)
    requires Inv(x, y) && x.heard && seg in y.net && !seg.rst && !seg.syn && seg.dlen > 0
    requires InRecvWindow(x.con, seg.seqnum)
    ensures var k := Sub32(seg.seqnum, y.con.sndIss);
            DataOk(y, seg) && Sub32(seg.seqnum, x.con.rcvCur) == k - Rc(x)
  {
    assert ShapeOk(y, seg);
    var k := Sub32(seg.seqnum, y.con.sndIss);
    AddSub(y.con.sndIss, seg.seqnum);
    AddSub(y.con.sndIss, x.con.rcvCur);
    AcceptanceExact(y.con.sndIss, Rc(x), k, |x.con.rwnd|);
    SubAdd(y.con.sndIss, k, Rc(x));
  }

  lemma PutDataAgrees(x: Side, y: Side, seg: Segment)
    requires Inv(x, y) && x.heard && seg in y.net && !seg.rst && !seg.syn && seg.dlen > 0
    requires InRecvWindow(x.con, seg.seqnum)
    ensures WindowAgrees(PutData(x.con, seg.body, seg.seqnum), y, Rc(x))
  {
    InWindowPosition(x, y, seg);
    assert WindowAgrees(x.con.rwnd, y, Rc(x));
  }

  lemma {:induction false} DeliveredOf(w: seq<RcvSlot>, chunks: seq<seq<Byte>>)
    requires |w| == |chunks|
    requires forall i :: 0 <= i < |w| ==> w[i].Held? && w[i].data == chunks[i] && |chunks[i]| > 0
    ensures Delivered(w) == chunks
  {
    if w != [] {
      DeliveredOf(w[1..], chunks[1..]);
    }
  }

  /** What is now in sequence is the next stretch of the peer's log. */
  lemma DeliveredInOrder(w: seq<RcvSlot>, s: Side, rc: nat)
    requires WindowAgrees(w, s, rc) && ChunksOk(s) && rc <= |s.log|
    ensures rc + LeadingHeld(w) <= |s.log|
    ensures Delivered(w[..LeadingHeld(w)]) == s.log[rc..rc + LeadingHeld(w)]
    ensures rc + LeadingHeld(w) <= Sent(s) || LeadingHeld(w) == 0
  {
    var n := LeadingHeld(w);
    if n > 0 {
      assert w[n - 1].Held?;
      DeliveredOf(w[..n], s.log[rc..rc + n]);
    }
  }

  lemma HasSegAfterAbsorb(x: Side, data: seq<Byte>, seqnum: U32, k: int)
    requires x.heard && RecvWindowOk(x.con) && InRecvWindow(x.con, seqnum)
    requires HasSeg(x, k)
    requires Rc(x) + LeadingHeld(PutData(x.con, data, seqnum)) < MODULUS
    ensures HasSeg(x.(con := Absorb(x.con, data, seqnum)), k)
  {
    var w := PutData(x.con, data, seqnum);
    var n := LeadingHeld(w);
    var x1 := x.(con := Absorb(x.con, data, seqnum));
    assert Rc(x1) == Rc(x) + n;
    if k > Rc(x1) {
      var off := k - Rc(x) - 1;
      assert w[off].Held?;
      assert off != n;
      assert x1.con.rwnd[off - n] == w[off];
    }
  }

  /** If what was delivered is the first `rc` chunks, delivering the next `n` leaves the first `rc + n`. */
  lemma DeliverMore(received: seq<Byte>, q: seq<seq<Byte>>, log: seq<seq<Byte>>, rc: nat, n: nat)
    requires rc + n <= |log| && received + Flatten(q) == Flatten(log[..rc])
    ensures received + Flatten(q + log[rc..rc + n]) == Flatten(log[..rc + n])
  {
    var chunks := log[rc..rc + n];
    calc {
      received + Flatten(q + chunks);
      { FlattenConcat(q, chunks); }
      received + (Flatten(q) + Flatten(chunks));
      { ConcatAssoc(received, Flatten(q), Flatten(chunks)); }
      Flatten(log[..rc]) + Flatten(chunks);
      { FlattenConcat(log[..rc], chunks); }
      Flatten(log[..rc] + chunks);
      { assert log[..rc] + chunks == log[..rc + n]; }
      Flatten(log[..rc + n]);
    }
  }

  lemma ConcatAssoc(a: seq<Byte>, b: seq<Byte>, c: seq<Byte>)
    ensures a + (b + c) == (a + b) + c
  {
  }

  /** The shifted window still holds the right chunks. */
  lemma WindowAfterAbsorb(w: seq<RcvSlot>, n: nat, s: Side, rc: nat)
    requires WindowAgrees(w, s, rc) && n <= |w|
    ensures WindowAgrees(w[n..] + FreeSlots(n), s, rc + n)
  {
    var w1 := w[n..] + FreeSlots(n);
    forall i | 0 <= i < |w1| && w1[i].Held?
      ensures rc + n + i + 1 <= Sent(s) <= |s.log| && w1[i].data == s.log[rc + n + i]
    {
      assert w1[i] == w[n + i];
    }
  }

  lemma RcAfterAbsorb(x: Side, data: seq<Byte>, seqnum: U32)
    requires x.heard && RecvWindowOk(x.con) && InRecvWindow(x.con, seqnum)
    requires Rc(x) + LeadingHeld(PutData(x.con, data, seqnum)) < MODULUS
    ensures Rc(x.(con := Absorb(x.con, data, seqnum))) == Rc(x) + LeadingHeld(PutData(x.con, data, seqnum))
  {
    AddSub(x.con.rcvIrs, x.con.rcvCur);
    AddAdd(x.con.rcvIrs, Rc(x), LeadingHeld(PutData(x.con, data, seqnum)));
  }

  lemma AbsorbFacts(x: Side, s: Side, data: seq<Byte>, seqnum: U32)
    requires x.heard && RecvWindowOk(x.con) && InRecvWindow(x.con, seqnum)
    requires 0 <= Rc(x) <= Sent(s) <= |s.log| < LIMIT && ChunksOk(s)
    requires WindowAgrees(PutData(x.con, data, seqnum), s, Rc(x))
    requires x.received + Flatten(x.con.rqueue) == Flatten(s.log[..Rc(x)])
    ensures var x1 := x.(con := Absorb(x.con, data, seqnum));
            && Rc(x1) == Rc(x) + LeadingHeld(PutData(x.con, data, seqnum)) <= Sent(s)
            && x1.received + Flatten(x1.con.rqueue) == Flatten(s.log[..Rc(x1)])
            && WindowAgrees(x1.con.rwnd, s, Rc(x1))
  {
    hide Flatten;
    hide HeldOk;
    hide WindowAgrees;
    hide ChunksOk;
    var w := PutData(x.con, data, seqnum);
    var n := LeadingHeld(w);
    DeliveredInOrder(w, s, Rc(x));
    DeliverMore(x.received, x.con.rqueue, s.log, Rc(x), n);
    WindowAfterAbsorb(w, n, s, Rc(x));
    RcAfterAbsorb(x, data, seqnum);
  }

  lemma FlowAfterAbsorb(x: Side, y: Side, seg: Segment)
    requires Inv(x, y) && x.heard && seg in y.net && !seg.rst && !seg.syn && seg.dlen > 0
    requires InRecvWindow(x.con, seg.seqnum)
    ensures Flow(y, x.(con := Absorb(x.con, seg.body, seg.seqnum)))
  {
    var x1 := x.(con := Absorb(x.con, seg.body, seg.seqnum));
    PutDataAgrees(x, y, seg);
    AbsorbFacts(x, y, seg.body, seg.seqnum);
    forall k: int {:trigger HasSeg(x1, k)} | HasSeg(x, k) ensures HasSeg(x1, k) {
      HasSegAfterAbsorb(x, seg.body, seg.seqnum, k);
    }
    AcksOfReceiver(y, x, x1);
    assert HeldAgree(y, x1);
  }

  lemma AbsorbKeeps(x: Side, y: Side, seg: Segment)
    requires Inv(x, y) && x.heard && seg in y.net && !seg.rst && !seg.syn && seg.dlen > 0
    requires InRecvWindow(x.con, seg.seqnum)
    ensures Inv(x.(con := Absorb(x.con, seg.body, seg.seqnum)), y)
  {
    var x1 := x.(con := Absorb(x.con, seg.body, seg.seqnum));
    FlowAfterAbsorb(x, y, seg);
    FlowOfSender(x, x1, y);
    ShapesKept(x, x1);
  }

  // ---- acknowledging ------------------------------------------------------------

  /** A scan that lists fewer numbers than it may leaves no held slot unreported. */
  lemma {:induction false} ScanComplete(w: seq<RcvSlot>, budget: nat)
    requires |EackScan(w, budget).1| < budget
    ensures forall i :: 0 <= i < |w| && w[i].Held? ==> EackScan(w, budget).0[i].Held? && EackScan(w, budget).0[i].eacked
  {
    if w != [] {
      ScanComplete(w[1..], if w[0].Held? && !w[0].eacked then budget - 1 else budget);
      assert forall i :: 1 <= i < |w| ==> w[i] == w[1..][i - 1];
    }
  }

  /** Each number in an extended-ack list is held somewhere in the window and was not reported before. */
  lemma {:induction false} ScanListsHeld(w: seq<RcvSlot>, budget: nat, e: U32) returns (i: nat)
    requires e in EackScan(w, budget).1
    ensures i < |w| && w[i].Held? && w[i].seqnum == e && !w[i].eacked
    ensures EackScan(w, budget).0[i] == w[i].(eacked := true)
  {
    if w[0].Held? && !w[0].eacked {
      if w[0].seqnum == e {
        i := 0;
      } else {
        i := ScanListsHeld(w[1..], budget - 1, e);
        i := i + 1;
      }
    } else {
      i := ScanListsHeld(w[1..], budget, e);
      i := i + 1;
    }
  }

  /** Only chunks beyond the next expected one are reported out of order. */
  lemma HeldIsEackedNo(x: Side, y: Side, i: nat)
    requires Inv(x, y) && x.heard && i < |x.con.rwnd| && x.con.rwnd[i].Held?
    ensures EackedNo(y, x, x.con.rwnd[i].seqnum)
  {
    var k := Rc(x) + i + 1;
    AddSub(y.con.sndIss, x.con.rcvCur);
    AddAdd(y.con.sndIss, Rc(x), i + 1);
    assert Sub32(x.con.rwnd[i].seqnum, y.con.sndIss) == k;
    forall t | t in x.net && PlainAck(t) ensures Sub32(t.acknum, y.con.sndIss) != k - 1 {
      assert AckOk(y, x, t);
    }
  }

  lemma FlowAfterScan(x: Side, x1: Side, y: Side)
    requires Flow(y, x) && |x1.con.rwnd| == |x.con.rwnd|
    requires forall i :: 0 <= i < |x.con.rwnd| ==> SameButEacked(x.con.rwnd[i], x1.con.rwnd[i])
    requires x1 == x.(con := x.con.(rwnd := x1.con.rwnd, rcvAck := x1.con.rcvAck))
    ensures Flow(y, x1)
  {
    forall k: int {:trigger HasSeg(x1, k)} | HasSeg(x, k) ensures HasSeg(x1, k) {
    }
    AcksOfReceiver(y, x, x1);
  }

  lemma ScanKeeps(x: Side, x1: Side, y: Side)
    requires Inv(x, y) && x.heard
    requires x1 == x.(con := x.con.(rwnd := EackScan(x.con.rwnd, MAX_EACK).0, rcvAck := x1.con.rcvAck))
    ensures Inv(x1, y)
  {
    assert SameButEacked(x.con.rwnd[0], x1.con.rwnd[0]);
    assert RecvWindowOk(x1.con);
    FlowAfterScan(x, x1, y);
    FlowOfSender(x, x1, y);
    ShapesKept(x, x1);
  }

  lemma EackSegTruthful(x: Side, x1: Side, y: Side)
    requires Inv(x, y) && x.heard && Inv(x1, y)
    requires x1 == x.(con := x.con.(rwnd := EackScan(x.con.rwnd, MAX_EACK).0, rcvAck := x1.con.rcvAck))
    ensures var seg := EackSeg(x.con, EackScan(x.con.rwnd, MAX_EACK).1);
            ShapeOk(x1, seg) && Truthful(y, x1, seg)
  {
    var w := x.con.rwnd;
    var seqs := EackScan(w, MAX_EACK).1;
    var seg := EackSeg(x.con, seqs);
    if seqs != [] {
      EackRoundTrip(seg, seqs);
      forall e | e in Eacks(seg) ensures EackedNo(y, x1, e) {
        var i := ScanListsHeld(w, MAX_EACK, e);
        assert SameButEacked(w[i], x1.con.rwnd[i]);
        HeldIsEackedNo(x1, y, i);
      }
    }
  }

  lemma DelayedAckKeeps(x: Side, y: Side)
    requires Inv(x, y) && x.heard
    ensures Inv(Put(x, DelayedAck(x.con)), y)
  {
    var r := DelayedAck(x.con);
    var x1 := x.(con := r.con);
    ScanKeeps(x, x1, y);
    if r.out == [] {
      assert SetOf(r.out) == {};
      assert Put(x, r) == x1;
    } else {
      EackSegTruthful(x, x1, y);
      EmitKeeps(x1, y, r.out[0]);
      assert SetOf(r.out) == {r.out[0]};
      assert Put(x, r) == Emit(x1, r.out[0]);
    }
  }

  lemma RecvDataKeeps(x: Side, y: Side, seg: Segment)
    requires Inv(x, y) && x.heard && seg in y.net && !seg.rst && !seg.syn && seg.dlen > 0
    ensures Inv(Put(x, RecvData(x.con, seg.body, seg.seqnum)), y)
  {
    hide Inv;
    Basics(x, y);
    if InRecvWindow(x.con, seg.seqnum) {
      var x1 := x.(con := Absorb(x.con, seg.body, seg.seqnum));
      AbsorbKeeps(x, y, seg);
      PutNothing(x1);
      DelayedAckKeeps(x1, y);
      var r := DelayedAck(x1.con);
      assert Put(x1, r) == Put(x, r);
      assert Put(x, Step(x1.con, [])) == Put(x1, Step(x1.con, []));
    } else {
      PutNothing(x);
    }
  }

  // ---- handing bytes to the user --------------------------------------------------

  function AfterReceive(x: Side, room: int): Side {
    var n := Fitting(x.con.rqueue, room);
    x.(con := x.con.(rqueue := x.con.rqueue[n..]), received := x.received + Flatten(x.con.rqueue[..n]))
  }

  /** Reading moves bytes from the queue to the user without losing or repeating any. */
  lemma TakingOut(received: seq<Byte>, q: seq<seq<Byte>>, n: nat)
    requires n <= |q|
    ensures received + Flatten(q[..n]) + Flatten(q[n..]) == received + Flatten(q)
  {
    hide Flatten;
    FlattenConcat(q[..n], q[n..]);
    assert q[..n] + q[n..] == q;
    ConcatAssociates(received, Flatten(q[..n]), Flatten(q[n..]));
  }

  lemma FlowAfterReceive(x: Side, y: Side, room: int)
    requires Flow(y, x)
    ensures Flow(y, AfterReceive(x, room))
  {
    var x1 := AfterReceive(x, room);
    TakingOut(x.received, x.con.rqueue, Fitting(x.con.rqueue, room));
    forall k: int {:trigger HasSeg(x1, k)} | HasSeg(x, k) ensures HasSeg(x1, k) {
    }
    AcksOfReceiver(y, x, x1);
  }

  lemma NothingToReceive(x: Side, room: int)
    requires x.con.rqueue == []
    ensures AfterReceive(x, room) == x
  {
    assert x.con.rqueue[..0] == [] && x.con.rqueue[0..] == [];
    assert x.received + [] == x.received;
  }

  lemma ReceiveKeeps(x: Side, y: Side, room: int)
    requires Inv(x, y)
    ensures Inv(AfterReceive(x, room), y)
  {
    if x.con.rqueue == [] {
      NothingToReceive(x, room);
    } else {
      var x1 := AfterReceive(x, room);
      assert x.heard;
      FlowAfterReceive(x, y, room);
      FlowOfSender(x, x1, y);
      ShapesKept(x, x1);
      assert Local(x1);
    }
  }
}
