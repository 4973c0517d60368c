/** Every elementary change to one side keeps the two-party invariant. */
module RdpProof {
  import opened SeqNum
  import opened Seqs
  import opened Bytes
  import opened Segments
  import opened RdpSpec
  import opened RdpSystem

  lemma SetOfConcat(a: seq<Segment>, b: seq<Segment>)
    ensures SetOf(a + b) == SetOf(a) + SetOf(b)
  {
  }

  /** Two moves in a row are one move that sends both lots of segments. */
  lemma PutTwice(x: Side, r1: Step, r2: Step)
    requires x.heard && x.issued
    ensures Put(x, Step(r2.con, r1.out + r2.out)) == Put(Put(x, r1), r2)
  {
    SetOfConcat(r1.out, r2.out);
  }

  lemma PutNothing(x: Side)
    requires x.heard && x.issued
    ensures Put(x, Step(x.con, [])) == x
  {
  }

  /** The facts about one side that the composition proofs use, so that they need not look inside `Inv`. */
  lemma Basics(x: Side, y: Side)
    requires Inv(x, y)
    ensures x.heard ==> Heard(x)
  {
  }

  // ---- what each half of the invariant depends on ---------------------------

  /** The two windows differ at most in their timers. */
  ghost predicate SameSlots(w: seq<SndSlot>, w': seq<SndSlot>) {
    && |w'| == |w|
    && (forall i :: 0 <= i < |w| ==> w'[i] == w[i].(sentTime := w'[i].sentTime, rtSec := w'[i].rtSec))
  }

  ghost predicate GrowingSender(s: Side, s': Side) {
    && s'.issued == s.issued && s'.heard == s.heard && s.log <= s'.log
    && s'.con.sndIss == s.con.sndIss && Una(s') == Una(s) && Sent(s) <= Sent(s') <= |s'.log|
    && (s.heard ==> forall i :: 0 <= i < s'.con.ostand <= |s'.con.swnd| ==> s'.con.swnd[i].isAcked ==>
          i < s.con.ostand <= |s.con.swnd| && s.con.swnd[i].isAcked && s.con.swnd[i].seqnum == s'.con.swnd[i].seqnum)
  }

  predicate SameReceiver(r: Side, r': Side) {
    && r'.heard == r.heard && r'.received == r.received && r'.net == r.net
    && r'.con.rcvIrs == r.con.rcvIrs && r'.con.rcvCur == r.con.rcvCur
    && r'.con.rwnd == r.con.rwnd && r'.con.rqueue == r.con.rqueue
  }

  lemma EackedNoOfSender(s: Side, s': Side, r: Side, e: U32)
    requires EackedNo(s, r, e)
    requires s'.con.sndIss == s.con.sndIss && Una(s') == Una(s) && Sent(s') >= Sent(s)
    ensures EackedNo(s', r, e)
  {
    assert NeverAcked(s', r, Sub32(e, s.con.sndIss));
  }

  lemma AckOkOfSender(s: Side, s': Side, r: Side)
    requires forall seg :: seg in r.net ==> AckOk(s, r, seg)
    requires s'.con.sndIss == s.con.sndIss && Una(s') == Una(s) && Sent(s') >= Sent(s)
    ensures forall seg :: seg in r.net ==> AckOk(s', r, seg)
  {
    forall seg | seg in r.net ensures AckOk(s', r, seg) {
      assert AckOk(s, r, seg);
      forall e | seg.eak && EackListPresent(seg) && e in Eacks(seg) ensures EackedNo(s', r, e) {
        EackedNoOfSender(s, s', r, e);
      }
    }
  }

  /** The flow survives when the sender only gains chunks or sends more of them. */
  lemma FlowOfSender(s: Side, s': Side, r: Side)
    requires Flow(s, r) && GrowingSender(s, s')
    ensures Flow(s', r)
  {
    AckOkOfSender(s, s', r);
    forall i | s'.heard && 0 <= i < s'.con.ostand <= |s'.con.swnd| && s'.con.swnd[i].isAcked
      ensures EackedNo(s', r, s'.con.swnd[i].seqnum)
    {
      EackedNoOfSender(s, s', r, s.con.swnd[i].seqnum);
    }
    assert s'.log[..Rc(r)] == s.log[..Rc(r)];
  }

  /** What a side has already said stays right while it only gains. */
  lemma ShapesKept(x: Side, x1: Side)
    requires forall seg :: seg in x.net ==> ShapeOk(x, seg)
    requires x1.net == x.net && (x.issued ==> x1.issued && x1.con.sndIss == x.con.sndIss) && (x.heard ==> x1.heard)
    requires x.log <= x1.log && Sent(x) <= Sent(x1) <= |x1.log|
    ensures forall seg :: seg in x1.net ==> ShapeOk(x1, seg)
  {
    forall seg | seg in x1.net ensures ShapeOk(x1, seg) {
      assert ShapeOk(x, seg);
    }
  }

  lemma FlowOfReceiver(s: Side, r: Side, r': Side)
    requires Flow(s, r) && SameReceiver(r, r')
    ensures Flow(s, r')
  {
    AcksOfReceiver(s, r, r');
  }

  /** Whatever was acknowledged stays so while the receiver only gains. */
  lemma AcksOfReceiver(s: Side, r: Side, r': Side)
    requires Flow(s, r) && r'.net == r.net && Rc(r) <= Rc(r')
    requires forall k: int {:trigger HasSeg(r', k)} :: HasSeg(r, k) ==> HasSeg(r', k)
    ensures AckedAgree(s, r') && forall seg :: seg in r'.net ==> AckOk(s, r', seg)
  {
    forall e: U32 {:trigger EackedNo(s, r', e)} | EackedNo(s, r, e) ensures EackedNo(s, r', e) {
      assert HasSeg(r', Sub32(e, s.con.sndIss));
    }
    forall seg | seg in r'.net ensures AckOk(s, r', seg) {
      assert AckOk(s, r, seg);
    }
  }

  // ---- putting one segment on the wire --------------------------------------

  function Emit(x: Side, seg: Segment): Side {
    x.(net := x.net + {seg})
  }

  /** A segment that tells the truth about the receiving half of its sender. */
  ghost predicate Truthful(s: Side, r: Side, seg: Segment) {
    && (PlainAck(seg) ==> Sub32(seg.acknum, s.con.sndIss) == Rc(r))
    && (seg.eak ==> EackListPresent(seg) && forall e :: e in Eacks(seg) ==> EackedNo(s, r, e))
  }

  /** Facts recorded about extended acks survive a new cumulative ack of the current position. */
  lemma EackedNoAfterEmit(s: Side, r: Side, seg: Segment, e: U32)
    requires EackedNo(s, r, e)
    requires PlainAck(seg) ==> Sub32(seg.acknum, s.con.sndIss) == Rc(r)
    ensures EackedNo(s, Emit(r, seg), e)
  {
  }

  lemma FlowAfterEmit(s: Side, r: Side, seg: Segment)
    requires Flow(s, r) && Truthful(s, r, seg)
    ensures Flow(s, Emit(r, seg))
  {
    var r' := Emit(r, seg);
    forall t | t in r'.net ensures AckOk(s, r', t) {
      forall e | t.eak && EackListPresent(t) && e in Eacks(t) ensures EackedNo(s, r', e) {
        assert t in r.net ==> AckOk(s, r, t);
        EackedNoAfterEmit(s, r, seg, e);
      }
      assert t in r.net ==> AckOk(s, r, t);
    }
    forall i | s.heard && 0 <= i < s.con.ostand <= |s.con.swnd| && s.con.swnd[i].isAcked
      ensures EackedNo(s, r', s.con.swnd[i].seqnum)
    {
      EackedNoAfterEmit(s, r, seg, s.con.swnd[i].seqnum);
    }
  }

  lemma LocalAfterEmit(x: Side, seg: Segment)
    requires Local(x) && ShapeOk(x, seg)
    ensures Local(Emit(x, seg))
  {
    var x' := Emit(x, seg);
    forall t | t in x'.net ensures ShapeOk(x', t) {
      assert t in x.net ==> ShapeOk(x, t);
    }
  }

  lemma EmitKeeps(x: Side, y: Side, seg: Segment)
    requires Inv(x, y) && ShapeOk(x, seg) && Truthful(y, x, seg)
    ensures Inv(Emit(x, seg), y)
  {
    LocalAfterEmit(x, seg);
    FlowAfterEmit(y, x, seg);
    FlowOfSender(x, Emit(x, seg), y);
  }

  // ---- sending --------------------------------------------------------------

  /** The segment built for the next waiting chunk carries that chunk under the right number. */
  lemma DataSegOfSendOne(x: Side, now: int)
    requires Local(x) && x.heard && x.con.ostand < |x.con.swnd|
    ensures var r := SendOne(x.con, now);
            DataOk(x.(con := r.con), r.out[0]) && r.out[0].dlen > 0
  {
    var r := SendOne(x.con, now);
    assert UnsentSlotOk(x.con.swnd[x.con.ostand]);
    AddAdd(x.con.sndIss, Una(x), x.con.ostand + 1);
    AddSub(x.con.sndUna, x.con.sndNxt);
    assert Sub32(x.con.sndNxt, x.con.sndIss) == Sent(x) + 1;
    assert Contents(x.con.swnd[x.con.ostand]) == x.log[Sent(x)];
  }

  lemma WindowAfterSendOne(c: Con, now: int)
    requires SendWindowOk(c) && c.ostand < |c.swnd| && Sub32(c.sndNxt, c.sndUna) < c.sndMax
    ensures SendWindowOk(SendOne(c, now).con)
  {
  }

  lemma LocalAfterSendOne(x: Side, now: int)
    requires Local(x) && x.heard
    requires x.con.ostand < |x.con.swnd| && Sub32(x.con.sndNxt, x.con.sndUna) < x.con.sndMax
    ensures Local(x.(con := SendOne(x.con, now).con))
    ensures ShapeOk(x.(con := SendOne(x.con, now).con), SendOne(x.con, now).out[0])
  {
    var x1 := x.(con := SendOne(x.con, now).con);
    WindowAfterSendOne(x.con, now);
    DataSegOfSendOne(x, now);
    ShapesKept(x, x1);
  }

  /** The next waiting chunk becomes sent; the segment built for it tells the truth. */
  lemma SendOneKeeps(x: Side, y: Side, now: int)
    requires Inv(x, y) && x.heard
    requires x.con.ostand < |x.con.swnd| && Sub32(x.con.sndNxt, x.con.sndUna) < x.con.sndMax
    ensures Inv(Put(x, SendOne(x.con, now)), y)
  {
    var r := SendOne(x.con, now);
    var x1 := x.(con := r.con);
    LocalAfterSendOne(x, now);
    FlowOfSender(x, x1, y);
    FlowOfReceiver(y, x, x1);
    EmitKeeps(x1, y, r.out[0]);
    assert SetOf(r.out) == {r.out[0]};
    assert Put(x, r) == Emit(x1, r.out[0]);
  }

  lemma {:induction false} SendOstandKeeps(x: Side, y: Side, now: int)
    requires Inv(x, y) && x.heard
    ensures Inv(Put(x, SendOstand(x.con, now)), y)
    ensures NoStall(SendOstand(x.con, now).con)
    decreases |x.con.swnd| - x.con.ostand
  {
    var r := SendOstand(x.con, now);
    if x.con.ostand < |x.con.swnd| && Sub32(x.con.sndNxt, x.con.sndUna) < x.con.sndMax {
      var first := SendOne(x.con, now);
      SendOneKeeps(x, y, now);
      SendOstandKeeps(Put(x, first), y, now);
      var rest := SendOstand(first.con, now);
      PutTwice(x, first, rest);
    } else {
      PutNothing(x);
    }
  }

  /** A chunk taken from the user joins the log and the window. */
  lemma PutChunkKeeps(x: Side, y: Side, data: seq<Byte>)
    requires Inv(x, y) && x.heard && CanEnqueue(x.con)
    requires 0 < |data| <= RBUF_MAX - HEAD_SIZE && |x.log| + 1 < LIMIT
    ensures Inv(WithChunk(x, data), y)
  {
    var x1 := WithChunk(x, data);
    FlattenSnoc(x.log, data);
    ShapesKept(x, x1);
    FlowOfSender(x, x1, y);
    FlowOfReceiver(y, x, x1);
  }

  function WithChunk(x: Side, data: seq<Byte>): Side {
    x.(con := PutChunk(x.con, data), log := x.log + [data], accepted := x.accepted + data)
  }

  lemma EnqueueKeeps(x: Side, y: Side, data: seq<Byte>, now: int)
    requires Inv(x, y) && x.heard && CanEnqueue(x.con)
    requires 0 < |data| <= RBUF_MAX - HEAD_SIZE && |x.log| + 1 < LIMIT
    ensures var r := Enqueue(x.con, data, now);
            var x' := Put(x, r).(log := x.log + [data], accepted := x.accepted + data);
            Inv(x', y) && NoStall(x'.con)
  {
    var r := Enqueue(x.con, data, now);
    var x1 := WithChunk(x, data);
    PutChunkKeeps(x, y, data);
    SendOstandKeeps(x1, y, now);
    assert Put(x1, r) == Put(x, r).(log := x.log + [data], accepted := x.accepted + data);
  }

  function AfterSend(x: Side, s: Sending, buf: seq<Byte>): Side {
    Put(x, s.step).(log := x.log + s.chunks, accepted := x.accepted + Taken(buf, s.total))
  }

  lemma SplitAt(buf: seq<Byte>, n: nat)
    requires n <= |buf|
    ensures buf[..n] + buf[n..] == buf
  {
  }

  lemma AfterSendTwice(x: Side, first: Step, chunk: seq<Byte>, rest: Sending, buf: seq<Byte>)
    requires x.heard && x.issued
    ensures AfterSend(x, Join(first, chunk, rest), chunk + buf) == AfterSend(AfterSend(x, Sending(first, [chunk], |chunk|), chunk), rest, buf)
  {
    PutTwice(x, first, rest.step);
    assert x.log + ([chunk] + rest.chunks) == x.log + [chunk] + rest.chunks;
    TakenTwice(x.accepted, chunk, buf, rest.total);
  }

  lemma TakenTwice(accepted: seq<Byte>, chunk: seq<Byte>, buf: seq<Byte>, n: nat)
    ensures accepted + Taken(chunk + buf, |chunk| + n) == accepted + Taken(chunk, |chunk|) + Taken(buf, n)
  {
    assert Taken(chunk + buf, |chunk| + n) == chunk + Taken(buf, n);
    assert Taken(chunk, |chunk|) == chunk;
  }

  lemma NothingSent(x: Side, buf: seq<Byte>)
    requires x.heard && x.issued
    ensures AfterSend(x, Sending(Step(x.con, []), [], 0), buf) == x
  {
    PutNothing(x);
    assert Taken(buf, 0) == [];
  }

  lemma FirstChunkKeeps(x: Side, y: Side, chunk: seq<Byte>, now: int)
    requires Inv(x, y) && x.heard && CanEnqueue(x.con) && 0 < |chunk| <= ChunkSize(x.con) && |x.log| + 1 < LIMIT
    ensures var first := Enqueue(x.con, chunk, now);
            Inv(AfterSend(x, Sending(first, [chunk], |chunk|), chunk), y)
  {
    EnqueueKeeps(x, y, chunk, now);
    assert Taken(chunk, |chunk|) == chunk;
  }

  lemma SendChunksCases(c: Con, buf: seq<Byte>, now: int)
    requires SendWindowOk(c) && NoStall(c) && ChunkSize(c) > 0 && |buf| > 0 && CanEnqueue(c)
    ensures var size := FirstSize(c, buf);
            var first := Enqueue(c, buf[..size], now);
            SendChunks(c, buf, now) ==
            if size == |buf| then Sending(first, [buf[..size]], size)
            else Join(first, buf[..size], SendChunks(first.con, buf[size..], now))
  {
    if FirstSize(c, buf) == |buf| {
      assert buf[..|buf|] == buf;
    }
  }

  lemma {:induction false} SendChunksKeeps(x: Side, y: Side, buf: seq<Byte>, now: int)
    requires Inv(x, y) && NoStall(x.con) && x.heard && |buf| > 0
    requires |x.log| + |SendChunks(x.con, buf, now).chunks| < LIMIT
    ensures Inv(AfterSend(x, SendChunks(x.con, buf, now), buf), y)
    decreases |buf|
  {
    hide Inv;
    hide SlotsOk;
    Basics(x, y);
    if !CanEnqueue(x.con) {
      NothingSent(x, buf);
    } else {
      SendChunksCases(x.con, buf, now);
      hide SendChunks;
      var size := FirstSize(x.con, buf);
      FirstChunkKeeps(x, y, buf[..size], now);
      SplitAt(buf, size);
      if size < |buf| {
        var first := Enqueue(x.con, buf[..size], now);
        SendChunksKeeps(AfterSend(x, Sending(first, [buf[..size]], size), buf[..size]), y, buf[size..], now);
        AfterSendTwice(x, first, buf[..size], SendChunks(first.con, buf[size..], now), buf[size..]);
      } else {
        assert buf[..size] == buf;
      }
    }
  }

  // ---- being acknowledged -----------------------------------------------------

  lemma LocalAfterPop(x: Side, acknum: U32)
    requires Local(x) && x.heard && AckInWindow(x.con, acknum)
    ensures Local(x.(con := PopAcked(x.con, acknum)))
  {
    var x1 := x.(con := PopAcked(x.con, acknum));
    ShapesKept(x, x1);
  }

  /** A cumulative ack never passes over a chunk that was only acknowledged out of order. */
  lemma EackedNoAfterPop(x: Side, y: Side, seg: Segment, e: U32)
    requires Inv(x, y) && x.heard && seg in y.net && PlainAck(seg) && AckInWindow(x.con, seg.acknum)
    requires EackedNo(x, y, e)
    ensures EackedNo(x.(con := PopAcked(x.con, seg.acknum)), y, e)
  {
    var x1 := x.(con := PopAcked(x.con, seg.acknum));
    assert Una(x1) == Sub32(seg.acknum, x.con.sndIss);
    assert NeverAcked(x1, y, Sub32(e, x.con.sndIss));
  }

  lemma FlowAfterPop(x: Side, y: Side, seg: Segment)
    requires Inv(x, y) && x.heard && seg in y.net && PlainAck(seg) && AckInWindow(x.con, seg.acknum)
    ensures Flow(x.(con := PopAcked(x.con, seg.acknum)), y)
  {
    var x1 := x.(con := PopAcked(x.con, seg.acknum));
    assert AckOk(x, y, seg);
    forall t | t in y.net ensures AckOk(x1, y, t) {
      assert AckOk(x, y, t);
      forall e | t.eak && EackListPresent(t) && e in Eacks(t) ensures EackedNo(x1, y, e) {
        EackedNoAfterPop(x, y, seg, e);
      }
    }
    var n := Sub32(seg.acknum, x.con.sndUna);
    forall i | 0 <= i < x1.con.ostand <= |x1.con.swnd| && x1.con.swnd[i].isAcked
      ensures EackedNo(x1, y, x1.con.swnd[i].seqnum)
    {
      assert x1.con.swnd[i] == x.con.swnd[n + i];
      EackedNoAfterPop(x, y, seg, x.con.swnd[n + i].seqnum);
    }
  }

  lemma PopKeeps(x: Side, y: Side, seg: Segment)
    requires Inv(x, y) && x.heard && seg in y.net && PlainAck(seg)
    ensures Inv(x.(con := PopAcked(x.con, seg.acknum)), y)
  {
    var x1 := x.(con := PopAcked(x.con, seg.acknum));
    if AckInWindow(x.con, seg.acknum) {
      LocalAfterPop(x, seg.acknum);
      FlowAfterPop(x, y, seg);
      FlowOfReceiver(y, x, x1);
    } else {
      assert x1 == x;
    }
  }

  lemma LocalAfterMark(x: Side, e: U32)
    requires Local(x) && x.heard
    ensures Local(x.(con := MarkEacked(x.con, e)))
  {
    var x1 := x.(con := MarkEacked(x.con, e));
    ShapesKept(x, x1);
  }

  lemma FlowAfterMark(x: Side, y: Side, e: U32)
    requires Local(x) && Flow(x, y) && x.heard && EackedNo(x, y, e)
    ensures Flow(x.(con := MarkEacked(x.con, e)), y)
  {
    var x1 := x.(con := MarkEacked(x.con, e));
    AckOkOfSender(x, x1, y);
    forall i | 0 <= i < x1.con.ostand <= |x1.con.swnd| && x1.con.swnd[i].isAcked
      ensures EackedNo(x1, y, x1.con.swnd[i].seqnum)
    {
      assert SentSlotOk(x.con.swnd[i], Add32(x.con.sndUna, i + 1));
      assert x.con.swnd[i].isAcked || x.con.swnd[i].seqnum == e;
      EackedNoOfSender(x, x1, y, x1.con.swnd[i].seqnum);
    }
  }

  lemma MarkKeeps(x: Side, y: Side, e: U32)
    requires Inv(x, y) && x.heard && EackedNo(x, y, e)
    ensures Inv(x.(con := MarkEacked(x.con, e)), y)
  {
    LocalAfterMark(x, e);
    FlowAfterMark(x, y, e);
    FlowOfReceiver(y, x, x.(con := MarkEacked(x.con, e)));
  }

  lemma {:induction false} MarkAllKeeps(x: Side, y: Side, eacks: seq<U32>)
    requires Inv(x, y) && x.heard && forall e :: e in eacks ==> EackedNo(x, y, e)
    ensures Inv(x.(con := MarkAllEacked(x.con, eacks)), y)
    decreases |eacks|
  {
    if eacks == [] {
      assert x.(con := MarkAllEacked(x.con, eacks)) == x;
    } else {
      var x1 := x.(con := MarkEacked(x.con, eacks[0]));
      MarkKeeps(x, y, eacks[0]);
      forall e | e in eacks[1..] ensures EackedNo(x1, y, e) {
        EackedNoOfSender(x, x1, y, e);
      }
      MarkAllKeeps(x1, y, eacks[1..]);
      assert x.(con := MarkAllEacked(x.con, eacks)) == x1.(con := MarkAllEacked(x1.con, eacks[1..]));
    }
  }

  // ---- retransmitting -----------------------------------------------------------

  lemma DataSegOfRetransmit(x: Side, i: nat)
    requires Local(x) && x.heard && i < x.con.ostand && !x.con.swnd[i].isAcked
    ensures ShapeOk(x, DataSeg(x.con, Contents(x.con.swnd[i]), x.con.swnd[i].seqnum))
  {
    assert SentSlotOk(x.con.swnd[i], Add32(x.con.sndUna, i + 1));
    AddAdd(x.con.sndIss, Una(x), i + 1);
    assert Sub32(x.con.swnd[i].seqnum, x.con.sndIss) == Una(x) + i + 1;
    assert Contents(x.con.swnd[i]) == x.log[Una(x) + i];
  }

  /** A slot whose buffer is still kept can be sent again, and says what it said before. */
  lemma RetransmitOneKeeps(x: Side, y: Side, i: nat, now: int)
    requires Inv(x, y) && x.heard && i < x.con.ostand && !x.con.swnd[i].isAcked
    ensures Inv(Put(x, RetransmitOne(x.con, i, now)), y)
  {
    var r := RetransmitOne(x.con, i, now);
    var x1 := x.(con := r.con);
    BenignKeeps(x, x1, y);
    DataSegOfRetransmit(x1, i);
    EmitKeeps(x1, y, r.out[0]);
    assert SetOf(r.out) == {r.out[0]};
    assert Put(x, r) == Emit(x1, r.out[0]);
  }

  lemma {:induction false} RetransmitKeeps(x: Side, y: Side, i: nat, now: int, maxRetrans: int)
    requires Inv(x, y) && x.heard
    ensures Inv(Put(x, RetransmitFrom(x.con, i, now, maxRetrans)), y)
    decreases x.con.ostand - i
  {
    hide Inv;
    Basics(x, y);
    if i >= x.con.ostand {
      PutNothing(x);
    } else {
      var s := x.con.swnd[i];
      if s.isAcked {
        RetransmitKeeps(x, y, i + 1, now, maxRetrans);
      } else if s.rtSec > maxRetrans {
        var x1 := x.(con := x.con.(state := Closed));
        BenignKeeps(x, x1, y);
        assert SetOf([]) == {};
        assert Put(x, Step(x1.con, [])) == x1;
      } else if now - s.sentTime > s.rtSec {
        var r := RetransmitOne(x.con, i, now);
        RetransmitOneKeeps(x, y, i, now);
        Basics(Put(x, r), y);
        RetransmitKeeps(Put(x, r), y, i + 1, now, maxRetrans);
        PutTwice(x, r, RetransmitFrom(r.con, i + 1, now, maxRetrans));
      } else {
        RetransmitKeeps(x, y, i + 1, now, maxRetrans);
      }
    }
  }

  /** Timers, the ack bookkeeping and a change of state leave both flows alone. */
  lemma BenignKeeps(x: Side, x1: Side, y: Side)
    requires Inv(x, y) && x.heard
    requires SameSlots(x.con.swnd, x1.con.swnd)
    requires x1 == x.(con := x.con.(state := x1.con.state, rcvAck := x1.con.rcvAck, swnd := x1.con.swnd))
    requires !x1.con.state.Listen? && !x1.con.state.SynSent?
    ensures Inv(x1, y)
  {
    ShapesKept(x, x1);
    FlowOfSender(x, x1, y);
    FlowOfReceiver(y, x, x1);
  }
}
