/**
 Two endpoints and the network between them.

 Each side keeps its connection record, the history needed to state the promises (every chunk and
 byte accepted by `send`, every byte handed out by `receive`) and every segment it ever put on the
 wire.  The network delivers any of those segments at any time, any number of times or never, so it
 loses, duplicates and reorders.
 */
module RdpSystem {
  import opened SeqNum
  import opened Seqs
  import opened Bytes
  import opened Segments
  import opened RdpSpec

  /** Below this many segments per direction a sequence number never comes round again. */
  const LIMIT: int := MODULUS - 2048

  datatype Side = Side(
    con: Con,
    issued: bool,            // an initial sequence number has been drawn
    heard: bool,             // the peer's SYN has been processed
    log: seq<seq<Byte>>,     // chunks accepted from the user, in order
    accepted: seq<Byte>,     // bytes accepted from the user
    received: seq<Byte>,     // bytes handed out to the user
    net: set<Segment>)       // everything ever sent

  datatype System = System(a: Side, b: Side)

  datatype Action =
    | Connecting(iss: U32)
    | Deliver(seg: Segment, listening: bool, iss: U32, now: int)
    | Sends(buf: seq<Byte>, now: int)
    | Receives(room: int)
    | Closes
    | OpenTicks(now: int, maxRetrans: int, ackDue: bool)
    | SynTicks(giveUp: bool)
    | RstTicks(giveUp: bool)

  function SetOf(out: seq<Segment>): set<Segment> {
    set s | s in out
  }

  function Put(x: Side, r: Step): Side {
    x.(con := r.con, net := x.net + SetOf(r.out),
       issued := x.issued || !(r.con.state.Closed? || r.con.state.Listen?),
       heard := x.heard || HasWindows(r.con.state))
  }

  /** When the environment or the user may do this.  One incarnation per side: `connect` happens once. */
  ghost predicate Enabled(x: Side, y: Side, a: Action) {
    match a
    case Connecting(_) => x.con.state.Closed? && !x.issued
    case Deliver(seg, _, _, _) => seg in y.net
    case Sends(_, _) => true
    case Receives(_) => true
    case Closes => true
    case OpenTicks(_, _, _) => x.con.state.Open?
    case SynTicks(_) => x.con.state.SynSent? || x.con.state.SynRcvd?
    case RstTicks(_) => x.con.state.CloseWaitActive? || x.con.state.CloseWaitPasv?
  }

  /** When the program's own behaviour is defined: windows in order, no read or division out of range. */
  ghost predicate Defined(x: Side, a: Action) {
    && Wf(x.con) && SynSentOk(x.con) && (x.con.state.Open? ==> ChunkSize(x.con) >= 0)
    && (a.Deliver? ==> InputSafe(x.con, a.seg, a.now))
    && (a.OpenTicks? ==> x.con.state.Open?)
  }

  function Apply(x: Side, a: Action): Side
    requires Defined(x, a)
  {
    match a
    case Connecting(iss) => Put(x, Connect(x.con, iss))
    case Deliver(seg, listening, iss, now) => Put(x, Input(x.con, seg, listening, iss, now))
    case Sends(buf, now) =>
      var s := Send(x.con, buf, now);
      Put(x, s.step).(log := x.log + s.chunks, accepted := x.accepted + Taken(buf, s.total))
    case Receives(room) =>
      var n := Fitting(x.con.rqueue, room);
      x.(con := x.con.(rqueue := x.con.rqueue[n..]), received := x.received + Flatten(x.con.rqueue[..n]))
    case Closes => Put(x, Close(x.con))
    case OpenTicks(now, maxRetrans, ackDue) => Put(x, OpenTick(x.con, now, maxRetrans, ackDue))
    case SynTicks(giveUp) => Put(x, SynTick(x.con, giveUp))
    case RstTicks(giveUp) => Put(x, RstTick(x.con, giveUp))
  }

  function Taken(buf: seq<Byte>, n: nat): seq<Byte> {
    if n <= |buf| then buf[..n] else buf
  }

  /** One move of one side.  Where the program's behaviour is undefined, anything may follow. */
  ghost predicate Moves(x: Side, x': Side, y: Side, a: Action) {
    Enabled(x, y, a) && (Defined(x, a) ==> x' == Apply(x, a))
  }

  ghost predicate Next(s: System, s': System, first: bool, a: Action) {
    if first then Moves(s.a, s'.a, s.b, a) && s'.b == s.b
    else Moves(s.b, s'.b, s.a, a) && s'.a == s.a
  }

  ghost predicate Fresh(x: Side) {
    && (x.con.state.Closed? || x.con.state.Listen?)
    && !x.issued && !x.heard && x.log == [] && x.accepted == [] && x.received == [] && x.net == {}
    && x.con.swnd == [] && x.con.ostand == 0 && x.con.rqueue == []
  }

  ghost predicate Init(s: System) {
    Fresh(s.a) && Fresh(s.b)
  }

  ghost predicate Small(s: System) {
    |s.a.log| < LIMIT && |s.b.log| < LIMIT
  }

  // ---- counting ----------------------------------------------------------
  // The k-th chunk of a side travels under number `sndIss + k`.

  /** Chunks sent at least once. */
  function Sent(x: Side): int {
    |x.log| - |x.con.swnd| + x.con.ostand
  }

  /** Chunks acknowledged cumulatively. */
  function Una(x: Side): int {
    |x.log| - |x.con.swnd|
  }

  /** Chunks of the peer received in sequence. */
  function Rc(x: Side): int {
    if x.heard then Sub32(x.con.rcvCur, x.con.rcvIrs) else 0
  }

  /** The receiver has chunk `k`, delivered or waiting in its window beyond the head. */
  predicate HasSeg(r: Side, k: int) {
    var off := k - Rc(r) - 1;
    k <= Rc(r) || (r.heard && 1 <= off < |r.con.rwnd| && r.con.rwnd[off].Held?)
  }

  // ---- the invariant ------------------------------------------------------

  predicate DataOk(x: Side, seg: Segment) {
    var k := Sub32(seg.seqnum, x.con.sndIss);
    && 1 <= k <= Sent(x) <= |x.log|
    && seg.hlen == 10 && seg.ack && !seg.eak && seg.dlen as int == |seg.body|
    && seg.body == x.log[k - 1]
  }

  /** What can be said of a segment from its sender alone. */
  ghost predicate ShapeOk(x: Side, seg: Segment) {
    if seg.rst then seg.body == [] && !seg.syn && !seg.eak
    else
      && !seg.nul
      && (seg.ack ==> x.heard)
      && (seg.syn ==> x.issued && seg.seqnum == x.con.sndIss && seg.body == SynBody(RCV_MAX, RBUF_MAX) && !seg.eak)
      && (!seg.syn && seg.dlen > 0 ==> x.issued && DataOk(x, seg))
      && (!seg.syn && seg.dlen == 0 && !seg.eak ==> seg.body == [])
      && (seg.eak ==> seg.ack && seg.dlen == 0 && EackListPresent(seg))
  }

  ghost predicate ChunksOk(x: Side) {
    && (forall i :: 0 <= i < |x.log| ==> 0 < |x.log[i]| <= RBUF_MAX - HEAD_SIZE)
    && x.accepted == Flatten(x.log)
  }

  /** Buffers still kept are the chunks the user handed over. */
  ghost predicate BuffersOk(w: seq<SndSlot>, log: seq<seq<Byte>>) {
    && |w| <= |log|
    && (forall i :: 0 <= i < |w| ==> w[i].pbuf.Some? ==> w[i].pbuf.value == log[|log| - |w| + i])
  }

  ghost predicate Unheard(x: Side) {
    && x.con.swnd == [] && x.con.ostand == 0 && x.log == [] && x.con.rqueue == [] && x.received == []
    && !HasWindows(x.con.state)
    && (x.issued ==> x.con.sndUna == x.con.sndIss && x.con.sndNxt == Add32(x.con.sndIss, 1))
    && (!x.issued ==> x.con.state.Closed? || x.con.state.Listen?)
    && (x.con.state.Listen? ==> !x.issued)
  }

  ghost predicate Heard(x: Side) {
    && x.issued && !x.con.state.Listen? && !x.con.state.SynSent?
    && SendWindowOk(x.con) && RecvWindowOk(x.con)
    && x.con.sndMax == RCV_MAX && x.con.rcvMax == RCV_MAX && x.con.sbufMax == RBUF_MAX
  }

  ghost predicate Local(x: Side) {
    && |x.log| < LIMIT
    && SynSentOk(x.con)
    && (if x.heard then Heard(x) else Unheard(x))
    && BuffersOk(x.con.swnd, x.log)
    && (x.issued ==> x.con.sndUna == Add32(x.con.sndIss, Una(x)))
    && ChunksOk(x)
    && (forall seg :: seg in x.net ==> ShapeOk(x, seg))
  }

  predicate PlainAck(seg: Segment) {
    seg.ack && !seg.rst && !seg.syn
  }

  /** `r` never acknowledged chunk `k - 1` as its newest, and never will. */
  ghost predicate NeverAcked(s: Side, r: Side, k: int) {
    forall t :: t in r.net && PlainAck(t) ==> Sub32(t.acknum, s.con.sndIss) != k - 1
  }

  /** Number `e` of sender `s` has been acknowledged out of order by receiver `r`. */
  ghost predicate EackedNo(s: Side, r: Side, e: U32) {
    var k := Sub32(e, s.con.sndIss);
    2 <= k <= Sent(s) && HasSeg(r, k) && k != Una(s) + 1 && NeverAcked(s, r, k)
  }

  /** What a segment sent by `r` acknowledges of the data of `s`. */
  ghost predicate AckOk(s: Side, r: Side, seg: Segment) {
    && (PlainAck(seg) ==> Sub32(seg.acknum, s.con.sndIss) <= Rc(r))
    && (seg.eak && EackListPresent(seg) ==> forall e :: e in Eacks(seg) ==> EackedNo(s, r, e))
  }

  ghost predicate HeldAgree(s: Side, r: Side) {
    r.heard ==> forall i :: 0 <= i < |r.con.rwnd| ==> r.con.rwnd[i].Held? ==>
      Rc(r) + i + 1 <= Sent(s) <= |s.log| && r.con.rwnd[i].data == s.log[Rc(r) + i]
  }

  ghost predicate AckedAgree(s: Side, r: Side) {
    s.heard ==> forall i :: 0 <= i < s.con.ostand <= |s.con.swnd| ==> s.con.swnd[i].isAcked ==> EackedNo(s, r, s.con.swnd[i].seqnum)
  }

  /** The data flowing from `s` to `r`. */
  ghost predicate Flow(s: Side, r: Side) {
    && (r.heard ==> s.issued && r.con.rcvIrs == s.con.sndIss)
    && 0 <= Una(s) <= Rc(r) <= Sent(s) <= |s.log|
    && r.received + Flatten(r.con.rqueue) == Flatten(s.log[..Rc(r)])
    && HeldAgree(s, r)
    && AckedAgree(s, r)
    && (forall seg :: seg in r.net ==> AckOk(s, r, seg))
  }

  ghost predicate Inv(x: Side, y: Side) {
    Local(x) && Local(y) && Flow(x, y) && Flow(y, x)
  }

  /** Between operations, nothing waits that could be sent. */
  ghost predicate Settled(x: Side) {
    HasWindows(x.con.state) ==> NoStall(x.con)
  }

  /** Past the handshake: open, or closing after having been open. */
  predicate PastHandshake(s: State) {
    s.Open? || s.CloseWaitPasv? || s.CloseWaitActive?
  }

  /** A side that got past the handshake has been heard by its peer. */
  ghost predicate Agreed(x: Side, y: Side) {
    PastHandshake(x.con.state) ==> y.heard
  }

  ghost predicate Good(s: System) {
    && Inv(s.a, s.b)
    && Settled(s.a) && Settled(s.b)
    && Agreed(s.a, s.b) && Agreed(s.b, s.a)
  }
}
