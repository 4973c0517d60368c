/**
 One connection record (`rdp_con`) as a value, and what each operation does to it.

 Both windows are seen from their heads: `swnd[i]` is the send slot `i` places after `m_swnd_head`
 (only the `m_swnd_used` slots in use), and `rwnd[i]` is the receive slot `i` places after
 `m_rwnd_head` (all of them).  `ostand` is the offset of `m_swnd_ostand` from the head.
 The class in RdpConnection.dfy holds the real rings and is proved to follow these functions.
 */
module RdpSpec {
  import opened SeqNum
  import opened Bytes
  import opened Segments

  const RBUF_MAX: U16 := 884
  const SBUF_LIMIT: U16 := 884
  const RCV_MAX: U16 := 1024

  datatype State = Closed | Listen | SynSent | SynRcvd | Open | CloseWaitPasv | CloseWaitActive

  /** A send slot; `pbuf` is reset to `None` once the segment has been acknowledged out of order. */
  datatype SndSlot = SndSlot(pbuf: Option<seq<Byte>>, sentTime: int, isAcked: bool, isSent: bool, seqnum: U32, rtSec: int)

  datatype RcvSlot = Free | Held(data: seq<Byte>, seqnum: U32, eacked: bool)

  datatype Con = Con(
    state: State, pasv: bool, lport: U16, rport: U16,
    sndNxt: U32, sndUna: U32, sndMax: U16, sndIss: U32, sbufMax: U16,
    rcvCur: U32, rcvMax: U16, rcvIrs: U32, rcvAck: U32,
    swnd: seq<SndSlot>, ostand: nat, rwnd: seq<RcvSlot>, rqueue: seq<seq<Byte>>)

  /** A state together with the segments put on the wire on the way to it. */
  datatype Step = Step(con: Con, out: seq<Segment>)

  // ---- the two windows ----------------------------------------------------

  predicate SentSlotOk(s: SndSlot, seqnum: U32) {
    s.isSent && s.seqnum == seqnum && (s.isAcked <==> s.pbuf.None?)
  }

  predicate UnsentSlotOk(s: SndSlot) {
    !s.isSent && !s.isAcked && s.pbuf.Some?
  }

  ghost predicate SlotsOk(w: seq<SndSlot>, ostand: nat, una: U32) {
    && ostand <= |w| && ostand < 0x1_0000
    && (forall i :: 0 <= i < ostand ==> SentSlotOk(w[i], Add32(una, i + 1)))
    && (forall i :: ostand <= i < |w| ==> UnsentSlotOk(w[i]))
  }

  /** Sent slots hold the consecutive numbers `sndUna + 1 .. sndNxt - 1`, never more than the peer allows. */
  ghost predicate SendWindowOk(c: Con) {
    && 1 <= c.sndMax
    && |c.swnd| <= 4 * c.sndMax as int
    && c.ostand + 1 <= c.sndMax
    && Sub32(c.sndNxt, c.sndUna) == c.ostand + 1
    && SlotsOk(c.swnd, c.ostand, c.sndUna)
  }

  /** Nothing waits for transmission unless the peer's limit has been reached. */
  predicate NoStall(c: Con) {
    c.ostand == |c.swnd| || Sub32(c.sndNxt, c.sndUna) >= c.sndMax
  }

  ghost predicate HeldOk(w: seq<RcvSlot>, cur: U32) {
    && |w| < 0x2_0000
    && (forall i :: 0 <= i < |w| ==> w[i].Held? ==> w[i].seqnum == Add32(cur, i + 1))
  }

  /** A held slot `i` places from the head carries number `rcvCur + 1 + i`; the head itself is free. */
  ghost predicate RecvWindowOk(c: Con) {
    && 1 <= c.rcvMax
    && |c.rwnd| == 2 * c.rcvMax as int
    && c.rwnd[0].Free?
    && HeldOk(c.rwnd, c.rcvCur)
  }

  predicate HasWindows(s: State) {
    s.SynRcvd? || s.Open? || s.CloseWaitPasv? || s.CloseWaitActive?
  }

  ghost predicate Wf(c: Con) {
    HasWindows(c.state) ==> SendWindowOk(c) && NoStall(c) && RecvWindowOk(c)
  }

  // ---- segments this connection builds ------------------------------------

  function Plain(c: Con, seqnum: U32): Segment {
    Segment(false, false, false, false, false, false, 10, c.lport, c.rport, 0, seqnum, 0, [])
  }

  function AckSeg(c: Con): Segment {
    Plain(c, c.sndNxt).(ack := true, acknum := c.rcvCur)
  }

  function EackSeg(c: Con, seqs: seq<U32>): Segment
    requires |seqs| <= MAX_EACK
  {
    if seqs == [] then AckSeg(c)
    else AckSeg(c).(eak := true, hlen := EackHlen(|seqs|), body := WordBytes(seqs))
  }

  function DataSeg(c: Con, data: seq<Byte>, seqnum: U32): Segment {
    Plain(c, seqnum).(ack := true, acknum := c.rcvCur, dlen := |data| % 0x1_0000, body := data)
  }

  function SynSeg(c: Con): Segment {
    Plain(c, c.sndIss).(syn := true, hlen := 12, body := SynBody(c.rcvMax, RBUF_MAX))
  }

  function SynAckSeg(c: Con): Segment {
    SynSeg(c).(ack := true, acknum := c.rcvCur)
  }

  /** The answer to a repeated SYN has the ACK flag but leaves the acknowledgement number 0. */
  function SynAckAgain(c: Con): Segment {
    SynSeg(c).(ack := true)
  }

  function RstSeg(c: Con, seqnum: U32): Segment {
    Plain(c, seqnum).(rst := true)
  }

  function RstAckSeg(c: Con, acknum: U32): Segment {
    Plain(c, 0).(rst := true, ack := true, acknum := acknum)
  }

  function RstFinSeg(c: Con): Segment {
    Plain(c, c.sndNxt).(rst := true, fin := true)
  }

  function FinSeg(c: Con): Segment {
    Plain(c, c.sndNxt).(fin := true)
  }

  /** A SYN seen while open is echoed: the reset header is appended to the packet that came in. */
  function SynEcho(c: Con, s: Segment): Segment {
    s.(body := s.body + HeadBytes(RstSeg(c, Add32(s.acknum, 1))))
  }

  // ---- sending ------------------------------------------------------------

  function Contents(s: SndSlot): seq<Byte> {
    if s.pbuf.Some? then s.pbuf.value else []
  }

  /** The oldest unsent slot goes out under the next sequence number. */
  function SendOne(c: Con, now: int): (r: Step)
    requires c.ostand < |c.swnd|
  {
    var s := c.swnd[c.ostand];
    Step(c.(swnd := c.swnd[c.ostand := s.(sentTime := now, isSent := true, seqnum := c.sndNxt)],
            ostand := c.ostand + 1, sndNxt := Add32(c.sndNxt, 1)),
         [DataSeg(c, Contents(s), c.sndNxt)])
  }

  /** Send waiting slots until none is left or the peer's limit is reached. */
  function SendOstand(c: Con, now: int): (r: Step)
    requires SendWindowOk(c)
    ensures SendWindowOk(r.con) && NoStall(r.con)
    ensures r.con == c.(swnd := r.con.swnd, ostand := r.con.ostand, sndNxt := r.con.sndNxt)
    ensures |r.con.swnd| == |c.swnd| && c.ostand <= r.con.ostand
    decreases |c.swnd| - c.ostand
  {
    if c.ostand < |c.swnd| && Sub32(c.sndNxt, c.sndUna) < c.sndMax then
      var first := SendOne(c, now);
      var rest := SendOstand(first.con, now);
      Step(rest.con, first.out + rest.out)
    else
      Step(c, [])
  }

  function PutChunk(c: Con, data: seq<Byte>): (r: Con) {
    c.(swnd := c.swnd + [SndSlot(Some(data), 0, false, false, 0, 1)])
  }

  predicate CanEnqueue(c: Con) {
    |c.swnd| < 4 * c.sndMax as int && c.state.Open?
  }

  function Enqueue(c: Con, data: seq<Byte>, now: int): (r: Step)
    requires SendWindowOk(c) && CanEnqueue(c)
    ensures SendWindowOk(r.con) && NoStall(r.con) && |r.con.swnd| == |c.swnd| + 1
    ensures r.con == c.(swnd := r.con.swnd, ostand := r.con.ostand, sndNxt := r.con.sndNxt)
  {
    SendOstand(PutChunk(c, data), now)
  }

  /** What `send` did: the new state, the chunks it queued and the bytes it accepted. */
  datatype Sending = Sending(step: Step, chunks: seq<seq<Byte>>, total: nat)

  function ChunkSize(c: Con): int {
    c.sbufMax as int - HEAD_SIZE
  }

  function FirstSize(c: Con, buf: seq<Byte>): int {
    if |buf| < ChunkSize(c) then |buf| else ChunkSize(c)
  }

  function Join(first: Step, chunk: seq<Byte>, rest: Sending): Sending {
    Sending(Step(rest.step.con, first.out + rest.step.out), [chunk] + rest.chunks, |chunk| + rest.total)
  }

  /** Cut the buffer into chunks while there is room; a peer that leaves no room for data gets empty segments. */
  function SendChunks(c: Con, buf: seq<Byte>, now: int): (r: Sending)
    requires SendWindowOk(c) && NoStall(c) && ChunkSize(c) >= 0 && |buf| > 0
    ensures SendWindowOk(r.step.con) && NoStall(r.step.con)
    ensures r.step.con == c.(swnd := r.step.con.swnd, ostand := r.step.con.ostand, sndNxt := r.step.con.sndNxt)
    decreases |buf|, 4 * c.sndMax as int - |c.swnd|
  {
    if !CanEnqueue(c) then Sending(Step(c, []), [], 0)
    else
      var size := FirstSize(c, buf);
      var first := Enqueue(c, buf[..size], now);
      if size == |buf| then Sending(first, [buf], size)
      else Join(first, buf[..size], SendChunks(first.con, buf[size..], now))
  }

  /** The user's `send`: refused unless open, nothing to do for an empty buffer. */
  function Send(c: Con, buf: seq<Byte>, now: int): (r: Sending)
    requires Wf(c) && (c.state.Open? ==> ChunkSize(c) >= 0)
    ensures Wf(r.step.con)
  {
    if !c.state.Open? || buf == [] then Sending(Step(c, []), [], 0)
    else SendChunks(c, buf, now)
  }

  // ---- acknowledgements ---------------------------------------------------

  predicate AckInWindow(c: Con, acknum: U32) {
    Sub32(acknum, c.sndUna) < Sub32(c.sndNxt, c.sndUna)
  }

  /** A cumulative ack releases exactly the slots up to and including the number it names. */
  function PopAcked(c: Con, acknum: U32): (r: Con)
    requires SendWindowOk(c)
    ensures SendWindowOk(r)
  {
    if AckInWindow(c, acknum) then
      var n := Sub32(acknum, c.sndUna);
      c.(swnd := c.swnd[n..], ostand := c.ostand - n, sndUna := acknum)
    else c
  }

  function RecvAck(c: Con, acknum: U32, now: int): (r: Step)
    requires SendWindowOk(c)
    ensures SendWindowOk(r.con) && NoStall(r.con)
  {
    SendOstand(PopAcked(c, acknum), now)
  }

  /** An extended ack releases the buffer of the one sent slot that carries its number. */
  function MarkEacked(c: Con, eacknum: U32): (r: Con)
    requires SendWindowOk(c)
    ensures SendWindowOk(r) && (NoStall(c) ==> NoStall(r))
    ensures r == c.(swnd := r.swnd)
  {
    var p := Sub32(eacknum, Add32(c.sndUna, 1));
    if p < c.ostand then c.(swnd := c.swnd[p := c.swnd[p].(pbuf := None, isAcked := true)]) else c
  }

  function MarkAllEacked(c: Con, eacks: seq<U32>): (r: Con)
    requires SendWindowOk(c)
    ensures SendWindowOk(r) && (NoStall(c) ==> NoStall(r))
    ensures r == c.(swnd := r.swnd)
    decreases |eacks|
  {
    if eacks == [] then c else MarkAllEacked(MarkEacked(c, eacks[0]), eacks[1..])
  }

  /**
   The ring survives an extended ack exactly when the ack leaves the oldest sent slot alone:
   otherwise `recv_eack` moves the head on without counting the slot out of `m_swnd_used`.
   */
  predicate EackKeepsRing(c: Con, eacknum: U32) {
    || c.ostand == 0
    || Sub32(eacknum, Add32(c.sndUna, 1)) >= 4 * c.sndMax as int
    || (eacknum != Add32(c.sndUna, 1) && c.ostand <= |c.swnd| && !c.swnd[0].isAcked)
  }

  ghost predicate EackListKeepsRing(c: Con, eacks: seq<U32>)
    requires SendWindowOk(c)
    decreases |eacks|
  {
    eacks == [] || (EackKeepsRing(c, eacks[0]) && EackListKeepsRing(MarkEacked(c, eacks[0]), eacks[1..]))
  }

  // ---- retransmission -----------------------------------------------------

  function RetransmitOne(c: Con, i: nat, now: int): (r: Step)
    requires i < |c.swnd|
  {
    var s := c.swnd[i];
    Step(c.(swnd := c.swnd[i := s.(sentTime := now, rtSec := 2 * s.rtSec)]), [DataSeg(c, Contents(s), s.seqnum)])
  }

  /** Walk the sent slots from offset `i`; a slot that has waited too long breaks the connection. */
  function RetransmitFrom(c: Con, i: nat, now: int, maxRetrans: int): (r: Step)
    requires SendWindowOk(c)
    ensures SendWindowOk(r.con) && (NoStall(c) ==> NoStall(r.con))
    ensures r.con == c.(swnd := r.con.swnd, state := r.con.state)
    ensures r.con.state == c.state || r.con.state.Closed?
    decreases c.ostand - i
  {
    if i >= c.ostand then Step(c, [])
    else
      var s := c.swnd[i];
      if s.isAcked then RetransmitFrom(c, i + 1, now, maxRetrans)
      else if s.rtSec > maxRetrans then Step(c.(state := Closed), [])
      else if now - s.sentTime > s.rtSec then
        var first := RetransmitOne(c, i, now);
        var rest := RetransmitFrom(first.con, i + 1, now, maxRetrans);
        Step(rest.con, first.out + rest.out)
      else RetransmitFrom(c, i + 1, now, maxRetrans)
  }

  // ---- receiving ----------------------------------------------------------

  /** How many slots at the front are held. */
  function LeadingHeld(w: seq<RcvSlot>): (n: nat)
    ensures n <= |w|
    ensures forall i :: 0 <= i < n ==> w[i].Held?
    ensures n < |w| ==> w[n].Free?
  {
    if w == [] || w[0].Free? then 0 else 1 + LeadingHeld(w[1..])
  }

  function FreeSlots(n: nat): (r: seq<RcvSlot>)
    ensures |r| == n && forall i :: 0 <= i < n ==> r[i].Free?
  {
    seq(n, _ => Free)
  }

  /** Data of held slots in order; empty (NUL) segments are not queued for the reader. */
  function Delivered(w: seq<RcvSlot>): (r: seq<seq<Byte>>) {
    if w == [] then []
    else (if w[0].Held? && |w[0].data| > 0 then [w[0].data] else []) + Delivered(w[1..])
  }

  predicate InRecvWindow(c: Con, seqnum: U32) {
    0 < Sub32(seqnum, c.rcvCur) <= |c.rwnd|
  }

  function PutData(c: Con, data: seq<Byte>, seqnum: U32): (w: seq<RcvSlot>)
    requires InRecvWindow(c, seqnum)
    ensures |w| == |c.rwnd|
  {
    var off := Sub32(seqnum, c.rcvCur) - 1;
    if c.rwnd[off].Free? then c.rwnd[off := Held(data, seqnum, false)] else c.rwnd
  }

  /** Keep a segment that falls in the window, then hand over everything that is now in sequence. */
  function Absorb(c: Con, data: seq<Byte>, seqnum: U32): (r: Con)
    requires RecvWindowOk(c) && InRecvWindow(c, seqnum)
    ensures RecvWindowOk(r)
    ensures r == c.(rwnd := r.rwnd, rcvCur := r.rcvCur, rqueue := r.rqueue)
  {
    var w := PutData(c, data, seqnum);
    var n := LeadingHeld(w);
    var r := c.(rwnd := w[n..] + FreeSlots(n), rcvCur := Add32(c.rcvCur, n), rqueue := c.rqueue + Delivered(w[..n]));
    assert HeldOk(w, c.rcvCur);
    assert forall i :: 0 <= i < |r.rwnd| - n ==> r.rwnd[i] == w[n + i];
    r
  }

  predicate SameButEacked(s: RcvSlot, t: RcvSlot) {
    s == t || (s.Held? && t.Held? && t == s.(eacked := true))
  }

  /** The scan for extended acks: marks and lists the first `budget` held numbers not yet reported. */
  function EackScan(w: seq<RcvSlot>, budget: nat): (r: (seq<RcvSlot>, seq<U32>))
    ensures |r.0| == |w| && |r.1| <= budget
    ensures forall i :: 0 <= i < |w| ==> SameButEacked(w[i], r.0[i])
  {
    if w == [] || budget == 0 then (w, [])
    else if w[0].Held? && !w[0].eacked then
      var (w', s) := EackScan(w[1..], budget - 1);
      ([w[0].(eacked := true)] + w', [w[0].seqnum] + s)
    else
      var (w', s) := EackScan(w[1..], budget);
      ([w[0]] + w', s)
  }

  function DelayedAck(c: Con): (r: Step)
    requires RecvWindowOk(c)
    ensures RecvWindowOk(r.con)
    ensures r.con == c.(rwnd := r.con.rwnd, rcvAck := r.con.rcvAck)
  {
    var (w, seqs) := EackScan(c.rwnd, MAX_EACK);
    var c1 := c.(rwnd := w);
    if c.rcvCur == c.rcvAck && seqs == [] then Step(c1, [])
    else Step(c1.(rcvAck := c.rcvCur), [EackSeg(c, seqs)])
  }

  function RecvData(c: Con, data: seq<Byte>, seqnum: U32): (r: Step)
    requires RecvWindowOk(c)
    ensures RecvWindowOk(r.con)
    ensures r.con == c.(rwnd := r.con.rwnd, rcvCur := r.con.rcvCur, rqueue := r.con.rqueue, rcvAck := r.con.rcvAck)
  {
    if !InRecvWindow(c, seqnum) then Step(c, [])
    else
      var c1 := Absorb(c, data, seqnum);
      if Sub32(c1.rcvCur, c1.rcvAck) > c1.rcvMax as int / 4 || data == [] then DelayedAck(c1) else Step(c1, [])
  }

  /** What `receive` copies out: whole queued packets while they fit. */
  function Fitting(q: seq<seq<Byte>>, room: int): (n: nat)
    ensures n <= |q|
  {
    if q == [] || |q[0]| > room then 0 else 1 + Fitting(q[1..], room - |q[0]|)
  }

  // ---- opening and closing ------------------------------------------------

  /** A new incarnation: the first number is drawn and nothing has been queued. */
  function Started(c: Con, state: State, pasv: bool, iss: U32): Con {
    c.(state := state, pasv := pasv, sndIss := iss, sndNxt := Add32(iss, 1), sndUna := iss,
       rcvMax := RCV_MAX, rqueue := [])
  }

  function Connect(c: Con, iss: U32): (r: Step) {
    var c1 := Started(c, SynSent, false, iss).(swnd := [], ostand := 0, rwnd := []);
    Step(c1, [SynSeg(c1)])
  }

  function Close(c: Con): (r: Step)
    requires Wf(c)
    ensures Wf(r.con)
  {
    match c.state
    case Open =>
      var s := DelayedAck(c);
      Step(s.con.(state := CloseWaitActive), s.out + [RstSeg(c, c.sndNxt)])
    case SynSent => Step(c.(state := Closed), [RstSeg(c, c.sndNxt)])
    case SynRcvd => Step(c.(state := Closed), [RstSeg(c, c.sndNxt)])
    case _ => Step(c, [])
  }

  // ---- arriving segments, state by state ----------------------------------

  function InClosed(c: Con, s: Segment): (r: Step) {
    if s.rst then Step(c, [])
    else if s.ack || s.nul then Step(c, [RstSeg(c, Add32(s.acknum, 1))])
    else Step(c, [RstAckSeg(c, s.seqnum)])
  }

  /** A SYN as an honest peer sends it: it lets us send at least one segment. */
  predicate SynAllows(s: Segment) {
    s.syn && |s.body| >= 4 ==> Read16(s.body, 0) >= 1
  }

  /** The peer's first number and limits, as its SYN states them. */
  function Learned(c: Con, s: Segment): (r: Con)
    requires |s.body| >= 4
  {
    var size := Read16(s.body, 2);
    c.(rcvCur := s.seqnum, rcvIrs := s.seqnum, rcvAck := s.seqnum,
       sndMax := Read16(s.body, 0), sbufMax := if size > SBUF_LIMIT then SBUF_LIMIT else size)
  }

  function LearnPeer(c: Con, s: Segment): (r: Con)
    requires |s.body| >= 4
  {
    Learned(c, s).(swnd := [], ostand := 0, rwnd := FreeSlots(2 * c.rcvMax as int))
  }

  function InListen(c: Con, s: Segment, iss: U32): (r: Step)
    ensures SynAllows(s) && Wf(c) ==> Wf(r.con)
  {
    if s.rst then Step(c, [])
    else if s.ack || s.nul then Step(c, [RstSeg(c, Add32(s.acknum, 1))])
    else if s.syn then
      if |s.body| < 4 then Step(c, [])
      else
        var c1 := LearnPeer(Started(c, SynRcvd, true, iss), s);
        Step(c1, [SynAckSeg(c1)])
    else Step(c, [])
  }

  /** The peer's SYN answers ours: open if it acknowledges our number, else wait for the ack. */
  function Greeted(c: Con, s: Segment): (r: Step)
    requires |s.body| >= 4
  {
    var c1 := LearnPeer(c, s);
    if s.ack then
      var c2 := c1.(sndUna := s.acknum, state := Open);
      Step(c2, [AckSeg(c2)])
    else
      var c2 := c1.(state := SynRcvd);
      Step(c2, [SynAckSeg(c2)])
  }

  function InSynSent(c: Con, s: Segment): (r: Step)
    ensures SynAllows(s) && 1 <= c.rcvMax && c.sndNxt == Add32(c.sndIss, 1) && c.sndUna == c.sndIss ==> Wf(r.con) || r.con == c
  {
    if s.ack && !s.rst && s.acknum != c.sndIss then Step(c, [RstSeg(c, Add32(s.acknum, 1))])
    else if s.rst then Step(if s.ack then c.(state := Closed) else c, [])
    else if s.syn then
      if |s.body| < 4 then Step(c, []) else Greeted(c, s)
    else Step(c, [])
  }

  /** The acceptance test of SYN-RCVD: `rcvIrs < seq <= rcvCur + 2 * rcvMax`, relative to `rcvIrs`. */
  predicate SynRcvdAccepts(c: Con, seqnum: U32) {
    0 < Sub32(seqnum, c.rcvIrs) <= Sub32(Add32(c.rcvCur, 2 * c.rcvMax as int), c.rcvIrs)
  }

  /** Open at last, with the data the ack may carry; a passive connection without its listener is closed at once. */
  function Opened(c: Con, s: Segment, listening: bool): (r: Step)
    requires Wf(c) && c.state.SynRcvd?
    ensures Wf(r.con)
  {
    var c1 := c.(state := Open);
    if c.pasv && !listening then Close(c1)
    else if s.body == [] && !s.nul then Step(c1, [])
    else if s.dlen as int != |s.body| || (s.nul && s.dlen > 0) then Step(c1, [])
    else RecvData(c1, s.body, s.seqnum)
  }

  function InSynRcvd(c: Con, s: Segment, listening: bool): (r: Step)
    requires Wf(c) && c.state.SynRcvd?
    ensures Wf(r.con)
  {
    if s.syn && s.seqnum == c.rcvCur then Step(c, [SynAckAgain(c)])
    else if !SynRcvdAccepts(c, s.seqnum) then Step(c.(rcvAck := c.rcvCur), [AckSeg(c)])
    else if s.rst then Step(c.(state := Closed), [])
    else if s.syn then Step(c.(state := Closed), [RstSeg(c, Add32(s.acknum, 1))])
    else if s.eak then Step(c, [RstSeg(c, Add32(s.acknum % 0x100, 1))])
    else if !s.ack then Step(c, [])
    else if s.acknum != c.sndIss then Step(c, [RstSeg(c, Add32(s.acknum, 1))])
    else Opened(c, s, listening)
  }

  /** The acceptance test of OPEN: `rcvCur < seq <= rcvCur + 2 * rcvMax`, relative to `rcvCur`. */
  predicate OpenAccepts(c: Con, seqnum: U32) {
    Sub32(Sub32(seqnum, c.rcvCur), 1) < 2 * c.rcvMax as int
  }

  /** The extended-ack list must lie inside the packet. */
  predicate EackListPresent(s: Segment) {
    s.eak ==> 4 * EackCount(s) <= |s.body|
  }

  function AfterAck(c: Con, s: Segment, now: int): (r: Step)
    requires SendWindowOk(c) && NoStall(c)
    ensures SendWindowOk(r.con) && NoStall(r.con)
    ensures r.con == c.(swnd := r.con.swnd, ostand := r.con.ostand, sndNxt := r.con.sndNxt, sndUna := r.con.sndUna)
  {
    if s.ack then RecvAck(c, s.acknum, now) else Step(c, [])
  }

  function InOpenAcks(c: Con, s: Segment, now: int): (r: Step)
    requires SendWindowOk(c) && NoStall(c) && EackListPresent(s)
    ensures SendWindowOk(r.con) && NoStall(r.con)
    ensures r.con == c.(swnd := r.con.swnd, ostand := r.con.ostand, sndNxt := r.con.sndNxt, sndUna := r.con.sndUna)
  {
    var a := AfterAck(c, s, now);
    Step(if s.eak then MarkAllEacked(a.con, Eacks(s)) else a.con, a.out)
  }

  predicate CarriesData(s: Segment) {
    s.dlen > 0 && s.dlen as int + 2 * s.hlen as int == HEAD_SIZE + |s.body|
  }

  /** An acceptable segment without control flags: its acknowledgements first, then its data. */
  function AcksThenData(c: Con, s: Segment, now: int): (r: Step)
    requires Wf(c) && c.state.Open? && EackListPresent(s)
    ensures Wf(r.con)
  {
    var a := InOpenAcks(c, s, now);
    if CarriesData(s) then
      var d := RecvData(a.con, Payload(s), s.seqnum);
      Step(d.con, a.out + d.out)
    else a
  }

  function InOpen(c: Con, s: Segment, now: int): (r: Step)
    requires Wf(c) && c.state.Open? && EackListPresent(s)
    ensures Wf(r.con)
  {
    if !OpenAccepts(c, s.seqnum) then Step(c.(rcvAck := c.rcvCur), [AckSeg(c)])
    else if s.rst then
      var a := DelayedAck(c);
      Step(a.con.(state := CloseWaitPasv), a.out + [RstFinSeg(c)])
    else if s.nul then
      if s.body != [] then Step(c, []) else RecvData(c, [], s.seqnum)
    else if s.syn then Step(c.(state := Closed), [SynEcho(c, s)])
    else AcksThenData(c, s, now)
  }

  function InCloseWaitActive(c: Con, s: Segment): (r: Step) {
    if s.rst && s.fin then Step(c, [FinSeg(c)])
    else if s.ack then Step(c, [RstSeg(c, c.sndNxt)])
    else Step(c, [])
  }

  function InCloseWaitPasv(c: Con, s: Segment): (r: Step) {
    if s.fin then Step(c, [])
    else if s.rst then Step(c, [RstFinSeg(c)])
    else Step(c, [])
  }

  /** What an arriving segment must satisfy for no handler to read out of range, now or with the windows it leaves. */
  predicate SegmentSafe(s: Segment) {
    SynAllows(s) && EackListPresent(s)
  }

  /** The handlers do not read outside the packet, and the oldest segment of an open connection is left alone. */
  ghost predicate InputDefined(c: Con, s: Segment, now: int)
    requires Wf(c)
  {
    EackListPresent(s) && (c.state.Open? && s.eak ==> EackListKeepsRing(AfterAck(c, s, now).con, Eacks(s)))
  }

  ghost predicate InputSafe(c: Con, s: Segment, now: int)
    requires Wf(c)
  {
    SynAllows(s) && InputDefined(c, s, now)
  }

  /** A SYN that sets up the windows of a listener, and one that sets up those of a connection being opened. */
  predicate ListenerTakes(s: Segment) {
    s.syn && !s.rst && !s.ack && !s.nul && |s.body| >= 4
  }

  predicate OpenerTakes(c: Con, s: Segment) {
    s.syn && !s.rst && (s.ack ==> s.acknum == c.sndIss) && |s.body| >= 4
  }

  /** A record in SYN-SENT has just been initialised by `connect`. */
  predicate SynSentOk(c: Con) {
    c.state.SynSent? ==> c.rcvMax == RCV_MAX && c.sndNxt == Add32(c.sndIss, 1) && c.sndUna == c.sndIss
  }

  /** `input_dgram`: dispatch on the state.  `iss` is the random number a listener would draw. */
  function Input(c: Con, s: Segment, listening: bool, iss: U32, now: int): (r: Step)
    requires Wf(c) && SynSentOk(c) && EackListPresent(s)
    ensures SynAllows(s) ==> Wf(r.con)
    ensures SynSentOk(r.con)
  {
    match c.state
    case Closed => InClosed(c, s)
    case Listen => InListen(c, s, iss)
    case SynSent => InSynSent(c, s)
    case SynRcvd => InSynRcvd(c, s, listening)
    case Open => InOpen(c, s, now)
    case CloseWaitPasv => InCloseWaitPasv(c, s)
    case CloseWaitActive => InCloseWaitActive(c, s)
  }

  // ---- the periodic timer -------------------------------------------------

  /** One tick for an open connection: retransmissions, then an ack if one is due. */
  function OpenTick(c: Con, now: int, maxRetrans: int, ackDue: bool): (r: Step)
    requires Wf(c) && c.state.Open?
    ensures Wf(r.con)
  {
    var a := RetransmitFrom(c, 0, now, maxRetrans);
    if a.con.state.Open? && ackDue then
      var d := DelayedAck(a.con);
      Step(d.con, a.out + d.out)
    else a
  }

  /** A tick while opening: give up, or send the SYN (or SYN-ACK) again. */
  function SynTick(c: Con, giveUp: bool): (r: Step) {
    if giveUp then Step(c.(state := Closed), [])
    else if c.state.SynRcvd? then Step(c, [SynAckSeg(c)])
    else Step(c, [SynSeg(c)])
  }

  /** A tick while closing: forget the connection, or send the reset again. */
  function RstTick(c: Con, giveUp: bool): (r: Step) {
    if giveUp then Step(c.(state := Closed), [])
    else if c.state.CloseWaitActive? then Step(c, [RstSeg(c, c.sndNxt)])
    else Step(c, [RstFinSeg(c)])
  }
}
