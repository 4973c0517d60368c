/** The connection record itself: fields and ring arrays updated in place, proved to follow RdpSpec. */
module RdpConnection {
  import opened SeqNum
  import opened Seqs
  import opened Bytes
  import opened Segments
  import opened RdpSpec
  import Ring

  /** A receive slot as the array holds it; a slot that is not in use keeps stale contents. */
  datatype RSlot = RSlot(pbuf: seq<Byte>, seqnum: U32, isUsed: bool, isEacked: bool)

  function Seen(s: RSlot): RcvSlot {
    if s.isUsed then Held(s.pbuf, s.seqnum, s.isEacked) else Free
  }

  function SeenAll(w: seq<RSlot>): (r: seq<RcvSlot>)
    ensures |r| == |w| && forall i :: 0 <= i < |w| ==> r[i] == Seen(w[i])
  {
    seq(|w|, i requires 0 <= i < |w| => Seen(w[i]))
  }

  function CountUsed(w: seq<RSlot>): (n: nat)
    ensures n <= |w|
  {
    if w == [] then 0 else (if w[0].isUsed then 1 else 0) + CountUsed(w[1..])
  }

  function Used(s: RSlot): nat {
    if s.isUsed then 1 else 0
  }

  lemma {:induction false} CountConcat(a: seq<RSlot>, b: seq<RSlot>)
    ensures CountUsed(a + b) == CountUsed(a) + CountUsed(b)
  {
    if a == [] {
      assert a + b == b;
    } else {
      assert (a + b)[1..] == a[1..] + b;
      CountConcat(a[1..], b);
    }
  }

  lemma CountUpdate(w: seq<RSlot>, k: nat, v: RSlot)
    requires k < |w|
    ensures CountUsed(w[k := v]) == CountUsed(w) - Used(w[k]) + Used(v)
  {
    CountConcat(w[..k], w[k..]);
    CountConcat(w[..k], [v] + w[k + 1..]);
    assert w[..k] + w[k..] == w;
    assert w[..k] + ([v] + w[k + 1..]) == w[k := v];
    assert w[k..][1..] == w[k + 1..];
    assert ([v] + w[k + 1..])[1..] == w[k + 1..];
  }

  lemma CountRotate(w: seq<RSlot>, v: RSlot)
    requires |w| > 0
    ensures CountUsed(w[1..] + [v]) == CountUsed(w) - Used(w[0]) + Used(v)
  {
    CountConcat(w[1..], [v]);
  }

  /** A window with slots still to count has one ahead. */
  lemma {:induction false} CountPositive(w: seq<RSlot>)
    ensures CountUsed(w) == 0 <==> forall i :: 0 <= i < |w| ==> !w[i].isUsed
  {
    if w != [] {
      CountPositive(w[1..]);
      assert forall i :: 1 <= i < |w| ==> w[i] == w[1..][i - 1];
    }
  }

  class RdpCon {
    var state: State
    var isPasv: bool
    var lport: U16
    var rport: U16

    var sndNxt: U32
    var sndUna: U32
    var sndMax: U16
    var sndIss: U32
    var sbufMax: U16

    var rcvCur: U32
    var rcvMax: U16
    var rcvIrs: U32
    var rcvAck: U32

    var swnd: array<SndSlot>
    var swndHead: nat
    var swndUsed: nat
    var swndOstand: nat

    var rwnd: array<RSlot>
    var rwndHead: nat
    var rwndUsed: nat

    var rqueue: seq<seq<Byte>>

    /** Indices lie inside the array; an array of length 0 has not been set up yet. */
    ghost predicate SendIndicesOk()
      reads this`swnd, this`swndHead, this`swndUsed, this`swndOstand
    {
      && swndUsed <= swnd.Length
      && (if swnd.Length == 0 then swndHead == 0 && swndOstand == 0 else swndHead < swnd.Length && swndOstand < swnd.Length)
    }

    ghost predicate RecvIndicesOk()
      reads this`rwnd, this`rwndHead, this`rwndUsed, rwnd
    {
      && (if rwnd.Length == 0 then rwndHead == 0 else rwndHead < rwnd.Length)
      && rwndUsed == CountUsed(Ring.FromHead(rwnd[..], rwndHead, rwnd.Length))
    }

    ghost predicate RingsOk()
      reads this, rwnd
    {
      SendIndicesOk() && RecvIndicesOk()
    }

    ghost function SendView(): seq<SndSlot>
      requires SendIndicesOk()
      reads this`swnd, this`swndHead, this`swndUsed, this`swndOstand, swnd
    {
      Ring.FromHead(swnd[..], swndHead, swndUsed)
    }

    ghost function RecvView(): seq<RcvSlot>
      requires RecvIndicesOk()
      reads this`rwnd, this`rwndHead, this`rwndUsed, rwnd
    {
      SeenAll(Ring.FromHead(rwnd[..], rwndHead, rwnd.Length))
    }

    /** How many slots from the head have been sent. */
    ghost function OstandView(): nat
      requires SendIndicesOk()
      reads this`swnd, this`swndHead, this`swndUsed, this`swndOstand
    {
      if swnd.Length == 0 then 0 else Ring.Offset(swndHead, swndOstand, swnd.Length)
    }

    ghost function View(): Con
      requires RingsOk()
      reads this, swnd, rwnd
    {
      Registers().(swnd := SendView(), ostand := OstandView(), rwnd := RecvView())
    }

    /** The ring has room for four times what the peer allows. */
    ghost predicate SendRingOk()
      requires RingsOk()
      reads this, swnd, rwnd
    {
      swnd.Length == 4 * sndMax as int && SendWindowOk(View())
    }

    ghost predicate Valid()
      reads this, swnd, rwnd
    {
      RingsOk() && Wf(View()) && SynSentOk(View()) && (HasWindows(state) ==> SendRingOk())
    }

    /** Registers and queue, without the windows: what the segment builders look at. */
    function Registers(): Con
      reads this
    {
      Con(state, isPasv, lport, rport, sndNxt, sndUna, sndMax, sndIss, sbufMax, rcvCur, rcvMax, rcvIrs, rcvAck,
          [], 0, [], rqueue)
    }

    /** A record that has no connection yet: waiting for a SYN, or about to send one. */
    constructor (listening: bool, lport: U16, rport: U16)
      ensures Valid() && state == (if listening then Listen else Closed) && rqueue == []
      ensures View().swnd == [] && View().ostand == 0 && View().lport == lport && View().rport == rport
    {
      state := if listening then Listen else Closed;
      this.lport, this.rport := lport, rport;
      swnd := new SndSlot[0];
      rwnd := new RSlot[0];
      swndHead, swndUsed, swndOstand, rwndHead, rwndUsed, rqueue := 0, 0, 0, 0, 0, [];
    }

    // ---- sending ------------------------------------------------------------

    /** A full ring whose head is also the next slot to send looks empty; the peer's limit is then 1 and nothing may be sent. */
    ghost predicate EndIsClear(i: nat)
      reads this
    {
      swndUsed == swnd.Length && i == swndHead ==> Sub32(sndNxt, sndUna) >= sndMax
    }

    /** Stamp one slot with the next number and build its segment; `c` is the connection as seen when the slot is next. */
    method TransmitSlot(i: nat, now: int, ghost c: Con) returns (seg: Segment)
      requires SendIndicesOk() && i < swnd.Length && Ring.Offset(swndHead, i, swnd.Length) < swndUsed
      requires c == Registers().(swnd := SendView(), ostand := Ring.Offset(swndHead, i, swnd.Length), rwnd := c.rwnd)
      requires c.swnd[c.ostand].pbuf.Some?
      modifies this`sndNxt, swnd
      ensures SendOne(c, now) == Step(c.(swnd := SendView(), ostand := c.ostand + 1, sndNxt := sndNxt), [seg])
    {
      var s := swnd[i].(sentTime := now, isSent := true, seqnum := sndNxt);
      Ring.Update(swnd[..], swndHead, swndUsed, Ring.Offset(swndHead, i, swnd.Length), s);
      swnd[i] := s;
      seg := DataSeg(Registers(), s.pbuf.value, sndNxt);
      sndNxt := Add32(sndNxt, 1);
    }

    method SendOstandSwnd(now: int) returns (out: seq<Segment>)
      requires RingsOk() && SendRingOk() && EndIsClear(swndOstand)
      modifies this`sndNxt, this`swndOstand, swnd
      ensures RingsOk() && SendRingOk()
      ensures Step(View(), out) == SendOstand(old(View()), now)
    {
      hide RecvIndicesOk;
      hide RecvView;
      hide SendWindowOk;
      hide SendOne;
      hide SendOstand;
      hide Underway;
      hide Ring.FromHead;
      hide Ring.Wrap;
      hide Ring.Offset;
      ghost var v0 := View();
      ghost var c := v0;
      SendingStarts(v0, now);
      var len := swnd.Length;
      var i: nat := swndOstand;
      var end := Ring.Wrap(swndHead + swndUsed, len);
      Ring.AtEnd(swndHead, swndUsed, i, len);
      out := [];
      while i != end
        invariant i < len == swnd.Length && swndOstand == old(swndOstand) && EndIsClear(i)
        invariant i == end <==> c.ostand == swndUsed || (swndUsed == len && i == swndHead)
        invariant c == v0.(swnd := SendView(), ostand := Ring.Offset(swndHead, i, len), sndNxt := sndNxt)
        invariant Underway(v0, out, c, now) && c.ostand <= swndUsed
        decreases swndUsed - c.ostand
      {
        if Sub32(sndNxt, sndUna) >= sndMax {
          break;
        }
        SendingTurn(v0, out, c, now);
        var seg := TransmitSlot(i, now, c);
        Ring.NextOffset(swndHead, i, len);
        out := out + [seg];
        i := Ring.Wrap(i + 1, len);
        Ring.OffsetZero(swndHead, i, len);
        Ring.AtEnd(swndHead, swndUsed, i, len);
        c := SendOne(c, now).con;
      }
      SendingDone(v0, out, c, now);
      swndOstand := i;
      assert View() == c;
    }

    method EnqueueSwnd(data: seq<Byte>, now: int) returns (ok: bool, out: seq<Segment>)
      requires Valid()
      modifies this`sndNxt, this`swndUsed, this`swndOstand, swnd
      ensures Valid()
      ensures ok <==> CanEnqueue(old(View()))
      ensures if ok then Step(View(), out) == Enqueue(old(View()), data, now) else View() == old(View()) && out == []
    {
      hide RecvIndicesOk;
      hide RecvView;
      hide SendOstand;
      hide HeldOk;
      if swndUsed >= swnd.Length || state != Open {
        return false, [];
      }
      var slot := SndSlot(Some(data), 0, false, false, 0, 1);
      Ring.Push(swnd[..], swndHead, swndUsed, slot);
      swnd[Ring.Wrap(swndHead + swndUsed, swnd.Length)] := slot;
      swndUsed := swndUsed + 1;
      assert View() == PutChunk(old(View()), data);
      out := SendOstandSwnd(now);
      ok := true;
    }

    /** The user's `send`: the buffer is cut into segments until the window is full. */
    method Send(buf: seq<Byte>, now: int) returns (total: int, out: seq<Segment>)
      requires Valid() && (state.Open? ==> sbufMax >= 20)
      modifies this`sndNxt, this`swndUsed, this`swndOstand, swnd
      ensures Valid()
      ensures View() == RdpSpec.Send(old(View()), buf, now).step.con && out == RdpSpec.Send(old(View()), buf, now).step.out
      ensures total == if old(state).Open? then RdpSpec.Send(old(View()), buf, now).total else -1
    {
      hide RecvIndicesOk;
      hide RecvView;
      hide SendIndicesOk;
      hide SendView;
      hide Enqueue;
      hide SendWindowOk;
      hide HeldOk;
      hide SendChunks;
      out, total := [], 0;
      if state != Open {
        return -1, [];
      }
      var rest := buf;
      ghost var goal := RdpSpec.Send(View(), buf, now);
      while rest != []
        invariant Valid() && state.Open? && sbufMax == old(sbufMax) && swnd == old(swnd)
        invariant rest == [] ==> goal.step == Step(View(), out) && goal.total == total
        invariant rest != [] ==>
                    && goal.step.con == SendChunks(View(), rest, now).step.con
                    && goal.step.out == out + SendChunks(View(), rest, now).step.out
                    && goal.total == total + SendChunks(View(), rest, now).total
        decreases |rest|, 4 * sndMax as int - |View().swnd|
      {
        var dmax := sbufMax as int - HEAD_SIZE;
        var size := if |rest| < dmax then |rest| else dmax;
        ghost var c := View();
        var ok, sent := EnqueueSwnd(rest[..size], now);
        if !ok {
          SendChunksStuck(c, rest, now);
          assert out + [] == out;
          return;
        }
        SendChunksOnce(c, rest, now);
        out := out + sent;
        total := total + size;
        rest := rest[size..];
      }
    }

    // ---- being acknowledged ---------------------------------------------------

    /** Walk from the head over the slots a cumulative ack covers; returns the index of the first one left. */
    method FlushAcked(acknum: U32) returns (i: nat)
      requires SendIndicesOk() && 0 < swnd.Length && OstandView() <= swndUsed
      requires SlotsOk(SendView(), OstandView(), sndUna)
      requires Sub32(acknum, sndUna) <= OstandView()
      modifies this`swndUsed, swnd
      ensures var n := Sub32(acknum, sndUna);
              && i < swnd.Length && i == Ring.Wrap(swndHead + n, swnd.Length) && swndUsed == old(swndUsed) - n
              && Ring.FromHead(swnd[..], i, swndUsed) == old(SendView())[n..]
    {
      hide Ring.FromHead;
      hide Ring.Wrap;
      hide Ring.Offset;
      ghost var w := SendView();
      ghost var used := swndUsed;
      ghost var k: nat := 0;
      var len := swnd.Length;
      i := swndHead;
      Ring.OffsetZero(swndHead, i, len);
      Ring.WrapShort(swndHead, len);
      while i != swndOstand
        invariant i < len && k <= Sub32(acknum, sndUna) && i == Ring.Wrap(swndHead + k, len)
        invariant swndUsed == used - k
        invariant Ring.FromHead(swnd[..], swndHead, used)[k..] == w[k..]
        decreases used - k
      {
        Ring.OffsetOfWrap(swndHead, k, len);
        var s := swnd[i];
        assert s == Ring.FromHead(swnd[..], swndHead, used)[k..][0] == w[k];
        assert SentSlotOk(w[k], Add32(sndUna, k + 1));
        if Sub32(s.seqnum, sndUna) <= Sub32(acknum, sndUna) {
          if s.isSent {
            if !s.isAcked {
              Ring.Update(swnd[..], swndHead, used, k, s.(pbuf := None));
              swnd[i] := s.(pbuf := None);
            }
            swndUsed := swndUsed - 1;
          }
        } else {
          break;
        }
        Ring.NextWrap(swndHead, k, len);
        i := Ring.Wrap(i + 1, len);
        assert w[k + 1..] == w[k..][1..];
        k := k + 1;
      }
      Ring.OffsetOfWrap(swndHead, k, len);
      Ring.Drop(swnd[..], swndHead, used, k);
    }

    /** Only a full ring can be mistaken for an empty one, and then nothing waits that may be sent. */
    lemma EndClear()
      requires RingsOk() && SendRingOk() && (NoStall(View()) || swndUsed < swnd.Length)
      ensures EndIsClear(swndOstand)
    {
      hide SlotsOk;
      Ring.OffsetZero(swndHead, swndOstand, swnd.Length);
    }

    /** Drop the slots a cumulative ack covers. */
    method PopSwnd(acknum: U32)
      requires Valid() && HasWindows(state) && AckInWindow(Registers(), acknum)
      modifies this`sndUna, this`swndHead, this`swndUsed, swnd
      ensures RingsOk() && SendRingOk() && EndIsClear(swndOstand)
      ensures View() == PopAcked(old(View()), acknum)
    {
      hide RecvIndicesOk;
      hide RecvView;
      hide HeldOk;
      hide Ring.FromHead;
      hide Ring.Offset;
      hide Ring.Wrap;
      ghost var n := Sub32(acknum, sndUna);
      Ring.OffsetDrop(swndHead, n, swndOstand, swnd.Length);
      Ring.WrapShort(swndHead, swnd.Length);
      var i := FlushAcked(acknum);
      hide SlotsOk;
      swndHead := i;
      sndUna := acknum;
      assert View() == PopAcked(old(View()), acknum);
      EndClear();
    }

    method RecvAck(acknum: U32, now: int) returns (out: seq<Segment>)
      requires Valid() && HasWindows(state)
      modifies this`sndNxt, this`sndUna, this`swndHead, this`swndUsed, this`swndOstand, swnd
      ensures Valid()
      ensures Step(View(), out) == RdpSpec.RecvAck(old(View()), acknum, now)
    {
      hide RecvIndicesOk;
      hide RecvView;
      hide SendView;
      hide SendOstand;
      hide HeldOk;
      hide SlotsOk;
      if Sub32(acknum, sndUna) < Sub32(sndNxt, sndUna) {
        PopSwnd(acknum);
      } else {
        EndClear();
      }
      out := SendOstandSwnd(now);
    }

    /** Find the slot an extended ack names and release its buffer; slots not in use may be touched too. */
    method ReleaseSlot(eacknum: U32, pos: nat)
      requires SendIndicesOk() && pos < swnd.Length && OstandView() <= swndUsed
      requires SlotsOk(SendView(), OstandView(), sndUna)
      requires 0 < OstandView() ==> pos == Sub32(eacknum, Add32(sndUna, 1))
      modifies swnd
      ensures SendView() ==
              if pos < OstandView() then old(SendView())[pos := old(SendView())[pos].(pbuf := None, isAcked := true)]
              else old(SendView())
    {
      ghost var w := SendView();
      var i := Ring.Wrap(pos + swndHead, swnd.Length);
      var s := swnd[i];
      var s' := s.(pbuf := None, isAcked := true);
      if pos < swndUsed {
        assert s == w[pos];
        Ring.Update(swnd[..], swndHead, swndUsed, pos, s');
        if pos < OstandView() {
          assert SentSlotOk(s, Add32(sndUna, pos + 1));
        } else {
          assert UnsentSlotOk(s);
        }
      } else {
        Ring.UpdateBeyond(swnd[..], swndHead, swndUsed, pos, s');
      }
      if s.seqnum == eacknum && s.isSent && !s.isAcked {
        swnd[i] := s';
      }
    }

    predicate HeadAcked()
      requires SendIndicesOk() && 0 < swnd.Length
      reads this`swnd, this`swndHead, this`swndUsed, this`swndOstand, swnd
    {
      swndHead != swndOstand && swnd[swndHead].isSent && swnd[swndHead].isAcked
    }

    /** The loop that takes acknowledged slots off the head without counting them out. */
    method SkipAckedHead()
      requires SendIndicesOk() && 0 < swnd.Length
      modifies this`swndHead
      ensures SendIndicesOk()
      ensures !old(HeadAcked()) ==> swndHead == old(swndHead)
      ensures old(HeadAcked()) ==> OstandView() < old(OstandView())
    {
      while swndHead != swndOstand && swnd[swndHead].isSent && swnd[swndHead].isAcked
        invariant SendIndicesOk() && OstandView() <= old(OstandView())
        invariant swndHead != old(swndHead) ==>
                    OstandView() < old(OstandView()) && old(HeadAcked())
        decreases OstandView()
      {
        swndHead := swndHead + 1;
        if swndHead >= swnd.Length {
          swndHead := Ring.Wrap(swndHead, swnd.Length);
        }
      }
    }

    /**
     An extended ack.  The head-advance loop at the end leaves `swndUsed` alone, so the ring is
     still in order afterwards exactly when the oldest sent slot was not acknowledged this way.
     */
    method RecvEack(eacknum: U32)
      requires Valid() && HasWindows(state)
      modifies this`swndHead, swnd
      ensures Valid() <==> EackKeepsRing(old(View()), eacknum)
      ensures EackKeepsRing(old(View()), eacknum) ==> View() == MarkEacked(old(View()), eacknum)
    {
      hide RecvIndicesOk;
      hide RecvView;
      hide HeldOk;
      hide Ring.FromHead;
      hide Ring.Wrap;
      if swndUsed == 0 {
        return;
      }
      ghost var v0 := View();
      assert v0.swnd[0] == swnd[swndHead] by { Ring.WrapShort(swndHead, swnd.Length); }
      assert 0 < v0.ostand ==> SentSlotOk(v0.swnd[0], Add32(sndUna, 1));
      var pos := Sub32(eacknum, swnd[swndHead].seqnum);
      if pos >= swnd.Length {
        return;
      }
      ReleaseSlot(eacknum, pos);
      assert View() == MarkEacked(v0, eacknum);
      assert View().swnd[0] == swnd[swndHead] by { Ring.WrapShort(swndHead, swnd.Length); }
      SkipAckedHead();
    }

    // ---- retransmission ---------------------------------------------------------

    /** Send one slot again and double its timer. */
    method ResendSlot(i: nat, now: int, ghost c: Con, ghost k: nat) returns (seg: Segment)
      requires SendIndicesOk() && k < swndUsed && i < swnd.Length && i == Ring.Wrap(swndHead + k, swnd.Length)
      requires c == Registers().(swnd := SendView(), ostand := c.ostand, rwnd := c.rwnd)
      requires swnd[i].pbuf.Some?
      modifies swnd
      ensures RetransmitOne(c, k, now) == Step(c.(swnd := SendView()), [seg])
    {
      var s := swnd[i];
      var s' := s.(sentTime := now, rtSec := 2 * s.rtSec);
      Ring.Update(swnd[..], swndHead, swndUsed, k, s');
      swnd[i] := s';
      seg := DataSeg(Registers(), s.pbuf.value, s.seqnum);
    }

    method Retransmit(now: int, maxRetrans: int) returns (ok: bool, out: seq<Segment>)
      requires Valid() && state.Open?
      modifies this`state, swnd
      ensures Valid() && ok == state.Open?
      ensures Step(View(), out) == RetransmitFrom(old(View()), 0, now, maxRetrans)
    {
      hide RecvIndicesOk;
      hide RecvView;
      hide SendIndicesOk;
      hide OstandView;
      hide HeldOk;
      hide SlotsOk;
      hide RetransmitFrom;
      hide Walking;
      hide Ring.FromHead;
      hide Ring.Wrap;
      out := [];
      var len := swnd.Length;
      var i: nat := swndHead;
      ghost var v0 := View();
      ghost var c := v0;
      IndicesInside();
      Ring.WrapShort(swndHead, len);
      WalkStarts(v0, now, maxRetrans);
      var n: nat := 0;
      while n < swndUsed
        invariant n <= swndUsed && Valid() && state.Open? && c == View()
        invariant swndUsed > 0 ==> i < len && i == Ring.Wrap(swndHead + n, len)
        invariant Walking(v0, out, c, n, now, maxRetrans)
      {
        IndicesInside();
        var s := swnd[i];
        assert s == c.swnd[n];
        WalkTurn(v0, out, c, n, now, maxRetrans);
        if !s.isSent {
          break;
        }
        if !s.isAcked {
          if s.rtSec > maxRetrans {
            state := Closed;
            assert View() == c.(state := Closed);
            return false, out;
          }
          if now - s.sentTime > s.rtSec {
            var seg := ResendSlot(i, now, c, n);
            out := out + [seg];
            c := RetransmitOne(c, n, now).con;
            assert View() == c;
          }
        }
        Ring.NextWrap(swndHead, n, len);
        i := Ring.Wrap(i + 1, len);
        n := n + 1;
      }
      WalkDone(v0, out, c, n, now, maxRetrans);
      ok := true;
    }

    lemma IndicesInside()
      requires SendIndicesOk()
      ensures swndUsed <= swnd.Length && (0 < swnd.Length ==> swndHead < swnd.Length && swndOstand < swnd.Length)
    {
    }

    // ---- receiving ----------------------------------------------------------------

    /** The slots as the array holds them, from the head. */
    ghost function RecvSlots(): seq<RSlot>
      requires RecvIndicesOk()
      reads this`rwnd, this`rwndHead, this`rwndUsed, rwnd
      ensures |RecvSlots()| == rwnd.Length
    {
      Ring.FromHead(rwnd[..], rwndHead, rwnd.Length)
    }

    /** Keep a segment in its slot unless the slot is taken. */
    method KeepData(k: nat, data: seq<Byte>, seqnum: U32)
      requires RecvIndicesOk() && k < rwnd.Length
      modifies this`rwndUsed, rwnd
      ensures RecvIndicesOk()
      ensures RecvView() == if old(RecvView())[k].Free? then old(RecvView())[k := Held(data, seqnum, false)] else old(RecvView())
    {
      ghost var w := RecvSlots();
      var idx := Ring.Wrap(rwndHead + k, rwnd.Length);
      assert rwnd[idx] == w[k];
      if !rwnd[idx].isUsed {
        var s := RSlot(data, seqnum, true, false);
        Ring.Update(rwnd[..], rwndHead, rwnd.Length, k, s);
        CountUpdate(w, k, s);
        rwnd[idx] := s;
        rwndUsed := rwndUsed + 1;
      }
    }

    /** Hand over the head slot and move on. */
    method TakeHead()
      requires RecvIndicesOk() && 0 < rwnd.Length && rwnd[rwndHead].isUsed
      modifies this`rwndUsed, this`rwndHead, this`rcvCur, this`rqueue, rwnd
      ensures RecvIndicesOk()
      ensures RecvView() == old(RecvView())[1..] + [Free]
      ensures rcvCur == Add32(old(rcvCur), 1)
      ensures rqueue == old(rqueue) + Delivered([old(RecvView())[0]])
    {
      hide Ring.FromHead;
      hide Ring.Wrap;
      hide CountUsed;
      hide SeenAll;
      ghost var w := RecvSlots();
      HeadSeen();
      rcvCur := Add32(rcvCur, 1);
      var s := rwnd[rwndHead];
      if |s.pbuf| > 0 {
        rqueue := rqueue + [s.pbuf];
      }
      var s' := s.(pbuf := [], isUsed := false, isEacked := false);
      Ring.Rotate(rwnd[..], rwndHead, s');
      CountRotate(w, s');
      SeenRotate(w, s');
      rwnd[rwndHead] := s';
      rwndUsed := rwndUsed - 1;
      rwndHead := Ring.Wrap(rwndHead + 1, rwnd.Length);
    }

    /** Hand over everything that is in sequence. */
    method Drain()
      requires RecvIndicesOk() && 0 < rwnd.Length < MODULUS
      modifies this`rwndUsed, this`rwndHead, this`rcvCur, this`rqueue, rwnd
      ensures RecvIndicesOk()
      ensures var w := old(RecvView());
              var n := LeadingHeld(w);
              && RecvView() == w[n..] + FreeSlots(n)
              && rcvCur == Add32(old(rcvCur), n) && rqueue == old(rqueue) + Delivered(w[..n])
    {
      hide RecvIndicesOk;
      hide RecvView;
      hide Delivered;
      hide LeadingHeld;
      hide FreeSlots;
      ghost var w := RecvView();
      ghost var cur, q := rcvCur, rqueue;
      ghost var k: nat := 0;
      DrainStart(w);
      assert q + [] == q;
      RecvLength();
      while rwnd[rwndHead].isUsed
        invariant RecvIndicesOk() && rwndHead < rwnd.Length
        invariant k <= LeadingHeld(w) && RecvView() == w[k..] + FreeSlots(k)
        invariant rcvCur == Add32(cur, k) && rqueue == q + Delivered(w[..k])
        decreases |w| - k
      {
        HeadSeen();
        DrainOnce(w, k, q);
        AddAdd(cur, k, 1);
        TakeHead();
        RecvLength();
        k := k + 1;
      }
      HeadSeen();
      DrainEnd(w, k);
    }

    /** Keep a segment that falls in the window and hand over what is now in sequence. */
    method AbsorbData(data: seq<Byte>, seqnum: U32)
      requires Valid() && HasWindows(state) && InRecvWindow(View(), seqnum)
      modifies this`rwndUsed, this`rwndHead, this`rcvCur, this`rqueue, rwnd
      ensures RingsOk() && View() == Absorb(old(View()), data, seqnum)
    {
      hide SlotsOk;
      hide HeldOk;
      hide SendIndicesOk;
      hide SendView;
      hide OstandView;
      hide RecvIndicesOk;
      hide RecvView;
      hide Delivered;
      hide LeadingHeld;
      hide SendWindowOk;
      hide NoStall;
      ghost var v0 := View();
      RecvLength();
      KeepData(Sub32(seqnum, rcvCur) - 1, data, seqnum);
      assert RecvView() == PutData(v0, data, seqnum);
      Drain();
    }

    method RwndRecvData(data: seq<Byte>, seqnum: U32) returns (out: seq<Segment>)
      requires Valid() && HasWindows(state)
      modifies this`rwndUsed, this`rwndHead, this`rcvCur, this`rcvAck, this`rqueue, rwnd
      ensures Valid()
      ensures Step(View(), out) == RecvData(old(View()), data, seqnum)
    {
      hide SlotsOk;
      hide HeldOk;
      hide SendIndicesOk;
      hide SendView;
      hide OstandView;
      hide RecvIndicesOk;
      hide RecvView;
      hide Absorb;
      hide RdpSpec.DelayedAck;
      var seqCur := Sub32(seqnum, rcvCur);
      RecvLength();
      if !(0 < seqCur <= rwnd.Length) {
        return [];
      }
      AbsorbData(data, seqnum);
      if Sub32(rcvCur, rcvAck) > rcvMax as int / 4 || |data| == 0 {
        out := DelayedAck();
      } else {
        out := [];
      }
    }

    lemma RecvLength()
      requires RecvIndicesOk()
      ensures |RecvView()| == rwnd.Length && (0 < rwnd.Length ==> rwndHead < rwnd.Length)
    {
    }

    lemma HeadSeen()
      requires RecvIndicesOk() && 0 < rwnd.Length
      ensures rwndHead < rwnd.Length && |RecvView()| == rwnd.Length
      ensures RecvView()[0] == Seen(rwnd[rwndHead])
    {
    }

    /** Mark slot `k` as reported. */
    method MarkReported(idx: nat, ghost k: nat)
      requires RecvIndicesOk() && k < rwnd.Length && idx == Ring.Wrap(rwndHead + k, rwnd.Length) && rwnd[idx].isUsed
      modifies rwnd
      ensures RecvIndicesOk()
      ensures RecvSlots() == old(RecvSlots())[k := old(RecvSlots())[k].(isEacked := true)]
    {
      ghost var slots := RecvSlots();
      var s := rwnd[idx].(isEacked := true);
      assert rwnd[idx] == slots[k];
      Ring.Update(rwnd[..], rwndHead, rwnd.Length, k, s);
      CountUpdate(slots, k, s);
      rwnd[idx] := s;
    }

    /** The scan of the window for numbers to report; marks each one it lists. */
    method ListEacks() returns (seqs: seq<U32>)
      requires RecvIndicesOk() && 0 < rwnd.Length
      modifies rwnd
      ensures RecvIndicesOk()
      ensures (RecvView(), seqs) == EackScan(old(RecvView()), MAX_EACK)
    {
      hide Ring.FromHead;
      hide Ring.Wrap;
      hide EackScan;
      hide CountUsed;
      hide SeenAll;
      hide Scanned;
      var idx: nat := rwndHead;
      var i, j: nat := 0, 0;
      seqs := [];
      ghost var slots := RecvSlots();
      ghost var p: nat := 0;
      Ring.WrapShort(rwndHead, rwnd.Length);
      assert slots[0..] == slots;
      ScanStart(slots);
      while i < rwndUsed && j < MAX_EACK
        invariant RecvIndicesOk() && p <= rwnd.Length && j == |seqs| <= MAX_EACK
        invariant p < rwnd.Length ==> idx < rwnd.Length && idx == Ring.Wrap(rwndHead + p, rwnd.Length)
        invariant rwndUsed == i + CountUsed(slots[p..])
        invariant RecvSlots()[p..] == slots[p..]
        invariant Scanned(slots, RecvSlots(), p, seqs)
        decreases rwnd.Length - p
      {
        CountAhead(slots, p);
        var s := rwnd[idx];
        assert s == RecvSlots()[p..][0] == slots[p];
        if !s.isUsed || s.isEacked {
          ScannedPass(slots, RecvSlots(), p, seqs);
        }
        if s.isUsed {
          if !s.isEacked {
            ScannedReport(slots, RecvSlots(), p, seqs);
            seqs := seqs + [s.seqnum];
            MarkReported(idx, p);
            j := j + 1;
          }
          i := i + 1;
        }
        Ring.NextWrap(rwndHead, p, rwnd.Length);
        idx := Ring.Wrap(idx + 1, rwnd.Length);
        assert RecvSlots()[p + 1..] == slots[p + 1..];
        p := p + 1;
      }
      ScannedAll(slots, RecvSlots(), p, seqs);
    }

    method DelayedAck() returns (out: seq<Segment>)
      requires Valid() && HasWindows(state)
      modifies this`rcvAck, rwnd
      ensures Valid()
      ensures Step(View(), out) == RdpSpec.DelayedAck(old(View()))
    {
      hide SlotsOk;
      hide HeldOk;
      hide SendIndicesOk;
      hide SendView;
      hide OstandView;
      hide RecvIndicesOk;
      hide RecvView;
      hide EackScan;
      RecvLength();
      var seqs := ListEacks();
      if rcvCur == rcvAck && seqs == [] {
        assert View() == RdpSpec.DelayedAck(old(View())).con;
        return [];
      }
      out := [EackSeg(Registers(), seqs)];
      rcvAck := rcvCur;
      assert View() == RdpSpec.DelayedAck(old(View())).con;
    }

    /** The user's `receive`: whole packets while they fit. */
    method Receive(room: int) returns (bytes: seq<Byte>)
      requires Valid()
      modifies this`rqueue
      ensures Valid()
      ensures var n := Fitting(old(rqueue), room);
              bytes == Flatten(old(rqueue)[..n]) && rqueue == old(rqueue)[n..]
      ensures View() == old(View()).(rqueue := rqueue)
    {
      hide SlotsOk;
      hide HeldOk;
      hide RecvIndicesOk;
      hide SendIndicesOk;
      hide RecvView;
      hide SendView;
      hide OstandView;
      bytes := [];
      ghost var q := rqueue;
      ghost var n: nat := 0;
      assert q[..0] == [] && q[0..] == q;
      while rqueue != []
        invariant n <= |q| && rqueue == q[n..] && bytes == Flatten(q[..n])
        invariant Fitting(q, room) == n + Fitting(q[n..], room - |bytes|)
        decreases |rqueue|
      {
        var pbuf := rqueue[0];
        if |bytes| + |pbuf| > room {
          break;
        }
        assert q[..n + 1] == q[..n] + [pbuf];
        FlattenSnoc(q[..n], pbuf);
        bytes := bytes + pbuf;
        rqueue := rqueue[1..];
        n := n + 1;
      }
    }

    // ---- opening and closing ----------------------------------------------------------

    method InitRwnd()
      modifies this`rwnd, this`rwndHead, this`rwndUsed
      ensures RecvIndicesOk() && RecvView() == FreeSlots(2 * rcvMax as int)
    {
      rwnd := new RSlot[2 * rcvMax as int](_ => RSlot([], 0, false, false));
      rwndHead, rwndUsed := 0, 0;
      CountPositive(Ring.FromHead(rwnd[..], 0, rwnd.Length));
    }

    method InitSwnd()
      modifies this`swnd, this`swndHead, this`swndUsed, this`swndOstand
      ensures SendIndicesOk() && SendView() == [] && OstandView() == 0 && swnd.Length == 4 * sndMax as int
    {
      swnd := new SndSlot[4 * sndMax as int];
      swndHead, swndUsed, swndOstand := 0, 0, 0;
    }

    method SetLimits(s: Segment)
      requires |s.body| >= 4
      modifies this`rcvCur, this`rcvIrs, this`rcvAck, this`sndMax, this`sbufMax
      ensures Registers() == Learned(old(Registers()), s)
    {
      rcvCur, rcvIrs, rcvAck := s.seqnum, s.seqnum, s.seqnum;
      sndMax := Read16(s.body, 0);
      sbufMax := Read16(s.body, 2);
      if sbufMax > SBUF_LIMIT {
        sbufMax := SBUF_LIMIT;
      }
    }

    method Start(state: State, pasv: bool, iss: U32)
      modifies this`state, this`isPasv, this`sndIss, this`sndNxt, this`sndUna, this`rcvMax, this`rqueue
      ensures Registers() == Started(old(Registers()), state, pasv, iss)
    {
      this.state, isPasv := state, pasv;
      sndIss, sndNxt, sndUna := iss, Add32(iss, 1), iss;
      rcvMax, rqueue := RCV_MAX, [];
    }

    /** Take over the peer's numbers and limits from its SYN and set up both windows. */
    method LearnFrom(s: Segment)
      requires |s.body| >= 4 && RingsOk()
      modifies this`rcvCur, this`rcvIrs, this`rcvAck, this`sndMax, this`sbufMax
      modifies this`swnd, this`swndHead, this`swndUsed, this`swndOstand, this`rwnd, this`rwndHead, this`rwndUsed
      ensures RingsOk() && View() == LearnPeer(old(View()), s) && swnd.Length == 4 * sndMax as int
    {
      hide SlotsOk;
      hide HeldOk;
      hide RecvIndicesOk;
      hide SendIndicesOk;
      hide RecvView;
      hide SendView;
      hide OstandView;
      SetLimits(s);
      InitSwnd();
      InitRwnd();
    }

    method ForgetWindows()
      modifies this`swnd, this`swndHead, this`swndUsed, this`swndOstand, this`rwnd, this`rwndHead, this`rwndUsed
      ensures SendIndicesOk() && RecvIndicesOk()
      ensures SendView() == [] && OstandView() == 0 && RecvView() == []
    {
      swnd := new SndSlot[0];
      rwnd := new RSlot[0];
      swndHead, swndUsed, swndOstand, rwndHead, rwndUsed := 0, 0, 0, 0, 0;
    }

    /** Active open: draw the first number, forget any windows, send a SYN. */
    method Connect(iss: U32) returns (out: seq<Segment>)
      requires Valid() && state.Closed?
      modifies this
      ensures Valid() && Step(View(), out) == RdpSpec.Connect(old(View()), iss)
    {
      hide SlotsOk;
      hide HeldOk;
      hide RecvIndicesOk;
      hide SendIndicesOk;
      hide RecvView;
      hide SendView;
      hide OstandView;
      hide SendWindowOk;
      hide RecvWindowOk;
      hide NoStall;
      Start(SynSent, false, iss);
      ForgetWindows();
      out := [SynSeg(Registers())];
    }

    method Close() returns (out: seq<Segment>)
      requires Valid()
      modifies this`state, this`rcvAck, rwnd
      ensures Valid() && Step(View(), out) == RdpSpec.Close(old(View()))
    {
      hide SlotsOk;
      hide HeldOk;
      hide RecvIndicesOk;
      hide SendIndicesOk;
      hide RecvView;
      hide SendView;
      hide OstandView;
      hide RdpSpec.DelayedAck;
      hide SendWindowOk;
      hide RecvWindowOk;
      hide NoStall;
      out := [];
      match state {
        case Open =>
          out := DelayedAck();
          state := CloseWaitActive;
          out := out + [RstSeg(Registers(), sndNxt)];
        case SynSent =>
          state := Closed;
          out := [RstSeg(Registers(), sndNxt)];
        case SynRcvd =>
          state := Closed;
          out := [RstSeg(Registers(), sndNxt)];
        case _ =>
      }
      assert View() == RdpSpec.Close(old(View())).con;
    }

    // ---- arriving segments ---------------------------------------------------------------

    method InStateClosed(s: Segment) returns (out: seq<Segment>)
      requires Valid()
      ensures Step(View(), out) == InClosed(View(), s)
    {
      if s.rst {
        out := [];
      } else if s.ack || s.nul {
        out := [RstSeg(Registers(), Add32(s.acknum, 1))];
      } else {
        out := [RstAckSeg(Registers(), s.seqnum)];
      }
    }

    method InStateListen(s: Segment, iss: U32) returns (out: seq<Segment>)
      requires Valid() && state.Listen?
      modifies this
      ensures RingsOk() && Step(View(), out) == InListen(old(View()), s, iss)
      ensures Valid() <==> (ListenerTakes(s) ==> Read16(s.body, 0) >= 1)
      ensures ListenerTakes(s) ==> swnd.Length == 4 * Read16(s.body, 0) as int
    {
      hide RecvIndicesOk;
      hide SendIndicesOk;
      hide RecvView;
      hide SendView;
      hide OstandView;
      hide NoStall;
      hide RecvWindowOk;
      out := [];
      if s.rst {
      } else if s.ack || s.nul {
        out := [RstSeg(Registers(), Add32(s.acknum, 1))];
      } else if s.syn && |s.body| >= 4 {
        Start(SynRcvd, true, iss);
        LearnFrom(s);
        out := [SynAckSeg(Registers())];
      }
      assert View() == InListen(old(View()), s, iss).con;
      AllowsUnless(s);
    }

    /** Numbers and limits from the peer's SYN, both windows, and the state that follows. */
    method Greet(s: Segment) returns (out: seq<Segment>)
      requires Valid() && state.SynSent? && OpenerTakes(View(), s)
      modifies this
      ensures RingsOk() && Step(View(), out) == Greeted(old(View()), s) && swnd.Length == 4 * sndMax as int
    {
      hide RecvIndicesOk;
      hide SendIndicesOk;
      hide RecvView;
      hide SendView;
      hide OstandView;
      hide LearnPeer;
      hide Wf;
      LearnFrom(s);
      if s.ack {
        sndUna, state := s.acknum, Open;
        out := [AckSeg(Registers())];
      } else {
        state := SynRcvd;
        out := [SynAckSeg(Registers())];
      }
    }

    method InStateSynSent(s: Segment) returns (out: seq<Segment>)
      requires Valid() && state.SynSent?
      modifies this
      ensures RingsOk() && Step(View(), out) == InSynSent(old(View()), s)
      ensures Valid() <==> (OpenerTakes(old(View()), s) ==> Read16(s.body, 0) >= 1)
      ensures OpenerTakes(old(View()), s) ==> swnd.Length == 4 * Read16(s.body, 0) as int
    {
      hide RecvIndicesOk;
      hide SendIndicesOk;
      hide RecvView;
      hide SendView;
      hide OstandView;
      hide NoStall;
      hide RecvWindowOk;
      out := [];
      if s.ack && !s.rst && s.acknum != sndIss {
        out := [RstSeg(Registers(), Add32(s.acknum, 1))];
      } else if s.rst {
        if s.ack {
          state := Closed;
        }
      } else if s.syn && |s.body| >= 4 {
        out := Greet(s);
      }
      assert View() == InSynSent(old(View()), s).con;
      AllowsUnless(s);
    }

    lemma AllowsUnless(s: Segment)
      ensures SynAllows(s) <==> (s.syn && |s.body| >= 4 ==> Read16(s.body, 0) >= 1)
    {
    }

    method InStateSynRcvd(s: Segment, listening: bool) returns (out: seq<Segment>)
      requires Valid() && state.SynRcvd?
      modifies this`state, this`rcvAck, this`rcvCur, this`rqueue, this`rwndUsed, this`rwndHead, rwnd
      ensures Valid() && Step(View(), out) == InSynRcvd(old(View()), s, listening)
    {
      hide SlotsOk;
      hide HeldOk;
      hide RecvIndicesOk;
      hide SendIndicesOk;
      hide RecvView;
      hide SendView;
      hide OstandView;
      hide RdpSpec.Close;
      hide RecvData;
      hide SendWindowOk;
      hide RecvWindowOk;
      hide NoStall;
      out := [];
      var seqIrs := Sub32(s.seqnum, rcvIrs);
      var rcvMax2 := Sub32(Add32(rcvCur, 2 * rcvMax as int), rcvIrs);
      if s.syn && s.seqnum == rcvCur {
        out := [SynAckAgain(Registers())];
      } else if !(0 < seqIrs <= rcvMax2) {
        out := [AckSeg(Registers())];
        rcvAck := rcvCur;
      } else if s.rst {
        state := Closed;
      } else if s.syn {
        out := [RstSeg(Registers(), Add32(s.acknum, 1))];
        state := Closed;
      } else if s.eak {
        out := [RstSeg(Registers(), Add32(s.acknum % 0x100, 1))];
      } else if s.ack {
        if s.acknum == sndIss {
          out := OpenFrom(s, listening);
        } else {
          out := [RstSeg(Registers(), Add32(s.acknum, 1))];
        }
      }
      assert View() == InSynRcvd(old(View()), s, listening).con;
    }

    /** The ack that was waited for; a passive connection whose listener is gone is closed at once. */
    method OpenFrom(s: Segment, listening: bool) returns (out: seq<Segment>)
      requires Valid() && state.SynRcvd?
      modifies this`state, this`rcvAck, this`rcvCur, this`rqueue, this`rwndUsed, this`rwndHead, rwnd
      ensures Valid() && Step(View(), out) == Opened(old(View()), s, listening)
    {
      hide SlotsOk;
      hide HeldOk;
      hide RecvIndicesOk;
      hide SendIndicesOk;
      hide RecvView;
      hide SendView;
      hide OstandView;
      hide RdpSpec.Close;
      hide RecvData;
      state, out := Open, [];
      if isPasv && !listening {
        out := Close();
        return;
      }
      if |s.body| > 0 || s.nul {
        if s.dlen as int != |s.body| || (s.nul && s.dlen > 0) {
          return;
        }
        out := RwndRecvData(s.body, s.seqnum);
      }
    }

    /** Release every segment an extended-ack list names. */
    method RecvEacks(eacks: seq<U32>)
      requires Valid() && HasWindows(state) && EackListKeepsRing(View(), eacks)
      modifies this`swndHead, swnd
      ensures Valid() && View() == MarkAllEacked(old(View()), eacks)
    {
      hide SlotsOk;
      hide HeldOk;
      hide RecvIndicesOk;
      hide SendIndicesOk;
      hide RecvView;
      hide SendView;
      hide OstandView;
      hide MarkEacked;
      hide EackKeepsRing;
      var i := 0;
      while i < |eacks|
        invariant i <= |eacks| && Valid()
        invariant EackListKeepsRing(View(), eacks[i..])
        invariant state == old(state) && MarkAllEacked(View(), eacks[i..]) == MarkAllEacked(old(View()), eacks)
      {
        assert eacks[i..][1..] == eacks[i + 1..];
        RecvEack(eacks[i]);
        i := i + 1;
      }
    }

    /** The acknowledgements a segment carries, cumulative and extended. */
    method TakeAcks(s: Segment, now: int) returns (out: seq<Segment>)
      requires Valid() && state.Open? && InputDefined(View(), s, now)
      modifies this`sndNxt, this`sndUna, this`swndHead, this`swndUsed, this`swndOstand, swnd
      ensures Valid() && Step(View(), out) == InOpenAcks(old(View()), s, now)
    {
      hide SlotsOk;
      hide HeldOk;
      hide RecvIndicesOk;
      hide SendIndicesOk;
      hide RecvView;
      hide SendView;
      hide OstandView;
      hide RdpSpec.RecvAck;
      hide MarkAllEacked;
      hide EackListKeepsRing;
      out := [];
      if s.ack {
        out := RecvAck(s.acknum, now);
      }
      if s.eak {
        RecvEacks(Eacks(s));
      }
    }

    method TakeAcksThenData(s: Segment, now: int) returns (out: seq<Segment>)
      requires Valid() && state.Open? && InputDefined(View(), s, now)
      modifies this, swnd, rwnd
      ensures Valid() && Step(View(), out) == AcksThenData(old(View()), s, now)
    {
      hide SlotsOk;
      hide HeldOk;
      hide RecvIndicesOk;
      hide SendIndicesOk;
      hide RecvView;
      hide SendView;
      hide OstandView;
      hide RecvData;
      hide InOpenAcks;
      hide InputDefined;
      Presence(View(), s, now);
      out := TakeAcks(s, now);
      if s.dlen > 0 && s.dlen as int + 2 * s.hlen as int == HEAD_SIZE + |s.body| {
        var more := RwndRecvData(Payload(s), s.seqnum);
        out := out + more;
      }
    }

    method InStateOpen(s: Segment, now: int) returns (out: seq<Segment>)
      requires Valid() && state.Open? && InputDefined(View(), s, now)
      modifies this, swnd, rwnd
      ensures Valid() && Step(View(), out) == InOpen(old(View()), s, now)
    {
      hide SlotsOk;
      hide HeldOk;
      hide RecvIndicesOk;
      hide SendIndicesOk;
      hide RecvView;
      hide SendView;
      hide OstandView;
      hide RecvData;
      hide RdpSpec.DelayedAck;
      hide AcksThenData;
      hide InputDefined;
      hide SendWindowOk;
      hide RecvWindowOk;
      hide NoStall;
      Presence(View(), s, now);
      if Sub32(Sub32(s.seqnum, rcvCur), 1) >= 2 * rcvMax as int {
        out := [AckSeg(Registers())];
        rcvAck := rcvCur;
      } else if s.rst {
        out := DelayedAck();
        state := CloseWaitPasv;
        out := out + [RstFinSeg(Registers())];
      } else if s.nul {
        out := [];
        if s.body == [] {
          out := RwndRecvData([], s.seqnum);
        }
      } else if s.syn {
        out := [SynEcho(Registers(), s)];
        state := Closed;
      } else {
        out := TakeAcksThenData(s, now);
      }
      assert View() == InOpen(old(View()), s, now).con;
    }

    method InStateCloseWait(s: Segment) returns (out: seq<Segment>)
      requires Valid() && (state.CloseWaitActive? || state.CloseWaitPasv?)
      ensures state.CloseWaitActive? ==> Step(View(), out) == InCloseWaitActive(View(), s)
      ensures state.CloseWaitPasv? ==> Step(View(), out) == InCloseWaitPasv(View(), s)
    {
      out := [];
      if state.CloseWaitActive? {
        if s.rst && s.fin {
          out := [FinSeg(Registers())];
        } else if s.ack {
          out := [RstSeg(Registers(), sndNxt)];
        }
      } else if !s.fin && s.rst {
        out := [RstFinSeg(Registers())];
      }
    }

    /** A datagram from the peer: too short ones are dropped, the rest go to the handler of the current state. */
    method InputDgram(dgram: seq<Byte>, listening: bool, iss: U32, now: int) returns (out: seq<Segment>)
      requires Valid() && (Parse(dgram).Some? ==> InputDefined(View(), Parse(dgram).value, now))
      modifies this, swnd, rwnd
      ensures RingsOk() && ((Parse(dgram).Some? ==> SynAllows(Parse(dgram).value)) ==> Valid())
      ensures Step(View(), out) ==
              match Parse(dgram)
              case None => Step(old(View()), [])
              case Some(s) => Input(old(View()), s, listening, iss, now)
    {
      hide Parse;
      hide Wf;
      hide InputDefined;
      hide InOpen;
      hide InSynRcvd;
      hide InSynSent;
      hide InListen;
      hide InClosed;
      hide InCloseWaitActive;
      hide InCloseWaitPasv;
      hide SlotsOk;
      hide HeldOk;
      hide RecvIndicesOk;
      hide SendIndicesOk;
      hide RecvView;
      hide SendView;
      hide OstandView;
      var parsed := Parse(dgram);
      if parsed.None? {
        return [];
      }
      var s := parsed.value;
      Presence(View(), s, now);
      match state
      case Closed => out := InStateClosed(s);
      case Listen => out := InStateListen(s, iss);
      case SynSent => out := InStateSynSent(s);
      case SynRcvd => out := InStateSynRcvd(s, listening);
      case Open => out := InStateOpen(s, now);
      case CloseWaitPasv => out := InStateCloseWait(s);
      case CloseWaitActive => out := InStateCloseWait(s);
    }

    // ---- the periodic timer -----------------------------------------------------------------

    /** One tick; `giveUp`, `due` and `ackDue` say which deadlines have passed. */
    method TimerTick(now: int, maxRetrans: int, ackDue: bool, giveUp: bool, due: bool) returns (out: seq<Segment>)
      requires Valid()
      modifies this`state, this`rcvAck, swnd, rwnd
      ensures Valid()
      ensures Step(View(), out) ==
              match old(state)
              case Open => OpenTick(old(View()), now, maxRetrans, ackDue)
              case SynSent => if giveUp || due then SynTick(old(View()), giveUp) else Step(old(View()), [])
              case SynRcvd => if giveUp || due then SynTick(old(View()), giveUp) else Step(old(View()), [])
              case CloseWaitActive => if giveUp || due then RstTick(old(View()), giveUp) else Step(old(View()), [])
              case CloseWaitPasv => if giveUp || due then RstTick(old(View()), giveUp) else Step(old(View()), [])
              case _ => Step(old(View()), [])
    {
      hide SlotsOk;
      hide HeldOk;
      hide RecvIndicesOk;
      hide SendIndicesOk;
      hide RecvView;
      hide SendView;
      hide OstandView;
      hide RetransmitFrom;
      hide RdpSpec.DelayedAck;
      out := [];
      match state
      case Open =>
        var ok;
        ok, out := Retransmit(now, maxRetrans);
        if ok && ackDue {
          var more := DelayedAck();
          out := out + more;
        }
      case SynSent =>
        if giveUp { state := Closed; } else if due { out := [SynSeg(Registers())]; }
      case SynRcvd =>
        if giveUp { state := Closed; } else if due { out := [SynAckSeg(Registers())]; }
      case CloseWaitActive =>
        if giveUp { state := Closed; } else if due { out := [RstSeg(Registers(), sndNxt)]; }
      case CloseWaitPasv =>
        if giveUp { state := Closed; } else if due { out := [RstFinSeg(Registers())]; }
      case _ =>
    }
  }

  lemma Presence(c: Con, s: Segment, now: int)
    requires Wf(c) && InputDefined(c, s, now)
    ensures EackListPresent(s)
  {
  }

  function Prepend(out: seq<Segment>, r: Step): Step {
    Step(r.con, out + r.out)
  }

  lemma PrependTwice(a: seq<Segment>, b: seq<Segment>, r: Step)
    ensures Prepend(a, Prepend(b, r)) == Prepend(a + b, r)
  {
  }

  lemma WindowBounds(c: Con)
    requires SendWindowOk(c)
    ensures c.ostand <= |c.swnd| && c.ostand < c.sndMax && Sub32(c.sndNxt, c.sndUna) == c.ostand + 1
  {
  }

  /** The loop has put `out` on the wire and has come to `c`, with the rest still to do. */
  ghost predicate Underway(v0: Con, out: seq<Segment>, c: Con, now: int) {
    SendWindowOk(v0) && SendWindowOk(c) && SendOstand(v0, now) == Prepend(out, SendOstand(c, now))
  }

  lemma SendingStarts(v0: Con, now: int)
    requires SendWindowOk(v0)
    ensures Underway(v0, [], v0, now) && v0.ostand <= |v0.swnd| && v0.ostand < v0.sndMax
    ensures Sub32(v0.sndNxt, v0.sndUna) == v0.ostand + 1
  {
    assert [] + SendOstand(v0, now).out == SendOstand(v0, now).out;
  }

  /** One turn: the peer's limit leaves room, so the next slot goes out and everything stays in order. */
  lemma SendingTurn(v0: Con, out: seq<Segment>, c: Con, now: int)
    requires Underway(v0, out, c, now) && c.ostand < |c.swnd| && Sub32(c.sndNxt, c.sndUna) < c.sndMax
    ensures c.swnd[c.ostand].pbuf.Some? && c.ostand + 1 < c.sndMax
    ensures var r := SendOne(c, now);
            && Underway(v0, out + r.out, r.con, now) && r.con.ostand <= |r.con.swnd| && r.con.ostand < r.con.sndMax
            && Sub32(r.con.sndNxt, r.con.sndUna) == r.con.ostand + 1
  {
    SendOstandOnce(c, now);
    PrependTwice(out, SendOne(c, now).out, SendOstand(SendOne(c, now).con, now));
    WindowBounds(c);
    hide SendOstand;
    hide SendOne;
    WindowBounds(SendOne(c, now).con);
    hide SendWindowOk;
  }

  lemma SendingDone(v0: Con, out: seq<Segment>, c: Con, now: int)
    requires Underway(v0, out, c, now) && (c.ostand == |c.swnd| || Sub32(c.sndNxt, c.sndUna) >= c.sndMax)
    ensures SendWindowOk(c) && SendOstand(v0, now) == Step(c, out)
  {
    SendOstandDone(c, now);
    assert out + [] == out;
  }

  lemma SendOstandOnce(c: Con, now: int)
    requires SendWindowOk(c) && c.ostand < |c.swnd| && Sub32(c.sndNxt, c.sndUna) < c.sndMax
    ensures c.swnd[c.ostand].pbuf.Some?
    ensures SendWindowOk(SendOne(c, now).con)
    ensures SendOstand(c, now) == Prepend(SendOne(c, now).out, SendOstand(SendOne(c, now).con, now))
  {
    assert UnsentSlotOk(c.swnd[c.ostand]);
  }

  lemma SendOstandDone(c: Con, now: int)
    requires SendWindowOk(c) && (c.ostand == |c.swnd| || Sub32(c.sndNxt, c.sndUna) >= c.sndMax)
    ensures SendOstand(c, now) == Step(c, [])
  {
  }

  // ---- steps of the receive loops ----------------------------------------------------

  lemma DrainStart(w: seq<RcvSlot>)
    ensures w[0..] + FreeSlots(0) == w && Delivered(w[..0]) == []
  {
  }

  lemma {:induction false} DeliveredSnoc(w: seq<RcvSlot>, s: RcvSlot)
    ensures Delivered(w + [s]) == Delivered(w) + Delivered([s])
  {
    if w == [] {
      assert w + [s] == [s];
    } else {
      assert (w + [s])[1..] == w[1..] + [s];
      DeliveredSnoc(w[1..], s);
    }
  }

  lemma DrainOnce(w: seq<RcvSlot>, k: nat, q: seq<seq<Byte>>)
    requires k <= LeadingHeld(w) && |w| > 0
    ensures var now := w[k..] + FreeSlots(k);
            |now| == |w| && (now[0].Held? ==>
              && k < LeadingHeld(w)
              && now[1..] + [Free] == w[k + 1..] + FreeSlots(k + 1)
              && q + Delivered(w[..k + 1]) == q + Delivered(w[..k]) + Delivered([now[0]]))
  {
    hide LeadingHeld;
    hide Delivered;
    hide FreeSlots;
    var now := w[k..] + FreeSlots(k);
    if now[0].Held? {
      assert k < |w| && now[0] == w[k];
      assert w[..k + 1] == w[..k] + [w[k]];
      DeliveredSnoc(w[..k], w[k]);
    }
  }

  lemma DrainEnd(w: seq<RcvSlot>, k: nat)
    requires k <= LeadingHeld(w) && |w| > 0 && (w[k..] + FreeSlots(k))[0].Free?
    ensures k == LeadingHeld(w)
  {
  }

  /** A scan whose result is `all` has produced `done` and `seqs` so far and still has `w` to visit. */
  ghost predicate PartWay(all: (seq<RcvSlot>, seq<U32>), done: seq<RcvSlot>, seqs: seq<U32>, w: seq<RcvSlot>) {
    |seqs| <= MAX_EACK && all == (done + EackScan(w, MAX_EACK - |seqs|).0, seqs + EackScan(w, MAX_EACK - |seqs|).1)
  }

  lemma PartWayReport(all: (seq<RcvSlot>, seq<U32>), done: seq<RcvSlot>, seqs: seq<U32>, w: seq<RcvSlot>)
    requires PartWay(all, done, seqs, w) && |w| > 0 && |seqs| < MAX_EACK && w[0].Held? && !w[0].eacked
    ensures PartWay(all, done + [w[0].(eacked := true)], seqs + [w[0].seqnum], w[1..])
  {
    var rest := EackScan(w[1..], MAX_EACK - |seqs| - 1);
    assert done + ([w[0].(eacked := true)] + rest.0) == (done + [w[0].(eacked := true)]) + rest.0;
    assert seqs + ([w[0].seqnum] + rest.1) == (seqs + [w[0].seqnum]) + rest.1;
  }

  lemma PartWayPass(all: (seq<RcvSlot>, seq<U32>), done: seq<RcvSlot>, seqs: seq<U32>, w: seq<RcvSlot>)
    requires PartWay(all, done, seqs, w) && |w| > 0 && |seqs| < MAX_EACK && (w[0].Free? || w[0].eacked)
    ensures PartWay(all, done + [w[0]], seqs, w[1..])
  {
    var rest := EackScan(w[1..], MAX_EACK - |seqs|);
    assert done + ([w[0]] + rest.0) == (done + [w[0]]) + rest.0;
  }

  ghost predicate Scanned(was: seq<RSlot>, now: seq<RSlot>, p: nat, seqs: seq<U32>) {
    && |now| == |was| && p <= |was|
    && PartWay(EackScan(SeenAll(was), MAX_EACK), SeenAll(now[..p]), seqs, SeenAll(was[p..]))
  }

  lemma ScanStart(was: seq<RSlot>)
    ensures Scanned(was, was, 0, [])
  {
    hide EackScan;
    hide SeenAll;
    assert was[0..] == was;
    var all := EackScan(SeenAll(was), MAX_EACK);
    assert SeenAll(was[..0]) + all.0 == all.0;
    assert [] + all.1 == all.1;
  }

  /** The scan stops only with nothing left to count, so a slot lies ahead. */
  lemma CountAhead(slots: seq<RSlot>, p: nat)
    requires p <= |slots|
    ensures CountUsed(slots[p..]) > 0 ==> p < |slots|
    ensures p < |slots| ==> CountUsed(slots[p..]) == Used(slots[p]) + CountUsed(slots[p + 1..])
  {
    if p < |slots| {
      assert slots[p..][1..] == slots[p + 1..];
    }
  }

  lemma ScannedReport(was: seq<RSlot>, now: seq<RSlot>, p: nat, seqs: seq<U32>)
    requires Scanned(was, now, p, seqs) && p < |was| == |now| && |seqs| < MAX_EACK
    requires was[p].isUsed && !was[p].isEacked
    ensures Scanned(was, now[p := was[p].(isEacked := true)], p + 1, seqs + [was[p].seqnum])
  {
    hide PartWay;
    hide SeenAll;
    SeenTail(was, p);
    SeenSnoc(now[p := was[p].(isEacked := true)], p);
    assert now[p := was[p].(isEacked := true)][..p] == now[..p];
    PartWayReport(EackScan(SeenAll(was), MAX_EACK), SeenAll(now[..p]), seqs, SeenAll(was[p..]));
  }

  lemma ScannedPass(was: seq<RSlot>, now: seq<RSlot>, p: nat, seqs: seq<U32>)
    requires Scanned(was, now, p, seqs) && p < |was| == |now| && |seqs| < MAX_EACK && now[p] == was[p]
    requires !was[p].isUsed || was[p].isEacked
    ensures Scanned(was, now, p + 1, seqs)
  {
    hide PartWay;
    hide SeenAll;
    SeenTail(was, p);
    SeenSnoc(now, p);
    PartWayPass(EackScan(SeenAll(was), MAX_EACK), SeenAll(now[..p]), seqs, SeenAll(was[p..]));
  }

  lemma SeenTail(w: seq<RSlot>, p: nat)
    requires p < |w|
    ensures SeenAll(w[p..])[0] == Seen(w[p]) && SeenAll(w[p..])[1..] == SeenAll(w[p + 1..])
  {
  }

  lemma SeenSnoc(w: seq<RSlot>, p: nat)
    requires p < |w|
    ensures SeenAll(w[..p + 1]) == SeenAll(w[..p]) + [Seen(w[p])]
  {
  }

  lemma ScannedAll(was: seq<RSlot>, now: seq<RSlot>, p: nat, seqs: seq<U32>)
    requires Scanned(was, now, p, seqs) && |now| == |was| && p <= |was| && now[p..] == was[p..]
    requires |seqs| <= MAX_EACK && (CountUsed(was[p..]) == 0 || |seqs| == MAX_EACK)
    ensures EackScan(SeenAll(was), MAX_EACK) == (SeenAll(now), seqs)
  {
    hide EackScan;
    hide SeenAll;
    ScanRest(was[p..], SeenAll(was[p..]), MAX_EACK - |seqs|);
    SeenSplit(now, p);
    assert seqs + [] == seqs;
  }

  lemma SeenSplit(w: seq<RSlot>, p: nat)
    requires p <= |w|
    ensures SeenAll(w[..p]) + SeenAll(w[p..]) == SeenAll(w)
  {
  }

  lemma SeenRotate(w: seq<RSlot>, v: RSlot)
    requires |w| > 0
    ensures SeenAll(w[1..] + [v]) == SeenAll(w)[1..] + [Seen(v)]
  {
  }

  lemma {:induction false} ScanNothing(w: seq<RcvSlot>, budget: nat)
    requires forall i :: 0 <= i < |w| ==> w[i].Free?
    ensures EackScan(w, budget) == (w, [])
  {
    if w != [] && budget > 0 {
      ScanNothing(w[1..], budget);
      assert [w[0]] + w[1..] == w;
    }
  }

  lemma ScanRest(slots: seq<RSlot>, w: seq<RcvSlot>, budget: nat)
    requires |slots| == |w| && forall i :: 0 <= i < |w| ==> w[i] == Seen(slots[i])
    requires CountUsed(slots) == 0 || budget == 0
    ensures EackScan(w, budget) == (w, [])
  {
    if budget > 0 {
      CountPositive(slots);
      ScanNothing(w, budget);
    }
  }

  /** What the walk over the window does at slot `i`. */
  lemma RetransmitCases(c: Con, i: nat, now: int, maxRetrans: int)
    requires SendWindowOk(c) && i < |c.swnd|
    ensures c.swnd[i].isSent <==> i < c.ostand
    ensures c.swnd[i].isSent ==> (c.swnd[i].isAcked <==> c.swnd[i].pbuf.None?)
    ensures var s := c.swnd[i];
            var all := RetransmitFrom(c, i, now, maxRetrans);
            s.isSent ==>
              if s.isAcked then all == RetransmitFrom(c, i + 1, now, maxRetrans)
              else if s.rtSec > maxRetrans then all == Step(c.(state := Closed), [])
              else if now - s.sentTime > s.rtSec then
                var first := RetransmitOne(c, i, now);
                SendWindowOk(first.con) && all == Prepend(first.out, RetransmitFrom(first.con, i + 1, now, maxRetrans))
              else all == RetransmitFrom(c, i + 1, now, maxRetrans)
  {
    if i < c.ostand {
      assert SentSlotOk(c.swnd[i], Add32(c.sndUna, i + 1));
    } else {
      assert UnsentSlotOk(c.swnd[i]);
    }
  }

  lemma RetransmitDone(c: Con, i: nat, now: int, maxRetrans: int)
    requires SendWindowOk(c) && (i >= |c.swnd| || !c.swnd[i].isSent)
    ensures RetransmitFrom(c, i, now, maxRetrans) == Step(c, [])
  {
    if i < |c.swnd| {
      RetransmitCases(c, i, now, maxRetrans);
    }
  }

  /** The walk has come to slot `n` of `c`, with `out` on the wire. */
  ghost predicate Walking(v0: Con, out: seq<Segment>, c: Con, n: nat, now: int, maxRetrans: int) {
    && SendWindowOk(v0) && SendWindowOk(c)
    && RetransmitFrom(v0, 0, now, maxRetrans) == Prepend(out, RetransmitFrom(c, n, now, maxRetrans))
  }

  lemma WalkStarts(v0: Con, now: int, maxRetrans: int)
    requires SendWindowOk(v0)
    ensures Walking(v0, [], v0, 0, now, maxRetrans)
  {
    var all := RetransmitFrom(v0, 0, now, maxRetrans);
    assert [] + all.out == all.out;
  }

  lemma WalkTurn(v0: Con, out: seq<Segment>, c: Con, n: nat, now: int, maxRetrans: int)
    requires Walking(v0, out, c, n, now, maxRetrans) && n < |c.swnd|
    ensures var s := c.swnd[n];
            s.isSent ==>
              && (s.isAcked <==> s.pbuf.None?)
              && (if s.isAcked then Walking(v0, out, c, n + 1, now, maxRetrans)
                  else if s.rtSec > maxRetrans then RetransmitFrom(v0, 0, now, maxRetrans) == Step(c.(state := Closed), out)
                  else if now - s.sentTime > s.rtSec then
                    var first := RetransmitOne(c, n, now);
                    SendWindowOk(first.con) && Walking(v0, out + first.out, first.con, n + 1, now, maxRetrans)
                  else Walking(v0, out, c, n + 1, now, maxRetrans))
  {
    RetransmitCases(c, n, now, maxRetrans);
    hide RetransmitFrom;
    hide SendWindowOk;
    assert out + [] == out;
    var s := c.swnd[n];
    if s.isSent && !s.isAcked && s.rtSec <= maxRetrans && now - s.sentTime > s.rtSec {
      var first := RetransmitOne(c, n, now);
      PrependTwice(out, first.out, RetransmitFrom(first.con, n + 1, now, maxRetrans));
    }
  }

  lemma WalkDone(v0: Con, out: seq<Segment>, c: Con, n: nat, now: int, maxRetrans: int)
    requires Walking(v0, out, c, n, now, maxRetrans) && (n >= |c.swnd| || !c.swnd[n].isSent)
    ensures RetransmitFrom(v0, 0, now, maxRetrans) == Step(c, out)
  {
    RetransmitDone(c, n, now, maxRetrans);
    assert out + [] == out;
  }

  lemma SendChunksStuck(c: Con, buf: seq<Byte>, now: int)
    requires SendWindowOk(c) && NoStall(c) && ChunkSize(c) >= 0 && |buf| > 0 && !CanEnqueue(c)
    ensures SendChunks(c, buf, now).step == Step(c, []) && SendChunks(c, buf, now).total == 0
  {
  }

  /** One round of `send`, seen from the function that describes the whole call. */
  lemma SendChunksOnce(c: Con, buf: seq<Byte>, now: int)
    requires SendWindowOk(c) && NoStall(c) && ChunkSize(c) >= 0 && |buf| > 0 && CanEnqueue(c)
    ensures var size := FirstSize(c, buf);
            var first := Enqueue(c, buf[..size], now);
            var all := SendChunks(c, buf, now);
            if size == |buf| then all.step == first && all.total == size
            else
              var rest := SendChunks(first.con, buf[size..], now);
              all.step == Step(rest.step.con, first.out + rest.step.out) && all.total == size + rest.total
  {
    if FirstSize(c, buf) == |buf| {
      assert buf[..|buf|] == buf;
    }
  }
}
