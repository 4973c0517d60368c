/**
 The tables of the transport: descriptors, listening ports, and connections found by descriptor and by address.

 Both connection tables hold references to the same records.  What a segment or a timer does to one
 connection is in RdpSpec; here only the state it leaves behind matters (`MayMove`).
 */
module RdpTables {
  import opened SeqNum
  import opened Segments
  import opened RdpSpec
  import Ids

  datatype RdpAddr = RdpAddr(did: Ids.Id, dport: U16, sport: U16)

  /** A connection record, as far as the tables are concerned. */
  class Conn {
    const addr: RdpAddr
    const desc: int
    const pasv: bool
    var state: State
    var isClosed: bool   // the user has closed it

    constructor (addr: RdpAddr, desc: int, pasv: bool, state: State)
      ensures this.addr == addr && this.desc == desc && this.pasv == pasv && this.state == state && !isClosed
    {
      this.addr, this.desc, this.pasv, this.state, this.isClosed := addr, desc, pasv, state, false;
    }
  }

  datatype Entry = Entry(addr: RdpAddr, pasv: bool, state: State, isClosed: bool)

  // ---- what happens to one connection ---------------------------------------------------

  /** The states an arriving segment may leave a connection in; a passive one whose listener is gone is closed at once. */
  predicate MayMove(s: State, pasv: bool, listening: bool, t: State) {
    || s == t
    || (s.SynSent? && (t.Closed? || t.Open? || t.SynRcvd?))
    || (s.SynRcvd? && (t.Closed? || if pasv && !listening then t.CloseWaitActive? else t.Open?))
    || (s.Open? && (t.CloseWaitPasv? || t.Closed?))
  }

  /** The handlers make no other moves. */
  lemma HandlersMove(c: Con, s: Segment, listening: bool, iss: U32, now: int)
    requires Wf(c) && SynSentOk(c) && SegmentSafe(s) && !c.state.Listen?
    ensures MayMove(c.state, c.pasv, listening, Input(c, s, listening, iss, now).con.state)
  {
    hide RecvData;
    hide InOpenAcks;
    hide DelayedAck;
    hide SendWindowOk;
    hide RecvWindowOk;
    hide NoStall;
  }

  /** Whether nothing need be told to the peer any more, so that `close` ends the connection. */
  predicate Ends(s: State) {
    s.Closed? || s.SynSent? || s.SynRcvd?
  }

  function Closing(e: Entry): (r: Entry) {
    if e.state.Open? then e.(state := CloseWaitActive, isClosed := true)
    else if e.state.CloseWaitPasv? then e.(isClosed := true)
    else if Ends(e.state) then e.(state := Closed)
    else e
  }

  /** What `close` makes of the connections; while a callback is running none is taken out. */
  function AfterClose(table: map<int, Entry>, desc: int, inCallback: bool): map<int, Entry> {
    if desc !in table then table
    else if Ends(table[desc].state) && !inCallback then table - {desc}
    else table[desc := Closing(table[desc])]
  }

  predicate DefersIn(table: map<int, Entry>, desc: int) {
    desc in table && Ends(table[desc].state)
  }

  lemma FreshExists(s: set<int>)
    ensures exists d :: d > 0 && d !in s
  {
    var m := Above(s);
    assert m > 0 && m !in s;
  }

  lemma {:induction false} Above(s: set<int>) returns (m: int)
    ensures m > 0 && forall x :: x in s ==> x < m
  {
    if x :| x in s {
      var n := Above(s - {x});
      m := if n > x then n else x + 1;
      assert s == (s - {x}) + {x};
    } else {
      m := 1;
    }
  }

  lemma ValuesAfter(m: map<U16, int>, k: U16, v: int)
    requires k !in m
    ensures m[k := v].Values == m.Values + {v}
  {
    var m' := m[k := v];
    assert m'[k] == v;
    forall x | x in m.Values ensures x in m'.Values {
      var j :| j in m && m[j] == x;
      assert m'[j] == x;
    }
  }

  lemma ValuesWithout(m: map<U16, int>, k: U16)
    requires k in m && forall p, q :: p in m && q in m && m[p] == m[q] ==> p == q
    ensures (m - {k}).Values == m.Values - {m[k]}
  {
    var m' := m - {k};
    forall x | x in m.Values && x != m[k] ensures x in m'.Values {
      var j :| j in m && m[j] == x;
      assert m'[j] == x;
    }
  }

  /** What user code may do inside a callback; sending and receiving leave the tables alone. */
  datatype Call =
    | Closes(desc: int)
    | Listens(sport: U16)
    | Connects(sport: U16, did: Ids.Id, dport: U16)

  /** Descriptors a sequence of calls closes. */
  function Targets(calls: seq<Call>): set<int> {
    set c | c in calls && c.Closes? :: c.desc
  }

  /** What one call leaves of the connections there were. */
  ghost predicate Kept(was: map<int, Entry>, now: map<int, Entry>, inCallback: bool, call: Call) {
    forall d :: d in was ==>
      if call.Closes? && call.desc == d then
        if Ends(was[d].state) && !inCallback then d !in now else d in now && now[d] == Closing(was[d])
      else d in now && now[d] == was[d]
  }

  /** What a whole callback leaves of them while it runs: connections are closed by name, and none disappears that opened. */
  ghost predicate AllKept(was: map<int, Entry>, now: map<int, Entry>, inCallback: bool, calls: seq<Call>) {
    forall d :: d in was ==>
      && (d !in Targets(calls) ==> d in now && now[d] == was[d])
      && (d in Targets(calls) && (inCallback || !Ends(was[d].state)) ==> d in now && now[d] == Closing(was[d]))
  }

  /** Closing twice is closing once. */
  lemma ClosingAgain(e: Entry)
    ensures Closing(Closing(e)) == Closing(e)
    ensures Ends(Closing(e).state) == Ends(e.state)
  {
  }

  lemma TargetsSnoc(calls: seq<Call>, call: Call)
    ensures Targets(calls + [call]) == Targets(calls) + if call.Closes? then {call.desc} else {}
  {
    assert call in calls + [call];
    assert forall c :: c in calls ==> c in calls + [call];
  }

  lemma KeptOneMore(was: map<int, Entry>, mid: map<int, Entry>, now: map<int, Entry>, inCallback: bool, calls: seq<Call>, call: Call)
    requires AllKept(was, mid, inCallback, calls) && Kept(mid, now, inCallback, call)
    ensures AllKept(was, now, inCallback, calls + [call])
  {
    TargetsSnoc(calls, call);
    forall d | d in was
      ensures d !in Targets(calls + [call]) ==> d in now && now[d] == was[d]
      ensures d in Targets(calls + [call]) && (inCallback || !Ends(was[d].state)) ==> d in now && now[d] == Closing(was[d])
    {
      ClosingAgain(was[d]);
    }
  }

  class Rdp {
    var descSet: set<int>
    var listening: map<U16, int>
    var desc2conn: map<int, Conn>
    var addr2conn: map<RdpAddr, Conn>
    var desc2event: set<int>       // descriptors with a callback
    var isInvoke: bool             // a callback is running
    var descClosed: set<int>       // closed during the callback, to be removed after it
    ghost var retired: set<int>    // descriptors of closed listeners: they are never given back

    ghost predicate ByDescOk()
      reads this
    {
      forall d :: d in desc2conn ==>
        && desc2conn[d].desc == d && d in descSet && d > 0
        && desc2conn[d].addr in addr2conn && addr2conn[desc2conn[d].addr] == desc2conn[d]
    }

    ghost predicate ByAddrOk()
      reads this
    {
      forall a :: a in addr2conn ==>
        addr2conn[a].addr == a && addr2conn[a].desc in desc2conn && desc2conn[addr2conn[a].desc] == addr2conn[a]
    }

    /** Every descriptor handed out belongs to one connection, to one listener, or to a closed listener. */
    ghost predicate DescsOk()
      reads this
    {
      && descSet == desc2conn.Keys + listening.Values + retired
      && desc2conn.Keys !! listening.Values !! retired
      && (forall p, q :: p in listening && q in listening && listening[p] == listening[q] ==> p == q)
      && desc2event <= descSet
    }

    ghost predicate DeferredOk()
      reads this, desc2conn.Values
    {
      && (!isInvoke ==> descClosed == {})
      && (forall d :: d in descClosed ==> d in desc2conn && desc2conn[d].state.Closed?)
    }

    ghost predicate Valid()
      reads this, desc2conn.Values
    {
      ByDescOk() && ByAddrOk() && DescsOk() && DeferredOk()
    }

    ghost function EntryOf(d: int): Entry
      requires d in desc2conn
      reads this`desc2conn, desc2conn.Values
    {
      var c := desc2conn[d];
      Entry(c.addr, c.pasv, c.state, c.isClosed)
    }

    /** The connections by descriptor. */
    ghost function Table(): map<int, Entry>
      reads this`desc2conn, desc2conn.Values
    {
      map d | d in desc2conn :: EntryOf(d)
    }

    constructor ()
      ensures Valid() && Table() == map[] && listening == map[] && !isInvoke
    {
      descSet, listening, desc2conn, addr2conn := {}, map[], map[], map[];
      desc2event, isInvoke, descClosed, retired := {}, false, {}, {};
    }

    method GenerateDesc() returns (desc: int)
      ensures desc > 0 && desc !in descSet
    {
      FreshExists(descSet);
      desc :| desc > 0 && desc !in descSet;
    }

    method Listen(sport: U16) returns (desc: int)
      requires Valid()
      modifies this`descSet, this`listening, this`desc2event
      ensures Valid()
      ensures sport in old(listening) ==> desc == -1 && listening == old(listening) && descSet == old(descSet)
      ensures sport !in old(listening) ==>
                desc > 0 && desc !in old(descSet) && listening == old(listening)[sport := desc] && descSet == old(descSet) + {desc}
    {
      if sport in listening {
        return -1;
      }
      desc := GenerateDesc();
      descSet := descSet + {desc};
      ValuesAfter(listening, sport, desc);
      listening := listening[sport := desc];
      desc2event := desc2event + {desc};
    }

    /** Enter a new record under both keys; `called` holds its descriptor if it has a callback. */
    method Register(c: Conn, called: set<int>)
      requires Valid() && called <= {c.desc} && c.desc > 0 && c.desc !in descSet && c.addr !in addr2conn
      modifies this`descSet, this`desc2conn, this`addr2conn, this`desc2event
      ensures Valid() && descSet == old(descSet) + {c.desc}
      ensures desc2conn == old(desc2conn)[c.desc := c] && addr2conn == old(addr2conn)[c.addr := c]
    {
      descSet := descSet + {c.desc};
      addr2conn := addr2conn[c.addr := c];
      desc2conn := desc2conn[c.desc := c];
      desc2event := desc2event + called;
    }

    /** A new connection, and how it shows in the table. */
    method Create(addr: RdpAddr, pasv: bool, state: State, called: bool) returns (desc: int)
      requires Valid() && addr !in addr2conn
      modifies this`descSet, this`desc2conn, this`addr2conn, this`desc2event
      ensures Valid() && desc > 0 && desc !in old(descSet) && desc !in old(desc2conn) && descSet == old(descSet) + {desc}
      ensures desc in desc2conn && fresh(desc2conn[desc]) && desc2conn == old(desc2conn)[desc := desc2conn[desc]]
      ensures Table() == old(Table())[desc := Entry(addr, pasv, state, false)]
    {
      desc := GenerateDesc();
      NotHandedOut(desc);
      hide Valid;
      var c := new Conn(addr, desc, pasv, state);
      Register(c, if called then {desc} else {});
    }

    lemma NotHandedOut(d: int)
      requires Valid() && d !in descSet
      ensures d !in desc2conn
    {
    }

    /** Active open.  Without a local port one is drawn at random until the address is free. */
    method Connect(sport: U16, did: Ids.Id, dport: U16) returns (desc: int)
      requires Valid()
      modifies this`descSet, this`desc2conn, this`addr2conn, this`desc2event
      ensures Valid() && (desc == -1 || desc > 0)
      ensures desc == -1 ==> desc2conn == old(desc2conn) && descSet == old(descSet) && Table() == old(Table())
      ensures desc > 0 ==> desc !in old(descSet) && desc !in old(desc2conn) && desc in desc2conn && fresh(desc2conn[desc])
      ensures desc > 0 ==> desc2conn == old(desc2conn)[desc := desc2conn[desc]]
      ensures desc > 0 ==> exists p: U16 ::
                && (sport != 0 ==> p == sport) && RdpAddr(did, dport, p) !in old(addr2conn)
                && Table() == old(Table())[desc := Entry(RdpAddr(did, dport, p), false, SynSent, false)]
      ensures sport != 0 ==> (desc == -1 <==> RdpAddr(did, dport, sport) in old(addr2conn))
    {
      hide Valid;
      hide Table;
      var port := sport;
      if sport != 0 {
        if RdpAddr(did, dport, sport) in addr2conn {
          return -1;
        }
      } else {
        if forall p: U16 :: RdpAddr(did, dport, p) in addr2conn {
          return -1;
        }
        port :| RdpAddr(did, dport, port) !in addr2conn;
      }
      desc := Create(RdpAddr(did, dport, port), false, SynSent, true);
    }

    predicate Registered(c: Conn)
      reads this
    {
      c.desc in desc2conn && desc2conn[c.desc] == c
    }

    /** Take a connection out of all tables. */
    method Forget(c: Conn)
      requires Valid() && Registered(c) && c.desc !in descClosed
      modifies this`descSet, this`desc2conn, this`addr2conn, this`desc2event
      ensures Valid() && desc2conn == old(desc2conn) - {c.desc} && addr2conn == old(addr2conn) - {c.addr}
      ensures Table() == old(Table()) - {c.desc}
    {
      descSet := descSet - {c.desc};
      desc2event := desc2event - {c.desc};
      addr2conn := addr2conn - {c.addr};
      desc2conn := desc2conn - {c.desc};
    }

    /** Change the state of a registered connection, seen through both tables. */
    method SetState(c: Conn, state: State, isClosed: bool)
      requires Valid() && Registered(c) && (c.desc in descClosed ==> state.Closed?)
      modifies c
      ensures Valid() && c.state == state && c.isClosed == isClosed
      ensures Table() == old(Table())[c.desc := Entry(c.addr, c.pasv, state, isClosed)]
    {
      c.state := state;
      c.isClosed := isClosed;
    }

    /** A closed connection goes at once, or once the running callback has returned. */
    method ForgetOrDefer(c: Conn)
      requires Valid() && Registered(c) && c.state.Closed?
      modifies this`descSet, this`desc2conn, this`addr2conn, this`desc2event, this`descClosed
      ensures Valid() && desc2conn.Values <= old(desc2conn.Values)
      ensures desc2conn == if isInvoke then old(desc2conn) else old(desc2conn) - {c.desc}
      ensures Table() == if isInvoke then old(Table()) else old(Table()) - {c.desc}
      ensures descClosed == if isInvoke then old(descClosed) + {c.desc} else old(descClosed)
    {
      if !isInvoke {
        Forget(c);
      } else {
        descClosed := descClosed + {c.desc};
      }
    }

    method CloseListener(sport: U16)
      requires Valid() && sport in listening
      modifies this`listening, this`retired
      ensures Valid() && listening == old(listening) - {sport} && listening.Values == old(listening.Values) - {old(listening[sport])}
    {
      ValuesWithout(listening, sport);
      retired := retired + {listening[sport]};
      listening := listening - {sport};
    }

    lemma AtDesc(d: int)
      requires Valid() && d in desc2conn
      ensures desc2conn[d].desc == d && desc2conn[d] in desc2conn.Values && Registered(desc2conn[d])
      ensures d !in listening.Values && (d in descClosed ==> desc2conn[d].state.Closed?)
    {
    }

    lemma AtPort(p: U16)
      requires Valid() && p in listening
      ensures listening[p] in listening.Values && listening[p] !in desc2conn
    {
    }

    /** The user's `close`. */
    method Close(desc: int)
      requires Valid()
      modifies this`descSet, this`listening, this`desc2conn, this`addr2conn, this`desc2event, this`descClosed, this`retired
      modifies desc2conn.Values
      ensures Valid() && desc2conn.Keys <= old(desc2conn.Keys) && desc2conn.Values <= old(desc2conn.Values)
      ensures forall d :: d in desc2conn ==> desc2conn[d] == old(desc2conn[d])
      ensures desc in old(listening.Values) ==> listening.Values == old(listening.Values) - {desc}
      ensures desc !in old(listening.Values) ==> listening == old(listening)
      ensures Table() == AfterClose(old(Table()), desc, isInvoke)
      ensures descClosed == if isInvoke && DefersIn(old(Table()), desc) then old(descClosed) + {desc} else old(descClosed)
    {
      hide Valid;
      hide Table;
      TableKeys();
      if p :| p in listening && listening[p] == desc {
        AtPort(p);
        CloseListener(p);
        return;
      }
      if desc !in desc2conn {
        return;
      }
      AtDesc(desc);
      var c := desc2conn[desc];
      match c.state
      case Open => SetState(c, CloseWaitActive, true);
      case CloseWaitPasv => SetState(c, CloseWaitPasv, true);
      case Closed => ForgetOrDefer(c);
      case SynSent =>
        SetState(c, Closed, c.isClosed);
        ForgetOrDefer(c);
      case SynRcvd =>
        SetState(c, Closed, c.isClosed);
        ForgetOrDefer(c);
      case _ =>
    }

    lemma TableKeys()
      ensures Table().Keys == desc2conn.Keys
      ensures forall d :: d in desc2conn ==> Table()[d] == EntryOf(d)
    {
    }

    // ---- callbacks ---------------------------------------------------------------------------

    /** One call from user code.  Connections that opened stay; during a callback every connection does. */
    method Perform(call: Call)
      requires Valid()
      modifies this`descSet, this`listening, this`desc2conn, this`addr2conn, this`desc2event, this`descClosed, this`retired
      modifies desc2conn.Values
      ensures Valid() && fresh(desc2conn.Values - old(desc2conn.Values))
      ensures forall d :: d in old(desc2conn) && d in desc2conn ==> desc2conn[d] == old(desc2conn[d])
      ensures Kept(old(Table()), Table(), isInvoke, call)
      ensures old(descClosed) <= descClosed <= old(descClosed) + if call.Closes? then {call.desc} else {}
      ensures isInvoke && call.Closes? && DefersIn(old(Table()), call.desc) ==> call.desc in descClosed
    {
      hide Valid;
      hide Table;
      TableKeys();
      match call
      case Closes(desc) => Close(desc);
      case Listens(sport) => var _ := Listen(sport);
      case Connects(sport, did, dport) => var _ := Connect(sport, did, dport);
    }

    /** The body of a callback. */
    method Callback(calls: seq<Call>)
      requires Valid()
      modifies this`descSet, this`listening, this`desc2conn, this`addr2conn, this`desc2event, this`descClosed, this`retired
      modifies desc2conn.Values
      ensures Valid() && fresh(desc2conn.Values - old(desc2conn.Values))
      ensures AllKept(old(Table()), Table(), isInvoke, calls) && (isInvoke ==> PutAside(old(Table()), descClosed, calls))
      ensures old(descClosed) <= descClosed <= old(descClosed) + Targets(calls)
    {
      hide Valid;
      hide Table;
      hide PutAside;
      hide AllKept;
      hide Kept;
      hide Targets;
      ghost var was := Table();
      NothingDone(was, isInvoke);
      assert calls[..0] == [];
      for i := 0 to |calls|
        invariant Valid() && fresh(desc2conn.Values - old(desc2conn.Values))
        invariant AllKept(was, Table(), isInvoke, calls[..i])
        invariant isInvoke ==> PutAside(was, descClosed, calls[..i])
        invariant old(descClosed) <= descClosed <= old(descClosed) + Targets(calls[..i])
      {
        ghost var mid, before := Table(), descClosed;
        Perform(calls[i]);
        KeptOneMore(was, mid, Table(), isInvoke, calls[..i], calls[i]);
        if isInvoke {
          AsideOneMore(was, mid, before, descClosed, calls[..i], calls[i]);
        }
        TargetsSnoc(calls[..i], calls[i]);
        assert calls[..i + 1] == calls[..i] + [calls[i]];
      }
      assert calls[..|calls|] == calls;
    }

    /** The callback has returned: no close is deferred any more. */
    method TakeDeferred() returns (todo: set<int>)
      requires Valid()
      modifies this`descClosed, this`isInvoke
      ensures Valid() && !isInvoke && todo == old(descClosed)
      ensures forall d :: d in todo ==> d in Table() && Table()[d].state.Closed?
    {
      todo := descClosed;
      isInvoke, descClosed := false, {};
    }

    /** After a callback: what it left to be removed goes now. */
    method RemoveDeferred()
      requires Valid()
      modifies this`descSet, this`listening, this`desc2conn, this`addr2conn, this`desc2event, this`descClosed, this`retired
      modifies this`isInvoke, desc2conn.Values
      ensures Valid() && !isInvoke && desc2conn.Values <= old(desc2conn.Values)
      ensures Table() == old(Table()) - old(descClosed)
    {
      hide Valid;
      hide Table;
      ghost var was := Table();
      var todo := TakeDeferred();
      ghost var left := todo;
      assert was - (left - todo) == was;
      while exists d :: d in todo
        invariant Valid() && !isInvoke && desc2conn.Values <= old(desc2conn.Values)
        invariant todo <= left && Table() == was - (left - todo)
        invariant forall d :: d in left ==> d in was && was[d].state.Closed?
        decreases |todo|
      {
        var d :| d in todo;
        Close(d);
        assert was - (left - todo) - {d} == was - (left - (todo - {d}));
        todo := todo - {d};
      }
      assert todo == {};
      assert left - todo == left;
    }

    /** An event for one connection: user code runs, and what it closed for good is removed when it returns. */
    method InvokeEvent(desc: int, calls: seq<Call>)
      requires Valid() && !isInvoke
      modifies this, desc2conn.Values
      ensures Valid() && !isInvoke && fresh(desc2conn.Values - old(desc2conn.Values))
      ensures desc in old(desc2event) ==> AfterEvent(old(Table()), Table(), calls)
      ensures desc !in old(desc2event) ==> Table() == old(Table())
    {
      hide Valid;
      hide Table;
      hide AllKept;
      hide AfterEvent;
      if desc !in desc2event {
        return;
      }
      ghost var was := Table();
      BeginCallback();
      Callback(calls);
      ghost var mid := Table();
      DeferredAreClosed();
      EventDone(was, mid, descClosed, calls);
      RemoveDeferred();
    }

    method BeginCallback()
      requires Valid() && !isInvoke
      modifies this`isInvoke
      ensures Valid() && isInvoke && descClosed == {}
    {
      isInvoke := true;
    }

    lemma DeferredAreClosed()
      requires Valid()
      ensures forall d :: d in descClosed ==> d in Table() && Table()[d].state.Closed?
    {
    }

    /** A connection has been accepted: the listener's callback runs and becomes the connection's own, unless it set another. */
    method InvokeAccepted(listener: int, desc: int, calls: seq<Call>)
      requires Valid() && !isInvoke && desc in Table() && !Ends(Table()[desc].state)
      modifies this`descSet, this`listening, this`desc2conn, this`addr2conn, this`desc2event, this`descClosed, this`retired
      modifies desc2conn.Values
      ensures Valid() && fresh(desc2conn.Values - old(desc2conn.Values))
      ensures listener in old(desc2event) ==> AllKept(old(Table()), Table(), false, calls)
      ensures listener !in old(desc2event) ==> Table() == old(Table())
    {
      hide Valid;
      hide Table;
      if listener !in desc2event {
        return;
      }
      ghost var was := Table();
      Callback(calls);
      assert desc in Table();
      TableKeys();
      AddEvent(desc);
    }

    method AddEvent(desc: int)
      requires Valid() && desc in desc2conn
      modifies this`desc2event
      ensures Valid()
    {
      desc2event := desc2event + {desc};
    }

    lemma AtAddr(a: RdpAddr)
      requires Valid() && a in addr2conn
      ensures Registered(addr2conn[a]) && addr2conn[a] in desc2conn.Values && addr2conn[a].addr == a
      ensures addr2conn[a].desc in Table() && Table()[addr2conn[a].desc] == Entry(a, addr2conn[a].pasv, addr2conn[a].state, addr2conn[a].isClosed)
      ensures !isInvoke ==> descClosed == {}
    {
    }

    // ---- segments and timers ---------------------------------------------------------------------

    /** A segment arrives for a known connection and leaves it in state `next`; `accepts` and `calls` is what user code does meanwhile. */
    method Arrive(addr: RdpAddr, next: State, accepts: seq<Call>, calls: seq<Call>)
      requires Valid() && !isInvoke && addr in addr2conn
      requires MayMove(addr2conn[addr].state, addr2conn[addr].pasv, addr.sport in listening, next)
      modifies this, desc2conn.Values
      ensures Valid() && !isInvoke && fresh(desc2conn.Values - old(desc2conn.Values))
      ensures Settled(old(Table()), Table(), old(addr2conn[addr].desc), next, Targets(accepts) + Targets(calls))
    {
      hide Valid;
      hide Table;
      hide AllKept;
      hide AfterEvent;
      hide Settled;
      AtAddr(addr);
      ghost var was := Table();
      var c := addr2conn[addr];
      var s := c.state;
      if s.Closed? || s.CloseWaitActive? || s.CloseWaitPasv? || s.Listen? {
        SettledQuietly(was, was, c.desc, next, accepts, calls);
      } else if s.SynRcvd? && next.Closed? && c.pasv {
        Forget(c);
        SettledQuietly(was, Table(), c.desc, next, accepts, calls);
      } else if s.SynRcvd? && next.CloseWaitActive? {
        SetState(c, Open, c.isClosed);
        Close(c.desc);
        SettledQuietly(was, Table(), c.desc, next, accepts, calls);
      } else {
        SetState(c, next, c.isClosed);
        ghost var mid := Table();
        if s.SynRcvd? && next.Open? && c.pasv {
          InvokeAccepted(listening[addr.sport], c.desc, accepts);
        }
        ghost var mid2 := Table();
        if !next.SynRcvd? && (next != s || s.Open?) {
          InvokeEvent(c.desc, calls);
        }
        SettledByEvents(was, mid, mid2, Table(), c.desc, next, accepts, calls);
      }
    }

    /** A segment arrives from an address without a connection: a listener answers a SYN with a new passive one. */
    method ArriveNew(addr: RdpAddr, isSyn: bool) returns (desc: int)
      requires Valid() && addr !in addr2conn
      modifies this`descSet, this`desc2conn, this`addr2conn, this`desc2event
      ensures Valid() && (desc > 0 <==> isSyn && addr.sport in listening) && fresh(desc2conn.Values - old(desc2conn.Values))
      ensures desc > 0 ==> desc !in old(Table()) && Table() == old(Table())[desc := Entry(addr, true, SynRcvd, false)]
      ensures desc <= 0 ==> Table() == old(Table())
    {
      hide Valid;
      hide Table;
      desc := 0;
      if addr.sport in listening && isSyn {
        TableKeys();
        desc := Create(addr, true, SynRcvd, false);
      }
    }

    /**
     The timer looks at one connection.  `expired`: it has waited too long to open or to finish closing, or a
     segment has gone unacknowledged too often.
     */
    method Tick(desc: int, expired: bool, calls: seq<Call>)
      requires Valid() && !isInvoke && desc in desc2conn
      modifies this, desc2conn.Values
      ensures Valid() && !isInvoke && fresh(desc2conn.Values - old(desc2conn.Values))
      ensures TickedOff(old(Table()), Table(), desc, expired, Targets(calls))
    {
      hide Valid;
      hide Table;
      hide AfterEvent;
      TableKeys();
      AtDesc(desc);
      NoneDeferred();
      ghost var was := Table();
      var c := desc2conn[desc];
      if !expired {
        return;
      }
      match c.state
      case SynSent =>
        SetState(c, Closed, c.isClosed);
        ghost var mid := Table();
        InvokeEvent(desc, calls);
        TickEvent(was, mid, Table(), desc, calls);
      case SynRcvd =>
        if c.pasv {
          Forget(c);
        } else {
          SetState(c, Closed, c.isClosed);
          ghost var mid := Table();
          InvokeEvent(desc, calls);
          TickEvent(was, mid, Table(), desc, calls);
        }
      case Open =>
        SetState(c, Closed, c.isClosed);
        ghost var mid := Table();
        InvokeEvent(desc, calls);
        TickEvent(was, mid, Table(), desc, calls);
      case Closed =>
      case Listen =>
      case _ =>
        if c.isClosed {
          Forget(c);
        } else {
          SetState(c, Closed, false);
        }
    }

    lemma NoneDeferred()
      requires Valid() && !isInvoke
      ensures descClosed == {}
    {
    }

    // ---- whole runs ---------------------------------------------------------------------------------

    ghost function Snapshot(): (r: Snap)
      reads this`desc2conn, this`listening, desc2conn.Values
    {
      Snap(Table(), listening)
    }

    /** One event: a call, a segment for some connection or none, or the timer at one connection. */
    method Handle(e: Event)
      requires Valid() && !isInvoke
      modifies this, desc2conn.Values
      ensures Valid() && !isInvoke && fresh(desc2conn.Values - old(desc2conn.Values))
      ensures Distinct(Table()) && Handled(old(Snapshot()), Table(), e)
    {
      hide Valid;
      hide Table;
      hide Kept;
      hide Settled;
      hide TickedOff;
      TableKeys();
      OneToOne();
      match e {
        case Called(call) =>
          Perform(call);
        case Arrived(addr, isSyn, next, accepts, calls) =>
          if addr !in addr2conn {
            var _ := ArriveNew(addr, isSyn);
          } else {
            AtAddr(addr);
            if MayMove(addr2conn[addr].state, addr2conn[addr].pasv, addr.sport in listening, next) {
              Arrive(addr, next, accepts, calls);
            }
          }
        case Ticked(desc, expired, calls) =>
          if desc in desc2conn {
            Tick(desc, expired, calls);
          }
      }
      OneToOne();
    }

    /** Any sequence of events; `trace` is what the tables held before, between and after them. */
    method HandleAll(events: seq<Event>) returns (ghost trace: seq<Snap>)
      requires Valid() && !isInvoke
      modifies this, desc2conn.Values
      ensures Valid() && !isInvoke && fresh(desc2conn.Values - old(desc2conn.Values))
      ensures IsTrace(trace, events) && trace[0] == old(Snapshot()) && trace[|events|] == Snapshot()
    {
      hide Valid;
      hide Table;
      hide Handled;
      hide Distinct;
      OneToOneDistinct();
      trace := [Snapshot()];
      for i := 0 to |events|
        invariant Valid() && !isInvoke && fresh(desc2conn.Values - old(desc2conn.Values))
        invariant |trace| == i + 1 && trace[0] == old(Snapshot()) && trace[i] == Snapshot()
        invariant forall k :: 0 <= k <= i ==> Distinct(trace[k].conns)
        invariant forall k :: 0 <= k < i ==> Handled(trace[k], trace[k + 1].conns, events[k])
      {
        Handle(events[i]);
        trace := trace + [Snapshot()];
      }
    }

    lemma OneToOneDistinct()
      requires Valid()
      ensures Distinct(Table())
    {
      OneToOne();
    }

    /** The two tables name the same connections: one address for each descriptor and one descriptor for each address. */
    lemma OneToOne()
      requires Valid()
      ensures forall d :: d in Table() ==> Table()[d].addr in addr2conn && addr2conn[Table()[d].addr] == desc2conn[d]
      ensures forall d, e :: d in Table() && e in Table() && Table()[d].addr == Table()[e].addr ==> d == e
      ensures forall a :: a in addr2conn ==> exists d :: d in Table() && Table()[d].addr == a
    {
      forall a | a in addr2conn ensures exists d :: d in Table() && Table()[d].addr == a {
        assert Table()[addr2conn[a].desc].addr == a;
      }
    }

    /** Every descriptor in use is accounted for; those of closed listeners are never given back. */
    lemma DescriptorsCounted()
      requires Valid()
      ensures |descSet| == |desc2conn| + |listening| + |retired|
    {
      assert descSet == desc2conn.Keys + listening.Values + retired;
      PortsDistinct(listening);
    }
  }

  lemma {:induction false} PortsDistinct(m: map<U16, int>)
    requires forall p, q :: p in m && q in m && m[p] == m[q] ==> p == q
    ensures |m.Values| == |m|
    decreases |m|
  {
    if p :| p in m {
      ValuesWithout(m, p);
      assert m.Values == (m - {p}).Values + {m[p]};
      assert m.Keys == (m - {p}).Keys + {p};
      PortsDistinct(m - {p});
    } else {
      assert m == map[];
    }
  }

  /** What the timer leaves of the connections. */
  ghost predicate TickedOff(was: map<int, Entry>, now: map<int, Entry>, desc: int, expired: bool, targets: set<int>)
    requires desc in was
  {
    var e := was[desc];
    && (forall d :: d in was && d != desc && d !in targets ==> d in now && now[d] == was[d])
    && (desc !in targets ==>
          if !expired || e.state.Closed? || e.state.Listen? then desc in now && now[desc] == e
          else if (e.state.SynRcvd? && e.pasv) || (!e.state.Open? && !Ends(e.state) && e.isClosed) then desc !in now
          else desc in now && now[desc] == e.(state := Closed))
  }

  lemma TickEvent(was: map<int, Entry>, mid: map<int, Entry>, now: map<int, Entry>, desc: int, calls: seq<Call>)
    requires desc in was && mid == was[desc := was[desc].(state := Closed)]
    requires was[desc].state.SynSent? || was[desc].state.Open? || (was[desc].state.SynRcvd? && !was[desc].pasv)
    requires now == mid || AfterEvent(mid, now, calls)
    ensures TickedOff(was, now, desc, true, Targets(calls))
  {
  }

  /** What a segment makes of its connection; one that lost its listener counts as closed by the user. */
  function Moved(e: Entry, next: State): Entry {
    e.(state := next, isClosed := e.isClosed || (e.state.SynRcvd? && next.CloseWaitActive?))
  }

  /** The connection `desc` ends up in state `next`, or is gone if it was never accepted; the others stay, but for those user code closed. */
  ghost predicate Settled(was: map<int, Entry>, now: map<int, Entry>, desc: int, next: State, targets: set<int>) {
    && (forall d :: d in was && d != desc && d !in targets ==> d in now && now[d] == was[d])
    && (desc in was && desc !in targets ==>
          if was[desc].state.SynRcvd? && next.Closed? && was[desc].pasv then desc !in now
          else desc in now && now[desc] == Moved(was[desc], next))
  }

  lemma SettledQuietly(was: map<int, Entry>, now: map<int, Entry>, desc: int, next: State, accepts: seq<Call>, calls: seq<Call>)
    requires desc in was
    requires forall d :: d in was && d != desc ==> d in now && now[d] == was[d]
    requires if was[desc].state.SynRcvd? && next.Closed? && was[desc].pasv then desc !in now
             else desc in now && now[desc] == Moved(was[desc], next)
    ensures Settled(was, now, desc, next, Targets(accepts) + Targets(calls))
  {
  }

  lemma SettledByEvents(was: map<int, Entry>, mid: map<int, Entry>, mid2: map<int, Entry>, now: map<int, Entry>,
                        desc: int, next: State, accepts: seq<Call>, calls: seq<Call>)
    requires desc in was && mid == was[desc := was[desc].(state := next)]
    requires was[desc].state.SynRcvd? ==> !next.CloseWaitActive? && !(next.Closed? && was[desc].pasv)
    requires mid2 == mid || AllKept(mid, mid2, false, accepts)
    requires now == mid2 || AfterEvent(mid2, now, calls)
    ensures Settled(was, now, desc, next, Targets(accepts) + Targets(calls))
  {
  }

  /** What an event leaves of the connections there were: those closed by name that never opened are gone. */
  ghost predicate AfterEvent(was: map<int, Entry>, now: map<int, Entry>, calls: seq<Call>) {
    forall d :: d in was ==>
      if d !in Targets(calls) then d in now && now[d] == was[d]
      else if Ends(was[d].state) then d !in now
      else d in now && now[d] == Closing(was[d])
  }

  /** Every connection that ends under `close` was put aside while the callback ran. */
  ghost predicate PutAside(was: map<int, Entry>, deferred: set<int>, calls: seq<Call>) {
    forall d :: d in was && d in Targets(calls) && Ends(was[d].state) ==> d in deferred
  }

  lemma EventDone(was: map<int, Entry>, mid: map<int, Entry>, deferred: set<int>, calls: seq<Call>)
    requires AllKept(was, mid, true, calls) && PutAside(was, deferred, calls) && deferred <= Targets(calls)
    requires forall d :: d in deferred ==> d in mid && mid[d].state.Closed?
    ensures AfterEvent(was, mid - deferred, calls)
  {
    forall d | d in was && d in Targets(calls) && !Ends(was[d].state) ensures d !in deferred {
      ClosingAgain(was[d]);
      assert mid[d] == Closing(was[d]);
    }
  }

  lemma AsideOneMore(was: map<int, Entry>, mid: map<int, Entry>, before: set<int>, after: set<int>, calls: seq<Call>, call: Call)
    requires AllKept(was, mid, true, calls) && PutAside(was, before, calls) && before <= after
    requires call.Closes? && DefersIn(mid, call.desc) ==> call.desc in after
    ensures PutAside(was, after, calls + [call])
  {
    TargetsSnoc(calls, call);
    if call.Closes? && call.desc in was {
      ClosingAgain(was[call.desc]);
    }
  }

  lemma NothingDone(was: map<int, Entry>, inCallback: bool)
    ensures AllKept(was, was, inCallback, []) && Targets([]) == {} && PutAside(was, {}, [])
    ensures forall s: set<int> :: PutAside(was, s, [])
  {
  }

  // ---- runs of the tables ----------------------------------------------------------------------------

  datatype Snap = Snap(conns: map<int, Entry>, listening: map<U16, int>)

  datatype Event =
    | Called(call: Call)
    | Arrived(addr: RdpAddr, isSyn: bool, next: State, accepts: seq<Call>, calls: seq<Call>)
    | Ticked(desc: int, expired: bool, calls: seq<Call>)

  /** No two descriptors share an address. */
  ghost predicate Distinct(conns: map<int, Entry>) {
    forall d, e :: d in conns && e in conns && conns[d].addr == conns[e].addr ==> d == e
  }

  /** What an event leaves of the connections. */
  ghost predicate Handled(was: Snap, now: map<int, Entry>, e: Event) {
    match e
    case Called(call) => Kept(was.conns, now, false, call)
    case Arrived(addr, isSyn, next, accepts, calls) =>
      && (forall d :: d in was.conns && was.conns[d].addr == addr ==>
            if MayMove(was.conns[d].state, was.conns[d].pasv, addr.sport in was.listening, next)
            then Settled(was.conns, now, d, next, Targets(accepts) + Targets(calls))
            else now == was.conns)
      && ((forall d :: d in was.conns ==> was.conns[d].addr != addr) ==>
            if isSyn && addr.sport in was.listening
            then exists d :: d !in was.conns && d > 0 && now == was.conns[d := Entry(addr, true, SynRcvd, false)]
            else now == was.conns)
    case Ticked(desc, expired, calls) =>
      if desc in was.conns then TickedOff(was.conns, now, desc, expired, Targets(calls)) else now == was.conns
  }

  ghost predicate IsTrace(trace: seq<Snap>, events: seq<Event>) {
    && |trace| == |events| + 1
    && (forall k :: 0 <= k <= |events| ==> Distinct(trace[k].conns))
    && (forall k :: 0 <= k < |events| ==> Handled(trace[k], trace[k + 1].conns, events[k]))
  }

  /** Descriptors closed by name in an event. */
  function ClosedBy(e: Event): set<int> {
    match e
    case Called(call) => Targets([call])
    case Arrived(_, _, _, accepts, calls) => Targets(accepts) + Targets(calls)
    case Ticked(_, _, calls) => Targets(calls)
  }

  /** Whether an event is a segment or a timer of this connection. */
  predicate Concerns(e: Event, d: int, addr: RdpAddr) {
    (e.Arrived? && e.addr == addr) || (e.Ticked? && e.desc == d)
  }

  lemma OthersUntouched(was: Snap, now: map<int, Entry>, e: Event, d: int)
    requires Handled(was, now, e) && d in was.conns && d !in ClosedBy(e) && !Concerns(e, d, was.conns[d].addr)
    ensures d in now && now[d] == was.conns[d]
  {
    if e.Called? {
      TargetsSnoc([], e.call);
      assert [] + [e.call] == [e.call];
    }
  }

  /** Over any run, a connection is the same as before unless a segment or timer of its own came or it was closed by name. */
  lemma {:induction false} NoCrossTalk(trace: seq<Snap>, events: seq<Event>, d: int)
    requires IsTrace(trace, events) && d in trace[0].conns
    requires forall e :: e in events ==> d !in ClosedBy(e) && !Concerns(e, d, trace[0].conns[d].addr)
    ensures d in trace[|events|].conns && trace[|events|].conns[d] == trace[0].conns[d]
  {
    hide Handled;
    hide Distinct;
    if events != [] {
      assert events[0] in events;
      OthersUntouched(trace[0], trace[1].conns, events[0], d);
      NoCrossTalk(trace[1..], events[1..], d);
    }
  }

  /** A connection closed by its user is gone at once, or when the timer next finds its time up. */
  lemma ClosedIsGone(was: map<int, Entry>, mid: map<int, Entry>, now: map<int, Entry>, d: int, calls: seq<Call>)
    requires d in was && !was[d].state.Listen? && (was[d].state.CloseWaitActive? ==> was[d].isClosed)
    requires Kept(was, mid, false, Closes(d)) && d !in Targets(calls)
    requires d in mid ==> TickedOff(mid, now, d, true, Targets(calls))
    ensures d !in mid || d !in now
    ensures d in mid <==> was[d].state.Open? || was[d].state.CloseWaitPasv? || was[d].state.CloseWaitActive?
  {
  }

  /** The user knows of the connection and has not closed it. */
  predicate Owned(e: Entry) {
    !e.isClosed && (e.pasv ==> !e.state.SynSent? && !e.state.SynRcvd?)
  }

  lemma OwnedStays(was: Snap, now: map<int, Entry>, e: Event, d: int)
    requires Distinct(was.conns) && Handled(was, now, e) && d in was.conns && d !in ClosedBy(e) && Owned(was.conns[d])
    ensures d in now && now[d].addr == was.conns[d].addr && now[d].pasv == was.conns[d].pasv && Owned(now[d])
  {
    if !Concerns(e, d, was.conns[d].addr) {
      OthersUntouched(was, now, e, d);
    }
  }

  /** Over any run, a connection the user has keeps its descriptor and address until the user closes it, whatever the peer and the timers do. */
  lemma {:induction false} KeptUntilClosed(trace: seq<Snap>, events: seq<Event>, d: int)
    requires IsTrace(trace, events) && d in trace[0].conns && Owned(trace[0].conns[d])
    requires forall e :: e in events ==> d !in ClosedBy(e)
    ensures d in trace[|events|].conns && Owned(trace[|events|].conns[d])
    ensures trace[|events|].conns[d].addr == trace[0].conns[d].addr
  {
    hide Handled;
    hide Distinct;
    hide Owned;
    if events != [] {
      assert events[0] in events;
      OwnedStays(trace[0], trace[1].conns, events[0], d);
      KeptUntilClosed(trace[1..], events[1..], d);
    }
  }
}
