/** The Kademlia routing table: buckets by highest differing bit, look-up of the nearest contacts, eviction by ping. */
module RoutingTable {
  import opened Ids
  import opened Nearest

  const MAX_ENTRY: int := 20

  type Table = map<int, seq<Addr>>

  /** A ping in flight: if `incumbent` does not answer in time, `candidate` takes its place in row `row`. */
  datatype Ping = Ping(incumbent: Addr, candidate: Addr, row: int)

  // ---- groups: the rows, and the table's owner as group -1 ----------------------

  function SelfAddr(self: Id): Addr {
    Addr(self, Loopback, 0, 0)
  }

  function Group(self: Id, table: Table, i: int): seq<Addr> {
    if i == -1 then [SelfAddr(self)] else if i in table then table[i] else []
  }

  ghost predicate RowOk(self: Id, row: seq<Addr>, i: int) {
    && 0 <= i < BITS && 0 < |row| <= MAX_ENTRY && DistinctIds(row)
    && (forall a :: a in row ==> TopDiff(self, a.id) == i)
  }

  ghost predicate RowsOk(self: Id, table: Table) {
    forall i :: i in table ==> RowOk(self, table[i], i)
  }

  /** The contacts of the groups in `sel` between `lo` and `hi`. */
  function Collect(self: Id, table: Table, sel: set<int>, lo: int, hi: int): (r: seq<Addr>)
    decreases hi - lo
  {
    if lo >= hi then []
    else (if lo in sel then Group(self, table, lo) else []) + Collect(self, table, sel, lo + 1, hi)
  }

  function Gather(self: Id, table: Table, sel: set<int>): seq<Addr> {
    Collect(self, table, sel, -1, BITS)
  }

  function AllGroups(table: Table): set<int> {
    {-1} + table.Keys
  }

  lemma GroupMembers(self: Id, table: Table, i: int, a: Addr)
    requires RowsOk(self, table) && a in Group(self, table, i)
    ensures TopDiff(self, a.id) == i
  {
    SameIsZero(self, self);
  }

  lemma {:induction false} CollectMembers(self: Id, table: Table, sel: set<int>, lo: int, hi: int, a: Addr)
    requires RowsOk(self, table)
    ensures a in Collect(self, table, sel, lo, hi) <==>
              var g := TopDiff(self, a.id); lo <= g < hi && g in sel && a in Group(self, table, g)
    decreases hi - lo
  {
    if lo < hi {
      CollectMembers(self, table, sel, lo + 1, hi, a);
      if a in Group(self, table, lo) {
        GroupMembers(self, table, lo, a);
      }
    }
  }

  lemma {:induction false} CollectDistinct(self: Id, table: Table, sel: set<int>, lo: int, hi: int)
    requires RowsOk(self, table)
    ensures DistinctIds(Collect(self, table, sel, lo, hi))
    decreases hi - lo
  {
    if lo < hi {
      CollectDistinct(self, table, sel, lo + 1, hi);
      var g := if lo in sel then Group(self, table, lo) else [];
      var rest := Collect(self, table, sel, lo + 1, hi);
      assert lo in table ==> RowOk(self, table[lo], lo);
      forall a, b | a in g && b in rest ensures a.id != b.id {
        GroupMembers(self, table, lo, a);
        CollectMembers(self, table, sel, lo + 1, hi, b);
      }
      DistinctConcat(g, rest);
    }
  }

  lemma DistinctConcat(g: seq<Addr>, rest: seq<Addr>)
    requires DistinctIds(g) && DistinctIds(rest) && forall a, b :: a in g && b in rest ==> a.id != b.id
    ensures DistinctIds(g + rest)
  {
    var s := g + rest;
    forall i, j | 0 <= i < j < |s| ensures s[i].id != s[j].id {
      if i < |g| <= j {
        assert s[i] in g && s[j] in rest;
      }
    }
  }

  lemma {:induction false} CollectGrows(self: Id, table: Table, sel: set<int>, i: int, lo: int, hi: int)
    requires i !in sel
    ensures |Collect(self, table, sel + {i}, lo, hi)| ==
            |Collect(self, table, sel, lo, hi)| + (if lo <= i < hi then |Group(self, table, i)| else 0)
    decreases hi - lo
  {
    if lo < hi {
      CollectGrows(self, table, sel, i, lo + 1, hi);
    }
  }

  lemma {:induction false} CollectNothing(self: Id, table: Table, lo: int, hi: int)
    ensures Collect(self, table, {}, lo, hi) == []
    decreases hi - lo
  {
    if lo < hi {
      CollectNothing(self, table, lo + 1, hi);
    }
  }

  // ---- the order of groups -------------------------------------------------------

  /** Seen from the target, group `g` lies before group `h`; `d` is the owner's distance to the target. */
  predicate Before(d: Id, g: int, h: int)
    requires -1 <= g < BITS && -1 <= h < BITS
  {
    g != h && (if g > h then d[g] else !d[h])
  }

  /** Every contact of an earlier group is nearer than every contact of a later one. */
  lemma GroupsInOrder(self: Id, t: Id, x: Id, y: Id)
    requires var g, h := TopDiff(self, x), TopDiff(self, y); Before(Xor(self, t), g, h)
    ensures Closer(t, x, y)
  {
    var g, h := TopDiff(self, x), TopDiff(self, y);
    var k := if g > h then g else h;
    TopAfter(self, x, g);
    TopAfter(self, y, h);
    assert g >= 0 ==> Xor(self, x)[g];
    assert h >= 0 ==> Xor(self, y)[h];
    TopDiffIs(x, y, k);
    CloserBit(t, x, y);
    assert Xor(t, y)[k] == (t[k] != y[k]);
    assert Xor(self, t)[k] == (self[k] != t[k]);
  }

  /** A choice of groups that leaves out only later ones. */
  ghost predicate FirstGroups(table: Table, d: Id, sel: set<int>) {
    && sel <= AllGroups(table)
    && (forall g, h :: g in sel && h in AllGroups(table) - sel && -1 <= g < BITS && -1 <= h < BITS ==> Before(d, g, h))
  }

  /** The specification: every contact and the owner, sorted by distance, the first `num`. */
  function NearestContacts(self: Id, table: Table, t: Id, num: int): seq<Addr> {
    Take(SortBy(t, Gather(self, table, AllGroups(table))), num)
  }

  lemma GatherSplits(self: Id, table: Table, sel: set<int>)
    requires RowsOk(self, table) && sel <= AllGroups(table)
    ensures ToSet(Gather(self, table, AllGroups(table))) ==
            ToSet(Gather(self, table, sel)) + ToSet(Gather(self, table, AllGroups(table) - sel))
  {
    var all := AllGroups(table);
    forall a: Addr
      ensures a in Gather(self, table, all) <==> a in Gather(self, table, sel) || a in Gather(self, table, all - sel)
    {
      CollectMembers(self, table, all, -1, BITS, a);
      CollectMembers(self, table, sel, -1, BITS, a);
      CollectMembers(self, table, all - sel, -1, BITS, a);
    }
  }

  lemma FirstGroupsSuffice(self: Id, table: Table, t: Id, sel: set<int>, num: int)
    requires RowsOk(self, table) && FirstGroups(table, Xor(self, t), sel)
    requires num <= |Gather(self, table, sel)| || sel == AllGroups(table)
    ensures NearestContacts(self, table, t, num) == Take(SortBy(t, Gather(self, table, sel)), num)
  {
    var all := AllGroups(table);
    var chosen, rest := Gather(self, table, sel), Gather(self, table, all - sel);
    CollectDistinct(self, table, all, -1, BITS);
    CollectDistinct(self, table, sel, -1, BITS);
    CollectDistinct(self, table, all - sel, -1, BITS);
    GatherSplits(self, table, sel);
    forall a, b | a in chosen && b in rest ensures Closer(t, a.id, b.id) {
      CollectMembers(self, table, sel, -1, BITS, a);
      CollectMembers(self, table, all - sel, -1, BITS, b);
      GroupsInOrder(self, t, a.id, b.id);
    }
    if sel == all {
      assert all - sel == {};
      CollectNothing(self, table, -1, BITS);
    }
    ChosenNearest(t, Gather(self, table, all), chosen, rest, num);
  }

  /** The set-bit rows from bit `c` up leave out only later groups; so do they all together with the owner. */
  lemma HighGroupsFirst(table: Table, d: Id, c: nat, sel: set<int>)
    requires forall i :: i in table ==> 0 <= i < BITS
    requires c <= BITS && sel == (set i | i in table && i >= c && d[i])
    ensures FirstGroups(table, d, sel)
    ensures (forall j :: 0 <= j < c ==> !d[j]) ==>
              sel + {-1} == {-1} + (set i | i in table && d[i]) && FirstGroups(table, d, sel + {-1})
  {
  }

  lemma LowGroupsNext(table: Table, d: Id, c: nat, sel: set<int>)
    requires forall i :: i in table ==> 0 <= i < BITS
    requires c <= BITS && sel == {-1} + (set i | i in table && (d[i] || i < c))
    ensures FirstGroups(table, d, sel)
  {
  }

  lemma CollectUnrolls(self: Id, table: Table, sel: set<int>, lo: int, ret: seq<Addr>)
    requires lo < BITS
    ensures ret + Collect(self, table, sel, lo, BITS) ==
            (if lo in sel then ret + Group(self, table, lo) else ret) + Collect(self, table, sel, lo + 1, BITS)
  {
  }

  lemma CollectEnds(self: Id, table: Table, sel: set<int>)
    ensures Collect(self, table, sel, BITS, BITS) == []
  {
  }

  lemma TakeAfterPop(xs: seq<Addr>, num: nat)
    requires |xs| > num
    ensures Take(xs[..|xs| - 1], num) == Take(xs, num)
  {
  }

  // ---- the table in place ------------------------------------------------------------

  /** Every row in order, and `nodes` exactly the set of stored identifiers. */
  ghost predicate StoreOk(self: Id, table: Table, nodes: set<Id>) {
    && RowsOk(self, table)
    && (forall x :: x in nodes <==> TopDiff(self, x) in table && x in IdsOf(table[TopDiff(self, x)]))
  }

  ghost predicate PingOk(self: Id, table: Table, nodes: set<Id>, p: Ping) {
    && p.row in table && |table[p.row]| == MAX_ENTRY && table[p.row][0] == p.incumbent
    && TopDiff(self, p.candidate.id) == p.row && p.candidate.id !in nodes
  }

  ghost predicate RowPinged(wait: map<nat, Ping>, i: int) {
    exists n :: n in wait && wait[n].row == i
  }

  /** At most one ping per row, each on a full row, about its front entry; `send` lists the rows. */
  ghost predicate PingsOk(self: Id, table: Table, nodes: set<Id>, wait: map<nat, Ping>, send: set<int>) {
    && (forall n :: n in wait ==> PingOk(self, table, nodes, wait[n]))
    && (forall m, n :: m in wait && n in wait && m != n ==> wait[m].row != wait[n].row)
    && (forall i :: i in send <==> RowPinged(wait, i))
  }

  /** A row without contacts is not kept. */
  function WithRow(table: Table, i: int, row: seq<Addr>): Table {
    if row == [] then table - {i} else table[i := row]
  }

  // ---- single changes to the table, as facts about values ---------------------------------

  /** Row `i` is replaced by `row`, whose identifiers differ from the old ones as `nodes'` differs from `nodes`. */
  lemma RowReplaced(self: Id, table: Table, nodes: set<Id>, i: int, row: seq<Addr>, nodes': set<Id>)
    requires StoreOk(self, table, nodes) && RowOk(self, row, i)
    requires forall x :: TopDiff(self, x) == i ==> (x in nodes' <==> x in IdsOf(row))
    requires forall x :: TopDiff(self, x) != i ==> (x in nodes' <==> x in nodes)
    ensures StoreOk(self, table[i := row], nodes')
  {
    hide TopDiff;
    hide RowOk;
  }

  lemma RowPushed(self: Id, row: seq<Addr>, i: int, a: Addr)
    requires 0 <= i < BITS && (row == [] || RowOk(self, row, i)) && |row| < MAX_ENTRY
    requires TopDiff(self, a.id) == i && a.id !in IdsOf(row)
    ensures RowOk(self, row + [a], i) && IdsOf(row + [a]) == IdsOf(row) + {a.id}
  {
    hide TopDiff;
    forall k | 0 <= k < |row| ensures row[k].id != a.id {
      assert row[k] in row;
    }
  }

  /** The front entry leaves and `last` joins at the end; `last` may be the front entry itself. */
  lemma RowRotated(self: Id, row: seq<Addr>, i: int, last: Addr)
    requires RowOk(self, row, i) && TopDiff(self, last.id) == i
    requires last == row[0] || last.id !in IdsOf(row)
    ensures RowOk(self, row[1..] + [last], i)
    ensures IdsOf(row[1..] + [last]) == IdsOf(row) - {row[0].id} + {last.id}
  {
    hide TopDiff;
    forall k | 1 <= k < |row| ensures row[k].id != last.id && row[k].id != row[0].id {
      assert row[k] in row;
    }
    forall x | x in IdsOf(row) && x != row[0].id ensures x in IdsOf(row[1..]) {
      var a :| a in row && a.id == x;
      var k :| 0 <= k < |row| && row[k] == a;
      assert row[1..][k - 1] == a;
    }
    forall a | a in row[1..] ensures a in row && a.id != row[0].id {
      var k :| 0 <= k < |row[1..]| && row[1..][k] == a;
      assert row[k + 1] == a;
    }
    IdsOfSnoc(row[1..], last);
  }

  lemma IdsOfSnoc(row: seq<Addr>, a: Addr)
    ensures IdsOf(row + [a]) == IdsOf(row) + {a.id}
  {
    assert a in row + [a];
    forall x | x in IdsOf(row) ensures x in IdsOf(row + [a]) {
      var b :| b in row && b.id == x;
      assert b in row + [a];
    }
  }

  lemma MembersWithout(row: seq<Addr>, k: nat, a: Addr)
    requires k < |row| && DistinctIds(row)
    ensures a in row[..k] + row[k + 1..] <==> a in row && a.id != row[k].id
  {
    if a in row && a.id != row[k].id {
      var l :| 0 <= l < |row| && row[l] == a;
      assert a in if l < k then row[..k] else row[k + 1..];
    }
  }

  lemma RowWithout(self: Id, row: seq<Addr>, i: int, k: nat)
    requires RowOk(self, row, i) && k < |row|
    ensures var row' := row[..k] + row[k + 1..];
            (row' != [] ==> RowOk(self, row', i)) && IdsOf(row') == IdsOf(row) - {row[k].id}
  {
    hide TopDiff;
    var row' := row[..k] + row[k + 1..];
    forall a: Addr ensures a in row' <==> a in row && a.id != row[k].id {
      MembersWithout(row, k, a);
    }
  }

  /** Pings on other rows are not affected by a change to row `i`. */
  lemma PingsElsewhere(self: Id, table: Table, nodes: set<Id>, wait: map<nat, Ping>, send: set<int>, i: int, table': Table, nodes': set<Id>)
    requires PingsOk(self, table, nodes, wait, send) && i !in send
    requires forall j :: j in table && j != i ==> j in table' && table'[j] == table[j]
    requires forall x :: TopDiff(self, x) != i ==> (x in nodes' <==> x in nodes)
    ensures PingsOk(self, table', nodes', wait, send)
  {
    hide TopDiff;
    forall n | n in wait ensures PingOk(self, table', nodes', wait[n]) {
      assert PingOk(self, table, nodes, wait[n]);
      assert RowPinged(wait, wait[n].row);
    }
  }

  lemma PingStarted(self: Id, table: Table, nodes: set<Id>, wait: map<nat, Ping>, send: set<int>, nonce: nat, p: Ping)
    requires PingsOk(self, table, nodes, wait, send) && nonce !in wait && p.row !in send && PingOk(self, table, nodes, p)
    ensures PingsOk(self, table, nodes, wait[nonce := p], send + {p.row})
  {
    hide PingOk;
    var wait' := wait[nonce := p];
    forall n | n in wait ensures wait[n].row != p.row {
      assert RowPinged(wait, wait[n].row);
    }
    forall i ensures RowPinged(wait', i) <==> i == p.row || RowPinged(wait, i) {
      if i == p.row {
        assert wait'[nonce].row == i;
      }
      if RowPinged(wait, i) {
        var n :| n in wait && wait[n].row == i;
        assert wait'[n].row == i;
      }
    }
  }

  lemma PingEnded(self: Id, table: Table, nodes: set<Id>, wait: map<nat, Ping>, send: set<int>, nonce: nat)
    requires PingsOk(self, table, nodes, wait, send) && nonce in wait
    ensures PingsOk(self, table, nodes, wait - {nonce}, send - {wait[nonce].row})
  {
    hide PingOk;
    var wait', r := wait - {nonce}, wait[nonce].row;
    forall i ensures RowPinged(wait', i) <==> i != r && RowPinged(wait, i) {
      if i != r && RowPinged(wait, i) {
        var n :| n in wait && wait[n].row == i;
        assert n in wait' && wait'[n].row == i;
      }
    }
  }

  // ---- every run of the table ------------------------------------------------------------------

  /** The table, the stored identifiers, the pings in flight and the rows they are about. */
  datatype Rt = Rt(table: Table, nodes: set<Id>, wait: map<nat, Ping>, send: set<int>)

  ghost predicate RtOk(self: Id, s: Rt) {
    StoreOk(self, s.table, s.nodes) && PingsOk(self, s.table, s.nodes, s.wait, s.send)
  }

  function RowOf(table: Table, i: int): seq<Addr> {
    if i in table then table[i] else []
  }

  /** Hearing from a contact: a newcomer joins its row; if the row is full, the oldest entry is pinged, once. */
  function AfterAdd(self: Id, s: Rt, addr: Addr, nonce: nat): Rt {
    var i := TopDiff(self, addr.id);
    var row := RowOf(s.table, i);
    if i < 0 || addr.id in s.nodes then s
    else if |row| < MAX_ENTRY then s.(table := s.table[i := row + [addr]], nodes := s.nodes + {addr.id})
    else if i in s.send then s
    else s.(wait := s.wait[nonce := Ping(row[0], addr, i)], send := s.send + {i})
  }

  /** The row rotates and its ping is over. */
  function Rotated(s: Rt, nonce: nat, last: Addr, nodes: set<Id>): Rt
    requires nonce in s.wait
  {
    var i := s.wait[nonce].row;
    var row := RowOf(s.table, i);
    s.(table := s.table[i := (if row == [] then [] else row[1..]) + [last]], nodes := nodes,
       wait := s.wait - {nonce}, send := s.send - {i})
  }

  /** Only an answer from the pinged entry's own IPv4 address saves it; the comparison written for IPv6 never succeeds. */
  function AfterReply(s: Rt, src: Addr, nonce: nat): Rt {
    if nonce in s.wait && src == s.wait[nonce].incumbent && src.domain.Inet? then
      Rotated(s, nonce, s.wait[nonce].incumbent, s.nodes)
    else s
  }

  function AfterTimeout(s: Rt, nonce: nat): Rt
    requires nonce in s.wait
  {
    var p := s.wait[nonce];
    Rotated(s, nonce, p.candidate, s.nodes - {p.incumbent.id} + {p.candidate.id})
  }

  function DropId(row: seq<Addr>, id: Id): seq<Addr> {
    if row == [] then [] else if row[0].id == id then row[1..] else [row[0]] + DropId(row[1..], id)
  }

  /** Take a contact out, with its row if that is left empty. */
  function AfterRemove(self: Id, s: Rt, id: Id): Rt {
    if id !in s.nodes then s
    else
      var i := TopDiff(self, id);
      s.(table := WithRow(s.table, i, DropId(RowOf(s.table, i), id)), nodes := s.nodes - {id})
  }

  datatype Event = Heard(addr: Addr, nonce: nat) | Answered(src: Addr, nonce: nat) | Expired(nonce: nat) | Removed(id: Id)

  /** A new ping carries a fresh number; only a ping in flight can expire. */
  predicate Allowed(s: Rt, e: Event) {
    (e.Heard? ==> e.nonce !in s.wait) && (e.Expired? ==> e.nonce in s.wait)
  }

  function After(self: Id, s: Rt, e: Event): Rt
    requires Allowed(s, e)
  {
    match e
    case Heard(addr, nonce) => AfterAdd(self, s, addr, nonce)
    case Answered(src, nonce) => AfterReply(s, src, nonce)
    case Expired(nonce) => AfterTimeout(s, nonce)
    case Removed(id) => AfterRemove(self, s, id)
  }

  lemma AddKeeps(self: Id, s: Rt, addr: Addr, nonce: nat)
    requires RtOk(self, s) && nonce !in s.wait
    ensures RtOk(self, AfterAdd(self, s, addr, nonce))
  {
    hide TopDiff;
    hide RowOk;
    hide PingsOk;
    var i := TopDiff(self, addr.id);
    TopDiffInside(self, addr.id);
    var row := RowOf(s.table, i);
    assert row != [] ==> RowOk(self, row, i);
    if i >= 0 && addr.id !in s.nodes {
      if |row| < MAX_ENTRY {
        if i in s.send {
          PingedRowFull(self, s.table, s.nodes, s.wait, s.send, i);
        }
        RowPushed(self, row, i, addr);
        RowReplaced(self, s.table, s.nodes, i, row + [addr], s.nodes + {addr.id});
        PingsElsewhere(self, s.table, s.nodes, s.wait, s.send, i, s.table[i := row + [addr]], s.nodes + {addr.id});
      } else if i !in s.send {
        RowFull(self, row, i);
        PingStarted(self, s.table, s.nodes, s.wait, s.send, nonce, Ping(row[0], addr, i));
      }
    }
  }

  lemma RotatedKeeps(self: Id, s: Rt, nonce: nat, last: Addr)
    requires RtOk(self, s) && nonce in s.wait && (last == s.wait[nonce].incumbent || last == s.wait[nonce].candidate)
    ensures RtOk(self, Rotated(s, nonce, last, s.nodes - {s.wait[nonce].incumbent.id} + {last.id}))
  {
    hide TopDiff;
    hide RowOk;
    hide PingsOk;
    PingFacts(self, s.table, s.nodes, s.wait, s.send, nonce);
    var p := s.wait[nonce];
    var row := s.table[p.row][1..] + [last];
    var nodes := s.nodes - {p.incumbent.id} + {last.id};
    RowRotated(self, s.table[p.row], p.row, last);
    RowReplaced(self, s.table, s.nodes, p.row, row, nodes);
    PingEnded(self, s.table, s.nodes, s.wait, s.send, nonce);
    PingsElsewhere(self, s.table, s.nodes, s.wait - {nonce}, s.send - {p.row}, p.row, s.table[p.row := row], nodes);
  }

  lemma ReplyKeeps(self: Id, s: Rt, src: Addr, nonce: nat)
    requires RtOk(self, s)
    ensures RtOk(self, AfterReply(s, src, nonce))
  {
    if nonce in s.wait && src == s.wait[nonce].incumbent && src.domain.Inet? {
      PingFacts(self, s.table, s.nodes, s.wait, s.send, nonce);
      assert src.id in s.nodes;
      assert s.nodes - {src.id} + {src.id} == s.nodes;
      RotatedKeeps(self, s, nonce, src);
    }
  }

  lemma {:induction false} DropIdAt(row: seq<Addr>, id: Id, k: nat)
    requires k < |row| && row[k].id == id && forall j :: 0 <= j < k ==> row[j].id != id
    ensures DropId(row, id) == row[..k] + row[k + 1..]
  {
    if k > 0 {
      DropIdAt(row[1..], id, k - 1);
      assert [row[0]] + (row[1..][..k - 1] + row[1..][k..]) == row[..k] + row[k + 1..];
    }
  }

  lemma FirstWith(row: seq<Addr>, id: Id) returns (k: nat)
    requires id in IdsOf(row) && DistinctIds(row)
    ensures k < |row| && row[k].id == id && forall j :: 0 <= j < k ==> row[j].id != id
  {
    var a :| a in row && a.id == id;
    k :| 0 <= k < |row| && row[k] == a;
  }

  lemma StoredRow(self: Id, s: Rt, id: Id)
    requires RtOk(self, s) && id in s.nodes
    ensures var i := TopDiff(self, id);
            i in s.table && RowOk(self, s.table[i], i) && id in IdsOf(s.table[i])
  {
  }

  /** The table survives a removal exactly when no ping is pending on the row. */
  lemma RemoveExact(self: Id, s: Rt, id: Id)
    requires RtOk(self, s)
    ensures RtOk(self, AfterRemove(self, s, id)) <==> id !in s.nodes || TopDiff(self, id) !in s.send
  {
    hide TopDiff;
    if id in s.nodes {
      StoredRow(self, s, id);
      var i := TopDiff(self, id);
      var row := s.table[i];
      var k := FirstWith(row, id);
      DropIdAt(row, id, k);
      RowWithout(self, row, i, k);
      hide RowOk;
      hide PingsOk;
      hide DropId;
      var row', nodes' := DropId(row, id), s.nodes - {id};
      var table' := WithRow(s.table, i, row');
      if row' != [] {
        RowReplaced(self, s.table, s.nodes, i, row', nodes');
      } else {
        RowErased(self, s.table, s.nodes, i, nodes');
      }
      if i !in s.send {
        PingsElsewhere(self, s.table, s.nodes, s.wait, s.send, i, table', nodes');
      } else {
        PingedRowFull(self, s.table, s.nodes, s.wait, s.send, i);
        NotFullNotPinged(self, table', nodes', s.wait, s.send, i);
      }
    }
  }

  /** A removal from a row on which a ping is pending. */
  predicate Disrupts(self: Id, s: Rt, e: Event) {
    e.Removed? && e.id in s.nodes && TopDiff(self, e.id) in s.send
  }

  lemma AfterExact(self: Id, s: Rt, e: Event)
    requires RtOk(self, s) && Allowed(s, e)
    ensures RtOk(self, After(self, s, e)) <==> !Disrupts(self, s, e)
  {
    hide RtOk;
    hide TopDiff;
    match e
    case Heard(addr, nonce) => AddKeeps(self, s, addr, nonce);
    case Answered(src, nonce) => ReplyKeeps(self, s, src, nonce);
    case Expired(nonce) => RotatedKeeps(self, s, nonce, s.wait[nonce].candidate);
    case Removed(id) => RemoveExact(self, s, id);
  }

  ghost predicate Run(self: Id, states: seq<Rt>, events: seq<Event>) {
    && |states| == |events| + 1 && states[0] == Rt(map[], {}, map[], {})
    && (forall i :: 0 <= i < |events| ==> Allowed(states[i], events[i]) && states[i + 1] == After(self, states[i], events[i]))
  }

  /**
   Entries sit in the bucket of their highest differing bit, at most 20 and without repeats, `nodes` is exactly the set
   stored, and pings are about the front of full rows: so it stays exactly until a removal hits a row being pinged.
   */
  lemma {:induction false} TableInOrder(self: Id, states: seq<Rt>, events: seq<Event>, n: nat)
    requires Run(self, states, events) && n < |states|
    ensures (forall k :: 0 <= k <= n ==> RtOk(self, states[k])) <==> (forall j :: 0 <= j < n ==> !Disrupts(self, states[j], events[j]))
  {
    hide RtOk;
    hide Disrupts;
    hide After;
    hide Allowed;
    EmptyInOrder(self);
    if n > 0 {
      var i := n - 1;
      TableInOrder(self, states, events, i);
      assert Allowed(states[i], events[i]) && states[i + 1] == After(self, states[i], events[i]);
      if RtOk(self, states[i]) {
        AfterExact(self, states[i], events[i]);
        assert RtOk(self, states[n]) <==> !Disrupts(self, states[i], events[i]);
      }
    }
  }

  lemma EmptyInOrder(self: Id)
    ensures RtOk(self, Rt(map[], {}, map[], {}))
  {
  }

  // ---- answers and timeouts --------------------------------------------------------------------

  /** The pinged entry answers from its own IPv4 address. */
  predicate Saves(s: Rt, e: Event, nonce: nat) {
    e.Answered? && e.nonce == nonce && nonce in s.wait && e.src == s.wait[nonce].incumbent && e.src.domain.Inet?
  }

  /** The ping is over: its row holds `row`, and nothing else has changed in the table. */
  predicate PingOver(s: Rt, s': Rt, nonce: nat, row: seq<Addr>)
    requires nonce in s.wait
  {
    var i := s.wait[nonce].row;
    s'.wait == s.wait - {nonce} && s'.send == s.send - {i} && s'.table == s.table[i := row]
  }

  /** An answer saves the entry: the row has the same contacts, with that one last, and the ping is over; other answers do nothing. */
  lemma AnswerExact(self: Id, s: Rt, e: Event)
    requires RtOk(self, s) && e.Answered?
    ensures !Saves(s, e, e.nonce) ==> After(self, s, e) == s
    ensures Saves(s, e, e.nonce) ==>
              var i := s.wait[e.nonce].row;
              var s' := After(self, s, e);
              && i in s.table && |s.table[i]| == MAX_ENTRY && s.table[i][0] == e.src
              && PingOver(s, s', e.nonce, s.table[i][1..] + [e.src]) && s'.nodes == s.nodes
              && e.nonce !in s'.wait && i !in s'.send
  {
    if Saves(s, e, e.nonce) {
      PingFacts(self, s.table, s.nodes, s.wait, s.send, e.nonce);
      PingAtFront(self, s, e.nonce);
    }
    hide RtOk;
    hide TopDiff;
  }

  /** In every run in which no removal has hit a row being pinged, a pinged entry that answers keeps its place. */
  lemma AnswerSaves(self: Id, states: seq<Rt>, events: seq<Event>, n: nat)
    requires Run(self, states, events) && n < |events| && events[n].Answered? && Saves(states[n], events[n], events[n].nonce)
    requires forall j :: 0 <= j < n ==> !Disrupts(self, states[j], events[j])
    ensures var i := states[n].wait[events[n].nonce].row;
            && i in states[n].table && i in states[n + 1].table && states[n].table[i] != []
            && states[n + 1].table[i] == states[n].table[i][1..] + [events[n].src] && states[n].table[i][0] == events[n].src
            && events[n].src.id in states[n + 1].nodes && events[n].nonce !in states[n + 1].wait && i !in states[n + 1].send
  {
    TableInOrder(self, states, events, n);
    AnswerExact(self, states[n], events[n]);
    PingAtFront(self, states[n], events[n].nonce);
    hide RtOk;
    hide Disrupts;
    assert states[n + 1] == After(self, states[n], events[n]);
    hide After;
    hide Allowed;
  }

  lemma PingAtFront(self: Id, s: Rt, nonce: nat)
    requires RtOk(self, s) && nonce in s.wait
    ensures var p := s.wait[nonce];
            && p.row in s.table && |s.table[p.row]| == MAX_ENTRY && s.table[p.row][0] == p.incumbent
            && p.candidate.id !in s.nodes && p.incumbent.id in s.nodes && TopDiff(self, p.candidate.id) == p.row
  {
    PingFacts(self, s.table, s.nodes, s.wait, s.send, nonce);
  }

  /** A timeout takes the entry that kept silent out of its row and lets the candidate in. */
  lemma TimeoutExact(self: Id, s: Rt, nonce: nat)
    requires RtOk(self, s) && nonce in s.wait
    ensures var p := s.wait[nonce];
            var s' := After(self, s, Expired(nonce));
            && p.row in s.table && s.table[p.row] != [] && s.table[p.row][0] == p.incumbent
            && PingOver(s, s', nonce, s.table[p.row][1..] + [p.candidate])
            && s'.nodes == s.nodes - {p.incumbent.id} + {p.candidate.id}
  {
    PingAtFront(self, s, nonce);
    hide RtOk;
    hide TopDiff;
  }

  /** The ping `nonce`, in flight at `j`, was sent at `i` and has not been answered since by the entry it went to. */
  ghost predicate SilentSince(states: seq<Rt>, events: seq<Event>, i: nat, j: nat, nonce: nat)
    requires j < |states| && j <= |events|
  {
    && i < j && events[i].Heard? && events[i].nonce == nonce && nonce !in states[i].wait && nonce in states[j].wait
    && (forall k :: i < k <= j ==> nonce in states[k].wait && states[k].wait[nonce] == states[j].wait[nonce])
    && (forall k :: i < k < j ==> !Saves(states[k], events[k], nonce))
  }

  /** In every run a ping in flight was sent, and has gone unanswered since. */
  lemma {:induction false} PingUnanswered(self: Id, states: seq<Rt>, events: seq<Event>, j: nat, nonce: nat) returns (i: nat)
    requires Run(self, states, events) && j < |states| && nonce in states[j].wait
    ensures SilentSince(states, events, i, j, nonce)
  {
    var k := j - 1;
    assert j > 0;
    assert Allowed(states[k], events[k]) && states[k + 1] == After(self, states[k], events[k]);
    PingStays(self, states[k], events[k], nonce);
    if nonce in states[k].wait {
      i := PingUnanswered(self, states, events, k, nonce);
    } else {
      i := k;
    }
  }

  lemma PingStays(self: Id, s: Rt, e: Event, nonce: nat)
    requires Allowed(s, e) && nonce in After(self, s, e).wait
    ensures !Saves(s, e, nonce)
    ensures if nonce in s.wait then After(self, s, e).wait[nonce] == s.wait[nonce] else e.Heard? && e.nonce == nonce
  {
    hide TopDiff;
    hide DropId;
  }

  /** The removal of `x`, or the timeout of a ping that went to `x` and that `x` left unanswered. */
  ghost predicate LosesPlace(states: seq<Rt>, events: seq<Event>, j: nat, x: Id)
    requires j < |events| < |states|
  {
    || (events[j].Removed? && events[j].id == x)
    || (events[j].Expired? && events[j].nonce in states[j].wait && states[j].wait[events[j].nonce].incumbent.id == x
        && exists i: nat :: SilentSince(states, events, i, j, events[j].nonce))
  }

  /** In every run an identifier once stored is gone later only if, in between, it was removed or left a ping of its own unanswered. */
  lemma {:induction false} EvictedOnlyByName(self: Id, states: seq<Rt>, events: seq<Event>, x: Id, i: nat, n: nat)
    requires Run(self, states, events) && i <= n < |states| && x in states[i].nodes && x !in states[n].nodes
    ensures exists j :: i <= j < n && LosesPlace(states, events, j, x)
  {
    if n > i {
      var k := n - 1;
      if x in states[k].nodes {
        assert Allowed(states[k], events[k]) && states[k + 1] == After(self, states[k], events[k]);
        NodeLost(self, states[k], events[k], x);
        if events[k].Expired? {
          var p := PingUnanswered(self, states, events, k, events[k].nonce);
        }
        assert LosesPlace(states, events, k, x);
      } else {
        EvictedOnlyByName(self, states, events, x, i, k);
      }
    }
  }

  lemma NodeLost(self: Id, s: Rt, e: Event, x: Id)
    requires Allowed(s, e) && x in s.nodes && x !in After(self, s, e).nodes
    ensures (e.Removed? && e.id == x) || (e.Expired? && s.wait[e.nonce].incumbent.id == x)
  {
    hide TopDiff;
    hide DropId;
  }

  // ---- a run after which a removal breaks the table ------------------------------------------------

  function Owner(): Id {
    seq(160, _ => false)
  }

  /** The `k`-th of many identifiers whose highest bit alone puts them all in row 159. */
  function FarId(k: nat): Id {
    seq(160, i => i == 159 || i == k)
  }

  function Far(k: nat): Addr {
    Addr(FarId(k), Inet, k, 0)
  }

  function FarRow(n: nat): (r: seq<Addr>)
    ensures |r| == n
  {
    seq(n, i requires 0 <= i < n => Far(i))
  }

  lemma FarIds(j: nat, k: nat)
    requires k < 159 && j < 159
    ensures TopDiff(Owner(), FarId(k)) == 159 && (j != k ==> FarId(j) != FarId(k))
  {
    TopDiffIs(Owner(), FarId(k), 159);
    assert FarId(k)[k] && (j != k ==> !FarId(j)[k]);
  }

  /** The table after `n` newcomers to row 159. */
  function Filled(n: nat): Rt {
    Rt(if n == 0 then map[] else map[159 := FarRow(n)], IdsOf(FarRow(n)), map[], {})
  }

  lemma NewcomerJoins(n: nat)
    requires n < MAX_ENTRY
    ensures AfterAdd(Owner(), Filled(n), Far(n), n) == Filled(n + 1)
  {
    FarIds(n, n);
    forall a | a in FarRow(n) ensures a.id != FarId(n) {
      var i :| 0 <= i < n && FarRow(n)[i] == a;
      FarIds(i, n);
    }
    assert FarRow(n + 1) == FarRow(n) + [Far(n)];
    IdsOfSnoc(FarRow(n), Far(n));
    hide TopDiff;
    hide FarRow;
    hide FarId;
    assert RowOf(Filled(n).table, 159) == if n == 0 then [] else FarRow(n);
    assert FarRow(0) == [];
  }

  /** One newcomer too many: the oldest entry is pinged. */
  function Crowded(): Rt {
    Filled(20).(wait := map[20 := Ping(Far(0), Far(20), 159)], send := {159})
  }

  lemma NewcomerTooMany()
    ensures AfterAdd(Owner(), Filled(20), Far(20), 20) == Crowded() && FarId(0) in Crowded().nodes
  {
    FarIds(20, 20);
    forall a | a in FarRow(20) ensures a.id != FarId(20) {
      var i :| 0 <= i < 20 && FarRow(20)[i] == a;
      FarIds(i, 20);
    }
    assert FarRow(20)[0] == Far(0);
    assert Far(0) in FarRow(20);
    hide TopDiff;
    hide FarRow;
    hide FarId;
  }

  /** Twenty-one newcomers to one row, then the removal of the entry that is being pinged. */
  function Newcomers(): seq<Event> {
    seq(22, k requires 0 <= k < 22 => if k < 21 then Heard(Far(k), k) else Removed(FarId(0)))
  }

  function Filling(): seq<Rt> {
    seq(23, k requires 0 <= k < 23 =>
      if k < 21 then Filled(k) else if k == 21 then Crowded() else AfterRemove(Owner(), Crowded(), FarId(0)))
  }

  lemma FillingRuns(i: nat)
    requires i < 22
    ensures Allowed(Filling()[i], Newcomers()[i]) && Filling()[i + 1] == After(Owner(), Filling()[i], Newcomers()[i])
  {
    hide AfterRemove;
    if i < 20 {
      NewcomerJoins(i);
    } else if i == 20 {
      NewcomerTooMany();
    }
    hide Filled;
    hide AfterAdd;
  }

  /** The removal breaks the table; nothing before it did. */
  lemma RemovalBreaks()
    ensures Run(Owner(), Filling(), Newcomers())
    ensures RtOk(Owner(), Filling()[21]) && !RtOk(Owner(), Filling()[22])
  {
    var states, events := Filling(), Newcomers();
    forall i | 0 <= i < 22 ensures Allowed(states[i], events[i]) && states[i + 1] == After(Owner(), states[i], events[i]) {
      FillingRuns(i);
    }
    assert IdsOf(FarRow(0)) == {};
    NewcomerTooMany();
    FarIds(0, 0);
    hide After;
    hide Filled;
    hide AfterRemove;
    hide TopDiff;
    hide RtOk;
    assert Disrupts(Owner(), states[21], events[21]);
    TableInOrder(Owner(), states, events, 21);
    AfterExact(Owner(), states[21], events[21]);
  }

  class RtTable {
    const self: Id
    var table: Table
    var pingWait: map<nat, Ping>
    var pingSend: set<int>
    var nodes: set<Id>

    ghost function View(): Rt
      reads this
    {
      Rt(table, nodes, pingWait, pingSend)
    }

    ghost predicate Valid()
      reads this
    {
      RtOk(self, View())
    }

    constructor (self: Id)
      ensures Valid() && this.self == self && table == map[] && pingWait == map[]
    {
      this.self := self;
      table, pingWait, pingSend, nodes := map[], map[], {}, {};
    }

    method Id2i(id: Id) returns (i: int)
      ensures i == TopDiff(self, id)
    {
      var d := Xor(self, id);
      i := 159;
      while i >= 0
        invariant -1 <= i < BITS && forall j :: i < j < BITS ==> !d[j]
      {
        if d[i] {
          break;
        }
        i := i - 1;
      }
      TopIs(d, i);
    }

    // ---- look-up ---------------------------------------------------------------------

    /** Rows at the set bits of own-id XOR target, highest first, then the owner, until `max` contacts are covered. */
    method Id2i4Lookup(id: Id, max: int) returns (n: int, sel: set<int>)
      requires Valid()
      ensures var d := Xor(self, id);
              && FirstGroups(table, d, sel) && n == |Gather(self, table, sel)|
              && (n < max ==> sel == {-1} + (set i | i in table && d[i]))
    {
      hide PingsOk;
      hide Collect;
      hide FirstGroups;
      ghost var d := Xor(self, id);
      ghost var c: nat := 160;
      var id0 := id;
      n, sel := 0, {};
      CollectNothing(self, table, -1, BITS);
      KeysInside();
      while n < max
        invariant c <= BITS && forall j :: 0 <= j < BITS ==> Xor(self, id0)[j] == (j < c && d[j])
        invariant sel == (set i | i in table && i >= c && d[i])
        invariant n == |Gather(self, table, sel)|
        decreases c
      {
        SameIsZero(self, id0);
        if self == id0 {
          assert forall j :: 0 <= j < BITS ==> !Xor(self, id0)[j];
          HighGroupsFirst(table, d, c, sel);
          CollectGrows(self, table, sel, -1, -1, BITS);
          n := n + 1;
          sel := sel + {-1};
          return;
        }
        var i := Id2i(id0);
        if i in table {
          CollectGrows(self, table, sel, i, -1, BITS);
          n := n + |table[i]|;
          sel := sel + {i};
        }
        id0 := id0[i := !id0[i]];
        c := i;
      }
      HighGroupsFirst(table, d, c, sel);
    }

    lemma KeysInside()
      requires RowsOk(self, table)
      ensures forall i :: i in table ==> 0 <= i < BITS
    {
      forall i | i in table ensures 0 <= i < BITS {
        assert RowOk(self, table[i], i);
      }
    }

    /** Rows at the clear bits, lowest first, until `max` more contacts are covered. */
    method Id2i4LookupR(id: Id, max: int, sel0: set<int>) returns (n: int, sel: set<int>)
      requires Valid()
      requires sel0 == {-1} + (set i | i in table && Xor(self, id)[i])
      ensures FirstGroups(table, Xor(self, id), sel) && n == |Gather(self, table, sel)| - |Gather(self, table, sel0)|
      ensures n < max ==> sel == AllGroups(table)
    {
      hide PingsOk;
      hide Collect;
      hide FirstGroups;
      ghost var d := Xor(self, id);
      n, sel := 0, sel0;
      KeysInside();
      var i := 0;
      while i < 160
        invariant 0 <= i <= BITS
        invariant sel == {-1} + (set j | j in table && (d[j] || j < i))
        invariant n == |Gather(self, table, sel)| - |Gather(self, table, sel0)|
      {
        if i in table {
          if n >= max {
            break;
          }
          if !Xor(self, id)[i] {
            CollectGrows(self, table, sel, i, -1, BITS);
            n := n + |table[i]|;
            sel := sel + {i};
          }
        }
        i := i + 1;
      }
      LowGroupsNext(table, d, i, sel);
    }

    /** The nearest `num` contacts, found without looking at every row. */
    method Lookup(id: Id, num: nat) returns (ret: seq<Addr>)
      requires Valid()
      ensures ret == NearestContacts(self, table, id, num)
    {
      hide RowsOk;
      hide PingsOk;
      hide Collect;
      hide FirstGroups;
      hide NearestContacts;
      hide SortBy;
      var n, sel := Id2i4Lookup(id, num);
      if n < num {
        var m;
        m, sel := Id2i4LookupR(id, num - n, sel);
      }
      FirstGroupsSuffice(self, table, id, sel, num);
      ret := [];
      var i := -1;
      assert ret + Gather(self, table, sel) == Gather(self, table, sel);
      while i < 160
        invariant -1 <= i <= BITS
        invariant ret + Collect(self, table, sel, i, BITS) == Gather(self, table, sel)
      {
        CollectUnrolls(self, table, sel, i, ret);
        if i in sel {
          ret := ret + Group(self, table, i);
        }
        i := i + 1;
      }
      CollectEnds(self, table, sel);
      assert ret + [] == ret;
      ret := SortBy(id, ret);
      while |ret| > num
        invariant Take(ret, num) == NearestContacts(self, table, id, num)
      {
        TakeAfterPop(ret, num);
        ret := ret[..|ret| - 1];
      }
    }

    // ---- maintenance -----------------------------------------------------------------

    /**
     A contact has been heard from.  `nonce` is the fresh random number a ping would carry.
     Nothing stored is ever dropped here: a newcomer to a full row only causes its oldest entry to be pinged.
     */
    method Add(addr: Addr, nonce: nat) returns (pinged: bool)
      requires Valid() && nonce !in pingWait
      modifies this
      ensures Valid() && View() == AfterAdd(self, old(View()), addr, nonce)
      ensures old(nodes) <= nodes && (pinged <==> pingWait != old(pingWait))
    {
      hide TopDiff;
      hide RowOk;
      hide PingsOk;
      AddKeeps(self, View(), addr, nonce);
      pinged := false;
      var i := Id2i(addr.id);
      SameIsZero(self, addr.id);
      if addr.id == self || i < 0 || addr.id in nodes {
        return;
      }
      if i !in table {
        assert [] + [addr] == [addr];
        table := table[i := [addr]];
        nodes := nodes + {addr.id};
      } else {
        var row := table[i];
        if |row| < MAX_ENTRY {
          table := table[i := row + [addr]];
          nodes := nodes + {addr.id};
        } else if i in pingSend {
          return;
        } else {
          pingWait := pingWait[nonce := Ping(row[0], addr, i)];
          pingSend := pingSend + {i};
          pinged := true;
        }
      }
    }

    /** A ping answer: the oldest entry is kept and moved to the back, if the answer is its own. */
    method RecvPingReply(src: Addr, nonce: nat)
      requires Valid()
      modifies this
      ensures Valid() && View() == AfterReply(old(View()), src, nonce)
      ensures nodes == old(nodes)
    {
      hide TopDiff;
      hide RowOk;
      hide PingsOk;
      ReplyKeeps(self, View(), src, nonce);
      if nonce !in pingWait {
        return;
      }
      var p := pingWait[nonce];
      if src.id != p.incumbent.id || src.domain != p.incumbent.domain {
        return;
      }
      if src.domain.Inet? {
        if src.port == p.incumbent.port && src.host == p.incumbent.host {
          PingFacts(self, table, nodes, pingWait, pingSend, nonce);
          table := table[p.row := table[p.row][1..] + [p.incumbent]];
          pingWait := pingWait - {nonce};
          pingSend := pingSend - {p.row};
        }
      }
    }

    /** No answer in time: only now does the oldest entry lose its place. */
    method PingTimeout(nonce: nat)
      requires Valid() && nonce in pingWait
      modifies this
      ensures Valid() && View() == AfterTimeout(old(View()), nonce)
    {
      hide TopDiff;
      hide RowOk;
      hide PingsOk;
      var p := pingWait[nonce];
      RotatedKeeps(self, View(), nonce, p.candidate);
      PingFacts(self, table, nodes, pingWait, pingSend, nonce);
      table := table[p.row := table[p.row][1..] + [p.candidate]];
      pingSend := pingSend - {p.row};
      nodes := nodes - {p.incumbent.id} + {p.candidate.id};
      pingWait := pingWait - {nonce};
    }

    /** Forgetting a contact: the table stays in order exactly when no ping is pending on the row. */
    method Remove(id: Id)
      requires Valid()
      modifies this
      ensures View() == AfterRemove(self, old(View()), id)
      ensures Valid() <==> id !in old(nodes) || TopDiff(self, id) !in old(pingSend)
    {
      hide TopDiff;
      hide RtOk;
      RemoveExact(self, View(), id);
      if id !in nodes {
        return;
      }
      StoredRow(self, View(), id);
      var i := Id2i(id);
      var row := table[i];
      var k := Find(row, id);
      DropIdAt(row, id, k);
      row := row[..k] + row[k + 1..];
      table := if |row| == 0 then table - {i} else table[i := row];
      nodes := nodes - {id};
    }
  }

  method Find(row: seq<Addr>, id: Id) returns (k: nat)
    requires id in IdsOf(row)
    ensures k < |row| && row[k].id == id && forall j :: 0 <= j < k ==> row[j].id != id
  {
    k := 0;
    assert row[0..] == row;
    while row[k].id != id
      invariant k < |row| && id in IdsOf(row[k..]) && forall j :: 0 <= j < k ==> row[j].id != id
      decreases |row| - k
    {
      IdsOfTail(row, k);
      k := k + 1;
    }
  }

  lemma TopDiffInside(self: Id, x: Id)
    ensures -1 <= TopDiff(self, x) < BITS
  {
  }

  lemma RowFull(self: Id, row: seq<Addr>, i: int)
    requires RowOk(self, row, i) && |row| >= MAX_ENTRY
    ensures |row| == MAX_ENTRY
  {
  }

  lemma IdsOfTail(row: seq<Addr>, k: nat)
    requires k < |row|
    ensures IdsOf(row[k..]) == {row[k].id} + IdsOf(row[k + 1..])
  {
    assert row[k..] == [row[k]] + row[k + 1..];
    assert row[k] in row[k..];
    forall a | a in row[k + 1..] ensures a in row[k..] { }
  }

  lemma RowErased(self: Id, table: Table, nodes: set<Id>, i: int, nodes': set<Id>)
    requires StoreOk(self, table, nodes)
    requires forall x :: TopDiff(self, x) == i ==> x !in nodes'
    requires forall x :: TopDiff(self, x) != i ==> (x in nodes' <==> x in nodes)
    ensures StoreOk(self, table - {i}, nodes')
  {
    hide TopDiff;
    hide RowOk;
  }

  lemma PingedRowFull(self: Id, table: Table, nodes: set<Id>, wait: map<nat, Ping>, send: set<int>, i: int)
    requires PingsOk(self, table, nodes, wait, send) && i in send
    ensures i in table && |table[i]| == MAX_ENTRY
  {
    assert RowPinged(wait, i);
    var n :| n in wait && wait[n].row == i;
    assert PingOk(self, table, nodes, wait[n]);
  }

  lemma NotFullNotPinged(self: Id, table: Table, nodes: set<Id>, wait: map<nat, Ping>, send: set<int>, i: int)
    requires i in send && (i in table ==> |table[i]| != MAX_ENTRY)
    ensures !PingsOk(self, table, nodes, wait, send)
  {
    if PingsOk(self, table, nodes, wait, send) {
      PingedRowFull(self, table, nodes, wait, send, i);
    }
  }

  lemma PingFacts(self: Id, table: Table, nodes: set<Id>, wait: map<nat, Ping>, send: set<int>, nonce: nat)
    requires StoreOk(self, table, nodes) && PingsOk(self, table, nodes, wait, send) && nonce in wait
    ensures var p := wait[nonce];
            && p.row in table && RowOk(self, table[p.row], p.row) && p.row in send
            && table[p.row] != [] && table[p.row][0] == p.incumbent
            && TopDiff(self, p.incumbent.id) == p.row && TopDiff(self, p.candidate.id) == p.row
            && p.incumbent.id in IdsOf(table[p.row]) && p.candidate.id !in nodes && p.candidate.id !in IdsOf(table[p.row])
  {
    var p := wait[nonce];
    assert PingOk(self, table, nodes, p);
    assert RowPinged(wait, p.row);
    assert RowOk(self, table[p.row], p.row);
    assert p.incumbent in table[p.row];
  }
}
