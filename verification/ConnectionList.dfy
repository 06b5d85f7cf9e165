/** The TCP connection table of one network thread (antlib/tcplib/tcp_connection_list.c, tcp_connection.c,
    tcp_epoll.c, tcp_listener.h): a fixed array of entries, each in the free queue or in the alive list, addressed by
    ids that carry a generation. What the sockets and the protocol callbacks do is a parameter of each step. */
module ConnectionList {
  import opened Bytes
  import opened Collections
  import opened DoubleList

  const TCPLIST_MAX := 4096
  const TCPID_MASK := 0x0F
  const ERROR_FD := -1
  const INDEX_LIMIT := 0x1_0000_0000

  datatype TcpId = TcpId(index: uint32, arrayid: uint16, mask: byte, listid: byte)

  /** The counter behind all ids, shared by the tables of all threads; issued counts without wrapping. */
  class MainId {
    var g_mainid: uint32
    ghost var issued: nat

    ghost predicate Valid()
      reads this
    {
      g_mainid == issued % INDEX_LIMIT
    }

    constructor ()
      ensures Valid() && issued == 0
    {
      g_mainid, issued := 0, 0;
    }

    method LockAdd() returns (index: uint32)
      requires Valid()
      modifies this
      ensures Valid() && issued == old(issued) + 1 && index == old(issued) % INDEX_LIMIT
    {
      index := g_mainid;
      g_mainid := if g_mainid == 0xFFFF_FFFF then 0 else g_mainid + 1;
      issued := issued + 1;
    }
  }

  class TcpConnection {
    const listnode: Node
    var id: TcpId
    var socket: int
    var active_time: uint32
    var kind: uint16
    /** Which id of the counter the entry was last given, not wrapped. */
    ghost var gen: nat

    constructor (arrayid: uint16, listid: byte)
      ensures fresh(listnode) && listnode.owner == arrayid
      ensures id == TcpId(0, arrayid, 0, listid) && socket == ERROR_FD
    {
      listnode := new Node(arrayid);
      id, socket, active_time, kind := TcpId(0, arrayid, 0, listid), ERROR_FD, 0, 0;
    }

    /** tcpconnection_init. */
    method Init(main: MainId, s: int, now: uint32, kind: uint16)
      requires main.Valid()
      modifies this, main
      ensures main.Valid() && main.issued == old(main.issued) + 1 && gen == old(main.issued)
      ensures id == old(id).(index := gen % INDEX_LIMIT, mask := TCPID_MASK)
      ensures socket == s && active_time == now && this.kind == kind
    {
      gen := main.issued;
      var index := main.LockAdd();
      id := id.(index := index, mask := TCPID_MASK);
      active_time, socket, this.kind := now, s, kind;
    }

    /** tcpconnection_is_timeout. */
    predicate IsTimeout(t: int)
      reads this
    {
      kind != 1 && active_time < t
    }

    /** tcpconnection_close. */
    method Close()
      modifies this`socket
      ensures socket == ERROR_FD
    {
      socket := ERROR_FD;
    }

    /** tcpconnection_recv: the socket is read until it has nothing more, or it is closed on the way. */
    method Recv(fails: bool, now: uint32)
      modifies this`socket, this`active_time
      ensures socket == (if fails then ERROR_FD else old(socket))
      ensures active_time == if old(socket) == ERROR_FD || fails then old(active_time) else now
    {
      if socket == ERROR_FD {
        return;
      }
      if fails {
        Close();
      } else {
        active_time := now;
      }
    }

    /** tcpconnection_send, likewise. */
    method Send(fails: bool, sent: bool, now: uint32)
      modifies this`socket, this`active_time
      ensures socket == (if fails then ERROR_FD else old(socket))
      ensures active_time == if old(socket) == ERROR_FD || fails || !sent then old(active_time) else now
    {
      if socket == ERROR_FD {
        return;
      }
      if fails {
        Close();
      } else if sent {
        active_time := now;
      }
    }
  }

  // ---- The table as a value ----

  /** What a poll reports on one socket, and what handling it leads to: recvFails and sendFails tell whether the
      socket is closed while it is read or written, by an error or by the protocol. */
  datatype Event = Event(id: TcpId, err: bool, readable: bool, recvFails: bool, writable: bool, sendFails: bool,
                         sent: bool)
  {
    predicate Closing() { err || (readable && recvFails) || (writable && sendFails) }
  }

  /** One entry, with its generation and the list it is in. */
  datatype EntryView = EntryView(id: TcpId, socket: int, active_time: uint32, kind: uint16, gen: nat, alive: bool)
  {
    /** tcpconnection_is_timeout. */
    predicate IsTimeout(t: int) { kind != 1 && active_time < t }
  }

  /** home lists every connection the table has had, by generation, with its entry; closed those it has taken back;
      issued counts the ids drawn by all threads. */
  datatype Table = Table(listid: byte, entries: seq<EntryView>, home: map<nat, nat>, closed: set<nat>, issued: nat)
  {
    ghost predicate EntryOk(i: nat)
      requires i < |entries|
    {
      var e := entries[i];
      && e.id.arrayid == i && e.id.listid == listid
      && if e.alive
         then
           && e.id.mask == TCPID_MASK && e.id.index == e.gen % INDEX_LIMIT
           && e.gen in home && home[e.gen] == i && e.gen !in closed
         else e.id.mask == 0 && e.socket == ERROR_FD
    }

    /** A connection not taken back still holds its entry; an entry's generation is its latest. */
    ghost predicate ConnectionOk(g: nat)
      requires g in home
    {
      && g < issued && home[g] < |entries| && g <= entries[home[g]].gen
      && (g !in closed ==> entries[home[g]].gen == g && entries[home[g]].alive)
    }

    ghost predicate Inv() {
      && |entries| == TCPLIST_MAX && closed <= home.Keys
      && (forall i :: 0 <= i < |entries| ==> EntryOk(i))
      && (forall g :: g in home ==> ConnectionOk(g))
    }

    /** An entry is alive if and only if its socket is open. */
    ghost predicate SettledBut(k: int) {
      forall i :: 0 <= i < |entries| && i != k ==> (entries[i].alive <==> entries[i].socket != ERROR_FD)
    }

    /** Between steps this holds of all entries. */
    ghost predicate Settled() { SettledBut(-1) }

    /** The id that was given to connection g. */
    ghost function IdOf(g: nat): TcpId
      requires g in home && home[g] < TCPLIST_MAX
    {
      TcpId(g % INDEX_LIMIT, home[g], TCPID_MASK, listid)
    }

    /** get_tcpconnection: the entry an id resolves to. */
    function Lookup(id: TcpId): Option<nat>
      requires |entries| == TCPLIST_MAX && id.arrayid < TCPLIST_MAX
    {
      if entries[id.arrayid].id == id && entries[id.arrayid].socket != ERROR_FD then Some(id.arrayid) else None
    }

    function Admit(i: nat, s: int, now: uint32, kind: uint16): Table
      requires i < |entries| && i < TCPLIST_MAX
    {
      var id := entries[i].id.(index := issued % INDEX_LIMIT, mask := TCPID_MASK);
      this.(entries := entries[i := EntryView(id, s, now, kind, issued, true)],
            home := home[issued := i], issued := issued + 1)
    }

    /** Connection g is open, on socket s. */
    ghost predicate Holds(g: nat, s: int) {
      g in home && g !in closed && home[g] < |entries| && entries[home[g]].socket == s
    }

    function Shut(i: nat): Table
      requires i < |entries|
    {
      this.(entries := entries[i := entries[i].(socket := ERROR_FD)])
    }

    function Touch(i: nat, now: uint32): Table
      requires i < |entries|
    {
      this.(entries := entries[i := entries[i].(active_time := now)])
    }

    /** back_tcpconnection: a connection whose socket is closed is taken back. */
    function Back(i: nat): Table
      requires i < |entries|
    {
      var e := entries[i];
      if e.socket != ERROR_FD then this else
      this.(entries := entries[i := e.(id := e.id.(mask := 0), alive := false)], closed := closed + {e.gen})
    }

    /** What handling one reported socket does before the entry is looked at again. */
    function Met(i: nat, ev: Event, now: uint32): Table
      requires i < |entries| && entries[i].socket != ERROR_FD
    {
      if ev.Closing() then
        (if !ev.err && ev.readable && !ev.recvFails then Touch(i, now) else this).Shut(i)
      else if ev.readable || (ev.writable && ev.sent) then Touch(i, now)
      else this
    }

    predicate Addresses(id: TcpId) { id.arrayid < TCPLIST_MAX && id.listid == listid && id.mask == TCPID_MASK }

    function Poll(ev: Event, now: uint32): Table
      requires |entries| == TCPLIST_MAX && Addresses(ev.id)
    {
      match Lookup(ev.id)
      case None => this
      case Some(i) => Met(i, ev, now).Back(i)
    }

    /** All events of a poll, in order. */
    function PollAll(events: seq<Event>, now: uint32): Table
      decreases |events|
    {
      if events == [] then this else
      var n := |events| - 1;
      var t := PollAll(events[..n], now);
      if |t.entries| == TCPLIST_MAX && t.Addresses(events[n].id) then t.Poll(events[n], now) else t
    }

    ghost predicate Full() { forall i :: 0 <= i < |entries| ==> entries[i].alive }

    /** One more connection, on some entry that is free. */
    ghost predicate Admits(t: Table, s: int, now: uint32, kind: uint16) {
      exists i :: 0 <= i < TCPLIST_MAX <= |entries| && !entries[i].alive && t == Admit(i, s, now, kind)
    }

    /** One more connection for each socket, in order. */
    ghost predicate AdmitsAll(t: Table, sockets: seq<int>, now: uint32)
      decreases |sockets|
    {
      if sockets == [] then t == this else
      var n := |sockets| - 1;
      exists t1: Table :: AdmitsAll(t1, sockets[..n], now) && t1.Admits(t, sockets[n], now, 0)
    }

    /** No connection is forgotten or comes back. */
    ghost predicate Grew(t: Table) {
      && listid == t.listid && issued <= t.issued && closed <= t.closed && home.Keys <= t.home.Keys
      && (forall g :: g in home ==> t.home[g] == home[g])
      && (forall g :: g in t.home && g !in home ==> g >= issued)
    }
  }

  lemma EmptyTable(t: Table)
    requires |t.entries| == TCPLIST_MAX && t.home == map[] && t.closed == {}
    requires forall i :: 0 <= i < TCPLIST_MAX ==>
               !t.entries[i].alive && t.entries[i].id == TcpId(0, i, 0, t.listid) && t.entries[i].socket == ERROR_FD
    ensures t.Inv() && t.Settled()
  {
  }

  lemma AdmitInv(t: Table, i: nat, s: int, now: uint32, kind: uint16)
    requires t.Inv() && i < TCPLIST_MAX && !t.entries[i].alive
    ensures var t' := t.Admit(i, s, now, kind);
            t'.Inv() && t.Grew(t') && t'.closed == t.closed && t'.issued == t.issued + 1
  {
    var t' := t.Admit(i, s, now, kind);
    forall k | 0 <= k < |t'.entries|
      ensures t'.EntryOk(k)
    {
      assert t.EntryOk(k);
    }
    forall g | g in t'.home
      ensures t'.ConnectionOk(g)
    {
      if g != t.issued { assert t.ConnectionOk(g); }
    }
  }

  lemma AdmitKeeps(t: Table, i: nat, s: int, now: uint32, kind: uint16)
    requires t.Inv() && t.Settled() && i < TCPLIST_MAX && !t.entries[i].alive && s != ERROR_FD
    ensures var t' := t.Admit(i, s, now, kind);
            t'.Inv() && t'.Settled() && t.Grew(t') && t'.closed == t.closed && t'.issued == t.issued + 1
  {
    AdmitInv(t, i, s, now, kind);
  }

  lemma AdmitHolds(t: Table, i: nat, s: int, now: uint32, kind: uint16, g: nat, s': int)
    requires t.Inv() && i < TCPLIST_MAX && !t.entries[i].alive && if g == t.issued then s' == s else t.Holds(g, s')
    ensures t.Admit(i, s, now, kind).Holds(g, s')
  {
    if g != t.issued {
      assert t.ConnectionOk(g);
    } else {
      assert forall h :: h in t.closed ==> h in t.home && t.ConnectionOk(h);
    }
  }

  lemma ShutKeeps(t: Table, i: nat)
    requires t.Inv() && t.SettledBut(i) && i < TCPLIST_MAX
    ensures var t' := t.Shut(i);
            t'.Inv() && t'.SettledBut(i) && t.Grew(t')
  {
    var t' := t.Shut(i);
    forall k | 0 <= k < |t'.entries|
      ensures t'.EntryOk(k)
    {
      assert t.EntryOk(k);
    }
    forall g | g in t'.home
      ensures t'.ConnectionOk(g)
    {
      assert t.ConnectionOk(g);
    }
  }

  lemma TouchKeeps(t: Table, i: nat, now: uint32)
    requires t.Inv() && i < TCPLIST_MAX
    ensures var t' := t.Touch(i, now);
            t'.Inv() && (forall k :: t.SettledBut(k) ==> t'.SettledBut(k)) && t.Grew(t')
  {
    var t' := t.Touch(i, now);
    forall k | 0 <= k < |t'.entries|
      ensures t'.EntryOk(k)
    {
      assert t.EntryOk(k);
    }
    forall g | g in t'.home
      ensures t'.ConnectionOk(g)
    {
      assert t.ConnectionOk(g);
    }
  }

  lemma BackKeeps(t: Table, i: nat)
    requires t.Inv() && t.SettledBut(i) && i < TCPLIST_MAX && t.entries[i].alive
    ensures var t' := t.Back(i);
            t'.Inv() && t'.Settled() && t.Grew(t')
  {
    var t' := t.Back(i);
    assert t.EntryOk(i);
    forall k | 0 <= k < |t'.entries|
      ensures t'.EntryOk(k)
    {
      assert t.EntryOk(k);
    }
    forall g | g in t'.home
      ensures t'.ConnectionOk(g)
    {
      assert t.ConnectionOk(g);
    }
  }

  /** One reported event takes back the open connection it names, exactly when handling it closes the socket. */
  lemma PollKeeps(t: Table, ev: Event, now: uint32)
    requires t.Inv() && t.Settled() && t.Addresses(ev.id)
    ensures var t' := t.Poll(ev, now);
            && t'.Inv() && t'.Settled() && t.Grew(t') && t'.home == t.home && t'.issued == t.issued
            && forall g :: g in t.home ==>
                 (g in t'.closed <==> g in t.closed || (t.home[g] < TCPLIST_MAX && t.IdOf(g) == ev.id && ev.Closing()))
  {
    var i := ev.id.arrayid;
    assert t.EntryOk(i);
    var t' := t.Poll(ev, now);
    if t.Lookup(ev.id).Some? {
      MetKeeps(t, i, ev, now);
      BackKeeps(t.Met(i, ev, now), i);
      GrewTrans(t, t.Met(i, ev, now), t');
    }
    forall g | g in t.home
      ensures g in t'.closed <==> g in t.closed || (t.home[g] < TCPLIST_MAX && t.IdOf(g) == ev.id && ev.Closing())
    {
      assert t.ConnectionOk(g);
      assert t.EntryOk(t.home[g]);
    }
  }

  lemma MetKeeps(t: Table, i: nat, ev: Event, now: uint32)
    requires t.Inv() && t.Settled() && i < TCPLIST_MAX && t.entries[i].socket != ERROR_FD
    ensures var t' := t.Met(i, ev, now);
            && t'.Inv() && t'.SettledBut(i) && t.Grew(t')
            && t'.home == t.home && t'.issued == t.issued && t'.closed == t.closed
            && t'.entries[i] == t.entries[i].(socket := t'.entries[i].socket, active_time := t'.entries[i].active_time)
            && (t'.entries[i].socket == ERROR_FD <==> ev.Closing())
  {
    assert i < |t.entries|;
    hide Table.Inv, Table.Grew;
    var t1 := t.Touch(i, now);
    TouchKeeps(t, i, now);
    ShutKeeps(t, i);
    ShutKeeps(t1, i);
    GrewTrans(t, t1, t1.Shut(i));
    GrewRefl(t);
  }

  lemma GrewRefl(t: Table)
    ensures t.Grew(t)
  {
  }

  lemma GrewTrans(a: Table, b: Table, c: Table)
    requires a.Grew(b) && b.Grew(c)
    ensures a.Grew(c)
  {
  }

  /** Ids over whole runs. Until 2^32 further ids have been drawn, the id of a connection resolves to its own entry
      while the connection is open and to nothing once it has been taken back, even when the entry is in use again. */
  lemma Resolves(t: Table, g: nat)
    requires t.Inv() && t.Settled() && g in t.home && t.issued <= g + INDEX_LIMIT
    ensures t.home[g] < TCPLIST_MAX && t.Lookup(t.IdOf(g)) == if g in t.closed then None else Some(t.home[g])
  {
    assert t.ConnectionOk(g);
    var i := t.home[g];
    assert t.EntryOk(i);
    var e := t.entries[i];
    if e.alive {
      assert t.ConnectionOk(e.gen);
      SameIndex(g, e.gen);
    }
  }

  lemma SameIndex(g: nat, h: nat)
    requires g <= h < g + INDEX_LIMIT
    ensures g % INDEX_LIMIT == h % INDEX_LIMIT <==> g == h
  {
  }

  /** Exactly when an id goes wrong: its entry holds a later connection whose number agrees modulo 2^32. */
  lemma ResolvesIff(t: Table, g: nat)
    requires t.Inv() && t.Settled() && g in t.home
    ensures t.home[g] < TCPLIST_MAX
    ensures var e := t.entries[t.home[g]];
            t.Lookup(t.IdOf(g)) == (if g in t.closed then None else Some(t.home[g]))
            <==> !(e.alive && e.gen != g && e.gen % INDEX_LIMIT == g % INDEX_LIMIT)
  {
    assert t.ConnectionOk(g);
    assert t.EntryOk(t.home[g]);
  }

  // ---- The table in memory ----

  /** A list without the nodes of dead. */
  ghost function Survivors(s: seq<Node>, dead: set<Node>): (r: seq<Node>)
    ensures forall n :: n in r ==> n in s && n !in dead
    ensures forall n :: n in s ==> n in dead || n in r
  {
    if s == [] then [] else (if s[0] in dead then [] else [s[0]]) + Survivors(s[1..], dead)
  }

  /** What one step makes of the table; timeout_seconds is a setting of the list. */
  ghost predicate StepOf(step: Step, a: Table, b: Table, timeout_seconds: uint16) {
    match step
    case Accept(waiting, now) =>
      exists n :: 0 <= n <= |waiting| && a.AdmitsAll(b, waiting[..n], now) && (n == |waiting| || b.Full())
    case Connect(refused, s, now) => if refused || a.Full() then b == a else a.Admits(b, s, now, 1)
    case Message(id, closes) => b == a.PollAll([Event(id, closes, false, false, false, false, false)], 0)
    case Run(events, now) => TakenBack(a, b, events, now, timeout_seconds)
    case Elsewhere(ids) => b == a.(issued := a.issued + ids)
  }

  /** After the events of a poll exactly the connections named by a closing one are taken back, and after that, once
      the grace period is over, exactly the incoming ones idle for too long by then. */
  ghost predicate TakenBack(t: Table, t2: Table, events: seq<Event>, now: uint32, timeout_seconds: uint16) {
    var t1 := t.PollAll(events, now);
    && t1.home == t.home == t2.home && t2.issued == t.issued && t2.listid == t.listid
    && AllSameTimes(t1, t2) && NamedBack(t, t1, events) && TimedOut(t1, t2, now, timeout_seconds)
  }

  /** Of all connections exactly those named by a closing event have been taken back. */
  ghost predicate NamedBack(t: Table, t1: Table, events: seq<Event>) {
    forall g :: g in t1.home ==>
      && t1.home[g] < TCPLIST_MAX
      && (g in t1.closed <==> g in t.closed || NamedIn(events, t1.IdOf(g)))
  }

  /** Of all connections exactly the incoming ones idle for too long have been taken back. */
  ghost predicate TimedOut(t1: Table, t2: Table, now: uint32, timeout_seconds: uint16) {
    forall g :: g in t2.home ==>
      && t2.home[g] < TCPLIST_MAX <= |t1.entries|
      && (g in t2.closed <==>
            || g in t1.closed
            || (timeout_seconds + 120 <= now && t1.entries[t2.home[g]].IsTimeout(now - timeout_seconds)))
  }

  /** One step of a network thread, with what the world answers; Elsewhere stands for the ids other threads draw. */
  datatype Step =
    | Accept(waiting: seq<int>, now: uint32)
    | Connect(refused: bool, s: int, now: uint32)
    | Message(id: TcpId, closes: bool)
    | Run(events: seq<Event>, now: uint32)
    | Elsewhere(ids: nat)

  class ConnectionList {
    const list_id: byte
    const timeout_seconds: uint16
    const list: seq<TcpConnection>
    const free_queue: DoubleList
    const alive_list: DoubleList
    const main: MainId
    var alive_count: int
    ghost var home: map<nat, nat>
    ghost var closed: set<nat>

    ghost predicate Formed() {
      && |list| == TCPLIST_MAX && free_queue != alive_list
      && (forall i :: 0 <= i < |list| ==> list[i].listnode.owner == i)
    }

    ghost predicate Mine(n: Node)
      requires Formed()
    {
      n.owner < |list| && n == list[n.owner].listnode
    }

    /** The entries are partitioned between the two lists. */
    ghost predicate Partition(f: seq<Node>, a: seq<Node>)
      requires Formed()
    {
      && (forall n :: n in f ==> Mine(n) && n !in a)
      && (forall n :: n in a ==> Mine(n))
      && (forall i :: 0 <= i < |list| ==> list[i].listnode in f || list[i].listnode in a)
      && |f| + |a| == TCPLIST_MAX
    }

    ghost predicate Lists()
      reads this`alive_count, free_queue, alive_list, free_queue.nodes, alive_list.nodes
    {
      && Formed() && free_queue.Valid() && alive_list.Valid()
      && Partition(free_queue.nodes, alive_list.nodes) && alive_count == |alive_list.nodes|
    }

    static ghost function EntryOf(c: TcpConnection, alive: seq<Node>): EntryView
      reads c
    {
      EntryView(c.id, c.socket, c.active_time, c.kind, c.gen, c.listnode in alive)
    }

    ghost function Entries(alive: seq<Node>): (s: seq<EntryView>)
      requires Formed()
      reads list
      ensures |s| == TCPLIST_MAX && forall i :: 0 <= i < TCPLIST_MAX ==> s[i] == EntryOf(list[i], alive)
    {
      seq(TCPLIST_MAX, i requires 0 <= i < TCPLIST_MAX reads list => EntryOf(list[i], alive))
    }

    /** The value the memory stands for. */
    ghost function View(): Table
      requires Formed()
      reads this`home, this`closed, list, alive_list`nodes, main
    {
      Table(list_id, Entries(alive_list.nodes), home, closed, main.issued)
    }

    /** Kept by every operation. */
    ghost predicate Valid()
      reads this, free_queue, alive_list, free_queue.nodes, alive_list.nodes, list, main
    {
      Lists() && main.Valid() && View().Inv()
    }

    /** init_tcpconnection_list. */
    constructor (listid: byte, timeout: uint16, main: MainId)
      requires main.Valid()
      ensures Valid() && View().Settled() && this.main == main && list_id == listid && timeout_seconds == timeout
      ensures home == map[] && alive_list.nodes == []
      ensures forall k :: 0 <= k < TCPLIST_MAX ==> free_queue.nodes[k] == list[k].listnode
      ensures fresh(free_queue) && fresh(alive_list) && fresh(list)
    {
      var entries, queue := InitEntries(listid);
      hide DoubleList.Valid, Table.Inv, Table.SettledBut;
      list, free_queue := entries, queue;
      alive_list := new DoubleList();
      this.main, list_id, timeout_seconds, alive_count := main, listid, timeout, 0;
      home, closed := map[], {};
      new;
      InitPartition();
      EmptyTable(View());
    }

    /** The loop over the entries. */
    static method InitEntries(listid: byte) returns (entries: seq<TcpConnection>, queue: DoubleList)
      ensures |entries| == TCPLIST_MAX && fresh(entries) && fresh(queue) && queue.Valid()
      ensures |queue.nodes| == TCPLIST_MAX
      ensures forall k :: 0 <= k < TCPLIST_MAX ==>
                queue.nodes[k] == entries[k].listnode && entries[k].listnode.owner == k
      ensures forall k :: 0 <= k < TCPLIST_MAX ==>
                entries[k].id == TcpId(0, k, 0, listid) && entries[k].socket == ERROR_FD
    {
      entries := [];
      queue := new DoubleList();
      hide DoubleList.Valid;
      var i := 0;
      while i < TCPLIST_MAX
        invariant 0 <= i <= TCPLIST_MAX && |entries| == i
        invariant fresh(queue) && queue.Valid() && |queue.nodes| == i
        invariant forall k :: 0 <= k < i ==> queue.nodes[k] == entries[k].listnode && fresh(entries[k].listnode)
        invariant forall k :: 0 <= k < i ==> fresh(entries[k]) && entries[k].listnode.owner == k
        invariant forall k :: 0 <= k < i ==> entries[k].id == TcpId(0, k, 0, listid) && entries[k].socket == ERROR_FD
      {
        var c := new TcpConnection(i, listid);
        queue.Push(c.listnode);
        entries := entries + [c];
        i := i + 1;
      }
    }

    lemma InitPartition()
      requires Formed() && |free_queue.nodes| == TCPLIST_MAX && alive_list.nodes == []
      requires forall k :: 0 <= k < TCPLIST_MAX ==> free_queue.nodes[k] == list[k].listnode
      ensures Partition(free_queue.nodes, alive_list.nodes)
    {
      assert forall k :: 0 <= k < |list| ==> list[k].listnode == free_queue.nodes[k];
    }

    /** An entry is out of both lists, on its way from one to the other. */
    ghost predicate Held(n: Node)
      reads this`alive_count, free_queue, alive_list, free_queue.nodes, alive_list.nodes
    {
      && Formed() && free_queue.Valid() && alive_list.Valid()
      && n !in free_queue.nodes && n !in alive_list.nodes
      && Partition([n] + free_queue.nodes, alive_list.nodes) && alive_count == |alive_list.nodes|
    }

    lemma PartitionApart(f: seq<Node>, a: seq<Node>)
      requires Formed() && Partition(f, a)
      ensures forall i, j :: 0 <= i < |f| && 0 <= j < |a| ==> f[i] != a[j]
      ensures |f| + |a| == TCPLIST_MAX
    {
      forall i, j | 0 <= i < |f| && 0 <= j < |a|
        ensures f[i] != a[j]
      {
        assert f[i] in f && a[j] in a;
      }
    }

    lemma PartitionPop(f: seq<Node>, a: seq<Node>)
      requires Formed() && Partition(f, a) && Distinct(f) && f != []
      ensures Mine(f[0]) && f[0] !in f[1..] && f[0] !in a && [f[0]] + f[1..] == f
    {
      assert f[0] in f;
    }

    lemma PartitionPush(n: Node, f: seq<Node>, a: seq<Node>)
      requires Formed() && Partition([n] + f, a) && n !in f && n !in a
      ensures Mine(n) && Partition(f, a + [n]) && Partition(f + [n], a) && |f| + |a| + 1 == TCPLIST_MAX
      ensures forall i, j :: 0 <= i < |f| && 0 <= j < |a| ==> f[i] != a[j]
    {
      assert forall x :: x in [n] + f <==> x == n || x in f;
      PartitionApart(f, a + [n]);
      assert forall j :: 0 <= j < |a| ==> a[j] == (a + [n])[j];
    }

    lemma PartitionRemove(f: seq<Node>, a: seq<Node>, i: int)
      requires Formed() && Partition(f, a) && Distinct(a) && 0 <= i < |a|
      ensures a[i] !in f && a[i] !in Without(a, i) && Partition([a[i]] + f, Without(a, i))
    {
      assert a[i] in a;
      forall n | n in a
        ensures n == a[i] || n in Without(a, i)
      {
        var k :| 0 <= k < |a| && a[k] == n;
        if k < i { assert Without(a, i)[k] == n; }
        if k > i { assert Without(a, i)[k - 1] == n; }
      }
      assert forall x :: x in [a[i]] + f <==> x == a[i] || x in f;
    }

    /** The entry at the head of the free queue, none when all are alive. */
    method PopFree() returns (c: TcpConnection?)
      requires Lists()
      modifies free_queue, free_queue.nodes
      ensures c == null <==> alive_count == TCPLIST_MAX
      ensures c == null ==> Lists() && free_queue.nodes == old(free_queue.nodes)
      ensures c != null ==> Held(c.listnode) && Mine(c.listnode) && c == list[c.listnode.owner]
      ensures c != null ==> old(free_queue.nodes) == [c.listnode] + free_queue.nodes
    {
      hide DoubleList.Valid, Partition, Distinct;
      ghost var f := free_queue.nodes;
      PartitionApart(f, alive_list.nodes);
      ListFacts(free_queue);
      if f != [] {
        PartitionPop(f, alive_list.nodes);
      }
      var node := free_queue.Pop();
      if node == null {
        return null;
      }
      c := list[node.owner];
    }

    /** double_list_push of the alive list, with its count. */
    method PushAlive(c: TcpConnection)
      requires Held(c.listnode)
      modifies this`alive_count, alive_list, alive_list.nodes, c.listnode
      ensures Lists() && alive_list.nodes == old(alive_list.nodes) + [c.listnode]
      ensures free_queue.nodes == old(free_queue.nodes)
    {
      hide DoubleList.Valid, Partition, Distinct;
      PartitionPush(c.listnode, free_queue.nodes, alive_list.nodes);
      alive_list.Push(c.listnode);
      alive_count := alive_count + 1;
    }

    method PushFree(c: TcpConnection)
      requires Held(c.listnode)
      modifies free_queue, free_queue.nodes, c.listnode
      ensures Lists() && free_queue.nodes == old(free_queue.nodes) + [c.listnode]
      ensures alive_list.nodes == old(alive_list.nodes)
    {
      hide DoubleList.Valid, Partition, Distinct;
      PartitionPush(c.listnode, free_queue.nodes, alive_list.nodes);
      free_queue.Push(c.listnode);
    }

    method RemoveAlive(c: TcpConnection)
      requires Lists() && c.listnode in alive_list.nodes
      modifies this`alive_count, alive_list, alive_list.nodes
      ensures Held(c.listnode) && free_queue.nodes == old(free_queue.nodes)
      ensures alive_list.nodes == Without(old(alive_list.nodes), old(IndexOf(alive_list.nodes, c.listnode)))
    {
      hide DoubleList.Valid, Partition, Distinct, Without;
      ghost var a, i := alive_list.nodes, IndexOf(alive_list.nodes, c.listnode);
      PartitionApart(free_queue.nodes, a);
      ListFacts(alive_list);
      PartitionRemove(free_queue.nodes, a, i);
      PartitionApart([a[i]] + free_queue.nodes, Without(a, i));
      assert alive_count > 0;
      alive_count := alive_count - 1;
      alive_list.Remove(c.listnode);
    }

    /** tcpconnection_init on an entry taken from the free queue, which then becomes alive. */
    method Admit(c: TcpConnection, s: int, now: uint32, kind: uint16)
      requires Formed() && Held(c.listnode) && Mine(c.listnode) && c == list[c.listnode.owner] && main.Valid()
      modifies this`alive_count, this`home, alive_list, alive_list.nodes, c.listnode, c, main
      ensures Lists() && main.Valid() && View() == old(View()).Admit(c.listnode.owner, s, now, kind)
      ensures alive_list.nodes == old(alive_list.nodes) + [c.listnode] && free_queue.nodes == old(free_queue.nodes)
    {
      hide Held, Partition, Lists, DoubleList.Valid, AllLinked, Distinct;
      c.Init(main, s, now, kind);
      PushAlive(c);
      home := home[c.gen := c.listnode.owner];
      forall i | 0 <= i < TCPLIST_MAX
        ensures View().entries[i] == old(View()).Admit(c.listnode.owner, s, now, kind).entries[i]
      {
        assert list[i].listnode == c.listnode <==> i == c.listnode.owner;
        assert old(View()).entries[i] == old(EntryOf(list[i], alive_list.nodes));
      }
    }

    /** The links the two lists are made of, whichever list an entry is in. */
    ghost function Nodes(): set<Node> {
      set i | 0 <= i < |list| :: list[i].listnode
    }

    lemma NodesFact()
      requires Lists()
      ensures forall i :: 0 <= i < |free_queue.nodes| ==> free_queue.nodes[i] in Nodes()
      ensures forall i :: 0 <= i < |alive_list.nodes| ==> alive_list.nodes[i] in Nodes()
      ensures forall i :: 0 <= i < |list| ==> list[i].listnode in Nodes()
    {
      forall i | 0 <= i < |free_queue.nodes|
        ensures free_queue.nodes[i] in Nodes()
      {
        assert Mine(free_queue.nodes[i]);
      }
      forall i | 0 <= i < |alive_list.nodes|
        ensures alive_list.nodes[i] in Nodes()
      {
        assert Mine(alive_list.nodes[i]);
      }
    }

    /** add_tcpconnection, under the guard of tcp_accepter_running: an entry is always free. */
    method AddTcpConnection(s: int, now: uint32)
      requires Valid() && View().Settled() && s != ERROR_FD && alive_count < TCPLIST_MAX
      modifies this`alive_count, this`home, free_queue, alive_list, Nodes(), main, list
      ensures Valid() && View().Settled() && old(View()).Grew(View())
      ensures old(free_queue.nodes) != [] && old(free_queue.nodes)[0].owner < TCPLIST_MAX
      ensures View() == old(View()).Admit(old(free_queue.nodes)[0].owner, s, now, 0)
      ensures free_queue.nodes == old(free_queue.nodes)[1..]
      ensures alive_list.nodes == old(alive_list.nodes) + [old(free_queue.nodes)[0]]
    {
      hide Table.Inv, Table.SettledBut, Partition, DoubleList.Valid;
      ghost var t := View();
      NodesFact();
      var c := PopFree();
      assert c != null && c.listnode == old(free_queue.nodes)[0] && c.listnode in old(free_queue.nodes);
      FreeIsNotAlive(t, c);
      Admit(c, s, now, 0);
      AdmitKeeps(t, c.listnode.owner, s, now, 0);
    }

    lemma HeadIsFree(t: Table)
      requires Lists() && t == View() && alive_count < TCPLIST_MAX
      ensures free_queue.nodes != [] && free_queue.nodes[0].owner < TCPLIST_MAX
      ensures !t.entries[free_queue.nodes[0].owner].alive
    {
      assert Mine(free_queue.nodes[0]) && free_queue.nodes[0] in free_queue.nodes;
    }

    lemma FreeIsNotAlive(t: Table, c: TcpConnection)
      requires Formed() && Held(c.listnode) && c == list[c.listnode.owner] && c.listnode.owner < TCPLIST_MAX
      requires t == View()
      ensures !t.entries[c.listnode.owner].alive
    {
    }

    /** How a connection attempt starts: refused at once, complete at once, or under way. */
    method AddTcpConnecting(refused: bool, s: int, now: uint32)
      requires Valid() && View().Settled() && s != ERROR_FD
      modifies this`alive_count, this`home, free_queue, alive_list, Nodes(), main, list
      ensures Valid() && View().Settled() && old(View()).Grew(View())
      ensures alive_count == old(alive_count) + if old(alive_count) == TCPLIST_MAX || refused then 0 else 1
      ensures alive_count == old(alive_count) ==> View() == old(View())
      ensures alive_count != old(alive_count) ==>
                && old(free_queue.nodes) != [] && old(free_queue.nodes)[0].owner < TCPLIST_MAX
                && View() == old(View()).Admit(old(free_queue.nodes)[0].owner, s, now, 1)
    {
      hide Table.Inv, Table.SettledBut, Partition, DoubleList.Valid;
      ghost var t := View();
      NodesFact();
      GrewRefl(t);
      var c := PopFree();
      if c == null {
        return;
      }
      assert c.listnode == old(free_queue.nodes)[0] && c.listnode in old(free_queue.nodes);
      if refused {
        assert forall i :: 0 <= i < |free_queue.nodes| ==> free_queue.nodes[i] == old(free_queue.nodes)[i + 1];
        PushFree(c);
        return;
      }
      FreeIsNotAlive(t, c);
      Admit(c, s, now, 1);
      AdmitKeeps(t, c.listnode.owner, s, now, 1);
    }

    /** The view after writing the fields of one entry. */
    lemma ViewWithout(t: Table, i: nat)
      requires Formed() && i < TCPLIST_MAX && |t.entries| == TCPLIST_MAX
      requires forall k :: 0 <= k < TCPLIST_MAX && k != i ==> t.entries[k] == EntryOf(list[k], alive_list.nodes)
      ensures View().entries == t.entries[i := EntryOf(list[i], alive_list.nodes)]
    {
    }

    /** The part of epoll_run between finding the entry and giving it back. */
    method Meet(c: TcpConnection, ev: Event, now: uint32)
      requires Formed() && Mine(c.listnode) && c == list[c.listnode.owner] && c.socket != ERROR_FD
      modifies c`socket, c`active_time
      ensures View() == old(View()).Met(c.listnode.owner, ev, now)
    {
      ghost var t := View();
      if ev.err {
        c.Close();
      } else {
        if ev.readable {
          c.Recv(ev.recvFails, now);
        }
        if ev.writable {
          c.Send(ev.sendFails, ev.sent, now);
        }
      }
      forall k | 0 <= k < TCPLIST_MAX && k != c.listnode.owner
        ensures t.entries[k] == EntryOf(list[k], alive_list.nodes)
      {
        assert t.entries[k] == old(EntryOf(list[k], alive_list.nodes));
      }
      ViewWithout(t, c.listnode.owner);
    }

    /** back_tcpconnection. */
    method BackTcpConnection(c: TcpConnection)
      requires Lists() && main.Valid() && Mine(c.listnode) && c == list[c.listnode.owner]
      requires c.listnode in alive_list.nodes
      modifies this`alive_count, this`closed, free_queue, alive_list, Nodes(), c`id
      ensures Lists() && main.Valid() && View() == old(View()).Back(c.listnode.owner)
      ensures c.socket != ERROR_FD ==>
                alive_list.nodes == old(alive_list.nodes) && free_queue.nodes == old(free_queue.nodes)
      ensures c.socket == ERROR_FD ==>
                && alive_list.nodes == Without(old(alive_list.nodes), old(IndexOf(alive_list.nodes, c.listnode)))
                && free_queue.nodes == old(free_queue.nodes) + [c.listnode]
    {
      hide Partition, DoubleList.Valid, Without, IndexOf;
      ghost var t, a := View(), alive_list.nodes;
      NodesFact();
      if c.socket == ERROR_FD {
        ListFacts(alive_list);
        Release(c);
        closed := closed + {c.gen};
        hide *;
        forall k | 0 <= k < TCPLIST_MAX && k != c.listnode.owner
          ensures t.entries[k] == EntryOf(list[k], alive_list.nodes)
        {
          assert t.entries[k] == old(EntryOf(list[k], alive_list.nodes));
          OthersStay(a, c.listnode, list[k].listnode);
        }
        ViewWithout(t, c.listnode.owner);
      }
    }

    /** The entry goes from the alive list to the end of the free queue, and its id stops being one. */
    method Release(c: TcpConnection)
      requires Lists() && Mine(c.listnode) && c.listnode in alive_list.nodes
      modifies this`alive_count, free_queue, alive_list, Nodes(), c`id
      ensures Lists() && c.id == old(c.id).(mask := 0) && c.listnode !in alive_list.nodes
      ensures alive_list.nodes == Without(old(alive_list.nodes), old(IndexOf(alive_list.nodes, c.listnode)))
      ensures free_queue.nodes == old(free_queue.nodes) + [c.listnode]
    {
      NodesFact();
      hide Partition, DoubleList.Valid, Without, IndexOf;
      assert alive_count > 0;
      RemoveAlive(c);
      c.id := c.id.(mask := 0);
      PushFree(c);
    }

    lemma OthersStay(a: seq<Node>, x: Node, n: Node)
      requires x in a && Distinct(a) && n != x
      ensures n in Without(a, IndexOf(a, x)) <==> n in a
    {
      var i := IndexOf(a, x);
      if n in a {
        var k :| 0 <= k < |a| && a[k] == n;
        if k < i { assert Without(a, i)[k] == n; }
        if k > i { assert Without(a, i)[k - 1] == n; }
      }
    }

    /** get_tcpconnection. The three assertions of the source are its precondition. */
    method GetTcpConnection(id: TcpId) returns (c: TcpConnection?)
      requires Formed() && View().Addresses(id)
      ensures match View().Lookup(id)
              case None => c == null
              case Some(i) => c != null && i < TCPLIST_MAX && c == list[i]
    {
      c := list[id.arrayid];
      assert View().entries[id.arrayid] == EntryOf(c, alive_list.nodes);
      if c.id != id || c.socket == ERROR_FD {
        c := null;
      }
    }

    /** One turn of the loop of epoll_run. */
    method HandleEvent(ev: Event, now: uint32)
      requires Valid() && View().Settled() && View().Addresses(ev.id)
      modifies this`alive_count, this`closed, free_queue, alive_list, Nodes(), list
      ensures Valid() && View().Settled() && View() == old(View()).Poll(ev, now)
      ensures EventHeard(old(View()), View(), ev, now)
    {
      hide Partition, DoubleList.Valid, Table.Settled, Table.Met, Table.Back;
      ghost var t := View();
      PollKeeps(t, ev, now);
      OnePollHeard(t, ev, now);
      hide EventHeard;
      var con := GetTcpConnection(ev.id);
      if con == null {
        return;
      }
      OpenIsAlive(t, ev.id.arrayid);
      Meet(con, ev, now);
      BackTcpConnection(con);
    }

    lemma OpenIsAlive(t: Table, i: nat)
      requires Lists() && t == View() && t.Settled() && i < TCPLIST_MAX && t.entries[i].socket != ERROR_FD
      ensures t.entries[i].alive && list[i].listnode in alive_list.nodes && Mine(list[i].listnode)
      ensures list[i].listnode.owner == i
    {
    }

    /** epoll_run: exactly the open connections named by an event that closes the socket are taken back. */
    method EpollRun(events: seq<Event>, now: uint32)
      requires Valid() && View().Settled() && forall k :: 0 <= k < |events| ==> View().Addresses(events[k].id)
      modifies this`alive_count, this`closed, free_queue, alive_list, Nodes(), list
      ensures Valid() && View().Settled() && old(View()).Grew(View()) && home == old(home)
      ensures NamedBack(old(View()), View(), events)
      ensures View() == old(View()).PollAll(events, now)
    {
      hide Partition, DoubleList.Valid, Table.Settled, Table.Poll, Table.Inv, Table.Grew;
      ghost var t := View();
      hide Lists;
      GrewRefl(t);
      var i := 0;
      while i < |events|
        invariant 0 <= i <= |events| && Valid() && View().Settled() && t.Grew(View()) && home == t.home
        invariant main.issued == t.issued && View() == t.PollAll(events[..i], now)
        invariant forall g :: g in home && home[g] < TCPLIST_MAX ==>
                    (g in closed <==> g in t.closed || NamedIn(events[..i], t.IdOf(g)))
      {
        ghost var t1 := View();
        PollKeeps(t1, events[i], now);
        assert events[..i + 1][..i] == events[..i];
        HandleEvent(events[i], now);
        GrewTrans(t, t1, View());
        forall g | g in home && home[g] < TCPLIST_MAX
          ensures NamedIn(events[..i + 1], t.IdOf(g))
                  <==> NamedIn(events[..i], t.IdOf(g)) || (t.IdOf(g) == events[i].id && events[i].Closing())
        {
          NamedInSnoc(events, i, t.IdOf(g));
        }
        i := i + 1;
      }
      assert events[..i] == events;
      HomeInTable(View());
    }

    /** do_tcpconnection_msg: a message for a connection that is gone is dropped; handling it may close the socket. */
    method DoTcpConnectionMsg(id: TcpId, closes: bool)
      requires Valid() && View().Settled() && View().Addresses(id)
      modifies this`alive_count, this`closed, free_queue, alive_list, Nodes(), list
      ensures Valid() && View().Settled() && old(View()).Grew(View()) && home == old(home)
      ensures forall g :: g in home ==>
                && home[g] < TCPLIST_MAX
                && (g in closed <==> g in old(closed) || (View().IdOf(g) == id && closes))
      ensures View() == old(View()).Poll(Event(id, closes, false, false, false, false, false), 0)
    {
      hide Partition, DoubleList.Valid, Table.Settled, Table.Met, Table.Back, Table.Inv, Table.Grew;
      ghost var t, ev := View(), Event(id, closes, false, false, false, false, false);
      PollKeeps(t, ev, 0);
      HomeInTable(t);
      var c := GetTcpConnection(id);
      if c == null {
        return;
      }
      OpenIsAlive(t, id.arrayid);
      MessageIsEvent(t, ev, 0, id.arrayid);
      if closes {
        CloseOne(c);
      }
      BackTcpConnection(c);
    }

    lemma MessageIsEvent(t: Table, ev: Event, now: uint32, i: nat)
      requires i < |t.entries| && t.entries[i].socket != ERROR_FD && !ev.readable && !ev.writable
      ensures t.Met(i, ev, now) == if ev.err then t.Shut(i) else t
    {
    }

    /** tcpconnection_close, seen from the table. */
    method CloseOne(c: TcpConnection)
      requires Formed() && Mine(c.listnode) && c == list[c.listnode.owner]
      modifies c`socket
      ensures c.socket == ERROR_FD && View() == old(View()).Shut(c.listnode.owner)
    {
      ghost var t := View();
      c.Close();
      forall k | 0 <= k < TCPLIST_MAX && k != c.listnode.owner
        ensures t.entries[k] == EntryOf(list[k], alive_list.nodes)
      {
        assert t.entries[k] == old(EntryOf(list[k], alive_list.nodes));
      }
      ViewWithout(t, c.listnode.owner);
    }

    /** The loop of tcp_accepter_running: connections are accepted as long as there is room and one is waiting. */
    method TcpAccepterRunning(waiting: seq<int>, now: uint32) returns (n: nat)
      requires Valid() && View().Settled() && forall k :: 0 <= k < |waiting| ==> waiting[k] != ERROR_FD
      modifies this`alive_count, this`home, free_queue, alive_list, Nodes(), main, list
      ensures Valid() && View().Settled() && old(View()).Grew(View()) && closed == old(closed)
      ensures n == (if |waiting| <= TCPLIST_MAX - old(alive_count) then |waiting| else TCPLIST_MAX - old(alive_count))
      ensures main.issued == old(main.issued) + n && |alive_list.nodes| == |old(alive_list.nodes)| + n
      ensures forall k :: 0 <= k < n ==> View().Holds(old(main.issued) + k, waiting[k])
      ensures old(View()).AdmitsAll(View(), waiting[..n], now) && (n == |waiting| || View().Full())
    {
      hide Partition, DoubleList.Valid, Table.Settled, Table.Inv, Table.Grew, Table.Admit, Table.Holds;
      ghost var t := View();
      GrewRefl(t);
      PartitionApart(free_queue.nodes, alive_list.nodes);
      n := 0;
      while alive_count < TCPLIST_MAX && n < |waiting|
        invariant 0 <= n <= |waiting| && Valid() && View().Settled() && t.Grew(View()) && closed == t.closed
        invariant alive_count == old(alive_count) + n <= TCPLIST_MAX && main.issued == t.issued + n
        invariant forall k :: 0 <= k < n ==> View().Holds(t.issued + k, waiting[k])
        invariant t.AdmitsAll(View(), waiting[..n], now)
      {
        ghost var t1 := View();
        HeadIsFree(t1);
        ghost var i := free_queue.nodes[0].owner;
        AdmitKeeps(t1, i, waiting[n], now, 0);
        forall k | 0 <= k <= n
          ensures t1.Admit(i, waiting[n], now, 0).Holds(t.issued + k, waiting[k])
        {
          AdmitHolds(t1, i, waiting[n], now, 0, t.issued + k, waiting[k]);
        }
        AddTcpConnection(waiting[n], now);
        GrewTrans(t, t1, View());
        AdmitsMore(t, t1, View(), waiting, n, now, i);
        n := n + 1;
      }
      FullIff();
    }

    static lemma AdmitsMore(t: Table, t1: Table, t2: Table, waiting: seq<int>, n: nat, now: uint32, i: nat)
      requires n < |waiting| && t.AdmitsAll(t1, waiting[..n], now)
      requires i < TCPLIST_MAX <= |t1.entries| && !t1.entries[i].alive && t2 == t1.Admit(i, waiting[n], now, 0)
      ensures t.AdmitsAll(t2, waiting[..n + 1], now)
    {
      hide Table.Admit;
      assert waiting[..n + 1][..n] == waiting[..n];
      assert t1.Admits(t2, waiting[n], now, 0);
    }

    lemma FullIff()
      requires Lists()
      ensures View().Full() <==> alive_count == TCPLIST_MAX
    {
      if alive_count < TCPLIST_MAX {
        HeadIsFree(View());
      } else {
        assert free_queue.nodes == [];
        forall i | 0 <= i < TCPLIST_MAX
          ensures View().entries[i].alive
        {
          assert list[i].listnode in alive_list.nodes;
        }
      }
    }

    /** The second half of tcp_connectionlist_run: once the first grace period is over, every connection idle for
        longer than the timeout is taken back, outgoing ones excepted; the others stay alive in their order. */
    method ClearTimeouts(now: uint32)
      requires Valid() && View().Settled()
      modifies this`alive_count, this`closed, free_queue, alive_list, Nodes(), list
      ensures Valid() && View().Settled() && old(View()).Grew(View()) && home == old(home)
      ensures timeout_seconds + 120 > now ==> View() == old(View()) && alive_list.nodes == old(alive_list.nodes)
      ensures AllSameTimes(old(View()), View())
      ensures timeout_seconds + 120 <= now ==>
                alive_list.nodes
                == Survivors(old(alive_list.nodes), Idle(old(View()), old(alive_list.nodes), now - timeout_seconds))
      ensures TimedOut(old(View()), View(), now, timeout_seconds)
    {
      hide Partition, DoubleList.Valid, Table.Settled, Table.Inv, Table.Grew, Survivors, Idle;
      ghost var t := View();
      GrewRefl(t);
      TimesStart(t);
      if timeout_seconds + 120 > now {
        HomeInTable(t);
        return;
      }
      var cut := now - timeout_seconds;
      ghost var a := alive_list.nodes;
      ghost var dead := Idle(t, a, cut);
      var node := alive_list.head;
      ghost var i := 0;
      ListFacts(alive_list);
      SurvivorsStart(a, dead);
      hide Mine, Lists, AllSameTimes, Without, IndexOf, Table.Shut, Table.Back, EntryView.IsTimeout, Distinct;
      while node != null
        invariant 0 <= i <= |a| && node == At(a, i)
        invariant Valid() && View().Settled() && t.Grew(View()) && home == t.home
        invariant alive_list.nodes == Survivors(a[..i], dead) + a[i..]
        invariant AllSameTimes(t, View())
        decreases |a| - i
      {
        ghost var t1 := View();
        NodeAt(a, i, dead);
        ClearStep(t, t1, a, i, cut);
        node := ClearOne(node, cut);
        i := i + 1;
      }
      assert a[..i] == a && a[i..] == [];
      assert alive_list.nodes == Survivors(a, dead);
      ClearedExactly(t, a, cut);
    }

    /** One turn of the loop. */
    method ClearOne(node: Node, cut: int) returns (next: Node?)
      requires Lists() && main.Valid() && Mine(node) && node in alive_list.nodes
      modifies this`alive_count, this`closed, free_queue, alive_list, Nodes(), list
      ensures Lists() && main.Valid() && next == old(node.next)
      ensures var idle := old(View()).entries[node.owner].IsTimeout(cut);
              && View() == (if idle then old(View()).Shut(node.owner).Back(node.owner) else old(View()))
              && alive_list.nodes == if idle then Without(old(alive_list.nodes), old(IndexOf(alive_list.nodes, node)))
                                     else old(alive_list.nodes)
    {
      hide Partition, DoubleList.Valid, Without, IndexOf;
      ghost var t := View();
      var c := list[node.owner];
      assert t.entries[node.owner] == EntryOf(c, alive_list.nodes);
      next := node.next;
      if c.IsTimeout(cut) {
        CloseOne(c);
        BackTcpConnection(c);
      }
    }

    /** What the sweep finds at its i-th node: everything before has been dealt with, everything behind is untouched. */
    lemma NodeAt(a: seq<Node>, i: nat, dead: set<Node>)
      requires Lists() && i < |a| && alive_list.nodes == Survivors(a[..i], dead) + a[i..]
      ensures Mine(a[i]) && a[i] in alive_list.nodes && a[i].next == At(a, i + 1)
      ensures Survivors(a[..i + 1], dead) + a[i + 1..]
              == if a[i] in dead then Without(alive_list.nodes, IndexOf(alive_list.nodes, a[i])) else alive_list.nodes
    {
      ListFacts(alive_list);
      NodesFact();
      hide *;
      SweepStep(a, i, alive_list.nodes, dead);
      NodeIsMine(|Survivors(a[..i], dead)|);
    }

    lemma NodeIsMine(k: nat)
      requires Lists() && k < |alive_list.nodes|
      ensures Formed() && Mine(alive_list.nodes[k])
    {
    }

    lemma ClearStep(t: Table, t1: Table, a: seq<Node>, i: nat, cut: int)
      requires Formed() && i < |a| && Mine(a[i]) && a[i] in alive_list.nodes && t1 == View()
      requires t1.Inv() && t1.Settled() && t.Grew(t1) && |t.entries| == TCPLIST_MAX
      requires AllSameTimes(t, t1)
      ensures a[i] in Idle(t, a, cut) <==> t1.entries[a[i].owner].IsTimeout(cut)
      ensures a[i] in Idle(t, a, cut) ==>
                var t' := t1.Shut(a[i].owner).Back(a[i].owner);
                && t'.Inv() && t'.Settled() && t.Grew(t') && t'.home == t1.home
                && AllSameTimes(t, t')
    {
      hide Table.Inv, Table.Grew, Table.Settled;
      assert t1.entries[a[i].owner].alive;
      TakeBackKeeps(t, t1, a[i].owner);
    }

    lemma ClearedExactly(t: Table, a: seq<Node>, cut: int)
      requires Formed() && t.Inv() && View().Inv() && View().home == t.home && |t.entries| == TCPLIST_MAX
      requires AllSameTimes(t, View())
      requires forall k :: 0 <= k < TCPLIST_MAX ==> (t.entries[k].alive <==> list[k].listnode in a)
      requires alive_list.nodes == Survivors(a, Idle(t, a, cut))
      ensures forall g :: g in home ==>
                && home[g] < TCPLIST_MAX
                && (g !in closed <==> g !in t.closed && !t.entries[home[g]].IsTimeout(cut))
    {
      hide Table.Inv;
      forall g | g in home
        ensures home[g] < TCPLIST_MAX && (g !in closed <==> g !in t.closed && !t.entries[home[g]].IsTimeout(cut))
      {
        InvFacts(t, g);
        InvFacts(View(), g);
        assert View().entries[home[g]] == EntryOf(list[home[g]], alive_list.nodes);
      }
    }

    /** tcp_connectionlist_run. */
    method TcpConnectionListRun(events: seq<Event>, now: uint32)
      requires Valid() && View().Settled() && forall k :: 0 <= k < |events| ==> View().Addresses(events[k].id)
      modifies this`alive_count, this`closed, free_queue, alive_list, Nodes(), list
      ensures Valid() && View().Settled() && old(View()).Grew(View()) && home == old(home)
      ensures TakenBack(old(View()), View(), events, now, timeout_seconds)
      ensures forall g :: g in home && g !in old(closed) && RenewedIn(events, View().IdOf(g)) ==>
                (g in closed <==> NamedIn(events, View().IdOf(g)))
    {
      ghost var t := View();
      hide Lists, Table.Settled, Table.Inv, Table.Grew, Table.PollAll, NamedBack, TimedOut, AllSameTimes;
      EpollRun(events, now);
      ghost var t1 := View();
      ClearTimeouts(now);
      GrewTrans(t, t1, View());
      RenewedStay(t, View(), events, now, timeout_seconds);
    }

    /** Traffic in a poll keeps a connection from the sweep behind it. */
    static lemma RenewedStay(t: Table, t2: Table, events: seq<Event>, now: uint32, timeout_seconds: uint16)
      requires t.Inv() && t.Settled() && TakenBack(t, t2, events, now, timeout_seconds)
      ensures forall g :: g in t.home ==> t2.home[g] < TCPLIST_MAX
      ensures forall g :: g in t.home && g !in t.closed && RenewedIn(events, t2.IdOf(g)) ==>
                (g in t2.closed <==> NamedIn(events, t2.IdOf(g)))
    {
      hide Table.Inv, Table.Settled, Table.PollAll, RenewedIn, NamedIn;
      PollAllHeard(t, events, now);
    }

    /** Ids drawn by the tables of other threads. */
    method DrawElsewhere(ids: nat)
      requires Valid() && View().Settled()
      modifies main
      ensures Valid() && View().Settled() && old(View()).Grew(View()) && main.issued == old(main.issued) + ids
    {
      ghost var t := View();
      hide Lists, Table.Settled;
      for i := 0 to ids
        invariant main.Valid() && main.issued == t.issued + i
      {
        var index := main.LockAdd();
      }
      DrawKeeps(t, main.issued);
    }

    ghost predicate Proper(step: Step) {
      match step
      case Accept(waiting, _) => ERROR_FD !in waiting
      case Connect(_, s, _) => s != ERROR_FD
      case Message(id, _) => id.arrayid < TCPLIST_MAX && id.listid == list_id && id.mask == TCPID_MASK
      case Run(events, _) =>
        forall k :: 0 <= k < |events| ==>
          && events[k].id.arrayid < TCPLIST_MAX && events[k].id.listid == list_id
          && events[k].id.mask == TCPID_MASK
      case Elsewhere(_) => true
    }

    method Do(step: Step)
      requires Valid() && View().Settled() && Proper(step)
      modifies this`alive_count, this`home, this`closed, free_queue, alive_list, Nodes(), main, list
      ensures Valid() && View().Settled() && old(View()).Grew(View())
      ensures StepOf(step, old(View()), View(), timeout_seconds)
    {
      ghost var t := View();
      hide Lists, Table.Settled, Table.Inv, Table.Admit, Table.Poll, Table.AdmitsAll, Table.Full, TakenBack;
      match step {
        case Accept(waiting, now) =>
          var n := TcpAccepterRunning(waiting, now);
        case Connect(refused, s, now) =>
          ConnectOne(refused, s, now);
        case Message(id, closes) =>
          DoTcpConnectionMsg(id, closes);
          OnePoll(t, Event(id, closes, false, false, false, false, false));
        case Run(events, now) =>
          TcpConnectionListRun(events, now);
        case Elsewhere(ids) =>
          DrawElsewhere(ids);
      }
    }

    method ConnectOne(refused: bool, s: int, now: uint32)
      requires Valid() && View().Settled() && s != ERROR_FD
      modifies this`alive_count, this`home, free_queue, alive_list, Nodes(), main, list
      ensures Valid() && View().Settled() && old(View()).Grew(View())
      ensures if refused || old(View()).Full() then View() == old(View()) else old(View()).Admits(View(), s, now, 1)
    {
      ghost var t := View();
      FullIff();
      if alive_count < TCPLIST_MAX {
        HeadIsFree(t);
      }
      hide Lists, Table.Settled, Table.Inv, Table.Admit, Table.Full, Table.Grew;
      AddTcpConnecting(refused, s, now);
    }

    static lemma OnePoll(t: Table, ev: Event)
      requires |t.entries| == TCPLIST_MAX && t.Addresses(ev.id)
      ensures t.PollAll([ev], 0) == t.Poll(ev, 0)
    {
      hide Table.Poll;
      assert [ev][..0] == [];
    }

    /** Over any run the table keeps its invariants, and a connection it has had is neither forgotten nor reopened. Of
        every connection, those opened on the way too, as long as fewer than 2^32 ids follow, the id means that
        connection or nothing. */
    method RunAll(steps: seq<Step>) returns (ghost trace: seq<Table>)
      requires Valid() && View().Settled() && forall k :: 0 <= k < |steps| ==> Proper(steps[k])
      modifies this`alive_count, this`home, this`closed, free_queue, alive_list, Nodes(), main, list
      ensures Valid() && View().Settled() && old(View()).Grew(View())
      ensures IsRun(steps, trace, timeout_seconds) && trace[0] == old(View()) && trace[|steps|] == View()
      ensures SweptIdle(steps, trace, timeout_seconds)
      ensures forall g :: g in old(home) ==> g in home && home[g] == old(home[g]) && (g in old(closed) ==> g in closed)
      ensures forall g :: g in home && main.issued <= g + INDEX_LIMIT ==>
                && home[g] < TCPLIST_MAX
                && View().Lookup(View().IdOf(g)) == (if g in closed then None else Some(home[g]))
    {
      ghost var t := View();
      hide Lists, Table.Settled, Table.Inv, Table.Grew, StepOf, SoundTable, IsRun;
      GrewRefl(t);
      trace := [t];
      ResolvesAll(t);
      RunStart(steps[..0], t, timeout_seconds);
      for i := 0 to |steps|
        invariant Valid() && View().Settled() && t.Grew(View())
        invariant |trace| == i + 1 && trace[0] == t && trace[i] == View()
        invariant IsRun(steps[..i], trace, timeout_seconds)
      {
        ghost var t1 := View();
        Do(steps[i]);
        GrewTrans(t, t1, View());
        ResolvesAll(View());
        RunSnoc(steps, i, trace, View(), timeout_seconds);
        trace := trace + [View()];
      }
      assert steps[..|steps|] == steps;
      EndSound(steps, trace, timeout_seconds);
      RunEnds(t, View());
      SweepsIdle(steps, trace, timeout_seconds);
    }

    static lemma EndSound(steps: seq<Step>, trace: seq<Table>, timeout_seconds: uint16)
      requires IsRun(steps, trace, timeout_seconds)
      ensures |trace| == |steps| + 1 && SoundTable(trace[|steps|])
    {
    }

    static lemma RunEnds(t: Table, t': Table)
      requires t.Grew(t') && SoundTable(t')
      ensures forall g :: g in t.home ==> g in t'.home && t'.home[g] == t.home[g] && (g in t.closed ==> g in t'.closed)
      ensures forall g :: g in t'.home && t'.issued <= g + INDEX_LIMIT ==>
                && t'.home[g] < TCPLIST_MAX == |t'.entries|
                && t'.Lookup(t'.IdOf(g)) == (if g in t'.closed then None else Some(t'.home[g]))
    {
      forall g | g in t.home
        ensures g in t'.home
      {
        assert g in t.home.Keys;
      }
    }
  }

  /** The invariants, and every id that is still told apart means its own connection or nothing. */
  ghost predicate SoundTable(t: Table) {
    && t.Inv() && t.Settled()
    && forall g :: g in t.home && t.issued <= g + INDEX_LIMIT ==>
         t.home[g] < TCPLIST_MAX && t.Lookup(t.IdOf(g)) == if g in t.closed then None else Some(t.home[g])
  }

  /** Every step did its part, and every table on the way was sound. */
  ghost predicate IsRun(steps: seq<Step>, trace: seq<Table>, timeout_seconds: uint16) {
    && |trace| == |steps| + 1
    && (forall i :: 0 <= i < |steps| ==> StepOf(steps[i], trace[i], trace[i + 1], timeout_seconds))
    && forall i :: 0 <= i <= |steps| ==> SoundTable(trace[i])
  }

  lemma RunStart(steps: seq<Step>, t: Table, timeout_seconds: uint16)
    requires steps == [] && SoundTable(t)
    ensures IsRun(steps, [t], timeout_seconds)
  {
  }

  lemma RunSnoc(steps: seq<Step>, i: nat, trace: seq<Table>, t: Table, timeout_seconds: uint16)
    requires i < |steps| && IsRun(steps[..i], trace, timeout_seconds)
    requires StepOf(steps[i], trace[i], t, timeout_seconds) && SoundTable(t)
    ensures IsRun(steps[..i + 1], trace + [t], timeout_seconds) && (trace + [t])[0] == trace[0]
  {
    hide StepOf, SoundTable;
  }

  lemma ResolvesAll(t: Table)
    requires t.Inv() && t.Settled()
    ensures SoundTable(t)
  {
    forall g | g in t.home && t.issued <= g + INDEX_LIMIT
      ensures t.home[g] < TCPLIST_MAX && t.Lookup(t.IdOf(g)) == if g in t.closed then None else Some(t.home[g])
    {
      Resolves(t, g);
    }
  }

  lemma DrawKeeps(t: Table, issued: nat)
    requires t.Inv() && t.Settled() && issued >= t.issued
    ensures var t' := t.(issued := issued);
            t'.Inv() && t'.Settled() && t.Grew(t')
  {
    var t' := t.(issued := issued);
    forall k | 0 <= k < |t'.entries|
      ensures t'.EntryOk(k)
    {
      assert t.EntryOk(k);
    }
    forall g | g in t'.home
      ensures t'.ConnectionOk(g)
    {
      assert t.ConnectionOk(g);
    }
  }

  lemma InvFacts(t: Table, g: nat)
    requires t.Inv() && g in t.home
    ensures t.home[g] < TCPLIST_MAX == |t.entries|
    ensures g !in t.closed ==> t.entries[t.home[g]].gen == g && t.entries[t.home[g]].alive
    ensures t.entries[t.home[g]].alive ==> t.entries[t.home[g]].gen !in t.closed
  {
    assert t.ConnectionOk(g);
    assert t.EntryOk(t.home[g]);
  }

  /** Only the fields a sweep may not change. */
  predicate SameTimes(e: EntryView, e': EntryView) {
    e'.active_time == e.active_time && e'.kind == e.kind && e'.gen == e.gen
  }

  ghost predicate AllSameTimes(t: Table, t': Table) {
    && |t.entries| == |t'.entries| == TCPLIST_MAX
    && forall k :: 0 <= k < TCPLIST_MAX ==> SameTimes(t.entries[k], t'.entries[k])
  }

  lemma TimesStart(t: Table)
    requires |t.entries| == TCPLIST_MAX
    ensures AllSameTimes(t, t)
  {
  }

  ghost function Idle(t: Table, a: seq<Node>, cut: int): set<Node> {
    set n | n in a && n.owner < |t.entries| && t.entries[n.owner].IsTimeout(cut)
  }

  /** Closing and taking back one live connection. */
  lemma TakeBackKeeps(t: Table, t1: Table, i: nat)
    requires t1.Inv() && t1.Settled() && t.Grew(t1) && i < TCPLIST_MAX == |t.entries| && t1.entries[i].alive
    requires forall k :: 0 <= k < TCPLIST_MAX ==> SameTimes(t.entries[k], t1.entries[k])
    ensures var t' := t1.Shut(i).Back(i);
            && t'.Inv() && t'.Settled() && t.Grew(t') && t'.home == t1.home
            && forall k :: 0 <= k < TCPLIST_MAX ==> SameTimes(t.entries[k], t'.entries[k])
  {
    assert |t1.entries| == TCPLIST_MAX;
    hide Table.Inv, Table.Grew;
    ShutKeeps(t1, i);
    BackKeeps(t1.Shut(i), i);
    GrewTrans(t1, t1.Shut(i), t1.Shut(i).Back(i));
    GrewTrans(t, t1, t1.Shut(i).Back(i));
  }

  lemma SurvivorsStart(a: seq<Node>, dead: set<Node>)
    ensures Survivors(a[..0], dead) + a[0..] == a
  {
  }

  lemma {:induction false} SurvivorsSnoc(s: seq<Node>, x: Node, dead: set<Node>)
    ensures Survivors(s + [x], dead) == Survivors(s, dead) + if x in dead then [] else [x]
  {
    if s == [] {
      assert [x][1..] == [] && s + [x] == [x];
    } else {
      assert (s + [x])[1..] == s[1..] + [x];
      SurvivorsSnoc(s[1..], x, dead);
    }
  }

  /** One node of a sweep over the sequence a: s is what is left of the list so far. */
  lemma SweepStep(a: seq<Node>, i: nat, s: seq<Node>, dead: set<Node>)
    requires i < |a| && Distinct(s) && s == Survivors(a[..i], dead) + a[i..]
    ensures var k := |Survivors(a[..i], dead)|;
            && k < |s| && s[k] == a[i] && At(s, k + 1) == At(a, i + 1) && a[i] in s && IndexOf(s, a[i]) == k
            && Survivors(a[..i + 1], dead) + a[i + 1..] == if a[i] in dead then Without(s, k) else s
  {
    hide Distinct, IndexOf, Survivors;
    var p := Survivors(a[..i], dead);
    assert s[|p|] == a[i];
    IndexUnique(s, |p|);
    assert a[..i] + [a[i]] == a[..i + 1];
    SurvivorsSnoc(a[..i], a[i], dead);
    assert Without(s, |p|) == p + a[i + 1..];
    assert s == (p + [a[i]]) + a[i + 1..];
    if i + 1 < |a| {
      assert s[|p| + 1] == a[i + 1];
    }
  }

  lemma IndexUnique(s: seq<Node>, k: nat)
    requires Distinct(s) && k < |s|
    ensures IndexOf(s, s[k]) == k
  {
  }

  /** An error, or a read or write that fails, closes the connection with this id. */
  ghost predicate NamedIn(events: seq<Event>, id: TcpId) {
    exists k :: 0 <= k < |events| && events[k].id == id
                && (|| events[k].err || (events[k].readable && events[k].recvFails)
                    || (events[k].writable && events[k].sendFails))
  }

  lemma NamedInSnoc(events: seq<Event>, i: nat, id: TcpId)
    requires i < |events|
    ensures NamedIn(events[..i + 1], id) <==> NamedIn(events[..i], id) || (id == events[i].id && events[i].Closing())
  {
    var s, s' := events[..i], events[..i + 1];
    assert s' == s + [events[i]];
    if NamedIn(s, id) {
      var k :| 0 <= k < |s| && s[k].id == id && s[k].Closing();
      assert s'[k] == s[k] && s[k].Closing();
    }
  }

  lemma HomeInTable(t: Table)
    requires t.Inv()
    ensures forall g :: g in t.home ==> t.home[g] < TCPLIST_MAX
  {
    forall g | g in t.home
      ensures t.home[g] < TCPLIST_MAX
    {
      assert t.ConnectionOk(g);
    }
  }

  // ---- Idle connections over whole runs ----

  /** An event that brings data of a connection, or takes some, and leaves it open. */
  predicate Renews(ev: Event, id: TcpId) {
    && ev.id == id && !ev.err && !(ev.readable && ev.recvFails) && !(ev.writable && ev.sendFails)
    && (ev.readable || (ev.writable && ev.sent))
  }

  ghost predicate RenewedIn(events: seq<Event>, id: TcpId) {
    exists k :: 0 <= k < |events| && Renews(events[k], id)
  }

  lemma RenewedInSnoc(events: seq<Event>, id: TcpId)
    requires events != []
    ensures var n := |events| - 1;
            RenewedIn(events, id) <==> RenewedIn(events[..n], id) || Renews(events[n], id)
  {
    var s := events[..|events| - 1];
    if RenewedIn(s, id) {
      var k :| 0 <= k < |s| && Renews(s[k], id);
      assert events[k] == s[k];
    }
    if RenewedIn(events, id) {
      var k :| 0 <= k < |events| && Renews(events[k], id);
      assert k < |s| ==> s[k] == events[k];
    }
  }

  /** What the steps say of a connection: when it was last accepted or made, received from or sent to, and whether it
      came in. */
  datatype Past = Past(heard: int, incoming: bool)

  ghost function PastOf(steps: seq<Step>, trace: seq<Table>, g: nat): Past
    requires |trace| == |steps| + 1
    decreases |steps|
  {
    var n := |steps|;
    if n == 0 then
      if g in trace[0].home && trace[0].home[g] < |trace[0].entries|
      then var e := trace[0].entries[trace[0].home[g]];
           Past(e.active_time, e.kind != 1)
      else Past(0, false)
    else if g !in trace[n - 1].home then
      match steps[n - 1]
      case Accept(_, now) => Past(now, true)
      case Connect(_, _, now) => Past(now, false)
      case _ => Past(0, false)
    else
      var p := PastOf(steps[..n - 1], trace[..n], g);
      if RenewedBy(steps[n - 1], trace[n - 1], g) then p.(heard := steps[n - 1].now) else p
  }

  ghost predicate RenewedBy(step: Step, t: Table, g: nat)
    requires g in t.home
  {
    step.Run? && t.home[g] < TCPLIST_MAX && RenewedIn(step.events, t.IdOf(g))
  }

  /** Of the connections open before it, the poll of each step of a run takes back those a closing event names, and
      after it the sweep those that came in and were last accepted, received from or sent to too long ago. */
  ghost predicate SweptIdle(steps: seq<Step>, trace: seq<Table>, timeout_seconds: uint16)
    requires |trace| == |steps| + 1
  {
    forall i, g :: 0 <= i < |steps| && g in trace[i].home && g !in trace[i].closed ==>
      SweptSo(steps, trace, i, g, timeout_seconds)
  }

  ghost predicate SweptSo(steps: seq<Step>, trace: seq<Table>, i: nat, g: nat, timeout_seconds: uint16)
    requires |trace| == |steps| + 1 && i < |steps| && g in trace[i].home
  {
    steps[i].Run? && trace[i].home[g] < TCPLIST_MAX ==>
      var (events, now) := (steps[i].events, steps[i].now);
      var past := PastOf(steps[..i], trace[..i + 1], g);
      g in trace[i + 1].closed <==>
        || NamedIn(events, trace[i].IdOf(g))
        || (&& timeout_seconds + 120 <= now && past.incoming && past.heard < now - timeout_seconds
            && !RenewedIn(events, trace[i].IdOf(g)))
  }

  /** The table knows of every open connection what the steps say. */
  ghost predicate Knows(t: Table, g: nat, p: Past) {
    && g in t.home && t.home[g] < |t.entries|
    && t.entries[t.home[g]].active_time == p.heard && (t.entries[t.home[g]].kind != 1 <==> p.incoming)
  }

  /** What one step changes of what the table knows. */
  ghost predicate Hears(step: Step, a: Table, b: Table) {
    forall g :: g in b.home && g !in b.closed ==> HearsOf(step, a, b, g)
  }

  ghost predicate HearsOf(step: Step, a: Table, b: Table, g: nat)
    requires g in b.home
  {
    && b.home[g] < |b.entries|
    && var e := b.entries[b.home[g]];
       if g !in a.home then
         match step
         case Accept(_, now) => e.active_time == now && e.kind != 1
         case Connect(_, _, now) => e.active_time == now && e.kind == 1
         case _ => false
       else
         && g !in a.closed && a.home[g] == b.home[g] < |a.entries|
         && e.kind == a.entries[a.home[g]].kind
         && e.active_time == if RenewedBy(step, a, g) then step.now else a.entries[a.home[g]].active_time
  }

  /** Every connection open in b was open in a with the same times, or is new with these. */
  ghost predicate KeepsTimes(a: Table, b: Table, now: uint32, incoming: bool) {
    forall g :: g in b.home && g !in b.closed ==>
      && b.home[g] < |b.entries|
      && var e := b.entries[b.home[g]];
         if g in a.home then
           && g !in a.closed && a.home[g] == b.home[g] < |a.entries|
           && e.kind == a.entries[a.home[g]].kind && e.active_time == a.entries[a.home[g]].active_time
         else e.active_time == now && (e.kind != 1 <==> incoming)
  }

  lemma AdmitTimes(a: Table, b: Table, s: int, now: uint32, kind: uint16)
    requires a.Inv() && a.Admits(b, s, now, kind) && kind <= 1
    ensures b.Inv() && a.Grew(b) && KeepsTimes(a, b, now, kind != 1)
  {
    var i :| 0 <= i < TCPLIST_MAX <= |a.entries| && !a.entries[i].alive && b == a.Admit(i, s, now, kind);
    AdmitInv(a, i, s, now, kind);
    forall g | g in a.home && g !in a.closed
      ensures a.home[g] != i && a.home[g] < |a.entries| && g != a.issued
    {
      assert a.ConnectionOk(g);
    }
    forall g | g in a.home
      ensures g != a.issued
    {
      assert a.ConnectionOk(g);
    }
  }

  lemma {:induction false} AdmitAllTimes(a: Table, b: Table, sockets: seq<int>, now: uint32)
    requires a.Inv() && a.AdmitsAll(b, sockets, now)
    ensures b.Inv() && a.Grew(b) && KeepsTimes(a, b, now, true)
    decreases |sockets|
  {
    hide Table.Inv, Table.Admits;
    if sockets == [] {
      OwnTimes(a, now);
    } else {
      var n := |sockets| - 1;
      var t1: Table :| a.AdmitsAll(t1, sockets[..n], now) && t1.Admits(b, sockets[n], now, 0);
      AdmitAllTimes(a, t1, sockets[..n], now);
      AdmitTimes(t1, b, sockets[n], now, 0);
      TimesTrans(a, t1, b, now);
    }
  }

  lemma TimesTrans(a: Table, t: Table, b: Table, now: uint32)
    requires a.Grew(t) && t.Grew(b) && KeepsTimes(a, t, now, true) && KeepsTimes(t, b, now, true)
    ensures a.Grew(b) && KeepsTimes(a, b, now, true)
  {
    assert forall g :: g in a.home.Keys ==> g in t.home.Keys;
    assert forall g :: g in t.home.Keys && g in t.closed ==> g in b.closed;
  }

  lemma OwnTimes(t: Table, now: uint32)
    requires t.Inv()
    ensures t.Grew(t) && KeepsTimes(t, t, now, true)
  {
    forall g | g in t.home
      ensures t.home[g] < |t.entries|
    {
      assert t.ConnectionOk(g);
    }
  }

  /** After a poll every connection still open was last active in it if an event of the poll renews it, and as before
      otherwise. */
  ghost predicate PollHeard(t: Table, t1: Table, events: seq<Event>, now: uint32) {
    && t1.home == t.home && t1.listid == t.listid && |t1.entries| == |t.entries| == TCPLIST_MAX
    && forall g :: g in t.home && g !in t1.closed ==>
         && g !in t.closed && t.home[g] < TCPLIST_MAX
         && var (e, e1) := (t.entries[t.home[g]], t1.entries[t.home[g]]);
            && e1.kind == e.kind
            && e1.active_time == if RenewedIn(events, t.IdOf(g)) then now else e.active_time
  }

  lemma {:induction false} PollAllHeard(t: Table, events: seq<Event>, now: uint32)
    requires t.Inv() && t.Settled()
    ensures var t1 := t.PollAll(events, now);
            t1.Inv() && t1.Settled() && PollHeard(t, t1, events, now)
    decreases |events|
  {
    hide Table.Inv, Table.Settled, Table.Poll;
    HomeInTable(t);
    InvSize(t);
    if events == [] {
      NothingHeard(t, now);
    } else {
      var n := |events| - 1;
      var t1 := t.PollAll(events[..n], now);
      PollAllHeard(t, events[..n], now);
      if t1.Addresses(events[n].id) {
        PollKeeps(t1, events[n], now);
        OnePollHeard(t1, events[n], now);
      }
      MoreHeard(t, t1, events, now);
    }
  }

  lemma InvSize(t: Table)
    requires t.Inv()
    ensures |t.entries| == TCPLIST_MAX
  {
  }

  lemma NothingHeard(t: Table, now: uint32)
    requires t.Inv()
    ensures PollHeard(t, t, [], now)
  {
    HomeInTable(t);
  }

  /** One event of a poll. */
  ghost predicate EventHeard(t: Table, t1: Table, ev: Event, now: uint32) {
    && t1.home == t.home && t1.listid == t.listid && |t1.entries| == |t.entries| == TCPLIST_MAX
    && forall g :: g in t.home && g !in t1.closed ==>
         && g !in t.closed && t.home[g] < TCPLIST_MAX
         && var (e, e1) := (t.entries[t.home[g]], t1.entries[t.home[g]]);
            e1.kind == e.kind && e1.active_time == if Renews(ev, t.IdOf(g)) then now else e.active_time
  }

  lemma OnePollHeard(t: Table, ev: Event, now: uint32)
    requires t.Inv() && t.Settled() && t.Addresses(ev.id)
    ensures EventHeard(t, t.Poll(ev, now), ev, now)
  {
    forall g | g in t.home && g !in t.closed
      ensures t.home[g] < TCPLIST_MAX && t.entries[t.home[g]].alive && t.entries[t.home[g]].gen == g
      ensures t.IdOf(g) == t.entries[t.home[g]].id
    {
      assert t.ConnectionOk(g);
      assert t.EntryOk(t.home[g]);
    }
  }

  lemma MoreHeard(t: Table, t1: Table, events: seq<Event>, now: uint32)
    requires events != [] && PollHeard(t, t1, events[..|events| - 1], now)
    requires forall g :: g in t.home ==> t.home[g] < TCPLIST_MAX
    requires var ev := events[|events| - 1];
             t1.Addresses(ev.id) ==> EventHeard(t1, t1.Poll(ev, now), ev, now)
    ensures PollHeard(t, t.PollAll(events, now), events, now) || t1 != t.PollAll(events[..|events| - 1], now)
  {
    hide Table.Poll, Renews;
    if t1 == t.PollAll(events[..|events| - 1], now) {
      forall g | g in t.home
        ensures RenewedIn(events, t.IdOf(g))
                <==> RenewedIn(events[..|events| - 1], t.IdOf(g)) || Renews(events[|events| - 1], t.IdOf(g))
        ensures Renews(events[|events| - 1], t.IdOf(g)) ==> t1.Addresses(events[|events| - 1].id)
      {
        RenewedInSnoc(events, t.IdOf(g));
        RenewsItsId(events[|events| - 1], t.IdOf(g));
      }
      hide RenewedIn;
    }
  }

  lemma RenewsItsId(ev: Event, id: TcpId)
    ensures Renews(ev, id) ==> ev.id == id
  {
  }

  lemma StepHears(step: Step, a: Table, b: Table, timeout_seconds: uint16)
    requires a.Inv() && a.Settled() && StepOf(step, a, b, timeout_seconds)
    ensures Hears(step, a, b)
  {
    hide Table.Inv, Table.Settled, Table.Admits, Table.AdmitsAll, Table.PollAll;
    HomeInTable(a);
    InvSize(a);
    match step
    case Accept(waiting, now) =>
      var n :| 0 <= n <= |waiting| && a.AdmitsAll(b, waiting[..n], now) && (n == |waiting| || b.Full());
      AdmitAllTimes(a, b, waiting[..n], now);
    case Connect(refused, s, now) =>
      if b != a {
        AdmitTimes(a, b, s, now, 1);
      } else {
        OwnTimes(a, now);
      }
    case Message(id, closes) =>
      var ev := Event(id, closes, false, false, false, false, false);
      PollAllHeard(a, [ev], 0);
      forall g | g in a.home
        ensures !RenewedIn([ev], a.IdOf(g))
      {
      }
    case Run(events, now) => RunHears(step, a, b, timeout_seconds);
    case Elsewhere(_) => OwnTimes(a, 0);
  }

  lemma RunHears(step: Step, a: Table, b: Table, timeout_seconds: uint16)
    requires step.Run? && a.Inv() && a.Settled() && TakenBack(a, b, step.events, step.now, timeout_seconds)
    ensures Hears(step, a, b)
  {
    hide Table.Inv, Table.Settled, Table.PollAll, RenewedIn;
    PollAllHeard(a, step.events, step.now);
  }

  /** Over a run the table knows of every open connection what the steps say. */
  lemma {:induction false} TableKnows(steps: seq<Step>, trace: seq<Table>, timeout_seconds: uint16, g: nat)
    requires IsRun(steps, trace, timeout_seconds) && g in trace[|steps|].home && g !in trace[|steps|].closed
    ensures Knows(trace[|steps|], g, PastOf(steps, trace, g))
    decreases |steps|
  {
    var n := |steps|;
    hide Table.Inv, Table.Settled, StepOf, RenewedIn;
    HomeInTable(trace[n]);
    InvSize(trace[n]);
    if n > 0 {
      var (a, b) := (trace[n - 1], trace[n]);
      StepHears(steps[n - 1], a, b, timeout_seconds);
      assert HearsOf(steps[n - 1], a, b, g);
      if g in a.home {
        RunPrefix(steps, trace, timeout_seconds, n - 1);
        TableKnows(steps[..n - 1], trace[..n], timeout_seconds, g);
      }
    }
  }

  lemma RunPrefix(steps: seq<Step>, trace: seq<Table>, timeout_seconds: uint16, i: nat)
    requires IsRun(steps, trace, timeout_seconds) && i <= |steps|
    ensures IsRun(steps[..i], trace[..i + 1], timeout_seconds) && trace[..i + 1][i] == trace[i]
  {
    hide StepOf, SoundTable;
  }

  /** The idle sweep over whole runs, told by the steps alone. */
  lemma SweepsIdle(steps: seq<Step>, trace: seq<Table>, timeout_seconds: uint16)
    requires IsRun(steps, trace, timeout_seconds)
    ensures SweptIdle(steps, trace, timeout_seconds)
  {
    hide SoundTable, StepOf, SweptSo, IsRun;
    RunSize(steps, trace, timeout_seconds);
    forall i, g | 0 <= i < |steps| && g in trace[i].home && g !in trace[i].closed
      ensures SweptSo(steps, trace, i, g, timeout_seconds)
    {
      RunPrefix(steps, trace, timeout_seconds, i);
      TableKnows(steps[..i], trace[..i + 1], timeout_seconds, g);
      RunAt(steps, trace, timeout_seconds, i);
      SweepOne(steps, trace, timeout_seconds, i, g);
    }
  }

  lemma RunSize(steps: seq<Step>, trace: seq<Table>, timeout_seconds: uint16)
    requires IsRun(steps, trace, timeout_seconds)
    ensures |trace| == |steps| + 1
  {
  }

  lemma RunAt(steps: seq<Step>, trace: seq<Table>, timeout_seconds: uint16, i: nat)
    requires IsRun(steps, trace, timeout_seconds) && i < |steps|
    ensures SoundTable(trace[i]) && StepOf(steps[i], trace[i], trace[i + 1], timeout_seconds)
  {
  }

  lemma SweepOne(steps: seq<Step>, trace: seq<Table>, timeout_seconds: uint16, i: nat, g: nat)
    requires |trace| == |steps| + 1 && i < |steps| && g in trace[i].home && g !in trace[i].closed
    requires SoundTable(trace[i]) && StepOf(steps[i], trace[i], trace[i + 1], timeout_seconds)
    requires Knows(trace[i], g, PastOf(steps[..i], trace[..i + 1], g))
    ensures SweptSo(steps, trace, i, g, timeout_seconds)
  {
    hide Table.Inv, Table.Settled, Table.PollAll, RenewedIn, NamedIn, PastOf;
    if steps[i].Run? {
      PollAllHeard(trace[i], steps[i].events, steps[i].now);
    }
  }
}
