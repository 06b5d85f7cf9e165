/** A program on top of the memory pool (CommBase/Memory/MemAllocator.cpp): it allocates, writes into what it holds and
    frees it, in any order, and finds its memory as it left it. */
module MemoryClient {
  import opened Bytes
  import opened Allocator
  import opened MemAllocator

  /** The h-th allocation is called h. */
  datatype Step = Allocate(nbytes: nat) | Put(h: nat, off: nat, data: seq<byte>) | Release(h: nat)

  /** A piece in use: the size asked for, and what has been written where. */
  datatype Holding = Holding(size: nat, content: map<int, byte>)

  /** What a program knows of its memory. A step on a piece it does not hold, or beyond its end, is left out. */
  datatype Client = Client(count: nat, held: map<nat, Holding>) {
    predicate MayPut(h: nat, off: nat, data: seq<byte>) {
      h in held && off + |data| <= held[h].size
    }

    function After(s: Step): Client {
      match s
      case Allocate(nbytes) => Client(count + 1, held[count := Holding(nbytes, map[])])
      case Put(h, off, data) =>
        if MayPut(h, off, data) then
          this.(held := held[h := Holding(held[h].size, Store(held[h].content, off, data))])
        else this
      case Release(h) => this.(held := held - {h})
    }

    function AfterAll(steps: seq<Step>): Client
      decreases |steps|
    {
      if steps == [] then this else AfterAll(steps[..|steps| - 1]).After(steps[|steps| - 1])
    }
  }

  /** The system answers a request with unmapped memory of the right size, or refuses. */
  ghost predicate Fair(system: (set<int>, nat) -> Reply) {
    forall mapped, total :: FreshRange(system(mapped, total), mapped, total)
  }

  ghost predicate FreshRange(r: Reply, mapped: set<int>, total: nat) {
    r.Range? ==> |r.content| == total && 0 < r.base && r.base + total <= ADDRESS_LIMIT
                 && forall k :: r.base <= k < r.base + total ==> k !in mapped
  }

  /** The pieces the program holds are the users of the pool, each with its size and its content. */
  ghost predicate Holds(bytes: map<int, byte>, users: map<int, nat>, handles: seq<int>, c: Client) {
    Names(users, handles, c) && forall h :: h in c.held ==> Stored(bytes, handles[h], c.held[h])
  }

  ghost predicate Names(users: map<int, nat>, handles: seq<int>, c: Client) {
    && c.count == |handles|
    && (forall h :: h in c.held ==> h < |handles| && handles[h] in users && users[handles[h]] == c.held[h].size)
    && (forall g, h :: g in c.held && h in c.held && g != h ==> handles[g] != handles[h])
    && (forall u :: u in users ==> Held(handles, c, u))
  }

  ghost predicate Held(handles: seq<int>, c: Client, u: int) {
    exists h :: h in c.held && h < |handles| && handles[h] == u
  }

  ghost predicate Stored(bytes: map<int, byte>, p: int, x: Holding) {
    forall off :: off in x.content ==> 0 <= off < x.size && p + off in bytes && bytes[p + off] == x.content[off]
  }

  lemma StoredSame(bytes: map<int, byte>, bytes': map<int, byte>, p: int, x: Holding)
    requires Stored(bytes, p, x) && Same(bytes, bytes', p, x.size)
    ensures Stored(bytes', p, x)
  {
  }

  lemma HoldsMore(bytes: map<int, byte>, bytes': map<int, byte>, users: map<int, nat>, handles: seq<int>, c: Client,
                  p: int, nbytes: nat)
    requires Holds(bytes, users, handles, c) && p !in users
    requires forall u :: u in users ==> Same(bytes, bytes', u, users[u])
    ensures Holds(bytes', users[p := nbytes], handles + [p], c.After(Allocate(nbytes)))
  {
    NamesMore(users, handles, c, p, nbytes);
    HoldsSame(bytes, bytes', users, handles, c);
    hide Same;
    assert forall h :: h in c.held ==> (handles + [p])[h] == handles[h];
  }

  lemma NamesMore(users: map<int, nat>, handles: seq<int>, c: Client, p: int, nbytes: nat)
    requires Names(users, handles, c) && p !in users
    ensures Names(users[p := nbytes], handles + [p], c.After(Allocate(nbytes)))
  {
    var handles', users', c' := handles + [p], users[p := nbytes], c.After(Allocate(nbytes));
    assert forall h :: h in c.held ==> handles'[h] == handles[h];
    forall u | u in users'
      ensures Held(handles', c', u)
    {
      if u == p {
        assert c.count in c'.held && handles'[c.count] == p;
      } else {
        var h :| h in c.held && h < |handles| && handles[h] == u;
        assert h in c'.held && handles'[h] == u;
      }
    }
    hide Held;
  }

  lemma HoldsSame(bytes: map<int, byte>, bytes': map<int, byte>, users: map<int, nat>, handles: seq<int>, c: Client)
    requires Holds(bytes, users, handles, c) && forall u :: u in users ==> Same(bytes, bytes', u, users[u])
    ensures Holds(bytes', users, handles, c)
  {
    hide Held;
    forall h | h in c.held
      ensures Stored(bytes', handles[h], c.held[h])
    {
      StoredSame(bytes, bytes', handles[h], c.held[h]);
    }
  }

  lemma StoredPut(bytes: map<int, byte>, p: int, x: Holding, off: nat, data: seq<byte>)
    requires Stored(bytes, p, x) && off + |data| <= x.size
    ensures Stored(Store(bytes, p + off, data), p, Holding(x.size, Store(x.content, off, data)))
  {
    StoreFacts(bytes, p + off, data);
    StoreFacts(x.content, off, data);
    hide Store;
  }

  lemma HoldsPut(bytes: map<int, byte>, users: map<int, nat>, handles: seq<int>, c: Client, h: nat, off: nat,
                 data: seq<byte>)
    requires Holds(bytes, users, handles, c) && c.MayPut(h, off, data)
    requires forall u :: u in users && u != handles[h] ==>
               Same(bytes, Store(bytes, handles[h] + off, data), u, users[u])
    ensures Holds(Store(bytes, handles[h] + off, data), users, handles, c.After(Put(h, off, data)))
  {
    hide Store, Held;
    var bytes' := Store(bytes, handles[h] + off, data);
    StoredPut(bytes, handles[h], c.held[h], off, data);
    NamesPut(users, handles, c, h, off, data);
    forall g | g in c.held && g != h
      ensures Stored(bytes', handles[g], c.held[g])
    {
      StoredSame(bytes, bytes', handles[g], c.held[g]);
    }
    hide Stored, Same, Names;
  }

  lemma NamesPut(users: map<int, nat>, handles: seq<int>, c: Client, h: nat, off: nat, data: seq<byte>)
    requires Names(users, handles, c)
    ensures Names(users, handles, c.After(Put(h, off, data)))
  {
    hide Store;
    forall u | u in users
      ensures Held(handles, c.After(Put(h, off, data)), u)
    {
      assert Held(handles, c, u);
    }
  }

  lemma HoldsLess(bytes: map<int, byte>, bytes': map<int, byte>, users: map<int, nat>, users': map<int, nat>,
                  handles: seq<int>, c: Client, h: nat)
    requires Holds(bytes, users, handles, c) && h in c.held && users' == users - {handles[h]}
    requires forall u :: u in users' ==> Same(bytes, bytes', u, users'[u])
    ensures Holds(bytes', users', handles, c.After(Release(h)))
  {
    var c' := c.After(Release(h));
    forall g | g in c'.held
      ensures Stored(bytes', handles[g], c'.held[g]) && handles[g] in users'
    {
      assert handles[g] in users';
      StoredSame(bytes, bytes', handles[g], c.held[g]);
    }
    hide Stored, Same;
    forall u | u in users'
      ensures Held(handles, c', u)
    {
      var g :| g in c.held && g < |handles| && handles[g] == u;
      assert g in c'.held;
    }
  }

  /** The pool needs memory from the system for this request, and the system has none. */
  ghost predicate Refused(pool: MemAllocator, system: (set<int>, nat) -> Reply, nbytes: nat)
    requires pool.Valid()
    reads pool, pool.mem, pool.pools
  {
    var f := ClassOf(nbytes);
    if f < POOLS then
      pool.pools[f].free == [] && system(pool.mem.bytes.Keys, (ClassSize(f) + 1) * 32).NoMemory?
    else system(pool.mem.bytes.Keys, nbytes + 1).NoMemory?
  }

  /** One allocation; none exactly if the pool needs memory and the system has none. */
  method Take(pool: MemAllocator, system: (set<int>, nat) -> Reply, nbytes: nat) returns (ok: bool, p: int)
    requires pool.Valid() && Fair(system)
    modifies pool`users, pool.mem, pool.pools
    ensures pool.Valid() && (ok ==> p !in old(pool.users) && pool.users == old(pool.users)[p := nbytes])
    ensures forall u :: u in old(pool.users) ==> Same(old(pool.mem.bytes), pool.mem.bytes, u, old(pool.users)[u])
    ensures ok <==> !old(Refused(pool, system, nbytes))
    ensures !ok ==> pool.users == old(pool.users) && Refused(pool, system, nbytes)
  {
    hide Store, Room, ClassSize, UserOk, MemAllocator.OutIs, Same;
    var f := ClassOf(nbytes);
    if f < POOLS {
      assert pool.PoolIn(f, pool.mem.bytes, pool.mem.home);
      pool.pools[f].HeadInRange();
    }
    var total := if f < POOLS then pool.pools[f].ChunkSize() else nbytes + 1;
    var reply := system(pool.mem.bytes.Keys, total);
    assert FreshRange(reply, pool.mem.bytes.Keys, total);
    if (f == SYSTEM || pool.pools[f].free_next_ == 0) && !reply.Range? {
      pool.UsersSame();
      return false, 0;
    }
    p := pool.Malloc(nbytes, reply);
    ok := true;
  }

  /** Any program, any steps, until the system refuses memory: at the end every piece it holds is its own and holds
      what it last wrote there, and no class has lost or gained a block. */
  method Run(pool: MemAllocator, system: (set<int>, nat) -> Reply, steps: seq<Step>)
    returns (done: nat, handles: seq<int>, client: Client)
    requires pool.Valid() && pool.users == map[] && Fair(system)
    modifies pool`users, pool.mem, pool.pools
    ensures done <= |steps| && client == Client(0, map[]).AfterAll(steps[..done]) && pool.Valid()
    ensures done < |steps| ==> steps[done].Allocate? && Refused(pool, system, steps[done].nbytes)
    ensures Holds(pool.mem.bytes, pool.users, handles, client)
    ensures forall g, h :: g in client.held && h in client.held && g != h ==>
              || handles[g] + client.held[g].size <= handles[h] - 1
              || handles[h] + client.held[h].size <= handles[g] - 1
    ensures forall i :: 0 <= i < POOLS ==>
              |pool.pools[i].free| + |pool.pools[i].Out()| == 32 * |pool.pools[i].memory_list_|
  {
    hide MemAllocator.Valid, Holds, Store, Same, ClassOf, Client.After, Fair, Refused;
    done, handles, client := 0, [], Client(0, map[]);
    NothingHeld(pool.mem.bytes);
    assert steps[..0] == [];
    while done < |steps|
      invariant 0 <= done <= |steps| && pool.Valid() && Holds(pool.mem.bytes, pool.users, handles, client)
      invariant client == Client(0, map[]).AfterAll(steps[..done])
    {
      assert steps[..done + 1][..done] == steps[..done];
      var ok;
      ok, handles, client := Do(pool, system, steps[done], handles, client);
      if !ok {
        break;
      }
      done := done + 1;
    }
    AtTheEnd(pool, handles, client);
  }

  lemma NothingHeld(bytes: map<int, byte>)
    ensures Holds(bytes, map[], [], Client(0, map[]))
  {
  }

  method Do(pool: MemAllocator, system: (set<int>, nat) -> Reply, s: Step, handles: seq<int>, c: Client)
    returns (ok: bool, handles': seq<int>, c': Client)
    requires pool.Valid() && Fair(system) && Holds(pool.mem.bytes, pool.users, handles, c)
    modifies pool`users, pool.mem, pool.pools
    ensures pool.Valid() && Holds(pool.mem.bytes, pool.users, handles', c')
    ensures ok <==> !(s.Allocate? && old(Refused(pool, system, s.nbytes)))
    ensures !ok ==> Refused(pool, system, s.nbytes)
    ensures c' == if ok then c.After(s) else c
  {
    hide MemAllocator.Valid, Store, Same, Fair, Refused;
    ok, handles', c' := true, handles, c.After(s);
    ghost var bytes, users := pool.mem.bytes, pool.users;
    match s {
      case Allocate(nbytes) =>
        var p;
        hide Holds;
        ok, p := Take(pool, system, nbytes);
        if ok {
          handles' := handles + [p];
          HoldsMore(bytes, pool.mem.bytes, users, handles, c, p, nbytes);
        } else {
          c' := c;
          HoldsSame(bytes, pool.mem.bytes, users, handles, c);
        }
      case Put(h, off, data) =>
        if c.MayPut(h, off, data) {
          pool.Write(handles[h], off, data);
          HoldsPut(bytes, users, handles, c, h, off, data);
        }
      case Release(h) =>
        if h in c.held {
          var size := c.held[h].size;
          pool.Free(handles[h], size + 1);
          HoldsLess(bytes, pool.mem.bytes, users, pool.users, handles, c, h);
        } else {
          assert c.held - {h} == c.held;
        }
    }
  }

  lemma AtTheEnd(pool: MemAllocator, handles: seq<int>, c: Client)
    requires pool.Valid() && Holds(pool.mem.bytes, pool.users, handles, c)
    ensures forall g, h :: g in c.held && h in c.held && g != h ==>
              handles[g] + c.held[g].size <= handles[h] - 1 || handles[h] + c.held[h].size <= handles[g] - 1
    ensures |pool.pools| == POOLS
    ensures forall i :: 0 <= i < POOLS ==>
              |pool.pools[i].free| + |pool.pools[i].Out()| == 32 * |pool.pools[i].memory_list_|
  {
    forall g, h | g in c.held && h in c.held && g != h
      ensures handles[g] + c.held[g].size <= handles[h] - 1 || handles[h] + c.held[h].size <= handles[g] - 1
    {
      pool.UsersApart(handles[g], handles[h]);
    }
    forall i | 0 <= i < POOLS
      ensures |pool.pools[i].free| + |pool.pools[i].Out()| == 32 * |pool.pools[i].memory_list_|
    {
      pool.ClassConserved(i);
    }
  }
}
