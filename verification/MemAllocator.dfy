/** The front of the memory pool: thirteen block pools and the system allocator behind one malloc and free; the byte
    in front of every piece says where it came from (CommBase/Memory/MemAllocator.cpp). */
module MemAllocator {
  import opened Bytes
  import opened Allocator

  const POOLS := 13
  const SYSTEM := 13

  function ClassSize(f: nat): (n: nat)
    requires f < POOLS
  {
    [16, 32, 64, 128, 256, 512, 1024, 2048, 4096, 8192, 16384, 32768, 65536][f]
  }

  /** The chain of comparisons in malloc. */
  function ClassOf(nbytes: nat): (f: byte)
    ensures f <= SYSTEM
  {
    if nbytes <= 16 then 0
    else if nbytes <= 32 then 1
    else if nbytes <= 64 then 2
    else if nbytes <= 128 then 3
    else if nbytes <= 256 then 4
    else if nbytes <= 512 then 5
    else if nbytes <= 1024 then 6
    else if nbytes <= 2048 then 7
    else if nbytes <= 4096 then 8
    else if nbytes <= 8192 then 9
    else if nbytes <= 16384 then 10
    else if nbytes <= 32768 then 11
    else if nbytes <= 65536 then 12
    else SYSTEM
  }

  /** The bytes really set aside for a request: its class and the tag, or the request and the tag. */
  function Room(nbytes: nat): nat {
    if ClassOf(nbytes) < POOLS then ClassSize(ClassOf(nbytes)) + 1 else nbytes + 1
  }

  /** A request goes to the smallest class that holds it, and every class has its own room. */
  lemma ClassesFit(nbytes: nat, other: nat)
    ensures nbytes + 1 <= Room(nbytes) && Room(nbytes) > POINTER_SIZE
    ensures forall f :: 0 <= f < POOLS && nbytes <= ClassSize(f) ==> ClassOf(nbytes) <= f
    ensures Room(nbytes) == Room(other) ==> ClassOf(nbytes) == ClassOf(other)
    ensures forall f :: 0 <= f < POOLS ==> (ClassSize(f) + 1 == Room(nbytes) <==> ClassOf(nbytes) == f)
  {
  }

  lemma SizesDiffer(f: nat, g: nat)
    requires f < POOLS && g < POOLS && f != g
    ensures ClassSize(f) != ClassSize(g)
  {
  }

  /** A piece in use: u is the pointer its user holds. */
  ghost predicate UserOk(bytes: map<int, byte>, home: map<int, Extent>, u: int, nbytes: nat) {
    1 < u && Piece(home, u - 1, Room(nbytes)) && u - 1 in bytes && bytes[u - 1] == ClassOf(nbytes)
  }

  /** Stores into another piece, new ranges and the end of another piece leave a user's tag and bytes alone. */
  lemma UserStore(bytes: map<int, byte>, home: map<int, Extent>, u: int, n: nat, a: int, s: seq<byte>, b: int)
    requires UserOk(bytes, home, u, n) && SameDomain(bytes, home) && b != u - 1
    requires forall k :: a <= k < a + |s| ==> k in home && home[k].start == b
    ensures UserOk(Store(bytes, a, s), home, u, n) && Same(bytes, Store(bytes, a, s), u, n)
  {
    hide ClassOf, Room, Store;
    ClassesFit(n, n);
    StoreFacts(bytes, a, s);
    forall k | u - 1 <= k < u + n
      ensures k in bytes && k in Store(bytes, a, s) && Store(bytes, a, s)[k] == bytes[k]
    {
      assert k in home && home[k].start == u - 1;
    }
  }

  lemma UserKept(bytes: map<int, byte>, home: map<int, Extent>, bytes': map<int, byte>, home': map<int, Extent>, u: int,
                 n: nat)
    requires UserOk(bytes, home, u, n) && SameDomain(bytes, home) && AllocatorBlock.Kept(bytes, home, bytes', home')
    ensures UserOk(bytes', home', u, n) && Same(bytes, bytes', u, n)
  {
    hide ClassOf, Room;
    ClassesFit(n, n);
    assert forall k :: u - 1 <= k < u + n ==> k in home;
  }

  lemma UserDrop(bytes: map<int, byte>, home: map<int, Extent>, u: int, n: nat, p: int, k: nat)
    requires UserOk(bytes, home, u, n) && SameDomain(bytes, home) && Piece(home, p, k) && p != u - 1 && k > 0
    ensures UserOk(Drop(bytes, p, k), Drop(home, p, k), u, n) && Same(bytes, Drop(bytes, p, k), u, n)
  {
    hide ClassOf, Room, Drop;
    ClassesFit(n, n);
    PiecesApart(home, u - 1, Room(n), p, k);
    DropFacts(bytes, p, k);
    DropFacts(home, p, k);
  }

  class MemAllocator {
    const mem: Memory
    /** Allocator16_ to Allocator65536_. */
    const pools: seq<AllocatorBlock>
    /** The pointers handed out and not freed, with the sizes asked for. */
    ghost var users: map<int, nat>

    /** What the system may answer to the thirteen first requests: separate ranges of the right sizes, or nothing. */
    static ghost predicate FirstChunks(chunks: seq<Reply>) {
      && |chunks| == POOLS
      && (forall i :: 0 <= i < POOLS && chunks[i].Range? ==> FirstChunk(chunks[i], i))
      && (forall i, j :: 0 <= i < j < POOLS && chunks[i].Range? && chunks[j].Range? ==>
            || chunks[i].base + |chunks[i].content| <= chunks[j].base
            || chunks[j].base + |chunks[j].content| <= chunks[i].base)
    }

    static ghost predicate FirstChunk(r: Reply, i: nat)
      requires r.Range? && i < POOLS
    {
      0 < r.base && |r.content| == (ClassSize(i) + 1) * 32 && r.base + |r.content| <= ADDRESS_LIMIT
    }

    constructor (mem: Memory, chunks: seq<Reply>)
      requires mem.Valid() && mem.bytes == map[] && FirstChunks(chunks)
      modifies mem
      ensures Valid() && users == map[] && this.mem == mem && fresh(pools)
    {
      var made := MakePools(mem, chunks);
      this.mem, pools, users := mem, made, map[];
    }

    static method MakePools(mem: Memory, chunks: seq<Reply>) returns (made: seq<AllocatorBlock>)
      requires mem.Valid() && mem.bytes == map[] && FirstChunks(chunks)
      modifies mem
      ensures mem.Valid() && |made| == POOLS && fresh(made)
      ensures forall i :: 0 <= i < POOLS ==>
                MadePool(made[i], mem, i) && made[i].ValidIn(mem.bytes, mem.home) && made[i].Out() == {}
    {
      hide ClassSize;
      made := [];
      var i := 0;
      while i < POOLS
        invariant 0 <= i <= POOLS == |chunks| && |made| == i && mem.Valid() && fresh(made)
        invariant forall k :: k in mem.bytes ==> exists j :: 0 <= j < i && InChunk(k, chunks[j])
        invariant forall j :: 0 <= j < i ==>
                    MadePool(made[j], mem, j) && made[j].ValidIn(mem.bytes, mem.home) && made[j].Out() == {}
      {
        SizesGrow(i);
        ghost var bytes, home := mem.bytes, mem.home;
        var pool := new AllocatorBlock(mem, ClassSize(i), 32, chunks[i]);
        forall j | 0 <= j < i
          ensures made[j].ValidIn(mem.bytes, mem.home)
        {
          made[j].KeptKeeps(bytes, home, mem.bytes, mem.home);
        }
        made := made + [pool];
        i := i + 1;
      }
    }

    static ghost predicate InChunk(k: int, r: Reply) {
      r.Range? && r.base <= k < r.base + |r.content|
    }

    static ghost predicate MadePool(pool: AllocatorBlock, mem: Memory, i: nat)
      requires i < POOLS
    {
      pool.mem == mem && pool.block_size_ == ClassSize(i) + 1 && pool.block_number_ == 32
    }

    static lemma SizesGrow(i: nat)
      requires i < POOLS
      ensures ClassSize(i) > POINTER_SIZE
    {
    }

    ghost predicate PoolsIn(bytes: map<int, byte>, home: map<int, Extent>)
      reads pools
    {
      |pools| == POOLS && forall i :: 0 <= i < POOLS ==> PoolIn(i, bytes, home)
    }

    ghost predicate PoolIn(i: nat, bytes: map<int, byte>, home: map<int, Extent>)
      requires i < |pools| == POOLS
      reads pools
    {
      MadePool(pools[i], mem, i) && pools[i].ValidIn(bytes, home)
    }

    ghost predicate UsersIn(bytes: map<int, byte>, home: map<int, Extent>)
      reads this`users
    {
      forall u :: u in users ==> UserOk(bytes, home, u, users[u])
    }

    /** The blocks in use in pool i are exactly those of the users of its class. */
    ghost predicate OutIs(i: nat)
      requires i < |pools|
      reads this`users, pools
    {
      forall b :: b in pools[i].Out() <==> b + 1 in users && ClassOf(users[b + 1]) == i
    }

    ghost predicate Valid()
      reads this, mem, pools
    {
      && mem.Valid() && PoolsIn(mem.bytes, mem.home) && UsersIn(mem.bytes, mem.home)
      && forall i :: 0 <= i < POOLS ==> OutIs(i)
    }

    /** A block of one pool is not a block of another, and no system piece is a block. */
    lemma NotABlock(bytes: map<int, byte>, home: map<int, Extent>, b: int, size: int, i: nat)
      requires PoolsIn(bytes, home) && i < POOLS && Piece(home, b, size) && size > 0 && size != ClassSize(i) + 1
      ensures b !in pools[i].blocks
    {
      hide ClassSize;
      assert PoolIn(i, bytes, home);
      assert home[b] == Extent(b, size);
      forall x | x in pools[i].blocks
        ensures x != b
      {
        assert pools[i].BlockOk(home, x) && home[x] == Extent(x, ClassSize(i) + 1);
      }
    }

    /** Pieces in use never overlap: every user has its bytes to itself. */
    lemma UsersApart(u: int, v: int)
      requires Valid() && u in users && v in users && u != v
      ensures u + users[u] <= v - 1 || v + users[v] <= u - 1
      ensures forall k :: u - 1 <= k < u + users[u] ==> k in mem.bytes
    {
      hide ClassOf, Room;
      ClassesFit(users[u], users[v]);
      ClassesFit(users[v], users[u]);
      assert UserOk(mem.bytes, mem.home, u, users[u]) && UserOk(mem.bytes, mem.home, v, users[v]);
      PiecesApart(mem.home, u - 1, Room(users[u]), v - 1, Room(users[v]));
    }

    /** Conservation in every class: free blocks and users make up 32 blocks a chunk. */
    lemma ClassConserved(i: nat)
      requires Valid() && i < POOLS
      ensures |pools[i].free| + |pools[i].Out()| == 32 * |pools[i].memory_list_|
      ensures forall u :: u in users && ClassOf(users[u]) == i ==>
                u - 1 in pools[i].Out() && u - 1 !in Elements(pools[i].free)
    {
      assert PoolIn(i, mem.bytes, mem.home) && OutIs(i);
      pools[i].Conservation();
    }

    /** A piece in use is on no free list. */
    lemma NotFree(p: int, i: nat)
      requires Valid() && p in users && i < POOLS
      ensures p - 1 !in Elements(pools[i].free)
      ensures ClassOf(users[p]) != i ==> p - 1 !in pools[i].blocks
      ensures ClassOf(users[p]) == i ==> p - 1 in pools[i].Out()
    {
      hide ClassSize, ClassOf, Room;
      assert UserOk(mem.bytes, mem.home, p, users[p]);
      assert PoolIn(i, mem.bytes, mem.home) && OutIs(i);
      ClassesFit(users[p], users[p]);
      assert Elements(pools[i].free) <= pools[i].blocks;
      if ClassOf(users[p]) != i {
        NotABlock(mem.bytes, mem.home, p - 1, Room(users[p]), i);
      } else {
        assert p - 1 in pools[i].Out();
      }
    }

    /** Storing into one user's piece, wherever, disturbs no pool and no other user. */
    lemma StoreInPiece(p: int, a: int, s: seq<byte>)
      requires Valid() && p in users && p - 1 <= a && a + |s| <= p - 1 + Room(users[p])
      ensures var bytes' := Store(mem.bytes, a, s);
              && SameDomain(bytes', mem.home) && PoolsIn(bytes', mem.home)
              && (forall u :: u in users && u != p ==>
                    UserOk(bytes', mem.home, u, users[u]) && Same(mem.bytes, bytes', u, users[u]))
    {
      hide Store, Room, ClassOf, ClassSize;
      assert UserOk(mem.bytes, mem.home, p, users[p]);
      var bytes' := Store(mem.bytes, a, s);
      assert forall k :: a <= k < a + |s| ==> k in mem.home && mem.home[k].start == p - 1;
      forall i | 0 <= i < POOLS
        ensures PoolIn(i, bytes', mem.home) && SameDomain(bytes', mem.home)
      {
        assert PoolIn(i, mem.bytes, mem.home);
        NotFree(p, i);
        pools[i].StoreKeeps(mem.bytes, mem.home, a, s, p - 1);
      }
      assert PoolIn(0, bytes', mem.home);
      forall u | u in users && u != p
        ensures UserOk(bytes', mem.home, u, users[u]) && Same(mem.bytes, bytes', u, users[u])
      {
        assert UserOk(mem.bytes, mem.home, u, users[u]);
        UserStore(mem.bytes, mem.home, u, users[u], a, s, p - 1);
      }
    }

    /** A user writes into its own bytes: nothing else changes, and the tag still says where to free them. */
    method Write(p: int, off: nat, data: seq<byte>)
      requires Valid() && p in users && off + |data| <= users[p]
      modifies mem`bytes
      ensures Valid() && mem.bytes == Store(old(mem.bytes), p + off, data)
      ensures forall u :: u in users && u != p ==> Same(old(mem.bytes), mem.bytes, u, users[u])
      ensures mem.bytes[p - 1] == ClassOf(users[p])
    {
      hide Store, Room, ClassOf, ClassSize;
      ClassesFit(users[p], users[p]);
      StoreInPiece(p, p + off, data);
      StoreFacts(mem.bytes, p + off, data);
      assert UserOk(mem.bytes, mem.home, p, users[p]);
      mem.bytes := Store(mem.bytes, p + off, data);
    }

    /** The system's answer to whatever request malloc makes of it. */
    ghost predicate Answered(nbytes: nat, reply: Reply)
      requires Valid()
      reads this, mem, pools
    {
      var f := ClassOf(nbytes);
      if f < POOLS then pools[f].free == [] ==> reply.Range? && AllocatorBlock.Sound(mem, reply, pools[f].ChunkSize())
      else reply.Range? && AllocatorBlock.Sound(mem, reply, nbytes + 1)
    }

    /** A block that a pool has just given up belongs to no user yet. */
    lemma NewBlock(b: int, f: nat)
      requires PoolsIn(mem.bytes, mem.home) && UsersIn(mem.bytes, mem.home) && f < POOLS && b in pools[f].blocks
      requires forall u :: u in users && ClassOf(users[u]) == f ==> u - 1 != b
      ensures 0 < b && b + 1 !in users && Piece(mem.home, b, ClassSize(f) + 1)
    {
      hide ClassSize, ClassOf, Room;
      assert PoolIn(f, mem.bytes, mem.home) && pools[f].BlockOk(mem.home, b);
      assert mem.home[b] == Extent(b, ClassSize(f) + 1);
      forall u | u in users
        ensures u - 1 != b
      {
        assert UserOk(mem.bytes, mem.home, u, users[u]);
        ClassesFit(users[u], 0);
        assert mem.home[u - 1] == Extent(u - 1, Room(users[u]));
      }
    }

    /** Writing the tag of a new piece that no free list and no user holds. */
    lemma TagPiece(b: int, nbytes: nat)
      requires mem.Valid() && PoolsIn(mem.bytes, mem.home) && UsersIn(mem.bytes, mem.home) && b + 1 !in users
      requires 0 < b && Piece(mem.home, b, Room(nbytes))
      requires forall i :: 0 <= i < POOLS ==> b !in Elements(pools[i].free)
      ensures var bytes' := Store(mem.bytes, b, [ClassOf(nbytes)]);
              && SameDomain(bytes', mem.home) && PoolsIn(bytes', mem.home) && UserOk(bytes', mem.home, b + 1, nbytes)
              && forall u :: u in users ==>
                   UserOk(bytes', mem.home, u, users[u]) && Same(mem.bytes, bytes', u, users[u])
    {
      hide Store, Room, ClassOf, ClassSize;
      var s: seq<byte> := [ClassOf(nbytes)];
      var bytes' := Store(mem.bytes, b, s);
      ClassesFit(nbytes, nbytes);
      StoreFacts(mem.bytes, b, s);
      forall i | 0 <= i < POOLS
        ensures PoolIn(i, bytes', mem.home) && SameDomain(bytes', mem.home)
      {
        assert PoolIn(i, mem.bytes, mem.home);
        pools[i].StoreKeeps(mem.bytes, mem.home, b, s, b);
      }
      assert PoolIn(0, bytes', mem.home);
      forall u | u in users
        ensures UserOk(bytes', mem.home, u, users[u]) && Same(mem.bytes, bytes', u, users[u])
      {
        assert UserOk(mem.bytes, mem.home, u, users[u]);
        UserStore(mem.bytes, mem.home, u, users[u], b, s, b);
      }
    }

    /** One pool gives up a block; the others and all users are as they were. */
    method TakeBlock(flag: nat, reply: Reply) returns (b: int)
      requires Valid() && flag < POOLS
      requires pools[flag].free == [] ==> reply.Range? && AllocatorBlock.Sound(mem, reply, pools[flag].ChunkSize())
      modifies mem, pools
      ensures mem.Valid() && PoolsIn(mem.bytes, mem.home) && UsersIn(mem.bytes, mem.home)
      ensures forall u :: u in users ==> Same(old(mem.bytes), mem.bytes, u, users[u])
      ensures forall i :: 0 <= i < POOLS && i != flag ==> pools[i].Out() == old(pools[i].Out())
      ensures pools[flag].Out() == old(pools[flag].Out()) + {b} && b in pools[flag].blocks
      ensures b !in old(pools[flag].Out())
    {
      hide Store, Room, ClassOf, ClassSize, UserOk, AllocatorBlock.Kept, AllocatorBlock.ValidIn, AllocatorBlock.Sound;
      ghost var bytes0, home0 := mem.bytes, mem.home;
      PoolsDiffer();
      assert PoolIn(flag, bytes0, home0);
      b := pools[flag].Malloc(reply);
      forall i | 0 <= i < POOLS
        ensures PoolIn(i, mem.bytes, mem.home) && (i != flag ==> pools[i].Out() == old(pools[i].Out()))
      {
        if i != flag {
          assert old(PoolIn(i, mem.bytes, mem.home));
          assert pools[i] != pools[flag];
          pools[i].KeptKeeps(bytes0, home0, mem.bytes, mem.home);
        }
      }
      forall u | u in users
        ensures UserOk(mem.bytes, mem.home, u, users[u]) && Same(bytes0, mem.bytes, u, users[u])
      {
        assert UserOk(bytes0, home0, u, users[u]);
        UserKept(bytes0, home0, mem.bytes, mem.home, u, users[u]);
      }
    }

    /** The tag goes in front of a piece nobody holds, and the rest is its user's. */
    method Tag(b: int, nbytes: nat) returns (p: int)
      requires mem.Valid() && PoolsIn(mem.bytes, mem.home) && UsersIn(mem.bytes, mem.home) && b + 1 !in users
      requires 0 < b && Piece(mem.home, b, Room(nbytes))
      requires forall i :: 0 <= i < POOLS ==> b !in Elements(pools[i].free)
      modifies this`users, mem`bytes
      ensures mem.Valid() && PoolsIn(mem.bytes, mem.home) && UsersIn(mem.bytes, mem.home)
      ensures p == b + 1 && users == old(users)[p := nbytes]
      ensures forall u :: u in old(users) ==> Same(old(mem.bytes), mem.bytes, u, users[u])
    {
      hide Store, Room, ClassOf, ClassSize, UserOk, PoolIn;
      TagPiece(b, nbytes);
      mem.bytes := Store(mem.bytes, b, [ClassOf(nbytes)]);
      p := b + 1;
      users := users[p := nbytes];
    }

    lemma SameTwice(m0: map<int, byte>, m1: map<int, byte>, m2: map<int, byte>, held: map<int, nat>)
      requires forall u :: u in held ==> Same(m0, m1, u, held[u])
      requires forall u :: u in held ==> Same(m1, m2, u, held[u])
      ensures forall u :: u in held ==> Same(m0, m2, u, held[u])
    {
      forall u | u in held
        ensures Same(m0, m2, u, held[u])
      {
        assert Same(m0, m1, u, held[u]) && Same(m1, m2, u, held[u]);
      }
    }

    method MallocInPool(nbytes: nat, flag: byte, reply: Reply) returns (p: int)
      requires Valid() && Answered(nbytes, reply) && flag == ClassOf(nbytes) < POOLS
      modifies this`users, mem, pools
      ensures Valid() && p !in old(users) && users == old(users)[p := nbytes]
      ensures forall u :: u in old(users) ==> Same(old(mem.bytes), mem.bytes, u, users[u])
      ensures p - 1 in pools[flag].blocks && p - 1 !in old(pools[flag].Out())
    {
      ClassesFit(nbytes, nbytes);
      hide Store, Room, ClassOf, ClassSize, UserOk, PoolIn, UsersIn, Same, AllocatorBlock.Sound, AllocatorBlock.Out;
      ghost var bytes0, users0 := mem.bytes, users;
      assert old(OutIs(flag));
      var b := TakeBlock(flag, reply);
      NewBlock(b, flag);
      BlockOffLists(b, flag);
      ghost var bytes1 := mem.bytes;
      p := Tag(b, nbytes);
      SameTwice(bytes0, bytes1, mem.bytes, users0);
      forall i | 0 <= i < POOLS
        ensures OutIs(i)
      {
        assert old(OutIs(i));
      }
    }

    /** A block a pool has given up is on no free list of any pool. */
    lemma BlockOffLists(b: int, f: nat)
      requires PoolsIn(mem.bytes, mem.home) && f < POOLS && b in pools[f].Out()
      ensures forall i :: 0 <= i < POOLS ==> b !in Elements(pools[i].free)
    {
      hide ClassSize;
      assert PoolIn(f, mem.bytes, mem.home) && pools[f].BlockOk(mem.home, b);
      forall i | 0 <= i < POOLS
        ensures b !in Elements(pools[i].free)
      {
        if i != f {
          SizesDiffer(i, f);
          NotABlock(mem.bytes, mem.home, b, ClassSize(f) + 1, i);
          assert PoolIn(i, mem.bytes, mem.home) && Elements(pools[i].free) <= pools[i].blocks;
        }
      }
    }

    lemma PoolsDiffer()
      requires PoolsIn(mem.bytes, mem.home)
      ensures forall i, j :: 0 <= i < j < POOLS ==> pools[i] != pools[j]
    {
      hide ClassSize;
      forall i, j | 0 <= i < j < POOLS
        ensures pools[i] != pools[j]
      {
        assert PoolIn(i, mem.bytes, mem.home) && PoolIn(j, mem.bytes, mem.home);
        SizesDiffer(i, j);
      }
    }

    method MallocFromSystem(nbytes: nat, reply: Reply) returns (p: int)
      requires Valid() && Answered(nbytes, reply) && ClassOf(nbytes) == SYSTEM
      modifies this`users, mem
      ensures Valid() && p !in old(users) && users == old(users)[p := nbytes]
      ensures forall u :: u in old(users) ==> Same(old(mem.bytes), mem.bytes, u, users[u])
    {
      hide Store, Extend, Room, ClassOf, ClassSize;
      ghost var bytes0, home0 := mem.bytes, mem.home;
      p := reply.base;
      StoreFacts(bytes0, p, reply.content);
      ExtendFacts(home0, p, nbytes + 1);
      mem.bytes := Store(mem.bytes, p, reply.content);
      mem.home := Extend(mem.home, p, nbytes + 1);
      SystemPiece(bytes0, home0, p, nbytes);
      ghost var bytes1 := mem.bytes;
      mem.bytes := Store(mem.bytes, p, [SYSTEM]);
      p := p + 1;
      users := users[p := nbytes];
      forall i | 0 <= i < POOLS
        ensures OutIs(i)
      {
        assert old(OutIs(i));
      }
      forall u | u in old(users)
        ensures Same(bytes0, mem.bytes, u, users[u])
      {
        assert Same(bytes0, bytes1, u, users[u]) && Same(bytes1, mem.bytes, u, users[u]);
      }
    }

    /** A range the system has added: pools and users are as before, and it can be tagged. */
    lemma SystemPiece(bytes0: map<int, byte>, home0: map<int, Extent>, b: int, nbytes: nat)
      requires mem.Valid() && SameDomain(bytes0, home0) && PoolsIn(bytes0, home0) && UsersIn(bytes0, home0)
      requires AllocatorBlock.Kept(bytes0, home0, mem.bytes, mem.home) && b !in home0 && 0 < b
      requires ClassOf(nbytes) == SYSTEM && Piece(mem.home, b, nbytes + 1)
      ensures b + 1 !in users && (forall u :: u in users ==> Same(bytes0, mem.bytes, u, users[u]))
      ensures var bytes' := Store(mem.bytes, b, [ClassOf(nbytes)]);
              && SameDomain(bytes', mem.home) && PoolsIn(bytes', mem.home) && UserOk(bytes', mem.home, b + 1, nbytes)
              && forall u :: u in users ==>
                   UserOk(bytes', mem.home, u, users[u]) && Same(mem.bytes, bytes', u, users[u])
    {
      assert Room(nbytes) == nbytes + 1;
      hide Store, Room, ClassOf, ClassSize;
      forall i | 0 <= i < POOLS
        ensures PoolIn(i, mem.bytes, mem.home) && b !in Elements(pools[i].free)
      {
        assert PoolIn(i, bytes0, home0);
        pools[i].KeptKeeps(bytes0, home0, mem.bytes, mem.home);
        assert forall a :: a in pools[i].blocks ==> pools[i].BlockOk(home0, a);
        assert Elements(pools[i].free) <= pools[i].blocks;
      }
      forall u | u in users
        ensures UserOk(mem.bytes, mem.home, u, users[u]) && Same(bytes0, mem.bytes, u, users[u]) && u - 1 != b
      {
        assert UserOk(bytes0, home0, u, users[u]);
        UserKept(bytes0, home0, mem.bytes, mem.home, u, users[u]);
      }
      TagPiece(b, nbytes);
    }

    /** malloc never hands out a piece in use, and leaves every user's bytes as they were. */
    method Malloc(nbytes: nat, reply: Reply) returns (p: int)
      requires Valid() && Answered(nbytes, reply)
      modifies this`users, mem, pools
      ensures Valid() && p !in old(users) && users == old(users)[p := nbytes]
      ensures forall u :: u in old(users) ==> Same(old(mem.bytes), mem.bytes, u, users[u])
      ensures ClassOf(nbytes) < POOLS ==>
                p - 1 in pools[ClassOf(nbytes)].blocks && p - 1 !in old(pools[ClassOf(nbytes)].Out())
    {
      var flag := ClassOf(nbytes);
      if flag < POOLS {
        p := MallocInPool(nbytes, flag, reply);
      } else {
        p := MallocFromSystem(nbytes, reply);
      }
    }

    /** The pool takes its block back; no other pool moves. */
    method ReturnBlock(p: int, flag: nat)
      requires Valid() && p in users && flag == ClassOf(users[p]) < POOLS
      modifies mem`bytes, pools
      ensures mem.Valid() && PoolsIn(mem.bytes, mem.home)
      ensures pools[flag].free == [p - 1] + old(pools[flag].free) && pools[flag].blocks == old(pools[flag].blocks)
      ensures pools[flag].Out() == old(pools[flag].Out()) - {p - 1}
      ensures forall i :: 0 <= i < POOLS && i != flag ==>
                && pools[i].free == old(pools[i].free)
                && pools[i].blocks == old(pools[i].blocks) && pools[i].Out() == old(pools[i].Out())
      ensures forall u :: u in users && u != p ==>
                UserOk(mem.bytes, mem.home, u, users[u]) && Same(old(mem.bytes), mem.bytes, u, users[u])
    {
      ghost var link := LE(pools[flag].free_next_, POINTER_SIZE);
      hide Store, Room, ClassOf, ClassSize, UserOk, Same, AllocatorBlock.ValidIn, OutIs, LE;
      PoolsDiffer();
      NotFree(p, flag);
      FreedLink(p, link);
      assert PoolIn(flag, mem.bytes, mem.home);
      ghost var bytes' := Store(mem.bytes, p - 1, link);
      pools[flag].Free(p - 1);
      forall i | 0 <= i < POOLS
        ensures PoolIn(i, mem.bytes, mem.home)
        ensures i != flag ==>
                  && pools[i].free == old(pools[i].free)
                  && pools[i].blocks == old(pools[i].blocks) && pools[i].Out() == old(pools[i].Out())
      {
        if i != flag {
          assert pools[i] != pools[flag];
          assert old(PoolIn(i, bytes', mem.home));
        }
      }
    }

    /** A freed block goes to the front of the list of the pool its tag names, which is the pool it came from. */
    method FreeInPool(p: int, flag: nat)
      requires Valid() && p in users && flag == ClassOf(users[p]) < POOLS
      modifies this`users, mem`bytes, pools
      ensures Valid() && users == old(users) - {p}
      ensures pools[flag].free == [p - 1] + old(pools[flag].free) && pools[flag].blocks == old(pools[flag].blocks)
      ensures forall i :: 0 <= i < POOLS && i != flag ==>
                pools[i].free == old(pools[i].free) && pools[i].blocks == old(pools[i].blocks)
      ensures forall u :: u in users ==> Same(old(mem.bytes), mem.bytes, u, users[u])
    {
      hide Store, Room, ClassOf, ClassSize, UserOk, Same, PoolIn, AllocatorBlock.Out;
      ReturnBlock(p, flag);
      users := users - {p};
      forall i | 0 <= i < POOLS
        ensures OutIs(i)
      {
        assert old(OutIs(i));
      }
    }

    /** The link a freed block is overwritten with lies within the block. */
    lemma FreedLink(p: int, link: seq<byte>)
      requires Valid() && p in users && |link| == POINTER_SIZE
      ensures var bytes' := Store(mem.bytes, p - 1, link);
              && SameDomain(bytes', mem.home) && PoolsIn(bytes', mem.home)
              && (forall u :: u in users && u != p ==>
                    UserOk(bytes', mem.home, u, users[u]) && Same(mem.bytes, bytes', u, users[u]))
    {
      ClassesFit(users[p], users[p]);
      hide Room, ClassOf, ClassSize, Store, UserOk, Same, PoolIn;
      StoreInPiece(p, p - 1, link);
    }

    /** recorded is the length the system itself keeps for a range. */
    method FreeToSystem(p: int, recorded: nat)
      requires Valid() && p in users && ClassOf(users[p]) == SYSTEM && recorded == users[p] + 1
      modifies this`users, mem
      ensures Valid() && users == old(users) - {p}
      ensures mem.bytes == Drop(old(mem.bytes), p - 1, old(users[p]) + 1)
      ensures forall u :: u in users ==> Same(old(mem.bytes), mem.bytes, u, users[u])
    {
      ghost var n := users[p] + 1;
      assert Room(users[p]) == n;
      hide Store, Room, ClassOf, ClassSize, Drop, Same;
      ghost var bytes0, home0 := mem.bytes, mem.home;
      SystemFree(p);
      mem.bytes := Drop(mem.bytes, p - 1, recorded);
      mem.home := Drop(mem.home, p - 1, n);
      users := users - {p};
      forall i | 0 <= i < POOLS
        ensures OutIs(i)
      {
        assert old(OutIs(i)) && p - 1 !in pools[i].Out();
      }
    }

    lemma SystemFree(p: int)
      requires Valid() && p in users && ClassOf(users[p]) == SYSTEM
      ensures var n := Room(users[p]);
              var bytes', home' := Drop(mem.bytes, p - 1, n), Drop(mem.home, p - 1, n);
              && SameDomain(bytes', home') && PoolsIn(bytes', home')
              && (forall u :: u in users && u != p ==>
                    UserOk(bytes', home', u, users[u]) && Same(mem.bytes, bytes', u, users[u]))
      ensures forall i :: 0 <= i < POOLS ==> p - 1 !in pools[i].Out()
    {
      var n := Room(users[p]);
      ClassesFit(users[p], users[p]);
      hide Room, ClassOf, ClassSize, Drop;
      DropFacts(mem.bytes, p - 1, n);
      DropFacts(mem.home, p - 1, n);
      assert UserOk(mem.bytes, mem.home, p, users[p]);
      forall i | 0 <= i < POOLS
        ensures PoolIn(i, Drop(mem.bytes, p - 1, n), Drop(mem.home, p - 1, n)) && p - 1 !in pools[i].Out()
      {
        assert PoolIn(i, mem.bytes, mem.home);
        NotFree(p, i);
        pools[i].DropKeeps(mem.bytes, mem.home, p - 1, n);
      }
      forall u | u in users && u != p
        ensures UserOk(Drop(mem.bytes, p - 1, n), Drop(mem.home, p - 1, n), u, users[u])
                && Same(mem.bytes, Drop(mem.bytes, p - 1, n), u, users[u])
      {
        assert UserOk(mem.bytes, mem.home, u, users[u]);
        UserDrop(mem.bytes, mem.home, u, users[u], p - 1, n);
      }
    }

    /** free looks at nothing but the tag. A null pointer is ignored; a piece in use goes back where it came from. */
    method Free(p: int, recorded: nat)
      requires Valid() && (p == 0 || p in users)
      requires p != 0 && ClassOf(users[p]) == SYSTEM ==> recorded == users[p] + 1
      modifies this`users, mem, pools
      ensures Valid() && users == old(users) - {p}
      ensures forall u :: u in users ==> Same(old(mem.bytes), mem.bytes, u, users[u])
      ensures forall i :: 0 <= i < POOLS ==> pools[i].blocks == old(pools[i].blocks)
      ensures forall i :: 0 <= i < POOLS ==>
                pools[i].free == (if p != 0 && old(ClassOf(users[p]) == i) then [p - 1] else []) + old(pools[i].free)
      ensures p != 0 && old(ClassOf(users[p])) == SYSTEM ==> mem.bytes == Drop(old(mem.bytes), p - 1, old(users[p]) + 1)
    {
      hide Store, Room, ClassSize, Drop, UserOk, PoolIn, OutIs;
      if p == 0 {
        NullIsNoUser();
        assert users - {0} == users;
        UsersSame();
        return;
      }
      TagOf(p);
      hide ClassOf;
      var flag := mem.bytes[p - 1];
      if flag < POOLS {
        FreeInPool(p, flag);
      } else {
        FreeToSystem(p, recorded);
      }
    }

    lemma NullIsNoUser()
      requires Valid()
      ensures forall u :: u in users ==> u > 1
    {
      hide Room, ClassSize, ClassOf;
      forall u | u in users
        ensures u > 1
      {
        assert UserOk(mem.bytes, mem.home, u, users[u]);
      }
    }

    lemma UsersSame()
      requires Valid()
      ensures forall u :: u in users ==> Same(mem.bytes, mem.bytes, u, users[u])
    {
      hide Room, ClassOf, ClassSize;
      forall u | u in users
        ensures Same(mem.bytes, mem.bytes, u, users[u])
      {
        assert UserOk(mem.bytes, mem.home, u, users[u]);
        ClassesFit(users[u], users[u]);
        assert forall k :: u - 1 <= k < u + users[u] ==> k in mem.home;
      }
    }

    lemma TagOf(p: int)
      requires Valid() && p in users
      ensures p - 1 in mem.bytes && mem.bytes[p - 1] == ClassOf(users[p]) <= SYSTEM
    {
      assert UserOk(mem.bytes, mem.home, p, users[p]);
    }
  }
}
