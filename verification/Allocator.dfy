/** The pool allocator: chunks cut into equal blocks whose free list is threaded through the free blocks themselves
    (CommBase/Memory/AllocatorBlock.cpp), and thirteen such pools behind a one-byte tag
    (CommBase/Memory/MemAllocator.cpp).
    Memory is a map from addresses to bytes; the system allocator's answers are parameters. */
module Allocator {
  import opened Bytes
  import opened Collections

  const POINTER_SIZE := 8
  const ADDRESS_LIMIT := 0x1_0000_0000_0000_0000

  /** What the system allocator answers: the address and the contents of a new range, or nothing. */
  datatype Reply = Range(base: int, content: seq<byte>) | NoMemory

  // ---- Memory ----

  /** A piece of memory handed out as one: a block of a pool, or a range of the system's. */
  datatype Extent = Extent(start: int, size: int)

  function Store(bytes: map<int, byte>, a: int, s: seq<byte>): map<int, byte> {
    bytes + map k {:trigger s[k - a]} | a <= k < a + |s| :: s[k - a]
  }

  lemma StoreFacts(bytes: map<int, byte>, a: int, s: seq<byte>)
    ensures var m := Store(bytes, a, s);
            && (forall k :: k in m <==> k in bytes || a <= k < a + |s|)
            && (forall k :: a <= k < a + |s| ==> m[k] == s[k - a])
            && (forall k :: k in bytes && !(a <= k < a + |s|) ==> m[k] == bytes[k])
  {
  }

  predicate Mapped(bytes: map<int, byte>, a: int, n: nat) {
    forall k :: a <= k < a + n ==> k in bytes
  }

  function Load(bytes: map<int, byte>, a: int, n: nat): (s: seq<byte>)
    requires Mapped(bytes, a, n)
    ensures |s| == n && forall k :: 0 <= k < n ==> s[k] == bytes[a + k]
  {
    seq(n, k requires 0 <= k < n => bytes[a + k])
  }

  /** The pointer stored at an address. */
  function Pointer(bytes: map<int, byte>, a: int): nat
    requires Mapped(bytes, a, POINTER_SIZE)
  {
    FromLE(Load(bytes, a, POINTER_SIZE))
  }

  /** A map without a range. */
  function Drop<T>(m: map<int, T>, a: int, n: nat): map<int, T> {
    map k | k in m && !(a <= k < a + n) :: m[k]
  }

  lemma DropFacts<T>(m: map<int, T>, a: int, n: nat)
    ensures forall k :: k in Drop(m, a, n) <==> k in m && !(a <= k < a + n)
    ensures forall k :: k in Drop(m, a, n) ==> Drop(m, a, n)[k] == m[k]
  {
  }

  lemma StoredPointer(bytes: map<int, byte>, a: int, v: nat)
    requires v < ADDRESS_LIMIT
    ensures var m := Store(bytes, a, LE(v, POINTER_SIZE));
            Mapped(m, a, POINTER_SIZE) && Pointer(m, a) == v
  {
    var m := Store(bytes, a, LE(v, POINTER_SIZE));
    StoreFacts(bytes, a, LE(v, POINTER_SIZE));
    assert Load(m, a, POINTER_SIZE) == LE(v, POINTER_SIZE);
    Widths();
    LERoundTrip(v, POINTER_SIZE);
  }

  /** Two maps agree on a range. */
  predicate Same(m: map<int, byte>, m': map<int, byte>, a: int, n: nat) {
    forall k :: a <= k < a + n ==> k in m && k in m' && m'[k] == m[k]
  }

  /** The whole range [a, a + n) was handed out as one piece. */
  ghost predicate Piece(home: map<int, Extent>, a: int, n: int) {
    forall k :: a <= k < a + n ==> k in home && home[k] == Extent(a, n)
  }

  ghost predicate SameDomain(bytes: map<int, byte>, home: map<int, Extent>) {
    forall k :: k in home <==> k in bytes
  }

  class Memory {
    var bytes: map<int, byte>
    /** For every mapped address, the piece it belongs to. */
    ghost var home: map<int, Extent>

    ghost predicate Valid()
      reads this
    {
      SameDomain(bytes, home)
    }

    constructor ()
      ensures Valid() && bytes == map[]
    {
      bytes, home := map[], map[];
    }
  }

  // ---- The free list ----

  function At(free: seq<int>, i: int): int {
    if 0 <= i < |free| then free[i] else 0
  }

  ghost predicate Linked(bytes: map<int, byte>, free: seq<int>, i: int)
    requires 0 <= i < |free|
  {
    Mapped(bytes, free[i], POINTER_SIZE) && Pointer(bytes, free[i]) == At(free, i + 1)
  }

  /** Following the stored pointers from head visits exactly free, and ends. */
  ghost predicate Chain(bytes: map<int, byte>, head: int, free: seq<int>) {
    head == At(free, 0) && forall i :: 0 <= i < |free| ==> Linked(bytes, free, i)
  }

  lemma ChainSame(m: map<int, byte>, m': map<int, byte>, head: int, free: seq<int>)
    requires Chain(m, head, free) && forall i :: 0 <= i < |free| ==> Same(m, m', free[i], POINTER_SIZE)
    ensures Chain(m', head, free)
  {
    forall i | 0 <= i < |free|
      ensures Linked(m', free, i)
    {
      assert Linked(m, free, i) && Same(m, m', free[i], POINTER_SIZE);
      assert Mapped(m', free[i], POINTER_SIZE);
      assert Load(m', free[i], POINTER_SIZE) == Load(m, free[i], POINTER_SIZE);
    }
  }

  lemma ChainTail(m: map<int, byte>, head: int, free: seq<int>)
    requires Chain(m, head, free) && free != []
    ensures Mapped(m, free[0], POINTER_SIZE) && Chain(m, Pointer(m, free[0]), free[1..])
  {
    assert Linked(m, free, 0);
    forall i | 0 <= i < |free[1..]|
      ensures Linked(m, free[1..], i)
    {
      assert Linked(m, free, i + 1);
    }
  }

  lemma ChainCons(m: map<int, byte>, p: int, head: int, free: seq<int>)
    requires Chain(m, head, free) && Mapped(m, p, POINTER_SIZE) && Pointer(m, p) == head
    ensures Chain(m, p, [p] + free)
  {
    var s := [p] + free;
    forall i | 0 <= i < |s|
      ensures Linked(m, s, i)
    {
      if i > 0 { assert Linked(m, free, i - 1); }
    }
  }

  ghost function Elements(s: seq<int>): set<int> {
    set x | x in s
  }

  lemma PushDistinct(s: seq<int>, x: int)
    requires Distinct(s) && x !in Elements(s)
    ensures Distinct([x] + s) && Elements([x] + s) == Elements(s) + {x}
  {
    assert forall i :: 0 <= i < |s| ==> s[i] in Elements(s);
    assert forall y :: y in [x] + s <==> y == x || y in s;
  }

  lemma PopDistinct(s: seq<int>)
    requires Distinct(s) && s != []
    ensures Distinct(s[1..]) && Elements(s[1..]) == Elements(s) - {s[0]} && s[0] in Elements(s)
  {
    assert forall i :: 0 <= i < |s[1..]| ==> s[1..][i] == s[i + 1];
    assert s == [s[0]] + s[1..];
  }

  lemma {:induction false} CountDistinct(s: seq<int>)
    requires Distinct(s)
    ensures |Elements(s)| == |s|
  {
    if s != [] {
      CountDistinct(s[1..]);
      assert Elements(s) == {s[0]} + Elements(s[1..]);
    }
  }

  /** Storing elsewhere leaves the list as it was. */
  lemma ChainApart(m: map<int, byte>, head: int, free: seq<int>, a: int, s: seq<byte>)
    requires Chain(m, head, free)
    requires forall i :: 0 <= i < |free| ==> free[i] + POINTER_SIZE <= a || a + |s| <= free[i]
    ensures Chain(Store(m, a, s), head, free)
  {
    var m' := Store(m, a, s);
    StoreFacts(m, a, s);
    forall i | 0 <= i < |free|
      ensures Same(m, m', free[i], POINTER_SIZE)
    {
      assert Linked(m, free, i);
    }
    ChainSame(m, m', head, free);
  }

  /** Pieces with different starts do not overlap. */
  lemma PiecesApart(home: map<int, Extent>, a: int, n: nat, b: int, k: nat)
    requires Piece(home, a, n) && Piece(home, b, k) && a != b && n > 0 && k > 0
    ensures a + n <= b || b + k <= a
  {
    assert home[a] == Extent(a, n) && home[b] == Extent(b, k);
  }

  /** Blocks one behind the other, the last one first. */
  ghost predicate Spaced(s: seq<int>, size: nat, lo: int, hi: int) {
    && (forall k :: 0 <= k < |s| ==> lo <= s[k] && s[k] + size <= hi)
    && (forall j, k :: 0 <= j < k < |s| ==> s[k] + size <= s[j])
  }

  lemma SpacedCons(s: seq<int>, size: nat, lo: int, hi: int)
    requires Spaced(s, size, lo, hi) && lo <= hi
    ensures Spaced([hi] + s, size, lo, hi + size)
  {
  }

  predicate Here(k: int) { true }

  ghost function Extend(home: map<int, Extent>, a: int, n: nat): map<int, Extent> {
    home + map k {:trigger Here(k)} | a <= k < a + n && Here(k) :: Extent(a, n)
  }

  lemma ExtendFacts(home: map<int, Extent>, a: int, n: nat)
    ensures var h := Extend(home, a, n);
            && (forall k :: k in h <==> k in home || a <= k < a + n)
            && (forall k :: k in home && !(a <= k < a + n) ==> h[k] == home[k])
            && Piece(h, a, n)
  {
  }

  lemma ExtendKeeps(home: map<int, Extent>, a: int, n: nat, b: int, k: nat)
    requires Piece(home, b, k) && forall x :: a <= x < a + n ==> x !in home
    ensures Piece(Extend(home, a, n), b, k)
  {
    ExtendFacts(home, a, n);
  }

  /** Where the n-th block of a chunk begins. */
  ghost function Times(n: nat, size: nat): nat { n * size }

  lemma TimesStep(n: nat, number: nat, size: nat)
    requires n < number
    ensures Times(n + 1, size) == Times(n, size) + size <= Times(number, size)
    ensures Times(0, size) == 0
  {
  }

  class AllocatorBlock {
    const mem: Memory
    const block_size_: nat
    const block_number_: nat
    var free_next_: nat
    var memory_list_: seq<int>
    ghost var free: seq<int>
    ghost var blocks: set<int>

    /** The first chunk is taken at once; the system's answer to that is chunk. */
    constructor (mem: Memory, block_size: nat, block_number: nat, chunk: Reply)
      requires mem.Valid() && block_number >= 1
      requires Sound(mem, chunk,
                     (if block_size > POINTER_SIZE then block_size + 1 else POINTER_SIZE + 1) * block_number)
      modifies mem
      ensures Valid() && this.mem == mem && block_number_ == block_number
      ensures block_size_ == (if block_size > POINTER_SIZE then block_size else POINTER_SIZE) + 1
      ensures Out() == {} && |memory_list_| == if chunk.NoMemory? then 0 else 1
      ensures OnlyChunk(old(mem.bytes), mem.bytes, chunk)
      ensures Kept(old(mem.bytes), old(mem.home), mem.bytes, mem.home)
    {
      this.mem := mem;
      block_size_ := (if block_size > POINTER_SIZE then block_size else POINTER_SIZE) + 1;
      block_number_ := block_number;
      free_next_, memory_list_, free, blocks := 0, [], [], {};
      new;
      AllocatSize(chunk);
    }

    /** An answer of the system allocator to a request for total bytes: a range nobody else has. */
    static ghost predicate Sound(mem: Memory, r: Reply, total: nat)
      reads mem
    {
      r.Range? ==> |r.content| == total && 0 < r.base && r.base + total <= ADDRESS_LIMIT
                   && forall k :: r.base <= k < r.base + total ==> k !in mem.bytes
    }

    /** Nothing that was mapped before has moved or changed. */
    static ghost predicate Kept(bytes: map<int, byte>, home: map<int, Extent>, bytes': map<int, byte>,
                                home': map<int, Extent>) {
      && (forall k :: k in bytes ==> k in bytes' && bytes'[k] == bytes[k])
      && (forall k :: k in home ==> k in home' && home'[k] == home[k])
    }

    static ghost predicate OnlyChunk(bytes: map<int, byte>, bytes': map<int, byte>, chunk: Reply) {
      forall k :: k in bytes' && k !in bytes ==> chunk.Range? && chunk.base <= k < chunk.base + |chunk.content|
    }

    ghost predicate BlockOk(home: map<int, Extent>, a: int) {
      && 0 < a && a + block_size_ <= ADDRESS_LIMIT && Piece(home, a, block_size_)
    }

    /** The blocks are disjoint pieces of the chunks; the free ones form the list. */
    ghost predicate ValidIn(bytes: map<int, byte>, home: map<int, Extent>)
      reads this
    {
      && block_size_ > POINTER_SIZE && block_number_ >= 1
      && (forall a :: a in blocks ==> BlockOk(home, a))
      && |blocks| == block_number_ * |memory_list_|
      && Distinct(free) && Elements(free) <= blocks && Chain(bytes, free_next_, free)
    }

    ghost predicate Valid()
      reads this, mem
    {
      mem.Valid() && ValidIn(mem.bytes, mem.home)
    }

    /** What allocat_size asks of the system. */
    function ChunkSize(): nat { block_size_ * block_number_ }

    /** The blocks in use. */
    ghost function Out(): set<int>
      reads this
    {
      blocks - Elements(free)
    }

    lemma Conservation()
      requires Valid()
      ensures |free| + |Out()| == block_number_ * |memory_list_|
    {
      CountDistinct(free);
    }

    lemma Disjoint(a: int, b: int)
      requires Valid() && a in blocks && b in blocks && a != b
      ensures a + block_size_ <= b || b + block_size_ <= a
    {
      assert BlockOk(mem.home, a) && BlockOk(mem.home, b);
      PiecesApart(mem.home, a, block_size_, b, block_size_);
    }

    /** allocat_size: a new chunk is cut into blocks, each linked to the one before it. */
    method AllocatSize(chunk: Reply)
      requires Valid() && free == [] && Sound(mem, chunk, ChunkSize())
      modifies this, mem
      ensures Valid() && Kept(old(mem.bytes), old(mem.home), mem.bytes, mem.home)
      ensures Out() == old(blocks) && OnlyChunk(old(mem.bytes), mem.bytes, chunk)
      ensures chunk.NoMemory? ==>
                && free == [] && memory_list_ == old(memory_list_)
                && mem.bytes == old(mem.bytes) && mem.home == old(mem.home)
      ensures chunk.Range? ==> |free| == block_number_ && memory_list_ == [chunk.base] + old(memory_list_)
      ensures chunk.Range? ==> Spaced(free, block_size_, chunk.base, chunk.base + ChunkSize())
    {
      hide *;
      OutAll();
      if chunk.NoMemory? {
        KeptSame(mem.bytes, mem.home);
        return;
      }
      var total := ChunkSize();
      var buffer := chunk.base;
      ChunkMapped(mem.bytes, mem.home, chunk, total);
      ghost var bytes0, home0, blocks0, list0 := mem.bytes, mem.home, blocks, memory_list_;
      mem.bytes := Store(mem.bytes, buffer, chunk.content);
      memory_list_ := [buffer] + memory_list_;
      free_next_, free := Carve(buffer, total);
      blocks := blocks + Elements(free);
      ChunkValid(bytes0, home0, blocks0, list0, chunk, total);
    }

    lemma KeptSame(bytes: map<int, byte>, home: map<int, Extent>)
      ensures Kept(bytes, home, bytes, home) && OnlyChunk(bytes, bytes, NoMemory)
    {
    }

    lemma ChunkMapped(bytes: map<int, byte>, home: map<int, Extent>, chunk: Reply, total: nat)
      requires Valid() && Sound(mem, chunk, total) && chunk.Range? && mem.bytes == bytes && mem.home == home
      ensures Uncut(Store(bytes, chunk.base, chunk.content), home, chunk.base, total) && block_number_ >= 1
      ensures |chunk.content| == total && Known(bytes, home, blocks, memory_list_)
      ensures forall k :: k in bytes ==> k < chunk.base || k >= chunk.base + total
    {
      assert forall a :: a in blocks ==> BlockOk(mem.home, a);
      StoreFacts(bytes, chunk.base, chunk.content);
    }

    /** What the chunks before amount to. */
    ghost predicate Known(bytes: map<int, byte>, home: map<int, Extent>, known: set<int>, chunks: seq<int>) {
      && SameDomain(bytes, home) && |known| == block_number_ * |chunks|
      && (forall a :: a in known ==> 0 < a && a + block_size_ <= ADDRESS_LIMIT && Piece(home, a, block_size_))
    }

    /** The pool after a chunk has been cut. */
    lemma ChunkValid(bytes0: map<int, byte>, home0: map<int, Extent>, blocks0: set<int>, list0: seq<int>, chunk: Reply,
                     total: nat)
      requires chunk.Range? && |chunk.content| == total && block_number_ >= 1 && total == ChunkSize()
      requires Known(bytes0, home0, blocks0, list0)
      requires var bytes1 := Store(bytes0, chunk.base, chunk.content);
               && Uncut(bytes1, home0, chunk.base, total)
               && Carved(bytes1, home0, mem.bytes, mem.home, chunk.base, chunk.base + total, total, free_next_, free)
      requires forall k :: k in bytes0 ==> k < chunk.base || k >= chunk.base + total
      requires |free| == block_number_ && memory_list_ == [chunk.base] + list0 && blocks == blocks0 + Elements(free)
      ensures Valid() && Out() == blocks0 && Kept(bytes0, home0, mem.bytes, mem.home)
      ensures OnlyChunk(bytes0, mem.bytes, chunk)
      ensures Spaced(free, block_size_, chunk.base, chunk.base + total)
    {
      hide Chain, ChunkSize, Store, Distinct, Piece, Elements, BlockOk;
      StoreFacts(bytes0, chunk.base, chunk.content);
      NewBlocks(home0, blocks0, free, chunk.base, total);
      OneMoreChunk(block_number_, |list0|);
      assert memory_list_[1..] == list0;
      assert forall i :: 0 <= i < |free| ==> chunk.base <= free[i] && free[i] + block_size_ <= chunk.base + total;
      BlocksOk(home0, blocks0);
    }

    lemma OneMoreChunk(number: nat, chunks: nat)
      ensures number * (chunks + 1) == number * chunks + number
    {
    }

    lemma BlocksOk(home0: map<int, Extent>, blocks0: set<int>)
      requires forall a :: a in blocks0 ==> 0 < a && a + block_size_ <= ADDRESS_LIMIT && Piece(home0, a, block_size_)
      requires forall i :: 0 <= i < |free| ==>
                 0 < free[i] && free[i] + block_size_ <= ADDRESS_LIMIT && Piece(mem.home, free[i], block_size_)
      requires forall k :: k in home0 ==> k in mem.home && mem.home[k] == home0[k]
      requires blocks == blocks0 + Elements(free)
      ensures forall a :: a in blocks ==> BlockOk(mem.home, a)
    {
      forall a | a in blocks
        ensures BlockOk(mem.home, a)
      {
        if a in blocks0 {
          assert Piece(home0, a, block_size_);
        } else {
          var i :| 0 <= i < |free| && free[i] == a;
          assert Piece(mem.home, free[i], block_size_);
        }
      }
    }

    /** The range from base to buffer has been cut into the blocks of list; nothing outside has changed. */
    ghost predicate Carved(bytes0: map<int, byte>, home0: map<int, Extent>, bytes: map<int, byte>,
                           home: map<int, Extent>,
                           base: int, buffer: int, total: nat, header: nat, list: seq<int>)
    {
      && base <= buffer <= base + total && list != [] && list[0] == header
      && (forall k :: k in bytes <==> k in bytes0) && (forall k :: k in home <==> k in home0 || base <= k < buffer)
      && (forall k :: k in bytes && !(base <= k < base + total) ==> bytes[k] == bytes0[k])
      && (forall k :: k in home0 ==> home[k] == home0[k])
      && Chain(bytes, header, list) && Spaced(list, block_size_, base, buffer)
      && (forall j :: 0 <= j < |list| ==> Piece(home, list[j], block_size_))
    }

    ghost predicate Uncut(bytes0: map<int, byte>, home0: map<int, Extent>, base: int, total: nat) {
      && block_size_ > POINTER_SIZE && 0 < base && base + total <= ADDRESS_LIMIT && Mapped(bytes0, base, total)
      && (forall k :: base <= k < base + total ==> k !in home0)
    }

    /** The loop: the first block ends the list, every later one is put in front. */
    method Carve(base: int, total: nat) returns (header: nat, ghost list: seq<int>)
      requires Uncut(mem.bytes, mem.home, base, total) && block_number_ >= 1 && total == ChunkSize()
      modifies mem
      ensures Carved(old(mem.bytes), old(mem.home), mem.bytes, mem.home, base, base + total, total, header, list)
      ensures |list| == block_number_
    {
      hide *;
      ghost var bytes0, home0 := mem.bytes, mem.home;
      var buffer := base;
      UncutBase(bytes0, home0, base, total);
      header := buffer;
      FirstBlock(bytes0, home0, base, total);
      mem.bytes := Store(mem.bytes, header, LE(0, POINTER_SIZE));
      mem.home := Extend(mem.home, buffer, block_size_);
      list := [header];
      buffer := buffer + block_size_;
      var i := 1;
      while i < block_number_
        invariant 1 <= i <= block_number_ && buffer == base + Times(i, block_size_) <= base + total
        invariant Carved(bytes0, home0, mem.bytes, mem.home, base, buffer, total, header, list) && |list| == i
      {
        TimesStep(i, block_number_, block_size_);
        NextBlock(bytes0, home0, mem.bytes, mem.home, base, buffer, total, header, list);
        var block := buffer;
        buffer := buffer + block_size_;
        mem.bytes := Store(mem.bytes, block, LE(header, POINTER_SIZE));
        mem.home := Extend(mem.home, block, block_size_);
        list := [block] + list;
        header := block;
        i := i + 1;
      }
    }

    lemma UncutBase(bytes0: map<int, byte>, home0: map<int, Extent>, base: int, total: nat)
      requires Uncut(bytes0, home0, base, total)
      ensures 0 < base
    {
    }

    lemma FirstBlock(bytes0: map<int, byte>, home0: map<int, Extent>, base: int, total: nat)
      requires Uncut(bytes0, home0, base, total) && block_number_ >= 1 && total == ChunkSize()
      ensures Times(1, block_size_) == block_size_ <= total && Times(block_number_, block_size_) == total
      ensures Carved(bytes0, home0, Store(bytes0, base, LE(0, POINTER_SIZE)), Extend(home0, base, block_size_),
                     base, base + block_size_, total, base, [base])
    {
      TimesStep(0, block_number_, block_size_);
      StoredPointer(bytes0, base, 0);
      StoreFacts(bytes0, base, LE(0, POINTER_SIZE));
      ExtendFacts(home0, base, block_size_);
      hide Store, Extend, Times, ChunkSize, Pointer;
    }

    lemma NextBlock(bytes0: map<int, byte>, home0: map<int, Extent>, bytes: map<int, byte>, home: map<int, Extent>,
                    base: int, block: nat, total: nat, header: nat, list: seq<int>)
      requires Uncut(bytes0, home0, base, total) && block + block_size_ <= base + total
      requires Carved(bytes0, home0, bytes, home, base, block, total, header, list)
      ensures Carved(bytes0, home0, Store(bytes, block, LE(header, POINTER_SIZE)), Extend(home, block, block_size_),
                     base, block + block_size_, total, block, [block] + list)
    {
      hide Chain, Piece, Spaced, Store, Extend;
      CarveOne(bytes, home, header, list, block, base);
      SpacedCons(list, block_size_, base, block);
      StoreFacts(bytes, block, LE(header, POINTER_SIZE));
      ExtendFacts(home, block, block_size_);
    }

    /** One more block in front of the list. */
    lemma CarveOne(bytes: map<int, byte>, home: map<int, Extent>, header: nat, list: seq<int>, block: int, base: int)
      requires block_size_ > POINTER_SIZE && Chain(bytes, header, list) && list != [] && list[0] == header && 0 < base
      requires Spaced(list, block_size_, base, block) && block < ADDRESS_LIMIT && Mapped(bytes, block, block_size_)
      requires forall j :: 0 <= j < |list| ==> Piece(home, list[j], block_size_)
      requires forall k :: block <= k < block + block_size_ ==> k !in home
      ensures Chain(Store(bytes, block, LE(header, POINTER_SIZE)), block, [block] + list)
      ensures forall j :: 0 <= j < |[block] + list| ==>
                Piece(Extend(home, block, block_size_), ([block] + list)[j], block_size_)
    {
      var s := [block] + list;
      StoredPointer(bytes, block, header);
      ChainApart(bytes, header, list, block, LE(header, POINTER_SIZE));
      ChainCons(Store(bytes, block, LE(header, POINTER_SIZE)), block, header, list);
      forall j | 0 <= j < |s|
        ensures Piece(Extend(home, block, block_size_), s[j], block_size_)
      {
        if j > 0 {
          assert s[j] == list[j - 1];
          ExtendKeeps(home, block, block_size_, list[j - 1], block_size_);
        }
      }
    }

    /** The new blocks are new, and all different. */
    lemma NewBlocks(home: map<int, Extent>, known: set<int>, list: seq<int>, base: int, total: nat)
      requires block_size_ > 0 && Spaced(list, block_size_, base, base + total)
      requires forall k :: base <= k < base + total ==> k !in home
      requires forall a :: a in known ==> Piece(home, a, block_size_)
      ensures Distinct(list) && known !! Elements(list) && |known + Elements(list)| == |known| + |list|
    {
      CountDistinct(list);
      forall a | a in known
        ensures a !in Elements(list)
      {
        assert Piece(home, a, block_size_);
        assert a in home;
      }
    }

    /** malloc: the first free block; only when there is none is a new chunk cut. */
    method Malloc(chunk: Reply) returns (p: int)
      requires Valid() && (free == [] ==> Sound(mem, chunk, ChunkSize()))
      modifies this, mem
      ensures Valid() && Kept(old(mem.bytes), old(mem.home), mem.bytes, mem.home)
      ensures p == 0 <==> old(free) == [] && chunk.NoMemory?
      ensures p == 0 ==> Out() == old(Out())
      ensures p != 0 ==> Out() == old(Out()) + {p} && p in blocks && p !in old(Out())
      ensures old(free) != [] ==>
                && p == old(free)[0] && free == old(free)[1..] && blocks == old(blocks)
                && memory_list_ == old(memory_list_) && mem.bytes == old(mem.bytes) && mem.home == old(mem.home)
      ensures old(free) == [] && chunk.Range? ==>
                |free| == block_number_ - 1 && memory_list_ == [chunk.base] + old(memory_list_)
    {
      HeadInRange();
      hide *;
      if free_next_ != 0 {
        p := TakeFirst();
      } else {
        OutAll();
        AllocatSize(chunk);
        HeadInRange();
        if free_next_ != 0 {
          p := TakeFirst();
        } else {
          p := 0;
        }
      }
    }

    lemma OutAll()
      requires free == []
      ensures Out() == blocks
    {
    }

    /** The unlinking that both branches of malloc do. */
    method TakeFirst() returns (p: int)
      requires Valid() && free != []
      modifies this`free_next_, this`free
      ensures Valid() && p == old(free)[0] && p != 0 && free == old(free)[1..]
      ensures Out() == old(Out()) + {p} && p in blocks && p !in old(Out())
    {
      HeadInRange();
      ChainTail(mem.bytes, free_next_, free);
      PopDistinct(free);
      hide Chain, BlockOk, Distinct, Elements;
      p := free_next_;
      free_next_ := Pointer(mem.bytes, p);
      free := free[1..];
    }

    /** free of a block in use: its first bytes become the link. */
    method Free(p: int)
      requires Valid() && p in Out()
      modifies this`free_next_, this`free, mem`bytes
      ensures Valid() && free == [p] + old(free) && Out() == old(Out()) - {p}
      ensures mem.bytes == Store(old(mem.bytes), p, LE(old(free_next_), POINTER_SIZE))
    {
      FreeChain(p);
      PushDistinct(free, p);
      hide Chain, BlockOk, Store, Distinct, Elements;
      mem.bytes := Store(mem.bytes, p, LE(free_next_, POINTER_SIZE));
      free_next_ := p;
      free := [p] + free;
    }

    lemma FreeChain(p: int)
      requires Valid() && p in Out()
      ensures 0 < p && free_next_ < ADDRESS_LIMIT
      ensures var bytes' := Store(mem.bytes, p, LE(free_next_, POINTER_SIZE));
              SameDomain(bytes', mem.home) && Chain(bytes', p, [p] + free)
    {
      assert BlockOk(mem.home, p);
      HeadInRange();
      forall i | 0 <= i < |free|
        ensures free[i] + block_size_ <= p || p + block_size_ <= free[i]
      {
        Disjoint(free[i], p);
      }
      assert Mapped(mem.bytes, p, POINTER_SIZE);
      hide Chain, Piece;
      ChainApart(mem.bytes, free_next_, free, p, LE(free_next_, POINTER_SIZE));
      StoredPointer(mem.bytes, p, free_next_);
      StoreFacts(mem.bytes, p, LE(free_next_, POINTER_SIZE));
      ChainCons(Store(mem.bytes, p, LE(free_next_, POINTER_SIZE)), p, free_next_, free);
    }

    lemma HeadInRange()
      requires Valid()
      ensures 0 <= free_next_ < ADDRESS_LIMIT && free_next_ == At(free, 0)
      ensures forall i :: 0 <= i < |free| ==>
                Piece(mem.home, free[i], block_size_) && free[i] in blocks && free[i] in Elements(free)
      ensures free == [] <==> free_next_ == 0
    {
      forall i | 0 <= i < |free|
        ensures free[i] in blocks && Piece(mem.home, free[i], block_size_) && free[i] in Elements(free)
      {
        assert free[i] in Elements(free);
        assert BlockOk(mem.home, free[i]);
      }
      if free != [] {
        assert BlockOk(mem.home, free[0]);
      }
    }

    /** The pool does not notice stores outside its free blocks, new ranges elsewhere, or the end of other pieces. */
    lemma StoreKeeps(bytes: map<int, byte>, home: map<int, Extent>, a: int, s: seq<byte>, b: int)
      requires ValidIn(bytes, home) && SameDomain(bytes, home) && b !in Elements(free)
      requires forall k :: a <= k < a + |s| ==> k in home && home[k].start == b
      ensures ValidIn(Store(bytes, a, s), home) && SameDomain(Store(bytes, a, s), home)
    {
      StoreFacts(bytes, a, s);
      hide Store, Distinct;
      forall i | 0 <= i < |free|
        ensures Same(bytes, Store(bytes, a, s), free[i], POINTER_SIZE)
      {
        assert free[i] in Elements(free) && BlockOk(home, free[i]);
        forall k | free[i] <= k < free[i] + POINTER_SIZE
          ensures k in bytes && k in Store(bytes, a, s) && Store(bytes, a, s)[k] == bytes[k]
        {
          assert k in home && home[k] == Extent(free[i], block_size_);
        }
      }
      ChainSame(bytes, Store(bytes, a, s), free_next_, free);
    }

    lemma KeptKeeps(bytes: map<int, byte>, home: map<int, Extent>, bytes': map<int, byte>, home': map<int, Extent>)
      requires ValidIn(bytes, home) && Kept(bytes, home, bytes', home')
      ensures ValidIn(bytes', home')
    {
      hide Distinct;
      forall i | 0 <= i < |free|
        ensures Same(bytes, bytes', free[i], POINTER_SIZE)
      {
        assert Linked(bytes, free, i);
      }
      ChainSame(bytes, bytes', free_next_, free);
      forall a | a in blocks
        ensures BlockOk(home', a)
      {
        assert BlockOk(home, a);
      }
    }

    lemma DropKeeps(bytes: map<int, byte>, home: map<int, Extent>, p: int, n: nat)
      requires ValidIn(bytes, home) && SameDomain(bytes, home) && Piece(home, p, n) && n > 0 && p !in blocks
      ensures ValidIn(Drop(bytes, p, n), Drop(home, p, n))
    {
      hide Distinct, Drop;
      forall a | a in blocks
        ensures BlockOk(Drop(home, p, n), a) && Same(bytes, Drop(bytes, p, n), a, block_size_)
      {
        assert BlockOk(home, a);
        PiecesApart(home, a, block_size_, p, n);
        DropFacts(bytes, p, n);
        DropFacts(home, p, n);
      }
      forall i | 0 <= i < |free|
        ensures Same(bytes, Drop(bytes, p, n), free[i], POINTER_SIZE)
      {
        assert free[i] in Elements(free) && Same(bytes, Drop(bytes, p, n), free[i], block_size_);
      }
      ChainSame(bytes, Drop(bytes, p, n), free_next_, free);
    }
  }
}
