/** The substitution book that scrambles a connection's bytes (antlib/commandlib/encry_book.c, encry_book.h): a table
    shuffled by a 64-bit key, and its inverse. */
module EncryBook {
  import opened Bytes
  import opened Collections

  const SIZE := 256

  /** One column of a line of sixteen. */
  function Column(col: int, a: byte, b: byte, c: byte, d: byte, e: byte, f: byte, g: byte, h: byte,
                  i: byte, j: byte, k: byte, l: byte, m: byte, n: byte, o: byte, p: byte): byte {
    if col == 0 then a else if col == 1 then b else if col == 2 then c else if col == 3 then d
    else if col == 4 then e else if col == 5 then f else if col == 6 then g else if col == 7 then h
    else if col == 8 then i else if col == 9 then j else if col == 10 then k else if col == 11 then l
    else if col == 12 then m else if col == 13 then n else if col == 14 then o else p
  }

  /** _g_initbook. */
  function InitByte(i: nat): byte {
    if i < 16 then
      Column(i, 0xe3, 0xa4, 0xe5, 0x7c, 0x0b, 0x9e, 0xbc, 0xfd, 0x67, 0x14, 0xb0, 0x96, 0x44, 0x9a, 0xc2, 0x77)
    else if i < 32 then
      Column(i - 16, 0x4f, 0xe9, 0xe1, 0xd6, 0x8b, 0xb4, 0x86, 0x1f, 0x25, 0xdb, 0x93, 0xd8, 0x62, 0xc9, 0xca, 0x53)
    else if i < 48 then
      Column(i - 32, 0xa8, 0xa2, 0xad, 0x8c, 0x28, 0x64, 0x5a, 0x9b, 0xcd, 0xb7, 0x33, 0x3a, 0xb6, 0xf7, 0x46, 0x5d)
    else if i < 64 then
      Column(i - 48, 0x32, 0x0e, 0xd9, 0x90, 0x36, 0xf6, 0x11, 0xaa, 0x54, 0x98, 0x66, 0x47, 0xcf, 0xc0, 0x17, 0x8e)
    else if i < 80 then
      Column(i - 64, 0xb2, 0x07, 0x50, 0x72, 0xa3, 0xe2, 0x10, 0x34, 0xed, 0x4d, 0xf9, 0x20, 0x27, 0xb8, 0xc4, 0xbe)
    else if i < 96 then
      Column(i - 80, 0x61, 0x37, 0x91, 0x9c, 0xcb, 0xaf, 0x09, 0x5e, 0x6e, 0xef, 0xb9, 0x55, 0x0c, 0xfc, 0x9d, 0x26)
    else if i < 112 then
      Column(i - 96, 0x95, 0x22, 0x1d, 0x2e, 0x7e, 0xd4, 0xc7, 0x29, 0xa6, 0x42, 0x74, 0xa5, 0xc1, 0x65, 0x35, 0x3c)
    else if i < 128 then
      Column(i - 112, 0x0f, 0xc3, 0xa1, 0x2a, 0x13, 0x8f, 0x2b, 0x92, 0x06, 0x2c, 0x00, 0xfb, 0x68, 0x7f, 0xbb, 0xee)
    else if i < 144 then
      Column(i - 128, 0xac, 0x43, 0x01, 0x51, 0x2f, 0x4c, 0x73, 0xce, 0x60, 0x85, 0x52, 0x0d, 0xae, 0xe8, 0x79, 0xe4)
    else if i < 160 then
      Column(i - 144, 0x6f, 0x69, 0x19, 0x6c, 0x1b, 0x5c, 0xd0, 0xff, 0xbf, 0x56, 0x38, 0xba, 0x24, 0x04, 0x39, 0xf8)
    else if i < 176 then
      Column(i - 160, 0x3f, 0xb3, 0x9f, 0x16, 0xf1, 0xe6, 0x6d, 0x49, 0x12, 0xd1, 0x81, 0x03, 0x57, 0xd7, 0xcc, 0x18)
    else if i < 192 then
      Column(i - 176, 0x7b, 0x6b, 0x63, 0x5f, 0xa0, 0x87, 0xeb, 0x5b, 0xf4, 0x76, 0xf2, 0x45, 0x41, 0x02, 0xc6, 0x78)
    else if i < 208 then
      Column(i - 192, 0x84, 0x3e, 0x83, 0x23, 0xec, 0xb5, 0x15, 0xc8, 0x05, 0x6a, 0x7d, 0x08, 0x75, 0x21, 0x58, 0xb1)
    else if i < 224 then
      Column(i - 208, 0xda, 0x99, 0xdf, 0xf0, 0x89, 0xd3, 0x0a, 0xab, 0xdc, 0x3b, 0x30, 0x1a, 0x7a, 0x88, 0xdd, 0x59)
    else if i < 240 then
      Column(i - 224, 0x4a, 0xc5, 0xa9, 0xf5, 0x2d, 0x4b, 0x71, 0xbd, 0xf3, 0x70, 0x8a, 0xd2, 0x4e, 0x1c, 0xde, 0x80)
    else Column(i - 240, 0xe7, 0x94, 0xfa, 0xe0, 0x8d, 0x97, 0x48, 0xea, 0x1e, 0x82, 0x3d, 0x40, 0x31, 0xa7, 0xd5, 0xfe)
  }

  /** Where the initial table holds a byte. */
  function InitPlace(i: nat): byte {
    if i < 16 then
      Column(i, 0x7a, 0x82, 0xbd, 0xab, 0x9d, 0xc8, 0x78, 0x41, 0xcb, 0x56, 0xd6, 0x04, 0x5c, 0x8b, 0x31, 0x70)
    else if i < 32 then
      Column(i - 16, 0x46, 0x36, 0xa8, 0x74, 0x09, 0xc6, 0xa3, 0x3e, 0xaf, 0x92, 0xdb, 0x94, 0xed, 0x62, 0xf8, 0x17)
    else if i < 48 then
      Column(i - 32, 0x4b, 0xcd, 0x61, 0xc3, 0x9c, 0x18, 0x5f, 0x4c, 0x24, 0x67, 0x73, 0x76, 0x79, 0xe4, 0x63, 0x84)
    else if i < 64 then
      Column(i - 48, 0xda, 0xfc, 0x30, 0x2a, 0x47, 0x6e, 0x34, 0x51, 0x9a, 0x9e, 0x2b, 0xd9, 0x6f, 0xfa, 0xc1, 0xa0)
    else if i < 80 then
      Column(i - 64, 0xfb, 0xbc, 0x69, 0x81, 0x0c, 0xbb, 0x2e, 0x3b, 0xf6, 0xa7, 0xe0, 0xe5, 0x85, 0x49, 0xec, 0x10)
    else if i < 96 then
      Column(i - 80, 0x42, 0x83, 0x8a, 0x1f, 0x38, 0x5b, 0x99, 0xac, 0xce, 0xdf, 0x26, 0xb7, 0x95, 0x2f, 0x57, 0xb3)
    else if i < 112 then
      Column(i - 96, 0x88, 0x50, 0x1c, 0xb2, 0x25, 0x6d, 0x3a, 0x08, 0x7c, 0x91, 0xc9, 0xb1, 0x93, 0xa6, 0x58, 0x90)
    else if i < 128 then
      Column(i - 112, 0xe9, 0xe6, 0x43, 0x86, 0x6a, 0xcc, 0xb9, 0x0f, 0xbf, 0x8e, 0xdc, 0xb0, 0x03, 0xca, 0x64, 0x7d)
    else if i < 144 then
      Column(i - 128, 0xef, 0xaa, 0xf9, 0xc2, 0xc0, 0x89, 0x16, 0xb5, 0xdd, 0xd4, 0xea, 0x14, 0x23, 0xf4, 0x3f, 0x75)
    else if i < 160 then
      Column(i - 144, 0x33, 0x52, 0x77, 0x1a, 0xf1, 0x60, 0x0b, 0xf5, 0x39, 0xd1, 0x0d, 0x27, 0x53, 0x5e, 0x05, 0xa2)
    else if i < 176 then
      Column(i - 160, 0xb4, 0x72, 0x21, 0x44, 0x01, 0x6b, 0x68, 0xfd, 0x20, 0xe2, 0x37, 0xd7, 0x80, 0x22, 0x8c, 0x55)
    else if i < 192 then
      Column(i - 176, 0x0a, 0xcf, 0x40, 0xa1, 0x15, 0xc5, 0x2c, 0x29, 0x4d, 0x5a, 0x9b, 0x7e, 0x06, 0xe7, 0x4f, 0x98)
    else if i < 208 then
      Column(i - 192, 0x3d, 0x6c, 0x0e, 0x71, 0x4e, 0xe1, 0xbe, 0x66, 0xc7, 0x1d, 0x1e, 0x54, 0xae, 0x28, 0x87, 0x3c)
    else if i < 224 then
      Column(i - 208, 0x96, 0xa9, 0xeb, 0xd5, 0x65, 0xfe, 0x13, 0xad, 0x1b, 0x32, 0xd0, 0x19, 0xd8, 0xde, 0xee, 0xd2)
    else if i < 240 then
      Column(i - 224, 0xf3, 0x12, 0x45, 0x00, 0x8f, 0x02, 0xa5, 0xf0, 0x8d, 0x11, 0xf7, 0xb6, 0xc4, 0x48, 0x7f, 0x59)
    else Column(i - 240, 0xd3, 0xa4, 0xba, 0xe8, 0xb8, 0xe3, 0x35, 0x2d, 0x9f, 0x4a, 0xf2, 0x7b, 0x5d, 0x07, 0xff, 0x97)
  }

  lemma Placed0(i: nat)
    requires 0 <= i < 32
    ensures InitPlace(InitByte(i)) == i
  {
  }

  lemma Placed1(i: nat)
    requires 32 <= i < 64
    ensures InitPlace(InitByte(i)) == i
  {
  }

  lemma Placed2(i: nat)
    requires 64 <= i < 96
    ensures InitPlace(InitByte(i)) == i
  {
  }

  lemma Placed3(i: nat)
    requires 96 <= i < 128
    ensures InitPlace(InitByte(i)) == i
  {
  }

  lemma Placed4(i: nat)
    requires 128 <= i < 160
    ensures InitPlace(InitByte(i)) == i
  {
  }

  lemma Placed5(i: nat)
    requires 160 <= i < 192
    ensures InitPlace(InitByte(i)) == i
  {
  }

  lemma Placed6(i: nat)
    requires 192 <= i < 224
    ensures InitPlace(InitByte(i)) == i
  {
  }

  lemma Placed7(i: nat)
    requires 224 <= i < 256
    ensures InitPlace(InitByte(i)) == i
  {
  }

  function InitBook(): (book: seq<byte>)
    ensures |book| == SIZE && forall i :: 0 <= i < SIZE ==> book[i] == InitByte(i)
  {
    seq(SIZE, i requires 0 <= i < SIZE => InitByte(i))
  }

  /** No two bytes stand for the same. */
  ghost predicate Permutation(book: seq<byte>) {
    |book| == SIZE && forall i, j :: 0 <= i < j < SIZE ==> book[i] != book[j]
  }

  lemma InitIsPermutation()
    ensures Permutation(InitBook())
  {
    hide InitByte, InitPlace;
    forall i: nat | i < SIZE
      ensures InitPlace(InitByte(i)) == i
    {
      if i < 32 { Placed0(i); } else if i < 64 { Placed1(i); } else if i < 96 { Placed2(i); }
      else if i < 128 { Placed3(i); } else if i < 160 { Placed4(i); } else if i < 192 { Placed5(i); }
      else if i < 224 { Placed6(i); } else { Placed7(i); }
    }
  }

  // ---- The shuffle ----

  function Exchange(book: seq<byte>, i: byte, j: byte): (r: seq<byte>)
    requires |book| == SIZE
    ensures |r| == SIZE
  {
    book[i := book[j]][j := book[i]]
  }

  function Next(b: byte): byte { (b + 1) % 0x100 }

  /** One round: four exchanges, each of whose two key bytes then counts on. */
  function Round(book: seq<byte>, k: seq<byte>): (r: seq<byte>)
    requires |book| == SIZE && |k| == 8
    ensures |r| == SIZE
  {
    Exchange(Exchange(Exchange(Exchange(book, k[0], k[4]), k[1], k[5]), k[2], k[6]), k[3], k[7])
  }

  function NextKey(k: seq<byte>): (r: seq<byte>)
    ensures |r| == |k|
  {
    seq(|k|, i requires 0 <= i < |k| => Next(k[i]))
  }

  function Shuffled(book: seq<byte>, k: seq<byte>, times: int): (r: seq<byte>)
    requires |book| == SIZE && |k| == 8
    ensures |r| == SIZE
    decreases times
  {
    if times <= 0 then book else Shuffled(Round(book, k), NextKey(k), times - 1)
  }

  // ---- Where a byte of the shuffled table comes from ----

  /** Two places trade their contents. */
  function Trade(i: byte, a: byte, b: byte): byte { if i == a then b else if i == b then a else i }

  /** The place whose byte ends up at place i after the n-th round, in which every byte of the key has counted on n
      times: the four trades, the last first. */
  function Before(i: byte, k: seq<byte>, n: nat): byte
    requires |k| == 8
  {
    var at := (j: nat) requires j < 8 => (k[j] + n) % 0x100;
    Trade(Trade(Trade(Trade(i, at(3), at(7)), at(2), at(6)), at(1), at(5)), at(0), at(4))
  }

  /** The same through all rounds before the n-th. */
  function Origin(i: byte, k: seq<byte>, n: nat): byte
    requires |k| == 8
    decreases n
  {
    if n == 0 then i else Origin(Before(i, k, n - 1), k, n - 1)
  }

  /** Any number of rounds, place by place. */
  lemma {:induction false} ShuffledAt(book: seq<byte>, k: seq<byte>, times: nat, i: byte)
    requires |book| == SIZE && |k| == 8
    ensures Shuffled(book, k, times)[i] == book[Origin(i, k, times)]
    decreases times
  {
    if times > 0 {
      hide Round, Before;
      var n := times - 1;
      LastRound(book, k, n);
      RoundAt(Shuffled(book, k, n), k, n, KeyAfter(k, n), i);
      ShuffledAt(book, k, n, Before(i, k, n));
    }
  }

  /** The key after n rounds. */
  function KeyAfter(k: seq<byte>, n: nat): (r: seq<byte>)
    ensures |r| == |k| && forall j :: 0 <= j < |k| ==> r[j] == (k[j] + n) % 0x100
  {
    seq(|k|, j requires 0 <= j < |k| => (k[j] + n) % 0x100)
  }

  lemma RoundAt(book: seq<byte>, k: seq<byte>, n: nat, key: seq<byte>, i: byte)
    requires |book| == SIZE && |k| == 8 && key == KeyAfter(k, n)
    ensures Round(book, key)[i] == book[Before(i, k, n)]
  {
    hide Exchange, Trade;
    var b1 := Exchange(book, key[0], key[4]);
    var b2 := Exchange(b1, key[1], key[5]);
    var b3 := Exchange(b2, key[2], key[6]);
    var i3 := Trade(i, key[3], key[7]);
    var i2 := Trade(i3, key[2], key[6]);
    var i1 := Trade(i2, key[1], key[5]);
    ExchangeAt(b3, key[3], key[7], i);
    ExchangeAt(b2, key[2], key[6], i3);
    ExchangeAt(b1, key[1], key[5], i2);
    ExchangeAt(book, key[0], key[4], i1);
  }

  lemma ExchangeAt(book: seq<byte>, a: byte, b: byte, i: byte)
    requires |book| == SIZE
    ensures Exchange(book, a, b)[i] == book[Trade(i, a, b)]
  {
  }

  /** The rounds can be counted from either end. */
  lemma {:induction false} LastRound(book: seq<byte>, k: seq<byte>, n: nat)
    requires |book| == SIZE && |k| == 8
    ensures Shuffled(book, k, n + 1) == Round(Shuffled(book, k, n), KeyAfter(k, n))
    decreases n
  {
    hide Round;
    if n == 0 {
      assert KeyAfter(k, 0) == k;
      assert Shuffled(book, k, 1) == Shuffled(Round(book, k), NextKey(k), 0);
    } else {
      LastRound(Round(book, k), NextKey(k), n - 1);
      assert KeyAfter(NextKey(k), n - 1) == KeyAfter(k, n);
    }
  }

  lemma ExchangeKeeps(book: seq<byte>, i: byte, j: byte)
    requires Permutation(book)
    ensures Permutation(Exchange(book, i, j)) && multiset(Exchange(book, i, j)) == multiset(book)
  {
  }

  lemma RoundKeeps(book: seq<byte>, k: seq<byte>)
    requires |book| == SIZE && Permutation(book) && |k| == 8
    ensures Permutation(Round(book, k)) && multiset(Round(book, k)) == multiset(book)
  {
    hide Exchange, Permutation;
    var b1: seq<byte> := Exchange(book, k[0], k[4]);
    var b2: seq<byte> := Exchange(b1, k[1], k[5]);
    var b3: seq<byte> := Exchange(b2, k[2], k[6]);
    ExchangeKeeps(book, k[0], k[4]);
    ExchangeKeeps(b1, k[1], k[5]);
    ExchangeKeeps(b2, k[2], k[6]);
    ExchangeKeeps(b3, k[3], k[7]);
  }

  /** Whatever the table, the key and the number of rounds, a permutation stays one. */
  lemma {:induction false} ShuffledKeeps(book: seq<byte>, k: seq<byte>, times: int)
    requires |book| == SIZE && Permutation(book) && |k| == 8
    ensures Permutation(Shuffled(book, k, times)) && multiset(Shuffled(book, k, times)) == multiset(book)
    decreases times
  {
    hide Permutation, Round;
    if times > 0 {
      RoundKeeps(book, k);
      ShuffledKeeps(Round(book, k), NextKey(k), times - 1);
    }
  }

  // ---- Coding ----

  ghost predicate Inverse(en: seq<byte>, de: seq<byte>) {
    |en| == |de| == SIZE && forall b: byte :: de[en[b]] == b
  }

  function Coded(table: seq<byte>, s: seq<byte>): (r: seq<byte>)
    requires |table| == SIZE
    ensures |r| == |s| && forall i :: 0 <= i < |s| ==> r[i] == table[s[i]]
  {
    seq(|s|, i requires 0 <= i < |s| => table[s[i]])
  }

  lemma DecodeEncode(en: seq<byte>, de: seq<byte>, s: seq<byte>)
    requires Inverse(en, de)
    ensures Coded(de, Coded(en, s)) == s
  {
  }

  function Range(n: nat): (s: set<int>)
    ensures |s| == n && forall x :: x in s <==> 0 <= x < n
  {
    if n == 0 then {} else Range(n - 1) + {n - 1}
  }

  function Elements(s: seq<byte>): set<int> { set x: int | x in s }

  lemma {:induction false} DistinctCount(s: seq<byte>)
    requires forall i, j :: 0 <= i < j < |s| ==> s[i] != s[j]
    ensures |Elements(s)| == |s|
  {
    if s != [] {
      var t := s[..|s| - 1];
      DistinctCount(t);
      assert s == t + [s[|s| - 1]];
      assert s[|s| - 1] !in Elements(t);
      assert Elements(s) == Elements(t) + {s[|s| - 1]};
    }
  }

  /** Every byte is the code of one. */
  lemma Onto(book: seq<byte>, b: byte)
    requires Permutation(book)
    ensures exists a: byte :: book[a] == b
  {
    DistinctCount(book);
    SubsetSize(Elements(book), Range(SIZE));
    assert b in Elements(book);
    var i :| 0 <= i < SIZE && book[i] == b;
    var a: byte := i;
    assert book[a] == b;
  }

  /** Nothing is lost the other way round either: every buffer is the code of its decoding. */
  lemma EncodeDecode(en: seq<byte>, de: seq<byte>, s: seq<byte>)
    requires Permutation(en) && Inverse(en, de)
    ensures Coded(en, Coded(de, s)) == s
  {
    forall i | 0 <= i < |s|
      ensures en[de[s[i]]] == s[i]
    {
      Onto(en, s[i]);
      var a: byte :| en[a] == s[i];
      assert de[en[a]] == a;
    }
  }

  // ---- The book in memory ----

  class EncryBook {
    const enbook: array<byte>
    const debook: array<byte>
    var key: uint64

    ghost predicate Formed()
      reads this
    {
      enbook.Length == SIZE && debook.Length == SIZE && enbook != debook
    }

    /** The encode table is a permutation, the decode table its inverse. */
    ghost predicate Valid()
      reads this, enbook, debook
    {
      Formed() && Permutation(enbook[..]) && Inverse(enbook[..], debook[..])
    }

    /** Both ends of a connection that agree on a key build the same book. */
    ghost predicate BuiltFrom(k: uint64)
      reads this, enbook, debook
    {
      Valid() && enbook[..] == Shuffled(InitBook(), LE(k, 8), 8)
    }

    constructor (key: uint64)
      ensures BuiltFrom(key) && this.key == key && fresh(enbook) && fresh(debook)
    {
      enbook := new byte[SIZE];
      debook := new byte[SIZE];
      this.key := key;
      new;
      GetEncryBook(key);
    }

    /** get_encrybook. */
    method GetEncryBook(key: uint64)
      requires Formed()
      modifies this, enbook, debook
      ensures BuiltFrom(key) && this.key == key
    {
      hide InitByte, InitPlace, Permutation, Inverse;
      var init := InitBook();
      forall i | 0 <= i < SIZE {
        enbook[i] := init[i];
      }
      assert enbook[..] == init;
      this.key := key;
      InitIsPermutation();
      UpdateEncryBook(8);
    }

    method DoExchange(i: byte, j: byte)
      requires Formed()
      modifies enbook
      ensures enbook[..] == Exchange(old(enbook[..]), i, j)
    {
      if i != j {
        var temp := enbook[i];
        enbook[i] := enbook[j];
        enbook[j] := temp;
      }
    }

    /** update_encrybook: times rounds, with a copy of the key, then the decode table anew. */
    method UpdateEncryBook(times: int)
      requires Formed() && Permutation(enbook[..])
      modifies enbook, debook
      ensures Valid() && enbook[..] == Shuffled(old(enbook[..]), LE(key, 8), times)
    {
      hide Permutation, Exchange;
      var keys: seq<byte> := LE(key, 8);
      var left := times;
      ghost var book := enbook[..];
      while left > 0
        invariant |keys| == 8 && Shuffled(book, LE(key, 8), times) == Shuffled(enbook[..], keys, left)
        decreases left
      {
        ghost var b, k := enbook[..], keys;
        DoExchange(keys[0], keys[4]);
        keys := keys[0 := Next(keys[0])][4 := Next(keys[4])];
        DoExchange(keys[1], keys[5]);
        keys := keys[1 := Next(keys[1])][5 := Next(keys[5])];
        DoExchange(keys[2], keys[6]);
        keys := keys[2 := Next(keys[2])][6 := Next(keys[6])];
        DoExchange(keys[3], keys[7]);
        keys := keys[3 := Next(keys[3])][7 := Next(keys[7])];
        assert enbook[..] == Round(b, k) && keys == NextKey(k);
        left := left - 1;
      }
      ShuffledKeeps(book, LE(key, 8), times);
      FillDeBook();
    }

    /** The last loop. */
    method FillDeBook()
      requires Formed() && Permutation(enbook[..])
      modifies debook
      ensures Valid() && enbook[..] == old(enbook[..])
    {
      ghost var en := enbook[..];
      var n := 0;
      while n < SIZE
        invariant 0 <= n <= SIZE && enbook[..] == en
        invariant forall k :: 0 <= k < n ==> debook[en[k]] == k
      {
        debook[enbook[n]] := n;
        n := n + 1;
      }
      assert forall b: byte :: debook[..][en[b]] == b;
    }

    /** encry: the first dataslen bytes, in place. */
    method Encry(datas: array<byte>, dataslen: int)
      requires Formed() && dataslen <= datas.Length && datas != enbook
      modifies datas
      ensures var n := if dataslen < 0 then 0 else dataslen;
              datas[..] == Coded(enbook[..], old(datas[..n])) + old(datas[n..])
    {
      Substitute(enbook, datas, dataslen);
    }

    /** unencry. */
    method Unencry(datas: array<byte>, dataslen: int)
      requires Formed() && dataslen <= datas.Length && datas != debook
      modifies datas
      ensures var n := if dataslen < 0 then 0 else dataslen;
              datas[..] == Coded(debook[..], old(datas[..n])) + old(datas[n..])
    {
      Substitute(debook, datas, dataslen);
    }

    /** The loop both have. */
    static method Substitute(table: array<byte>, datas: array<byte>, dataslen: int)
      requires table.Length == SIZE && dataslen <= datas.Length && datas != table
      modifies datas
      ensures var n := if dataslen < 0 then 0 else dataslen;
              datas[..] == Coded(table[..], old(datas[..n])) + old(datas[n..])
    {
      var i := 0;
      while i < dataslen
        invariant 0 <= i && (i <= dataslen || i == 0)
        invariant forall k :: 0 <= k < i ==> datas[k] == table[old(datas[k])]
        invariant forall k :: i <= k < datas.Length ==> datas[k] == old(datas[k])
      {
        datas[i] := table[datas[i]];
        i := i + 1;
      }
    }
  }

  /** One end encodes, the other decodes with a book built from the same key: every byte is back. */
  method Exchanged(here: EncryBook, there: EncryBook, key: uint64, datas: array<byte>, dataslen: int)
    requires here.BuiltFrom(key) && there.BuiltFrom(key) && dataslen <= datas.Length
    requires datas !in {here.enbook, here.debook, there.enbook, there.debook}
    modifies datas
    ensures datas[..] == old(datas[..])
  {
    hide InitBook, Shuffled, Permutation, Inverse;
    var n := if dataslen < 0 then 0 else dataslen;
    ghost var before := datas[..];
    here.Encry(datas, dataslen);
    assert datas[..n] == Coded(here.enbook[..], before[..n]) && datas[n..] == before[n..];
    there.Unencry(datas, dataslen);
    DecodeEncode(here.enbook[..], there.debook[..], before[..n]);
  }
}
