/** Streaming MD5 (antlib/commandlib/md5.c; RFC 1321, sections 3.1 to 3.5). The block transform is a parameter: what
    is proved is everything around it, from counting bits to padding. */
module Md5 {
  import opened Bytes

  const BLOCK := 64
  const WORD := 0x1_0000_0000
  const TWO_WORDS := 0x1_0000_0000_0000_0000

  datatype State = State(a: uint32, b: uint32, c: uint32, d: uint32)

  /** What MD5Transform does to the state with one 64-byte block. */
  type Transform = (State, seq<byte>) -> State

  const INIT := State(0x67452301, 0xEFCDAB89, 0x98BADCFE, 0x10325476)

  // ---- The one-shot definition ----

  /** The state after all whole blocks of m. */
  function Blocks(f: Transform, st: State, m: seq<byte>): State
    decreases |m|
  {
    if |m| < BLOCK then st else Blocks(f, f(st, m[..BLOCK]), m[BLOCK..])
  }

  /** The bytes behind the last whole block. */
  function Rest(m: seq<byte>): (r: seq<byte>)
    ensures |r| == |m| % BLOCK
  {
    m[|m| - |m| % BLOCK..]
  }

  function Zeros(n: nat): (s: seq<byte>)
    ensures |s| == n && forall i :: 0 <= i < n ==> s[i] == 0
  {
    seq(n, i => 0)
  }

  function PadLen(n: nat): nat {
    if n % BLOCK < 56 then 56 - n % BLOCK else 120 - n % BLOCK
  }

  /** RFC 1321, sections 3.1 and 3.2: a one bit, zeros, and the length in bits modulo 2^64. */
  function Padded(m: seq<byte>): seq<byte> {
    m + ([0x80] + Zeros(PadLen(|m|) - 1)) + LE(8 * |m| % TWO_WORDS, 8)
  }

  /** Section 3.5: the four words, low-order byte first. */
  function Encoded(st: State): (s: seq<byte>)
    ensures |s| == 16
  {
    LE(st.a, 4) + LE(st.b, 4) + LE(st.c, 4) + LE(st.d, 4)
  }

  function Digest(f: Transform, m: seq<byte>): (s: seq<byte>)
    ensures |s| == 16
  {
    Encoded(Blocks(f, INIT, Padded(m)))
  }

  /** Padding fills up to the next 64-byte boundary that leaves room for the length, and no further. */
  lemma PaddedShape(m: seq<byte>)
    ensures |Padded(m)| % BLOCK == 0 && |m| + 9 <= |Padded(m)| < |m| + 9 + BLOCK
    ensures m <= Padded(m) && Padded(m)[|m|] == 0x80
    ensures forall i :: |m| < i < |Padded(m)| - 8 ==> Padded(m)[i] == 0
    ensures FromLE(Padded(m)[|Padded(m)| - 8..]) == 8 * |m| % TWO_WORDS
  {
    PadLenFills(|m|);
    LengthBytes(8 * |m| % TWO_WORDS);
    hide PadLen, FromLE;
    var tail := LE(8 * |m| % TWO_WORDS, 8);
    hide LE;
    assert Padded(m)[|Padded(m)| - 8..] == tail;
  }

  /** RFC 1321, section 3.3: the four words to begin with, low-order bytes first. */
  lemma InitBytes()
    ensures Encoded(INIT) == [0x01, 0x23, 0x45, 0x67, 0x89, 0xab, 0xcd, 0xef,
                              0xfe, 0xdc, 0xba, 0x98, 0x76, 0x54, 0x32, 0x10]
  {
    hide LE;
    FourBytes(0x67452301, 0x01, 0x23, 0x45, 0x67);
    FourBytes(0xEFCDAB89, 0x89, 0xab, 0xcd, 0xef);
    FourBytes(0x98BADCFE, 0xfe, 0xdc, 0xba, 0x98);
    FourBytes(0x10325476, 0x76, 0x54, 0x32, 0x10);
  }

  lemma FourBytes(w: uint32, b0: byte, b1: byte, b2: byte, b3: byte)
    requires w == b0 + 0x100 * (b1 + 0x100 * (b2 + 0x100 * b3))
    ensures LE(w, 4) == [b0, b1, b2, b3]
  {
    assert LE(b3, 1) == [b3] + LE(0, 0);
    assert LE(b2 + 0x100 * b3, 2) == [b2] + LE(b3, 1);
    assert LE(b1 + 0x100 * (b2 + 0x100 * b3), 3) == [b1] + LE(b2 + 0x100 * b3, 2);
  }

  /** Section 3.5: the digest is the words a, b, c, d in this order, each with its low-order byte first. */
  lemma EncodedDigits(st: State)
    ensures var s := Encoded(st);
            && Digits(s, 0, st.a, 4, false) && Digits(s, 4, st.b, 4, false)
            && Digits(s, 8, st.c, 4, false) && Digits(s, 12, st.d, 4, false)
  {
    var s := Encoded(st);
    LEDigits(s, 0, st.a, 4);
    LEDigits(s, 4, st.b, 4);
    LEDigits(s, 8, st.c, 4);
    LEDigits(s, 12, st.d, 4);
  }

  lemma PadLenFills(n: nat)
    ensures 1 <= PadLen(n) <= BLOCK && (n + PadLen(n) + 8) % BLOCK == 0
  {
  }

  lemma LengthBytes(bits: nat)
    requires bits < TWO_WORDS
    ensures FromLE(LE(bits, 8)) == bits
  {
    Widths();
    LERoundTrip(bits, 8);
  }

  /** Different messages are padded differently, below 2^61 bytes. */
  lemma PaddedInjective(m: seq<byte>, m': seq<byte>)
    requires Padded(m) == Padded(m') && |m| < 0x2000_0000_0000_0000 && |m'| < 0x2000_0000_0000_0000
    ensures m == m'
  {
    PaddedShape(m);
    PaddedShape(m');
    assert m == Padded(m)[..|m|];
  }

  lemma RestAppend(a: seq<byte>, b: seq<byte>)
    ensures Rest(a + b) == Rest(Rest(a) + b)
  {
    var r := Rest(a) + b;
    assert a + b == a[..|a| - |a| % BLOCK] + r;
    SuffixRest(a[..|a| - |a| % BLOCK], r);
  }

  lemma SuffixRest(p: seq<byte>, s: seq<byte>)
    requires |p| % BLOCK == 0
    ensures Rest(p + s) == Rest(s)
  {
    assert |p + s| % BLOCK == |s| % BLOCK;
  }

  /** Whole blocks first, then what was left over together with what comes: where a message is cut does not matter. */
  lemma {:induction false} BlocksAppend(f: Transform, st: State, a: seq<byte>, b: seq<byte>)
    ensures Blocks(f, st, a + b) == Blocks(f, Blocks(f, st, a), Rest(a) + b)
    decreases |a|
  {
    if |a| < BLOCK {
      assert Rest(a) == a;
    } else {
      var st' := f(st, a[..BLOCK]);
      BlocksAppend(f, st', a[BLOCK..], b);
      assert (a + b)[..BLOCK] == a[..BLOCK];
      assert (a + b)[BLOCK..] == a[BLOCK..] + b;
      assert a == a[..BLOCK] + a[BLOCK..];
      SuffixRest(a[..BLOCK], a[BLOCK..]);
    }
  }

  // ---- The bit counter ----

  /** Adding to the counter in two words, with the carry told by the wrapped sum. */
  lemma AddBits(c0: uint32, c1: uint32, len: uint32)
    ensures var lo := 8 * len % WORD;
            var c0' := (c0 + lo) % WORD;
            var c1' := ((if c0' < lo then (c1 + 1) % WORD else c1) + len / 0x2000_0000) % WORD;
            c1' * WORD + c0' == (c1 * WORD + c0 + 8 * len) % TWO_WORDS
  {
    var lo := 8 * len % WORD;
    var hi := len / 0x2000_0000;
    assert 8 * len == hi * WORD + lo;
    var c0' := (c0 + lo) % WORD;
    var carry := if c0' < lo then 1 else 0;
    assert c0 + lo == carry * WORD + c0';
    HighWord(c1 + carry + hi, c0');
    HighSum(c1, carry, hi);
  }

  lemma HighSum(c1: uint32, carry: nat, hi: nat)
    requires carry <= 1
    ensures ((if carry == 1 then (c1 + 1) % WORD else c1) + hi) % WORD == (c1 + carry + hi) % WORD
  {
  }

  lemma HighWord(x: nat, low: uint32)
    ensures (x * WORD + low) % TWO_WORDS == x % WORD * WORD + low
  {
    var q := x / WORD;
    assert x * WORD + low == q * TWO_WORDS + (x % WORD * WORD + low);
  }

  lemma AddMod(n: nat, k: nat)
    ensures (n % TWO_WORDS + k) % TWO_WORDS == (n + k) % TWO_WORDS
  {
  }

  /** The low counter word tells how much of the buffer is in use. */
  lemma IndexOfCount(c0: uint32, c1: uint32, n: nat)
    requires c1 * WORD + c0 == 8 * n % TWO_WORDS
    ensures c0 / 8 % BLOCK == n % BLOCK
  {
    var q := 8 * n / TWO_WORDS;
    assert c0 == 8 * (n - q * 0x2000_0000_0000_0000 - c1 * 0x2000_0000);
    ByWholeBlocks(n, q * 0x80_0000_0000_0000 + c1 * 0x80_0000);
  }

  lemma ByWholeBlocks(n: int, y: int)
    ensures (n - BLOCK * y) % BLOCK == n % BLOCK
  {
    var q := n / BLOCK;
    assert n - BLOCK * y == (q - y) * BLOCK + n % BLOCK;
  }

  lemma CountBytes(c0: uint32, c1: uint32)
    ensures LE(c0, 4) + LE(c1, 4) == LE(c1 * WORD + c0, 8)
  {
    Widths();
    LowThenHigh(c0, c1, 4, 4);
  }

  lemma {:induction false} LowThenHigh(low: nat, high: nat, k: nat, j: nat)
    requires low < Pow256(k)
    ensures LE(low, k) + LE(high, j) == LE(high * Pow256(k) + low, k + j)
    decreases k
  {
    if k > 0 {
      LowThenHigh(low / 256, high, k - 1, j);
      Shifted(low, high, Pow256(k - 1));
      assert LE(low, k) == [low % 256] + LE(low / 256, k - 1);
    }
  }

  lemma Shifted(low: nat, high: nat, p: nat)
    ensures (high * (256 * p) + low) % 256 == low % 256
    ensures (high * (256 * p) + low) / 256 == high * p + low / 256
  {
    var x := high * p;
    assert high * (256 * p) == 256 * x;
  }

  // ---- The loop guard ----

  /** The source tests i + 64 <= inputlen in 32 bits, at i = partlen, partlen + 64, ... up to the end of the input. */
  ghost predicate GuardsRight(partlen: nat, inputlen: uint32) {
    forall k: nat :: GuardRight(partlen + BLOCK * k, inputlen)
  }

  predicate GuardRight(i: nat, inputlen: uint32) {
    i <= inputlen ==> ((i + BLOCK) % WORD <= inputlen <==> i + BLOCK <= inputlen)
  }

  /** How long an input may be when n bytes have been fed before: the last 64 lengths below 2^32 are cut short. */
  function Room(n: nat): (r: nat)
    ensures r >= WORD - BLOCK
  {
    WORD - BLOCK + (BLOCK - n % BLOCK) % BLOCK
  }

  /** The loop takes its k-th block: it has passed its test up to there. */
  ghost predicate Turns(partlen: nat, inputlen: uint32, k: nat) {
    forall j :: 0 <= j <= k ==> (partlen + BLOCK * j + BLOCK) % WORD <= inputlen
  }

  /** Some block the loop takes begins within the input and ends beyond it. */
  ghost predicate ReadsPast(partlen: nat, inputlen: uint32) {
    exists k: nat :: Turns(partlen, inputlen, k) && partlen + BLOCK * k <= inputlen < partlen + BLOCK * k + BLOCK
  }

  /** The test is the right one at every turn exactly for inputs shorter than that; for any other, the loop goes on
      past the end of the input. */
  lemma GuardExact(n: nat, inputlen: uint32)
    ensures GuardsRight(BLOCK - n % BLOCK, inputlen) <==> inputlen < Room(n)
    ensures inputlen >= Room(n) ==> ReadsPast(BLOCK - n % BLOCK, inputlen)
  {
    var partlen := BLOCK - n % BLOCK;
    var i := WORD - BLOCK + partlen % BLOCK;
    if inputlen < i {
      forall k: nat
        ensures GuardRight(partlen + BLOCK * k, inputlen)
      {
        assert (partlen + BLOCK * k) % BLOCK == partlen % BLOCK;
        if partlen + BLOCK * k <= inputlen {
          assert partlen + BLOCK * k <= i - BLOCK;
        }
      }
    } else {
      var k := (i - partlen) / BLOCK;
      assert partlen + BLOCK * k == i;
      assert !GuardRight(i, inputlen);
      forall j | 0 <= j <= k
        ensures (partlen + BLOCK * j + BLOCK) % WORD <= inputlen
      {
        if j < k {
          assert partlen + BLOCK * j + BLOCK <= i;
        }
      }
      assert Turns(partlen, inputlen, k);
    }
  }

  // ---- The context ----

  class Context {
    const transform: Transform
    var count0: uint32
    var count1: uint32
    var state: State
    const buffer: array<byte>
    /** Everything fed since the start. */
    ghost var fed: seq<byte>

    /** State, live part of the buffer and counter are those of a one-shot pass over everything fed. */
    ghost predicate Valid()
      reads this, buffer
    {
      && buffer.Length == BLOCK
      && count1 * WORD + count0 == 8 * |fed| % TWO_WORDS
      && state == Blocks(transform, INIT, fed)
      && buffer[..|fed| % BLOCK] == Rest(fed)
    }

    /** MD5Init. */
    constructor (transform: Transform)
      ensures Valid() && fed == [] && this.transform == transform && fresh(buffer)
    {
      this.transform := transform;
      count0, count1, state, fed := 0, 0, INIT, [];
      buffer := new byte[BLOCK];
    }

    /** How much of the next input completes the block in the buffer. */
    function PartLen(): (n: nat)
      reads this
      ensures 1 <= n <= BLOCK
    {
      BLOCK - count0 / 8 % BLOCK
    }

    /** memcpy into the buffer. */
    method Fill(index: nat, src: seq<byte>)
      requires buffer.Length == BLOCK && index + |src| <= BLOCK
      modifies buffer
      ensures buffer[..index + |src|] == old(buffer[..index]) + src
    {
      forall k | 0 <= k < |src| {
        buffer[index + k] := src[k];
      }
    }

    /** The counter after so many more bytes. */
    method Count(inputlen: uint32)
      modifies this`count0, this`count1
      ensures count1 * WORD + count0 == old(count1 * WORD + count0 + 8 * inputlen) % TWO_WORDS
    {
      AddBits(count0, count1, inputlen);
      count0 := (count0 + 8 * inputlen % WORD) % WORD;
      if count0 < 8 * inputlen % WORD {
        count1 := (count1 + 1) % WORD;
      }
      count1 := (count1 + inputlen / 0x2000_0000) % WORD;
    }

    /** The blocks completed by an input, if there are any: what to copy into the buffer, and where. */
    method Absorb(input: seq<byte>, index: nat, partlen: nat, ghost rest: seq<byte>) returns (i: nat, at: nat)
      requires buffer.Length == BLOCK && |rest| == index < BLOCK && partlen == BLOCK - index && buffer[..index] == rest
      requires |input| < WORD - BLOCK + partlen % BLOCK
      modifies this`state, buffer
      ensures i <= |input| && at + |input| - i < BLOCK
      ensures state == Blocks(transform, old(state), rest + input)
      ensures buffer[..at] + input[i..] == Rest(rest + input)
    {
      hide Blocks, Rest;
      ghost var all := rest + input;
      if |input| >= partlen {
        Fill(index, input[..partlen]);
        assert buffer[..] == buffer[..index + |input[..partlen]|] == all[..BLOCK];
        assert input[partlen..] == all[BLOCK..];
        FirstBlock(transform, state, all);
        state := transform(state, buffer[..]);
        i := ProcessBlocks(input, partlen);
        RestOfSuffix(all, index + i);
        assert all[index + i..] == input[i..];
        at := 0;
        assert buffer[..at] + input[i..] == input[i..];
      } else {
        ShortBlocks(transform, state, all);
        assert input[0..] == input;
        i, at := 0, index;
      }
    }

    /** MD5Update, for inputs whose length the loop test can deal with. */
    method Update(input: seq<byte>)
      requires Valid() && |input| < Room(|fed|)
      modifies this, buffer
      ensures Valid() && fed == old(fed) + input
    {
      hide Blocks, Rest;
      var inputlen: uint32 := |input|;
      IndexOfCount(count0, count1, |fed|);
      AddMod(8 * |fed|, 8 * inputlen);
      BlocksAppend(transform, INIT, fed, input);
      RestAppend(fed, input);
      var index, partlen := count0 / 8 % BLOCK, PartLen();
      Count(inputlen);
      var i, at := Absorb(input, index, partlen, Rest(fed));
      Fill(at, input[i..]);
      fed := fed + input;
      RestLength(fed, at + |input[i..]|, buffer[..at + |input[i..]|]);
    }

    lemma RestLength(m: seq<byte>, n: nat, s: seq<byte>)
      requires s == Rest(m) && |s| == n
      ensures n == |m| % BLOCK
    {
    }

    /** The loop over the whole blocks of the input, which are not copied. */
    method ProcessBlocks(input: seq<byte>, partlen: nat) returns (i: nat)
      requires 1 <= partlen <= |input| < WORD - BLOCK + partlen % BLOCK && partlen <= BLOCK
      modifies this`state
      ensures partlen <= i <= |input| < i + BLOCK && (i - partlen) % BLOCK == 0
      ensures state == Blocks(transform, old(state), input[partlen..])
    {
      hide Blocks;
      i := partlen;
      ghost var k := 0;
      while (i + BLOCK) % WORD <= |input|
        invariant i == partlen + BLOCK * k && i <= |input|
        invariant Blocks(transform, old(state), input[partlen..]) == Blocks(transform, state, input[i..])
        decreases |input| - i
      {
        Wraps(partlen, k, |input|);
        FirstBlock(transform, state, input[i..]);
        assert input[i..][..BLOCK] == input[i..i + BLOCK] && input[i..][BLOCK..] == input[i + BLOCK..];
        state := transform(state, input[i..i + BLOCK]);
        i := i + BLOCK;
        k := k + 1;
      }
      Wraps(partlen, k, |input|);
      ShortBlocks(transform, state, input[i..]);
    }

    lemma PaddedInTwo(m: seq<byte>, padlen: nat, bits: seq<byte>)
      requires padlen == PadLen(|m|) && bits == LE(8 * |m| % TWO_WORDS, 8)
      ensures padlen >= 1 && m + ([0x80] + Zeros(padlen - 1)) + bits == Padded(m)
    {
    }

    /** MD5Final: the padding and the length go through Update. */
    method Final() returns (digest: seq<byte>)
      requires Valid()
      modifies this, buffer
      ensures digest == Digest(transform, old(fed))
    {
      hide Blocks, Rest;
      IndexOfCount(count0, count1, |fed|);
      ghost var m := fed;
      var index := count0 / 8 % BLOCK;
      var padlen := if index < 56 then 56 - index else 120 - index;
      var bits := LE(count0, 4) + LE(count1, 4);
      CountBytes(count0, count1);
      hide LE, Padded;
      Update([0x80] + Zeros(padlen - 1));
      Update(bits);
      PaddedInTwo(m, padlen, bits);
      digest := LE(state.a, 4) + LE(state.b, 4) + LE(state.c, 4) + LE(state.d, 4);
    }
  }

  lemma FirstBlock(f: Transform, st: State, m: seq<byte>)
    requires |m| >= BLOCK
    ensures Blocks(f, st, m) == Blocks(f, f(st, m[..BLOCK]), m[BLOCK..])
  {
  }

  lemma ShortBlocks(f: Transform, st: State, m: seq<byte>)
    ensures |m| < BLOCK ==> Blocks(f, st, m) == st && Rest(m) == m
  {
  }

  lemma RestOfSuffix(m: seq<byte>, i: nat)
    requires i <= |m| < i + BLOCK && i % BLOCK == 0
    ensures m[i..] == Rest(m)
  {
  }

  lemma Wraps(partlen: nat, k: nat, inputlen: uint32)
    requires 1 <= partlen <= BLOCK && inputlen < WORD - BLOCK + partlen % BLOCK && partlen + BLOCK * k <= inputlen
    ensures GuardRight(partlen + BLOCK * k, inputlen)
  {
    assert (partlen + BLOCK * k) % BLOCK == partlen % BLOCK;
  }

  /** Two contexts fed the same bytes, in whatever pieces, cannot be told apart by what comes later. */
  lemma SplitsAgree(c: Context, d: Context)
    requires c.Valid() && d.Valid() && c.transform == d.transform && c.fed == d.fed
    ensures c.state == d.state && c.count0 == d.count0 && c.count1 == d.count1
    ensures c.buffer[..c.count0 / 8 % BLOCK] == d.buffer[..d.count0 / 8 % BLOCK]
  {
    hide Blocks, Rest;
    IndexOfCount(c.count0, c.count1, |c.fed|);
    TwoWordsUnique(c.count0, c.count1, d.count0, d.count1);
  }

  lemma TwoWordsUnique(c0: uint32, c1: uint32, d0: uint32, d1: uint32)
    requires c1 * WORD + c0 == d1 * WORD + d0
    ensures c1 == d1 && c0 == d0
  {
  }

  // ---- The salted form ----

  const MYX16CODE: seq<char> := ['F','E','C','D','A','0','7','6','8','9','1','5','4','2','3','B']
  const MYMD5_HEAD: seq<byte> := [123, 32, 126, 38, 0, 36, 35, 33, 92, 10, 9, 13, 34, 255, 1, 125]
  const MYMD5_TAIL: seq<byte> := [136, 93, 67, 0, 177, 64, 83, 104, 101, 110, 121, 118, 46, 99, 111, 109]

  /** Two characters a byte, low nibble first. */
  function MyHex(s: seq<byte>): (t: seq<char>)
    ensures |t| == 2 * |s|
  {
    if s == [] then [] else MyHex(s[..|s| - 1]) + [MYX16CODE[s[|s| - 1] % 16], MYX16CODE[s[|s| - 1] / 16 % 16]]
  }

  lemma CodeInjective(x: nat, y: nat)
    requires x < 16 && y < 16 && MYX16CODE[x] == MYX16CODE[y]
    ensures x == y
  {
  }

  lemma NibblesInjective(x: byte, y: byte)
    requires MYX16CODE[x % 16] == MYX16CODE[y % 16] && MYX16CODE[x / 16 % 16] == MYX16CODE[y / 16 % 16]
    ensures x == y
  {
    CodeInjective(x % 16, y % 16);
    CodeInjective(x / 16 % 16, y / 16 % 16);
    hide *;
    assert x == x / 16 % 16 * 16 + x % 16 && y == y / 16 % 16 * 16 + y % 16;
  }

  /** No two digests print alike. */
  lemma {:induction false} MyHexInjective(s: seq<byte>, t: seq<byte>)
    requires |s| == |t| && MyHex(s) == MyHex(t)
    ensures s == t
  {
    if s != [] {
      var n := |s| - 1;
      LastByte(s, n);
      LastByte(t, n);
      hide MyHex;
      MyHexInjective(s[..n], t[..n]);
      NibblesInjective(s[n], t[n]);
      assert s == s[..n] + [s[n]] && t == t[..n] + [t[n]];
    }
  }

  /** The low half of each byte is printed first. */
  lemma {:induction false} MyHexAt(s: seq<byte>, i: nat)
    requires i < |s|
    ensures MyHex(s)[2 * i] == "FECDA0768915423B"[s[i] % 16] && MyHex(s)[2 * i + 1] == "FECDA0768915423B"[s[i] / 16]
    decreases |s|
  {
    var n := |s| - 1;
    hide MYX16CODE;
    LastByte(s, n);
    hide MyHex;
    if i < n {
      MyHexAt(s[..n], i);
      assert MyHex(s)[2 * i] == MyHex(s)[..2 * n][2 * i] && MyHex(s)[2 * i + 1] == MyHex(s)[..2 * n][2 * i + 1];
    } else {
      CodeIs(s[n]);
    }
  }

  lemma CodeIs(b: byte)
    ensures MYX16CODE[b % 16] == "FECDA0768915423B"[b % 16]
    ensures MYX16CODE[b / 16 % 16] == "FECDA0768915423B"[b / 16]
  {
    assert MYX16CODE == "FECDA0768915423B";
  }

  lemma LastByte(s: seq<byte>, n: nat)
    requires |s| == n + 1
    ensures MyHex(s)[..2 * n] == MyHex(s[..n])
    ensures MyHex(s)[2 * n] == MYX16CODE[s[n] % 16] && MyHex(s)[2 * n + 1] == MYX16CODE[s[n] / 16 % 16]
  {
    hide MYX16CODE;
  }

  /** What both salted functions hash: the inputs between a fixed head and a fixed tail. */
  function Salted(m: seq<byte>): seq<byte> {
    MYMD5_HEAD + m + MYMD5_TAIL
  }

  /** The loop that prints the digest. */
  method Print(decrypt: seq<byte>) returns (output: seq<char>)
    ensures output == MyHex(decrypt)
  {
    output := [];
    var i := 0;
    while i < |decrypt|
      invariant 0 <= i <= |decrypt| && output == MyHex(decrypt[..i])
    {
      output := output + [MYX16CODE[decrypt[i] % 16], MYX16CODE[decrypt[i] / 16 % 16]];
      assert decrypt[..i + 1][..i] == decrypt[..i];
      i := i + 1;
    }
    assert decrypt[..i] == decrypt;
  }

  /** MYMD5_ENCRYPT2 hashes its inputs as one, and ends its output with a zero. */
  method MyMd5Encrypt2(f: Transform, input1: seq<byte>, input2: seq<byte>) returns (output: seq<char>)
    requires |input1| < Room(|MYMD5_HEAD|) && |input2| < Room(|MYMD5_HEAD| + |input1|)
    ensures output == MyHex(Digest(f, Salted(input1 + input2))) + ['\0']
  {
    hide Context.Valid, Digest;
    var md5 := new Context(f);
    md5.Update(MYMD5_HEAD);
    md5.Update(input1);
    md5.Update(input2);
    md5.Update(MYMD5_TAIL);
    assert md5.fed == Salted(input1 + input2);
    var decrypt := md5.Final();
    output := Print(decrypt);
    output := output + ['\0'];
  }

  /** MYMD5_ENCRYPT: the same for one input, but for one character chosen by its first byte. */
  method MyMd5Encrypt(f: Transform, input: seq<byte>) returns (output: seq<char>)
    requires |input| < Room(|MYMD5_HEAD|) && input != []
    ensures output == MyHex(Digest(f, Salted(input + [])))[input[0] % 32 := 'A'] + ['\0']
  {
    hide Context.Valid, Digest;
    var md5 := new Context(f);
    md5.Update(MYMD5_HEAD);
    md5.Update(input);
    md5.Update(MYMD5_TAIL);
    assert md5.fed == Salted(input + []);
    var decrypt := md5.Final();
    output := Print(decrypt);
    output := output[input[0] % 32 := 'A'] + ['\0'];
  }
}
