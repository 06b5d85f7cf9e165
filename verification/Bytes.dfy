/** Machine integers and their little-endian byte images, as the x86 hosts of the servers store them. */
module Bytes {

  type byte = x: int | 0 <= x < 0x100
  type uint16 = x: int | 0 <= x < 0x1_0000
  type uint32 = x: int | 0 <= x < 0x1_0000_0000
  type uint64 = x: int | 0 <= x < 0x1_0000_0000_0000_0000
  type int16 = x: int | -0x8000 <= x < 0x8000
  type int32 = x: int | -0x8000_0000 <= x < 0x8000_0000

  function Pow256(k: nat): (p: nat)
    ensures p >= 1
  {
    if k == 0 then 1 else 256 * Pow256(k - 1)
  }

  /** The k low-order bytes of n, least significant first. */
  function LE(n: nat, k: nat): (s: seq<byte>)
    ensures |s| == k
    decreases k, n
  {
    if k == 0 then [] else [n % 256] + LE(n / 256, k - 1)
  }

  function FromLE(s: seq<byte>): (n: nat)
    ensures n < Pow256(|s|)
  {
    if s == [] then 0 else s[0] + 256 * FromLE(s[1..])
  }

  lemma {:induction false} LERoundTrip(n: nat, k: nat)
    requires n < Pow256(k)
    ensures FromLE(LE(n, k)) == n
    decreases k, n
  {
    if k > 0 {
      LERoundTrip(n / 256, k - 1);
      assert LE(n, k)[1..] == LE(n / 256, k - 1);
    }
  }

  lemma {:induction false} FromLERoundTrip(s: seq<byte>)
    ensures LE(FromLE(s), |s|) == s
  {
    if s != [] {
      FromLERoundTrip(s[1..]);
      assert FromLE(s) % 256 == s[0] && FromLE(s) / 256 == FromLE(s[1..]);
    }
  }

  function Reverse(s: seq<byte>): (r: seq<byte>)
    ensures |r| == |s|
    ensures forall i :: 0 <= i < |s| ==> r[i] == s[|s| - 1 - i]
  {
    if s == [] then [] else Reverse(s[1..]) + [s[0]]
  }

  /** What htonl and its relatives do to a k-byte field on a little-endian host. */
  function Swap(n: nat, k: nat): (r: nat)
    ensures r < Pow256(k)
  {
    FromLE(Reverse(LE(n, k)))
  }

  lemma SwapTwice(n: nat, k: nat)
    requires n < Pow256(k)
    ensures Swap(Swap(n, k), k) == n
  {
    var s := LE(n, k);
    FromLERoundTrip(Reverse(s));
    assert Reverse(Reverse(s)) == s;
    LERoundTrip(n, k);
  }

  /** The byte at place i is the digit of n to the base 256 that belongs there. */
  lemma {:induction false} LEDigit(n: nat, k: nat, i: nat)
    requires i < k
    ensures LE(n, k)[i] == n / Pow256(i) % 0x100
    decreases i, n
  {
    if i > 0 {
      LEDigit(n / 0x100, k - 1, i - 1);
      DivDiv(n, Pow256(i - 1));
    }
  }

  lemma DivDiv(n: nat, p: nat)
    requires p > 0
    ensures n / 0x100 / p == n / (0x100 * p)
  {
    var q := n / 0x100 / p;
    var r := n / 0x100 % p;
    assert n == 0x100 * (q * p + r) + n % 0x100;
    assert n == q * (0x100 * p) + (0x100 * r + n % 0x100);
    assert 0 <= 0x100 * r + n % 0x100 < 0x100 * p;
    QuotientIs(n, 0x100 * p, q, 0x100 * r + n % 0x100);
  }

  lemma QuotientIs(n: int, m: nat, q: int, r: nat)
    requires m > 0 && r < m && n == q * m + r
    ensures n / m == q
  {
    var q', r' := n / m, n % m;
    assert n == q' * m + r' && 0 <= r' < m;
    Unique(m, q, r, q', r');
  }

  lemma Unique(m: nat, q: int, r: nat, q': int, r': nat)
    requires r < m && r' < m && q * m + r == q' * m + r'
    ensures q == q'
  {
    assert (q - q') * m == r' - r;
    if q < q' {
      AtLeast(q' - q, m);
    } else if q > q' {
      AtLeast(q - q', m);
    }
  }

  lemma AtLeast(d: int, m: nat)
    requires d >= 1
    ensures d * m >= m
  {
    assert d * m == (d - 1) * m + m;
  }

  /** k bytes of s from a place on are the digits of n, the most or the least significant first. */
  ghost predicate Digits(s: seq<byte>, at: nat, n: nat, k: nat, bigEndian: bool)
    requires at + k <= |s|
  {
    forall j :: at <= j < at + k ==> s[j] == n / Pow256(if bigEndian then at + k - 1 - j else j - at) % 0x100
  }

  lemma LEDigits(s: seq<byte>, at: nat, n: nat, k: nat)
    requires at + k <= |s| && s[at..at + k] == LE(n, k)
    ensures Digits(s, at, n, k, false)
  {
    forall j | at <= j < at + k
      ensures s[j] == n / Pow256(j - at) % 0x100
    {
      LEDigit(n, k, j - at);
      assert s[j] == s[at..at + k][j - at];
    }
  }

  /** A swapped field stands with its most significant byte first. */
  lemma SwapDigits(s: seq<byte>, at: nat, n: nat, k: nat)
    requires at + k <= |s| && s[at..at + k] == LE(Swap(n, k), k)
    ensures Digits(s, at, n, k, true)
  {
    FromLERoundTrip(Reverse(LE(n, k)));
    forall j | at <= j < at + k
      ensures s[j] == n / Pow256(at + k - 1 - j) % 0x100
    {
      LEDigit(n, k, at + k - 1 - j);
      assert s[j] == s[at..at + k][j - at];
    }
  }

  /** The digits leave no choice. */
  lemma DigitsUnique(s: seq<byte>, at: nat, n: nat, m: nat, k: nat, bigEndian: bool)
    requires at + k <= |s| && Digits(s, at, n, k, bigEndian) && Digits(s, at, m, k, bigEndian)
    requires n < Pow256(k) && m < Pow256(k)
    ensures n == m
  {
    LERoundTrip(n, k);
    LERoundTrip(m, k);
    hide LE, Pow256, Digits, FromLE;
    forall i | 0 <= i < k
      ensures LE(n, k)[i] == LE(m, k)[i]
    {
      DigitAt(s, at, n, k, bigEndian, i);
      DigitAt(s, at, m, k, bigEndian, i);
    }
    assert LE(n, k) == LE(m, k);
  }

  lemma DigitAt(s: seq<byte>, at: nat, n: nat, k: nat, bigEndian: bool, i: nat)
    requires at + k <= |s| && Digits(s, at, n, k, bigEndian) && i < k
    ensures LE(n, k)[i] == s[if bigEndian then at + k - 1 - i else at + i]
  {
    hide LE;
    LEDigit(n, k, i);
  }

  lemma SwapOne()
    ensures Swap(1, 4) == 0x100_0000
  {
    assert LE(0, 1) == [0];
    assert LE(0, 2) == [0, 0];
    assert LE(0, 3) == [0, 0, 0];
    assert LE(1, 4) == [1, 0, 0, 0];
    var r: seq<byte> := [0, 0, 0, 1];
    assert Reverse(LE(1, 4)) == r;
    assert r[1..] == [0, 0, 1] && r[2..] == [0, 1] && r[3..] == [1] && r[1..][1..] == r[2..] && r[2..][1..] == r[3..];
    assert FromLE(r[3..]) == 1;
    assert FromLE(r[2..]) == 0x100;
    assert FromLE(r[1..]) == 0x1_0000;
  }

  lemma Widths()
    ensures Pow256(1) == 0x100 && Pow256(2) == 0x1_0000
    ensures Pow256(4) == 0x1_0000_0000 && Pow256(8) == 0x1_0000_0000_0000_0000
  {
    assert Pow256(3) == 0x100_0000;
    assert Pow256(5) == 0x100_0000_0000;
    assert Pow256(6) == 0x1_0000_0000_0000;
    assert Pow256(7) == 0x100_0000_0000_0000;
  }

  lemma SliceOfSlice<T>(s: seq<T>, a: nat, b: nat, c: nat)
    requires c <= b && a + b <= |s|
    ensures s[a..a + b][..c] == s[a..a + c]
  {
  }

  /** A prefix of w + rest either stops inside w or takes all of it. */
  lemma CutInTwo<T>(w: seq<T>, rest: seq<T>, s: seq<T>)
    requires s <= w + rest
    ensures |s| < |w| ==> s <= w
    ensures |s| >= |w| ==> s == w + s[|w|..] && s[|w|..] <= rest
  {
    var n := |s|;
    assert s == (w + rest)[..n];
  }

  /** Two's complement. */
  function Unsigned16(x: int16): uint16 { if x < 0 then x + 0x1_0000 else x }
  function Signed16(x: uint16): int16 { if x >= 0x8000 then x - 0x1_0000 else x }
  function Unsigned32(x: int32): uint32 { if x < 0 then x + 0x1_0000_0000 else x }
  function Signed32(x: uint32): int32 { if x >= 0x8000_0000 then x - 0x1_0000_0000 else x }

  function Swap16(x: int16): int16 { Widths(); Signed16(Swap(Unsigned16(x), 2)) }
  function Swap32(x: int32): int32 { Widths(); Signed32(Swap(Unsigned32(x), 4)) }
  function SwapU32(x: uint32): uint32 { Widths(); Swap(x, 4) }
  function SwapU64(x: uint64): uint64 { Widths(); Swap(x, 8) }

  lemma Swap16Twice(x: int16)
    ensures Swap16(Swap16(x)) == x
  {
    Widths();
    SwapTwice(Unsigned16(x), 2);
  }

  lemma Swap32Twice(x: int32)
    ensures Swap32(Swap32(x)) == x
  {
    Widths();
    SwapTwice(Unsigned32(x), 4);
  }
}
