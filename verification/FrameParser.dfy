/** What Session::Recv computes, as functions on byte sequences: one-shot parsing, feeding by chunks, and the
    exact frame size up to which the two agree (CommBase/Network/Session.cpp). */
module FrameParser {
  import opened Bytes
  import opened PacketHeader

  const MAX_RECV_MSG_SIZE := 65536
  const MAX_MSG_PACKET_SIZE := 65536
  const MAX_SAFE_FRAME := 32769

  /** head is in the receiver's byte order. */
  datatype Frame = Frame(head: Header, body: seq<byte>) {
    function Size(): nat { HEADER_LENGTH + |body| }
    function Wire(): (s: seq<byte>)
      ensures |s| == Size()
    {
      Encode(head) + body
    }
  }

  predicate Malformed(h: Header) {
    || h.remoteID < 0 || h.length < 0 || h.remoteType >= MAX_TYPE || h.localType >= MAX_TYPE
    || h.messageType > SYSTEM_MESSAGE || MAX_MSG_PACKET_SIZE < h.length + HEADER_LENGTH
  }

  /** A frame a sender of this code base can put on a link whose two ends agree on byte order. */
  predicate Good(f: Frame) {
    SameSide(f.head) && !Malformed(f.head) && f.head.length == |f.body|
  }

  datatype Status = NeedMore | Bad
  datatype Parsed = Parsed(frames: seq<Frame>, rest: seq<byte>, status: Status)

  /** One turn of the parse loop: too little, a bad header, or a whole frame. */
  datatype Turn = Short | BadHead | Whole(f: Frame)

  function First(s: seq<byte>): (t: Turn)
    ensures t.Whole? ==> t.f.Size() <= |s| && t.f.head.length == |t.f.body|
  {
    if |s| < HEADER_LENGTH then Short else
    var h := Decode(s[..HEADER_LENGTH]);
    if Malformed(h) then BadHead else
    if |s| < HEADER_LENGTH + h.length then Short else Whole(Frame(h, s[HEADER_LENGTH..HEADER_LENGTH + h.length]))
  }

  function ParseAll(s: seq<byte>): (p: Parsed)
    ensures |p.rest| <= |s|
  {
    match First(s)
    case Short => Parsed([], s, NeedMore)
    case BadHead => Parsed([], s, Bad)
    case Whole(f) => Cons(f, ParseAll(s[f.Size()..]))
  }

  function Cons(f: Frame, p: Parsed): Parsed {
    p.(frames := [f] + p.frames)
  }

  function Flatten(fs: seq<Frame>): seq<byte> {
    if fs == [] then [] else fs[0].Wire() + Flatten(fs[1..])
  }

  function Concat(chunks: seq<seq<byte>>): seq<byte> {
    if chunks == [] then [] else chunks[0] + Concat(chunks[1..])
  }

  function TotalSize(fs: seq<Frame>): nat {
    if fs == [] then 0 else fs[0].Size() + TotalSize(fs[1..])
  }

  lemma FirstExtends(a: seq<byte>, b: seq<byte>)
    ensures !First(a).Short? ==> First(a + b) == First(a)
  {
    if |a| >= HEADER_LENGTH {
      assert (a + b)[..HEADER_LENGTH] == a[..HEADER_LENGTH];
      var h := Decode(a[..HEADER_LENGTH]);
      hide Decode;
      if !Malformed(h) && |a| >= HEADER_LENGTH + h.length {
        assert (a + b)[HEADER_LENGTH..HEADER_LENGTH + h.length] == a[HEADER_LENGTH..HEADER_LENGTH + h.length];
      }
    }
  }

  /** A frame read off a stream: its header stands in the first bytes, its body behind, and all is in range. */
  ghost predicate ReadOff(f: Frame, s: seq<byte>) {
    && f.Size() <= |s| && f.head.length == |f.body| && f.body == s[HEADER_LENGTH..f.Size()]
    && Carries(s, f.head, f.head.localType == 0)
    && f.head.remoteID >= 0 && f.head.remoteType < 9 && f.head.localType < 9 && f.head.messageType <= 4
    && f.Size() <= 65536
  }

  lemma FirstReadOff(s: seq<byte>)
    ensures First(s).Whole? ==> ReadOff(First(s).f, s)
  {
    if First(s).Whole? {
      DecodeCarries(s[..HEADER_LENGTH]);
      hide Decode;
    }
  }

  /** One turn, told by the bytes alone: the header they carry, the ranges of its fields, and how many follow. */
  lemma TurnByBytes(s: seq<byte>, h: Header)
    requires |s| >= HEADER_LENGTH && Carries(s, h, h.localType == 0)
    ensures var inRange := && 0 <= h.remoteID && h.remoteType < 9 && h.localType < 9 && h.messageType <= 4
                           && 0 <= h.length <= 65536 - 26;
            First(s) == if !inRange then BadHead
                        else if |s| < 26 + h.length then Short
                        else Whole(Frame(h, s[26..26 + h.length]))
  {
    hide Digits;
    DecodeCarries(s[..HEADER_LENGTH]);
    assert Carries(s, Decode(s[..HEADER_LENGTH]), Decode(s[..HEADER_LENGTH]).localType == 0) by {
      CarriesLess(s, Decode(s[..HEADER_LENGTH]));
    }
    CarriesUnique(s, h, Decode(s[..HEADER_LENGTH]), h.localType == 0);
    hide Decode, Carries;
  }

  lemma CarriesLess(s: seq<byte>, h: Header)
    requires |s| >= HEADER_LENGTH && Carries(s[..HEADER_LENGTH], h, h.localType == 0)
    ensures Carries(s, h, h.localType == 0)
  {
  }

  /** However malformed a stream, what is delivered are frames read off it one behind the other, none out of range. */
  lemma {:induction false} DeliveredReadOff(s: seq<byte>, k: nat)
    requires k < |ParseAll(s).frames|
    ensures var fs := ParseAll(s).frames;
            TotalSize(fs[..k]) <= |s| && ReadOff(fs[k], s[TotalSize(fs[..k])..])
    decreases k
  {
    hide First, ReadOff;
    FirstReadOff(s);
    var f := First(s).f;
    var fs := ParseAll(s).frames;
    if k == 0 {
      assert s[0..] == s;
    } else {
      var t := s[f.Size()..];
      DeliveredReadOff(t, k - 1);
      assert fs[..k][1..] == ParseAll(t).frames[..k - 1];
      assert t[TotalSize(fs[..k]) - f.Size()..] == s[TotalSize(fs[..k])..];
    }
  }

  /** Any stream at all: more bytes extend a parse that stopped for lack of input, and cannot revive a bad one. */
  lemma {:induction false} ParseExtends(a: seq<byte>, b: seq<byte>)
    ensures var p := ParseAll(a);
            if p.status.NeedMore? then
              var q := ParseAll(p.rest + b);
              ParseAll(a + b) == q.(frames := p.frames + q.frames)
            else ParseAll(a + b) == p.(rest := p.rest + b)
    decreases |a|
  {
    hide First;
    FirstExtends(a, b);
    match First(a)
    case Short =>
    case BadHead =>
    case Whole(f) =>
      var t := a[f.Size()..];
      ParseExtends(t, b);
      assert (a + b)[f.Size()..] == t + b;
      var p := ParseAll(t);
      var q := ParseAll(p.rest + b);
      assert [f] + (p.frames + q.frames) == ([f] + p.frames) + q.frames;
  }

  /** Parsing a residue again delivers nothing and keeps it. */
  lemma {:induction false} ReparseResidue(s: seq<byte>)
    ensures ParseAll(ParseAll(s).rest) == Parsed([], ParseAll(s).rest, ParseAll(s).status)
    decreases |s|
  {
    hide First;
    match First(s)
    case Short =>
    case BadHead =>
    case Whole(f) => ReparseResidue(s[f.Size()..]);
  }

  lemma FirstWhole(f: Frame, t: seq<byte>)
    requires Good(f)
    ensures First(f.Wire() + t) == Whole(f)
  {
    hide Decode, Encode;
    var s := f.Wire() + t;
    EncodeDecode(f.head);
    assert s[..HEADER_LENGTH] == Encode(f.head);
    assert s[HEADER_LENGTH..f.Size()] == f.body;
    assert Frame(f.head, f.body) == f;
  }

  lemma ParseCons(f: Frame, t: seq<byte>)
    requires Good(f)
    ensures ParseAll(f.Wire() + t) == Cons(f, ParseAll(t))
  {
    hide First;
    FirstWhole(f, t);
    assert (f.Wire() + t)[f.Size()..] == t;
  }

  lemma ParseShort(f: Frame, s: seq<byte>)
    requires Good(f) && s <= f.Wire() && |s| < f.Size()
    ensures ParseAll(s) == Parsed([], s, NeedMore)
  {
    hide Decode, Encode;
    EncodeDecode(f.head);
    if |s| >= HEADER_LENGTH {
      assert s[..HEADER_LENGTH] == f.Wire()[..HEADER_LENGTH] == Encode(f.head);
    }
  }

  /** p holds the leading frames of fs, and its residue is short of the next one. */
  ghost predicate CutOf(p: Parsed, fs: seq<Frame>, s: seq<byte>) {
    && p.status.NeedMore? && p.frames <= fs && s == Flatten(p.frames) + p.rest
    && (if |p.frames| < |fs| then |p.rest| < fs[|p.frames|].Size() else p.rest == [])
  }

  lemma CutCons(f: Frame, p: Parsed, fs: seq<Frame>, t: seq<byte>)
    requires CutOf(p, fs, t)
    ensures CutOf(Cons(f, p), [f] + fs, f.Wire() + t)
  {
    hide Frame.Wire;
    var q := Cons(f, p);
    assert q.frames[1..] == p.frames;
    assert f.Wire() + t == f.Wire() + Flatten(p.frames) + p.rest;
  }

  /** A stream of good frames, cut anywhere. */
  lemma {:induction false} ParsePrefix(fs: seq<Frame>, s: seq<byte>)
    requires forall f :: f in fs ==> Good(f)
    requires s <= Flatten(fs)
    ensures CutOf(ParseAll(s), fs, s)
    decreases |fs|
  {
    if fs != [] {
      hide First, Encode;
      var f := fs[0];
      CutInTwo(f.Wire(), Flatten(fs[1..]), s);
      if |s| < f.Size() {
        ParseShort(f, s);
      } else {
        var t := s[f.Size()..];
        ParsePrefix(fs[1..], t);
        ParseCons(f, t);
        CutCons(f, ParseAll(t), fs[1..], t);
        assert [f] + fs[1..] == fs;
      }
    }
  }

  lemma ParseWhole(fs: seq<Frame>)
    requires forall f :: f in fs ==> Good(f)
    ensures ParseAll(Flatten(fs)) == Parsed(fs, [], NeedMore)
  {
    hide First, Frame.Wire;
    ParsePrefix(fs, Flatten(fs));
    var p := ParseAll(Flatten(fs));
    if |p.frames| < |fs| {
      FlattenSplit(fs, |p.frames|);
      assert fs[..|p.frames|] == p.frames;
      FlattenSize(fs[|p.frames|..]);
    }
  }

  lemma {:induction false} FlattenSplit(fs: seq<Frame>, k: nat)
    requires k <= |fs|
    ensures Flatten(fs) == Flatten(fs[..k]) + Flatten(fs[k..])
  {
    hide Frame.Wire;
    if k == 0 {
      assert fs[k..] == fs;
    } else {
      FlattenSplit(fs[1..], k - 1);
      assert fs[1..][..k - 1] == fs[..k][1..];
      assert fs[1..][k - 1..] == fs[k..];
    }
  }

  lemma {:induction false} FlattenSize(fs: seq<Frame>)
    ensures |Flatten(fs)| == TotalSize(fs)
    ensures fs != [] ==> |Flatten(fs)| >= fs[0].Size()
  {
    if fs != [] {
      FlattenSize(fs[1..]);
    }
  }

  // ---- Feeding by chunks ----

  /** frames handed up so far, and the bytes kept at the front of the receive buffer. */
  datatype Receiver = Receiver(frames: seq<Frame>, kept: seq<byte>)

  const START := Receiver([], [])

  /** The residue is copied down only if it is no longer than what would remain free above it. */
  function Compact(rest: seq<byte>): (r: seq<byte>)
    requires |rest| <= MAX_RECV_MSG_SIZE
    ensures r == rest <==> |rest| <= 32768
    ensures |r| <= 32768
  {
    if MAX_RECV_MSG_SIZE - |rest| < |rest| then [] else rest
  }

  function Keep(p: Parsed): (r: seq<byte>)
    requires |p.rest| <= MAX_RECV_MSG_SIZE
    ensures |r| <= 32768 && |r| <= |p.rest|
  {
    if p.status.Bad? then [] else Compact(p.rest)
  }

  function Feed(st: Receiver, chunk: seq<byte>): (r: Receiver)
    requires |st.kept| + |chunk| <= MAX_RECV_MSG_SIZE
    ensures |r.kept| <= 32768
  {
    var p := ParseAll(st.kept + chunk);
    Receiver(st.frames + p.frames, Keep(p))
  }

  /** recv returns at least one byte and no more than the room it was offered. */
  predicate Fits(st: Receiver, chunks: seq<seq<byte>>)
    decreases |chunks|
  {
    chunks == [] ||
    (1 <= |chunks[0]| <= MAX_RECV_MSG_SIZE - |st.kept| && Fits(Feed(st, chunks[0]), chunks[1..]))
  }

  function FeedAll(st: Receiver, chunks: seq<seq<byte>>): Receiver
    requires Fits(st, chunks)
    decreases |chunks|
  {
    if chunks == [] then st else FeedAll(Feed(st, chunks[0]), chunks[1..])
  }

  /** The state a one-shot parse of everything received so far would give. */
  ghost predicate InStep(st: Receiver, s: seq<byte>) {
    ParseAll(s) == Parsed(st.frames, st.kept, NeedMore)
  }

  /** One more chunk of a good stream of small frames: nothing is dropped, and there is room again. */
  lemma FeedStep(fs: seq<Frame>, s: seq<byte>, chunk: seq<byte>, st: Receiver)
    requires forall f :: f in fs ==> Good(f) && f.Size() <= MAX_SAFE_FRAME
    requires s + chunk <= Flatten(fs) && InStep(st, s)
    requires |st.kept| + |chunk| <= MAX_RECV_MSG_SIZE
    ensures InStep(Feed(st, chunk), s + chunk)
    ensures |Feed(st, chunk).kept| < MAX_RECV_MSG_SIZE
    ensures Feed(st, chunk).frames <= fs
  {
    ParseExtends(s, chunk);
    ParsePrefix(fs, s + chunk);
  }

  /** Chunk independence: however a good stream of frames of at most 32769 bytes is cut up, what has been
      delivered and what is kept depend only on the bytes received. */
  lemma {:induction false} ChunkIndependent(fs: seq<Frame>, s: seq<byte>, chunks: seq<seq<byte>>, st: Receiver)
    requires forall f :: f in fs ==> Good(f) && f.Size() <= MAX_SAFE_FRAME
    requires s + Concat(chunks) <= Flatten(fs) && InStep(st, s) && Fits(st, chunks)
    ensures InStep(FeedAll(st, chunks), s + Concat(chunks))
    decreases |chunks|
  {
    if chunks == [] {
      assert s + Concat(chunks) == s;
    } else {
      var next := s + chunks[0];
      assert next + Concat(chunks[1..]) == s + Concat(chunks);
      assert next <= s + Concat(chunks);
      FeedStep(fs, s, chunks[0], st);
      ChunkIndependent(fs, next, chunks[1..], Feed(st, chunks[0]));
    }
  }

  /** Every way of receiving the whole stream delivers exactly its frames. */
  ghost predicate AlwaysDelivered(fs: seq<Frame>) {
    forall chunks {:trigger Fits(START, chunks)} ::
      Fits(START, chunks) && Concat(chunks) == Flatten(fs) ==> FeedAll(START, chunks).frames == fs
  }

  /** The bound is exact: 32769 bytes a frame is what the compaction guard allows, and no more. */
  lemma DeliveredIffSmall(fs: seq<Frame>)
    requires forall f :: f in fs ==> Good(f)
    ensures AlwaysDelivered(fs) <==> forall f :: f in fs ==> f.Size() <= MAX_SAFE_FRAME
  {
    if forall f :: f in fs ==> f.Size() <= MAX_SAFE_FRAME {
      forall chunks | Fits(START, chunks) && Concat(chunks) == Flatten(fs)
        ensures FeedAll(START, chunks).frames == fs
      {
        assert [] + Concat(chunks) == Flatten(fs);
        ChunkIndependent(fs, [], chunks, START);
        ParseWhole(fs);
      }
    } else {
      var chunks := LosingChunks(fs, START);
      assert FeedAll(START, chunks).frames != fs;
    }
  }

  // ---- The losing schedule ----

  /** Frames come out of bytes: nothing delivered is longer than what was fed. */
  lemma {:induction false} ParseSize(s: seq<byte>)
    ensures TotalSize(ParseAll(s).frames) + |ParseAll(s).rest| == |s|
    decreases |s|
  {
    hide First;
    match First(s)
    case Short =>
    case BadHead =>
    case Whole(f) =>
      ParseSize(s[f.Size()..]);
      assert ParseAll(s).frames[1..] == ParseAll(s[f.Size()..]).frames;
  }

  lemma {:induction false} TotalSizeAppend(a: seq<Frame>, b: seq<Frame>)
    ensures TotalSize(a + b) == TotalSize(a) + TotalSize(b)
  {
    if a == [] {
      assert a + b == b;
    } else {
      TotalSizeAppend(a[1..], b);
      assert (a + b)[1..] == a[1..] + b;
    }
  }

  /** From any receiver state, single bytes always fit, and what they deliver is no longer than what they are. */
  lemma {:induction false} SingleBytes(st: Receiver, s: seq<byte>) returns (chunks: seq<seq<byte>>)
    requires |st.kept| <= 32768
    ensures Concat(chunks) == s && Fits(st, chunks)
    ensures TotalSize(FeedAll(st, chunks).frames) <= TotalSize(st.frames) + |st.kept| + |s|
    decreases |s|
  {
    if s == [] {
      return [];
    }
    var c := [s[0]];
    var next := Feed(st, c);
    var tail := SingleBytes(next, s[1..]);
    chunks := [c] + tail;
    assert chunks[1..] == tail;
    assert c + s[1..] == s;
    ParseSize(st.kept + c);
    TotalSizeAppend(st.frames, ParseAll(st.kept + c).frames);
  }

  /** Deliver the frames before the first large one whole, then stop 32769 bytes into it. */
  lemma {:induction false} LosingChunks(fs: seq<Frame>, st: Receiver) returns (chunks: seq<seq<byte>>)
    requires forall f :: f in fs ==> Good(f)
    requires exists f :: f in fs && f.Size() > MAX_SAFE_FRAME
    requires st.kept == []
    ensures Concat(chunks) == Flatten(fs) && Fits(st, chunks)
    ensures TotalSize(FeedAll(st, chunks).frames) < TotalSize(st.frames) + TotalSize(fs)
    ensures FeedAll(st, chunks).frames != st.frames + fs
  {
    hide First, Encode;
    var w := fs[0].Wire();
    FlattenSize(fs);
    ParsePrefix([fs[0]], w);
    assert Flatten([fs[0]]) == w by { assert w + [] == w; }
    ParseWhole([fs[0]]);
    var tail;
    if fs[0].Size() <= MAX_SAFE_FRAME {
      var next := Feed(st, w);
      assert [] + w == w;
      tail := LosingChunks(fs[1..], next);
      chunks := [w] + tail;
      TotalSizeAppend(st.frames, [fs[0]]);
      assert TotalSize([fs[0]]) == fs[0].Size();
    } else {
      var c := w[..MAX_SAFE_FRAME];
      ParsePrefix([fs[0]], c);
      assert [] + c == c;
      var next := Feed(st, c);
      ParseSize(c);
      assert ParseAll(c).frames == [];
      assert next == Receiver(st.frames, []) by { assert st.frames + [] == st.frames; }
      tail := SingleBytes(next, w[MAX_SAFE_FRAME..] + Flatten(fs[1..]));
      chunks := [c] + tail;
      assert c + (w[MAX_SAFE_FRAME..] + Flatten(fs[1..])) == w + Flatten(fs[1..]) by {
        assert c + w[MAX_SAFE_FRAME..] == w;
      }
      FlattenSize(fs[1..]);
    }
    assert chunks[1..] == tail;
    TotalSizeAppend(st.frames, fs);
  }
}
