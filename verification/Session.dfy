/** One end of a connection: partial sends out of the ring buffer, incremental parsing into messages
    (CommBase/Network/Session.cpp). Socket results are parameters. */
module Session {
  import opened Bytes
  import opened PacketHeader
  import opened CircleBuffer
  import opened FrameParser
  import opened Messages

  /** What one call of send can do: take some bytes, take none for now, or fail. */
  datatype SendReply = Accepted(n: nat) | SendAgain | SendClosed | SendFailed

  /** What one call of recv can do: hand over at most n of the bytes in transit, or none. */
  datatype RecvReply = Arrived(n: nat) | RecvAgain | PeerClosed | RecvFailed

  predicate Broken(r: SendReply) { r.SendClosed? || r.SendFailed? || r == Accepted(0) }

  /** What the socket takes in all before the first reply that takes nothing. */
  function Offered(replies: seq<SendReply>): (n: nat)
    ensures n > 0 <==> replies != [] && replies[0].Accepted? && replies[0].n > 0
  {
    if replies == [] || !replies[0].Accepted? || replies[0].n == 0 then 0 else replies[0].n + Offered(replies[1..])
  }

  /** The reply that ends the taking; when there is none the socket would have to be asked again. */
  function Ending(replies: seq<SendReply>): NetRet {
    if replies == [] then Success
    else if replies[0].Accepted? && replies[0].n > 0 then Ending(replies[1..])
    else match replies[0]
         case SendAgain => Success
         case SendFailed => SockSendErr
         case _ => SocketClose
  }

  /** How much of a range of n bytes the socket takes, and how the sending ends. */
  function Taken(replies: seq<SendReply>, n: nat): nat { Min(Offered(replies), n) }

  function Outcome(replies: seq<SendReply>, n: nat): NetRet {
    if Offered(replies) >= n then Success else Ending(replies)
  }

  /** What a send takes off the front of a ring buffer with these indices and contents; and whether it ends well. */
  function Moved(ix: Indices, ring: seq<byte>, replies: seq<SendReply>): nat
    requires ix.Valid()
  {
    if ring == [] then 0 else Taken(replies, ix.ReadOverAgain().GetReadLen())
  }

  predicate EndsUp(ix: Indices, ring: seq<byte>, replies: seq<SendReply>)
    requires ix.Valid()
  {
    ring == [] || Outcome(replies, ix.ReadOverAgain().GetReadLen()).Success?
  }

  function SentFrom(ix: Indices, ring: seq<byte>, replies: seq<SendReply>): Indices
    requires ix.Valid()
  {
    var start := ix.ReadOverAgain();
    if EndsUp(ix, ring, replies) then start.(read := start.read + Moved(ix, ring, replies)) else start
  }

  predicate Takes(r: SendReply) { r.Accepted? && r.n > 0 }

  /** What the first k replies take. */
  function SumOf(replies: seq<SendReply>, k: nat): nat
    requires k <= |replies| && forall i :: 0 <= i < k ==> Takes(replies[i])
  {
    if k == 0 then 0 else
    assert Takes(replies[k - 1]);
    SumOf(replies, k - 1) + replies[k - 1].n
  }

  lemma {:induction false} SumOfShift(replies: seq<SendReply>, k: nat)
    requires 0 < k <= |replies| && forall i :: 0 <= i < k ==> Takes(replies[i])
    ensures SumOf(replies, k) == replies[0].n + SumOf(replies[1..], k - 1)
  {
    if k > 1 {
      SumOfShift(replies, k - 1);
    }
  }

  /** The taking goes on up to the first reply that takes nothing, which decides how it ends. */
  lemma {:induction false} OfferedIs(replies: seq<SendReply>, k: nat)
    requires k <= |replies| && forall i :: 0 <= i < k ==> Takes(replies[i])
    requires k == |replies| || !Takes(replies[k])
    ensures Offered(replies) == SumOf(replies, k)
    ensures Ending(replies) == if k == |replies| || replies[k].SendAgain? then Success
                               else if replies[k].SendFailed? then SockSendErr else SocketClose
    decreases k
  {
    if k > 0 {
      OfferedIs(replies[1..], k - 1);
      SumOfShift(replies, k);
    }
  }

  lemma {:induction false} EndingBroken(replies: seq<SendReply>)
    ensures Ending(replies).Success? || exists r :: r in replies && Broken(r)
  {
    if replies != [] && replies[0].Accepted? && replies[0].n > 0 {
      EndingBroken(replies[1..]);
    } else if replies != [] {
      assert replies[0] in replies;
    }
  }

  /** The state after a call: parsing what is kept again would deliver nothing. */
  ghost predicate Quiet(kept: seq<byte>) {
    |kept| <= 32768 && ParseAll(kept) == Parsed([], kept, NeedMore)
  }

  lemma QuietFacts(kept: seq<byte>)
    requires Quiet(kept)
    ensures |kept| <= 32768
  {
  }

  /** Parsing it once more delivers nothing and keeps it. */
  lemma QuietAgain(kept: seq<byte>)
    requires Quiet(kept)
    ensures ParseAll(kept).frames == [] && ParseAll(kept).status.NeedMore? && Keep(ParseAll(kept)) == kept
  {
  }

  lemma KeepIsQuiet(s: seq<byte>)
    requires |s| <= MAX_RECV_MSG_SIZE
    ensures Quiet(Keep(ParseAll(s)))
  {
    ReparseResidue(s);
  }

  function Min(a: nat, b: nat): nat { if a < b then a else b }

  lemma {:induction false} FeedMore(st: Receiver, chunks: seq<seq<byte>>, c: seq<byte>)
    requires Fits(st, chunks) && 1 <= |c| <= MAX_RECV_MSG_SIZE - |FeedAll(st, chunks).kept|
    ensures Fits(st, chunks + [c])
    ensures FeedAll(st, chunks + [c]) == Feed(FeedAll(st, chunks), c)
    ensures Concat(chunks + [c]) == Concat(chunks) + c
    decreases |chunks|
  {
    hide Feed;
    if chunks == [] {
      assert chunks + [c] == [c] && [c][1..] == [];
      assert FeedAll(Feed(st, c), []) == Feed(st, c);
    } else {
      FeedMore(Feed(st, chunks[0]), chunks[1..], c);
      assert (chunks + [c])[1..] == chunks[1..] + [c];
    }
  }

  /** What the receive loop reads: at each reply as much as it brings, there is room for, and is in transit; until a
      reply brings nothing or nothing is in transit. */
  function Reads(kept: seq<byte>, wire: seq<byte>, replies: seq<RecvReply>): (chunks: seq<seq<byte>>)
    requires |kept| <= MAX_RECV_MSG_SIZE
    ensures |chunks| <= |replies|
    decreases |replies|
  {
    if replies == [] || !replies[0].Arrived? || replies[0].n == 0 || wire == [] then [] else
    var n := Min(replies[0].n, Min(MAX_RECV_MSG_SIZE - |kept|, |wire|));
    [wire[..n]] + Reads(Keep(ParseAll(kept + wire[..n])), wire[n..], replies[1..])
  }

  /** Reading stops only at a reply that brings nothing, or with nothing in transit. */
  lemma {:induction false} ReadsStop(kept: seq<byte>, wire: seq<byte>, replies: seq<RecvReply>)
    requires |kept| <= MAX_RECV_MSG_SIZE
    ensures var chunks := Reads(kept, wire, replies);
            |chunks| < |replies| && replies[|chunks|].Arrived? ==> replies[|chunks|].n == 0 || Concat(chunks) == wire
    decreases |replies|
  {
    hide ParseAll, Keep;
    if !(replies == [] || !replies[0].Arrived? || replies[0].n == 0 || wire == []) {
      var n := Min(replies[0].n, Min(MAX_RECV_MSG_SIZE - |kept|, |wire|));
      ReadsStop(Keep(ParseAll(kept + wire[..n])), wire[n..], replies[1..]);
      assert wire == wire[..n] + wire[n..];
    }
  }

  /** Each reading takes all the reply offers, or fills the buffer, or empties what is in transit. */
  lemma {:induction false} ReadsGreedily(kept: seq<byte>, wire: seq<byte>, replies: seq<RecvReply>, frames: seq<Frame>,
                                         k: nat)
    requires |kept| <= MAX_RECV_MSG_SIZE && k < |Reads(kept, wire, replies)|
    requires Fits(Receiver(frames, kept), Reads(kept, wire, replies)[..k])
    ensures var chunks := Reads(kept, wire, replies);
            var room := MAX_RECV_MSG_SIZE - |FeedAll(Receiver(frames, kept), chunks[..k]).kept|;
            && replies[k].Arrived? && |chunks[k]| <= replies[k].n && |chunks[k]| <= room
            && (|chunks[k]| == replies[k].n || |chunks[k]| == room || Concat(chunks[..k + 1]) == wire)
    decreases |replies|
  {
    hide ParseAll, Keep;
    var chunks := Reads(kept, wire, replies);
    var n := Min(replies[0].n, Min(MAX_RECV_MSG_SIZE - |kept|, |wire|));
    var next := Keep(ParseAll(kept + wire[..n]));
    if k > 0 {
      assert chunks[..k][0] == wire[..n] && chunks[..k][1..] == Reads(next, wire[n..], replies[1..])[..k - 1];
      ReadsGreedily(next, wire[n..], replies[1..], frames + ParseAll(kept + wire[..n]).frames, k - 1);
      assert chunks[..k + 1][1..] == Reads(next, wire[n..], replies[1..])[..k];
    } else {
      assert chunks[..1] == [wire[..n]] && [wire[..n]][1..] == [];
      assert chunks[..0] == [];
      assert Concat([wire[..n]]) == wire[..n] + [];
    }
    assert wire == wire[..n] + wire[n..];
  }

  lemma {:induction false} ReadsPrefix(kept: seq<byte>, wire: seq<byte>, replies: seq<RecvReply>)
    requires |kept| <= MAX_RECV_MSG_SIZE
    ensures Concat(Reads(kept, wire, replies)) <= wire
    decreases |replies|
  {
    hide ParseAll, Keep;
    if !(replies == [] || !replies[0].Arrived? || replies[0].n == 0 || wire == []) {
      var n := Min(replies[0].n, Min(MAX_RECV_MSG_SIZE - |kept|, |wire|));
      ReadsPrefix(Keep(ParseAll(kept + wire[..n])), wire[n..], replies[1..]);
      assert wire == wire[..n] + wire[n..];
    }
  }

  /** A socket that keeps bringing bytes, asked often enough, brings all that is in transit. */
  lemma {:induction false} ReadsAll(kept: seq<byte>, wire: seq<byte>, replies: seq<RecvReply>)
    requires |kept| <= 32768 && |wire| <= |replies| && forall r :: r in replies ==> r.Arrived? && r.n > 0
    ensures Concat(Reads(kept, wire, replies)) == wire
    decreases |replies|
  {
    hide ParseAll, Keep;
    if wire != [] {
      var n := Min(replies[0].n, Min(MAX_RECV_MSG_SIZE - |kept|, |wire|));
      assert replies[0] in replies;
      KeepIsQuiet(kept + wire[..n]);
      ReadsAll(Keep(ParseAll(kept + wire[..n])), wire[n..], replies[1..]);
      assert wire == wire[..n] + wire[n..];
    }
  }

  function Then(frames: seq<Frame>, p: Parsed): Parsed {
    p.(frames := frames + p.frames)
  }

  lemma NothingToSend(ix: Indices, mem: seq<byte>)
    requires ix.Valid() && |mem| == ix.cap && ix.Contents(mem) == []
    ensures ix.AfterSend() == ix.ReadOverAgain()
  {
  }

  lemma ThenStart(p: Parsed)
    ensures Then([], p) == p
  {
    assert [] + p.frames == p.frames;
  }

  lemma AcceptNone(e: Endpoint)
    requires e.Valid()
    ensures AcceptAll([], e) == []
  {
  }

  lemma GoodLength(h: Header)
    requires !Malformed(h)
    ensures 0 <= h.length
  {
  }

  lemma ThenNothing(frames: seq<Frame>, p: Parsed)
    requires p.frames == []
    ensures Then(frames, p) == p.(frames := frames)
  {
    assert frames + [] == frames;
  }

  lemma ThenCons(frames: seq<Frame>, f: Frame, p: Parsed)
    ensures Then(frames, Cons(f, p)) == Then(frames + [f], p)
  {
    assert frames + ([f] + p.frames) == (frames + [f]) + p.frames;
  }

  /** The parse, read off the tests the loop makes. */
  lemma ParseTurn(s: seq<byte>)
    ensures |s| < HEADER_LENGTH ==> ParseAll(s) == Parsed([], s, NeedMore)
    ensures |s| >= HEADER_LENGTH ==>
              var h := Decode(s[..HEADER_LENGTH]);
              var n := HEADER_LENGTH + h.length;
              && (Malformed(h) ==> ParseAll(s) == Parsed([], s, Bad))
              && (!Malformed(h) && |s| < n ==> ParseAll(s) == Parsed([], s, NeedMore))
              && (!Malformed(h) && |s| >= n ==>
                    ParseAll(s) == Cons(Frame(h, s[HEADER_LENGTH..n]), ParseAll(s[n..])))
  {
    hide Decode;
  }

  lemma AcceptOne(f: Frame, e: Endpoint)
    requires e.Valid()
    ensures AcceptAll([f], e) == Accept(f, e)
  {
    hide Accept;
    assert [f][1..] == [];
    assert AcceptAll([f], e) == Accept(f, e) + [];
  }

  /** What one parse adds to what was delivered and leaves behind. */
  lemma FeedIs(st: Receiver, c: seq<byte>, e: Endpoint)
    requires |st.kept| + |c| <= MAX_RECV_MSG_SIZE && e.Valid()
    ensures Feed(st, c).kept == Keep(ParseAll(st.kept + c))
    ensures AcceptAll(Feed(st, c).frames, e) == AcceptAll(st.frames, e) + AcceptAll(ParseAll(st.kept + c).frames, e)
  {
    hide First, Accept;
    AcceptAllAppend(st.frames, ParseAll(st.kept + c).frames, e);
  }

  /** Too few bytes for a header: skipping the parse makes no difference. */
  lemma ShortFeed(s: seq<byte>)
    requires |s| < HEADER_LENGTH
    ensures ParseAll(s) == Parsed([], s, NeedMore) && Keep(ParseAll(s)) == s
  {
  }

  /** After some replies of the receive loop: chunks have been read and fed, and of all the others are to come. */
  ghost predicate Midway(e: Endpoint, before: seq<byte>, all: seq<seq<byte>>, chunks: seq<seq<byte>>, wire: seq<byte>,
                         got: nat, replies: seq<RecvReply>, kept: seq<byte>, vec: seq<Message>) {
    && |kept| <= 32768 && Fed(e, before, chunks, wire, got, kept, vec)
    && got <= |wire| && |chunks| <= |replies| && ToCome(all, chunks, wire[got..], replies[|chunks|..], kept)
  }

  ghost predicate Fed(e: Endpoint, before: seq<byte>, chunks: seq<seq<byte>>, wire: seq<byte>, got: nat,
                      kept: seq<byte>, vec: seq<Message>) {
    var st := Receiver([], before);
    && e.Valid() && got <= |wire| && Concat(chunks) == wire[..got] && Fits(st, chunks)
    && FeedAll(st, chunks).kept == kept && vec == AcceptAll(FeedAll(st, chunks).frames, e)
  }

  ghost predicate ToCome(all: seq<seq<byte>>, chunks: seq<seq<byte>>, wire: seq<byte>, replies: seq<RecvReply>,
                         kept: seq<byte>) {
    |kept| <= 32768 && all == chunks + Reads(kept, wire, replies)
  }

  lemma MidwayStart(e: Endpoint, before: seq<byte>, wire: seq<byte>, replies: seq<RecvReply>)
    requires e.Valid() && |before| <= 32768
    ensures Midway(e, before, Reads(before, wire, replies), [], wire, 0, replies, before, [])
  {
    assert wire[0..] == wire && replies[0..] == replies;
    AcceptNone(e);
    hide AcceptAll;
    var all := Reads(before, wire, replies);
    assert [] + all == all;
  }

  lemma ReadsStep(kept: seq<byte>, wire: seq<byte>, replies: seq<RecvReply>, n: nat)
    requires replies != [] && wire != [] && |kept| <= MAX_RECV_MSG_SIZE && replies[0].Arrived? && replies[0].n > 0
    requires n == Min(replies[0].n, Min(MAX_RECV_MSG_SIZE - |kept|, |wire|))
    ensures Reads(kept, wire, replies)
            == [wire[..n]] + Reads(Keep(ParseAll(kept + wire[..n])), wire[n..], replies[1..])
  {
    hide ParseAll, Keep;
  }

  /** One turn of the receive loop. */
  lemma MidwayStep(e: Endpoint, before: seq<byte>, all: seq<seq<byte>>, chunks: seq<seq<byte>>, wire: seq<byte>,
                   got: nat, replies: seq<RecvReply>, kept: seq<byte>, vec: seq<Message>, n: nat)
    requires Midway(e, before, all, chunks, wire, got, replies, kept, vec) && |chunks| < |replies| && got < |wire|
    requires replies[|chunks|].Arrived? && replies[|chunks|].n > 0
    requires n == Min(replies[|chunks|].n, Min(MAX_RECV_MSG_SIZE - |kept|, |wire| - got))
    ensures var c := wire[got..got + n];
            Midway(e, before, all, chunks + [c], wire, got + n, replies, Keep(ParseAll(kept + c)),
                   vec + AcceptAll(ParseAll(kept + c).frames, e))
  {
    hide Reads, Keep, ParseAll, AcceptAll, Fed, ToCome;
    FedStep(e, before, chunks, wire, got, kept, vec, n);
    DropTwice(wire, got, n);
    DropTwice(replies, |chunks|, 1);
    ToComeStep(all, chunks, wire[got..], replies[|chunks|..], kept, n);
  }

  lemma FedStep(e: Endpoint, before: seq<byte>, chunks: seq<seq<byte>>, wire: seq<byte>, got: nat,
                kept: seq<byte>, vec: seq<Message>, n: nat)
    requires Fed(e, before, chunks, wire, got, kept, vec) && 0 < n <= |wire| - got && |kept| + n <= MAX_RECV_MSG_SIZE
    ensures var c := wire[got..got + n];
            Fed(e, before, chunks + [c], wire, got + n, Keep(ParseAll(kept + c)),
                vec + AcceptAll(ParseAll(kept + c).frames, e))
  {
    hide ParseAll, Keep, AcceptAll, Feed, Endpoint.Valid;
    var st, c := Receiver([], before), wire[got..got + n];
    FeedMore(st, chunks, c);
    FeedIs(FeedAll(st, chunks), c, e);
    assert wire[..got + n] == wire[..got] + c;
    hide FeedAll, Concat, Fits;
  }

  lemma ToComeStep(all: seq<seq<byte>>, chunks: seq<seq<byte>>, wire: seq<byte>, replies: seq<RecvReply>,
                   kept: seq<byte>, n: nat)
    requires ToCome(all, chunks, wire, replies, kept) && replies != [] && wire != []
    requires replies[0].Arrived? && replies[0].n > 0 && n == Min(replies[0].n, Min(MAX_RECV_MSG_SIZE - |kept|, |wire|))
    ensures var c := wire[..n];
            ToCome(all, chunks + [c], wire[n..], replies[1..], Keep(ParseAll(kept + c)))
  {
    hide ParseAll, Keep, Reads;
    ReadsStep(kept, wire, replies, n);
    Regroup(chunks, wire[..n], Reads(Keep(ParseAll(kept + wire[..n])), wire[n..], replies[1..]));
  }

  lemma DropTwice<T>(s: seq<T>, a: nat, n: nat)
    requires a + n <= |s|
    ensures s[a..][..n] == s[a..a + n] && s[a..][n..] == s[a + n..]
  {
  }

  lemma Regroup<T>(a: seq<T>, x: T, b: seq<T>)
    ensures a + ([x] + b) == (a + [x]) + b
  {
  }

  lemma MidwayEnd(e: Endpoint, before: seq<byte>, all: seq<seq<byte>>, chunks: seq<seq<byte>>, wire: seq<byte>,
                  got: nat, replies: seq<RecvReply>, kept: seq<byte>, vec: seq<Message>)
    requires Midway(e, before, all, chunks, wire, got, replies, kept, vec)
    requires var i := |chunks|;
             i == |replies| || !replies[i].Arrived? || replies[i].n == 0 || got == |wire|
    ensures all == chunks && wire[..got] == Concat(chunks)
  {
    hide FeedAll, Fits, AcceptAll;
  }

  class Session {
    const m_self: Endpoint
    const m_remoteIsClient: bool
    const m_bufRecv: array<byte>
    const bufSend: CCircleBuff
    var dwRecvPos: nat

    ghost predicate Formed()
      reads this, bufSend
    {
      && m_self.Valid() && bufSend.Valid() && m_bufRecv != bufSend.m_buffer
      && m_bufRecv.Length == MAX_RECV_MSG_SIZE && dwRecvPos <= MAX_RECV_MSG_SIZE
    }

    ghost function Kept(): seq<byte>
      reads this, m_bufRecv
      requires dwRecvPos <= m_bufRecv.Length
    {
      m_bufRecv[..dwRecvPos]
    }

    ghost predicate Valid()
      reads this, bufSend, m_bufRecv
    {
      Formed() && Quiet(Kept())
    }

    constructor (self: Endpoint, remoteIsClient: bool, sendSize: nat)
      requires self.Valid()
      ensures Valid() && Kept() == [] && bufSend.Contents() == []
      ensures m_self == self && m_remoteIsClient == remoteIsClient
      ensures fresh(bufSend) && fresh(bufSend.m_buffer) && fresh(m_bufRecv)
    {
      m_self, m_remoteIsClient := self, remoteIsClient;
      m_bufRecv := new byte[MAX_RECV_MSG_SIZE];
      bufSend := new CCircleBuff(sendSize);
      dwRecvPos := 0;
    }

    /** Queues one sealed message, or refuses it whole. */
    method Write(message: Message) returns (rc: NetRet)
      requires Formed() && |Seal(message.content, m_self)| < 0x8000_0000
      modifies bufSend, bufSend.m_buffer
      ensures Formed() && bufSend.m_buffer == old(bufSend.m_buffer)
      ensures rc.Success? || rc.NoEnoughWrite?
      ensures rc.Success? <==> old(bufSend.Ix().Admits(FrameOf(message, m_self).Size()))
      ensures var n := FrameOf(message, m_self).Size();
              bufSend.Ix() == if rc.Success? then old(bufSend.Ix().AfterWrite(n))
                              else old(bufSend.Ix().WriteOverAgain(n))
      ensures bufSend.Contents() == old(bufSend.Contents())
                                    + if rc.Success? then FrameOf(message, m_self).Wire() else []
      ensures rc.Success? ==> |old(bufSend.Contents())| <= |bufSend.Contents()|
                              && OnWire(bufSend.Contents()[|old(bufSend.Contents())|..], message, m_self)
    {
      var f := FrameOf(message, m_self);
      FrameOnWire(message, m_self);
      AnnouncedIsLength(f.head);
      assert f.body[..f.head.length] == f.body;
      rc := bufSend.WriteSend(f.body, ToSmallEndian(f.head));
    }

    /** The send loop: how much of a range of nBuffLen bytes the socket took, and whether it broke. */
    static method Push(replies: seq<SendReply>, nBuffLen: nat) returns (rc: NetRet, nSendTotal: nat)
      ensures nSendTotal == Taken(replies, nBuffLen) && rc == Outcome(replies, nBuffLen)
    {
      rc, nSendTotal := Success, 0;
      var i := 0;
      while nSendTotal < nBuffLen
        invariant 0 <= nSendTotal <= nBuffLen && 0 <= i <= |replies|
        invariant Taken(replies, nBuffLen) == nSendTotal + Taken(replies[i..], nBuffLen - nSendTotal)
        invariant Outcome(replies, nBuffLen) == Outcome(replies[i..], nBuffLen - nSendTotal)
        decreases |replies| - i
      {
        if i == |replies| || replies[i].SendAgain? {
          break;
        }
        if Broken(replies[i]) {
          rc := if replies[i].SendFailed? then SockSendErr else SocketClose;
          break;
        }
        nSendTotal := nSendTotal + Min(replies[i].n, nBuffLen - nSendTotal);
        i := i + 1;
      }
    }

    /** Sends from the front of the buffer until the socket takes no more of the current contiguous range. */
    method Send(replies: seq<SendReply>) returns (rc: NetRet, sent: seq<byte>)
      requires Formed()
      modifies bufSend
      ensures Formed() && bufSend.m_buffer == old(bufSend.m_buffer)
      ensures sent <= old(bufSend.Contents())
      ensures |sent| == Moved(old(bufSend.Ix()), old(bufSend.Contents()), replies)
      ensures rc.Success? <==> EndsUp(old(bufSend.Ix()), old(bufSend.Contents()), replies)
      ensures bufSend.Ix() == SentFrom(old(bufSend.Ix()), old(bufSend.Contents()), replies)
      ensures rc.Success? ==> old(bufSend.Contents()) == sent + bufSend.Contents()
      ensures !rc.Success? ==> bufSend.Contents() == old(bufSend.Contents()) && exists r :: r in replies && Broken(r)
      ensures replies != [] && replies[0].Accepted? && replies[0].n >= bufSend.m_bufCapacity > 0 ==>
                rc.Success? && bufSend.Ix() == old(bufSend.Ix()).AfterSend()
    {
      hide Indices.Contents;
      rc, sent := Success, [];
      if bufSend.IsEmpty() {
        return;
      }
      var from, nBuffLen;
      rc, from, nBuffLen := bufSend.ReadSendBuff();
      if !rc.Success? {
        NothingToSend(old(bufSend.Ix()), bufSend.m_buffer[..]);
        rc := Success;
        return;
      }
      var nSendTotal;
      rc, nSendTotal := Push(replies, nBuffLen);
      EndingBroken(replies);
      sent := bufSend.m_buffer[from..from + nSendTotal];
      SliceOfSlice(bufSend.m_buffer[..], from, nBuffLen, nSendTotal);
      SliceOfSlice(bufSend.Contents(), 0, nBuffLen, nSendTotal);
      assert bufSend.m_buffer[..][from..from + nBuffLen] == bufSend.m_buffer[from..from + nBuffLen];
      if rc.Success? {
        bufSend.HadRead(nSendTotal);
      }
    }

    /** With a socket that takes everything, two sends leave nothing. */
    method SendTwice() returns (sent: seq<byte>)
      requires Formed() && bufSend.m_bufCapacity > 0
      modifies bufSend
      ensures Formed() && sent == old(bufSend.Contents()) && bufSend.Contents() == []
    {
      var rc, first := Send([Accepted(bufSend.m_bufCapacity)]);
      var second;
      rc, second := Send([Accepted(bufSend.m_bufCapacity)]);
      sent := first + second;
    }

    /** Moves an unfinished rest to the front; if the copy is refused the rest is forgotten. */
    method KeepTail(tmpHead: nat, nLeftSize: nat)
      requires Formed() && tmpHead + nLeftSize <= MAX_RECV_MSG_SIZE
      modifies this, m_bufRecv
      ensures Formed() && Kept() == Compact(old(m_bufRecv[tmpHead..tmpHead + nLeftSize]))
    {
      dwRecvPos := nLeftSize;
      var moved := SafeMemmove(m_bufRecv, 0, MAX_RECV_MSG_SIZE - dwRecvPos, m_bufRecv[tmpHead..tmpHead + nLeftSize]);
      if moved != 0 {
        dwRecvPos := 0;
      }
    }

    /** The parse loop over everything in the receive buffer. A malformed header discards the buffer, or, from
        a client, closes the connection. */
    method RecvFrames() returns (ret: NetRet, vec: seq<Message>)
      requires Formed()
      modifies this, m_bufRecv
      ensures Formed()
      ensures var p := ParseAll(old(Kept()));
              && vec == AcceptAll(p.frames, m_self)
              && (if p.status.Bad? && m_remoteIsClient then ret == SocketClose && Kept() == old(Kept())
                  else ret == Success && Kept() == Keep(p))
    {
      hide Decode, Accept, AcceptAll, ParseAll, Then, Cons, Malformed;
      ghost var all := Kept();
      ghost var frames := [];
      var tmpHead, nLeftSize := 0, dwRecvPos;
      vec := [];
      assert all[0..] == all;
      ThenStart(ParseAll(all));
      AcceptNone(m_self);
      while true
        invariant Formed() && tmpHead + nLeftSize == dwRecvPos == |all| && Kept() == all
        invariant 0 <= tmpHead && 0 <= nLeftSize
        invariant ParseAll(all) == Then(frames, ParseAll(all[tmpHead..]))
        invariant vec == AcceptAll(frames, m_self)
        decreases nLeftSize
      {
        var left := m_bufRecv[tmpHead..tmpHead + nLeftSize];
        assert left == all[tmpHead..];
        ParseTurn(left);
        if nLeftSize < HEADER_LENGTH {
          KeepTail(tmpHead, nLeftSize);
          ThenNothing(frames, ParseAll(left));
          return Success, vec;
        }
        var head := Decode(left[..HEADER_LENGTH]);
        if Malformed(head) {
          ThenNothing(frames, ParseAll(left));
          if m_remoteIsClient {
            return SocketClose, vec;
          }
          dwRecvPos := 0;
          return Success, vec;
        }
        GoodLength(head);
        var n := HEADER_LENGTH + head.length;
        if nLeftSize < n {
          KeepTail(tmpHead, nLeftSize);
          ThenNothing(frames, ParseAll(left));
          return Success, vec;
        }
        var f := Frame(head, left[HEADER_LENGTH..n]);
        assert all[tmpHead + n..] == left[n..];
        ThenCons(frames, f, ParseAll(left[n..]));
        AcceptAllAppend(frames, [f], m_self);
        AcceptOne(f, m_self);
        frames := frames + [f];
        vec := vec + Accept(f, m_self);
        tmpHead, nLeftSize := tmpHead + n, nLeftSize - n;
        if nLeftSize <= 0 {
          assert all[tmpHead..] == [];
          ParseTurn([]);
          ThenNothing(frames, ParseAll([]));
          dwRecvPos := 0;
          return Success, vec;
        }
      }
    }

    /** Reads until the socket has no more, parsing after every read, and hands everything up in one batch. When
        the connection closes midway, the batch of this call is not handed up. */
    method Recv(wire: seq<byte>, replies: seq<RecvReply>) returns (ret: NetRet, dispatched: seq<Message>, got: nat)
      requires Valid()
      modifies this, m_bufRecv
      ensures Formed() && got <= |wire| && (ret.Success? || ret.SocketClose?)
      ensures ret.Success? ==>
                var chunks := Reads(old(Kept()), wire, replies);
                && Valid() && wire[..got] == Concat(chunks)
                && Explains(old(Kept()), chunks, Kept(), dispatched)
      ensures ret.SocketClose? ==> dispatched == []
      ensures !m_remoteIsClient ==>
                var n := |Reads(old(Kept()), wire, replies)|;
                && (ret.SocketClose? <==> n < |replies| && replies[n].PeerClosed?)
                && wire[..got] == Concat(Reads(old(Kept()), wire, replies))
    {
      hide First, Feed, Accept, AcceptAll, Reads, Midway, Fed, ToCome, ParseAll, Keep, Quiet;
      ghost var chunks: seq<seq<byte>>, before := [], Kept();
      ret, dispatched, got := Success, [], 0;
      var vec := [];
      var i := 0;
      QuietFacts(Kept());
      ghost var all := Reads(Kept(), wire, replies);
      MidwayStart(m_self, Kept(), wire, replies);
      while i < |replies|
        invariant |chunks| == i <= |replies| && Valid() && got <= |wire|
        invariant Midway(m_self, before, all, chunks, wire, got, replies, Kept(), vec)
      {
        if replies[i].PeerClosed? {
          MidwayEnd(m_self, before, all, chunks, wire, got, replies, Kept(), vec);
          return SocketClose, [], got;
        }
        if !replies[i].Arrived? || replies[i].n == 0 || got == |wire| {
          break;
        }
        QuietFacts(Kept());
        var nRet := Min(replies[i].n, Min(MAX_RECV_MSG_SIZE - dwRecvPos, |wire| - got));
        ghost var kept := Kept();
        var chunk := wire[got..got + nRet];
        MidwayStep(m_self, before, all, chunks, wire, got, replies, kept, vec, nRet);
        KeepIsQuiet(kept + chunk);
        var moved := SafeMemmove(m_bufRecv, dwRecvPos, MAX_RECV_MSG_SIZE - dwRecvPos, chunk);
        dwRecvPos := dwRecvPos + nRet;
        assert Kept() == kept + chunk;
        chunks := chunks + [chunk];
        got := got + nRet;
        i := i + 1;
        if dwRecvPos < HEADER_LENGTH {
          ShortFeed(kept + chunk);
          AcceptNone(m_self);
          assert vec + [] == vec;
          continue;
        }
        var more;
        ret, more := RecvFrames();
        vec := vec + more;
        if ret.SocketClose? {
          return SocketClose, [], got;
        }
      }
      MidwayEnd(m_self, before, all, chunks, wire, got, replies, Kept(), vec);
      QuietAgain(Kept());
      AcceptNone(m_self);
      var more;
      ret, more := RecvFrames();
      dispatched := vec;
      MidwayExplains(before, chunks, wire, got, replies, all, dispatched);
    }

    lemma MidwayExplains(before: seq<byte>, chunks: seq<seq<byte>>, wire: seq<byte>, got: nat, replies: seq<RecvReply>,
                         all: seq<seq<byte>>, vec: seq<Message>)
      requires Formed() && Midway(m_self, before, all, chunks, wire, got, replies, Kept(), vec)
      ensures Explains(before, chunks, Kept(), vec)
    {
    }

    /** The call fed chunks to the state it found. */
    ghost predicate Explains(before: seq<byte>, chunks: seq<seq<byte>>, after: seq<byte>, dispatched: seq<Message>)
      reads this
    {
      var st := Receiver([], before);
      && m_self.Valid() && Fits(st, chunks)
      && FeedAll(st, chunks).kept == after && dispatched == AcceptAll(FeedAll(st, chunks).frames, m_self)
    }
  }
}
