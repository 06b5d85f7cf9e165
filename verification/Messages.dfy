/** Messages, and what a session does with a message it sends or a frame it receives
    (CommBase/Network/MessageManager.cpp, and the acceptance filter in Session.cpp). */
module Messages {
  import opened Bytes
  import opened Collections
  import opened PacketHeader
  import opened FrameParser

  const CONN_MESSAGE := 0  // ConnMessage: consumed by the session manager, never dispatched
  const DIGEST_LENGTH := 16

  /** Addressing fields as they stand in the header; the receiver files them under its own point of view. */
  datatype Message = Message(
    content: seq<byte>, remoteID: int16, remoteType: byte, localType: byte,
    messageID: uint32, messageType: byte, reqID: int32, sendTime: uint64)

  /** One end of a link: who it is, whether it seals its messages, the digest it seals with, and what a new message
      buffer of a given length happens to hold. */
  datatype Endpoint = Endpoint(
    localID: int16, localType: byte, security: bool, digest: seq<byte> -> seq<byte>, blank: nat -> seq<byte>)
  {
    ghost predicate Valid() {
      (forall s :: |digest(s)| == DIGEST_LENGTH) && forall n :: |blank(n)| == n
    }
  }

  /** Message::EncryptMessage. */
  function Seal(content: seq<byte>, e: Endpoint): seq<byte> {
    if e.security && |content| + DIGEST_LENGTH <= MAX_MSG_PACKET_SIZE then content + e.digest(content) else content
  }

  /** Message::GetHead, before the byte-order conversion. */
  function FrameOf(m: Message, e: Endpoint): (f: Frame)
    requires |Seal(m.content, e)| < 0x8000_0000
  {
    var body := Seal(m.content, e);
    Frame(Header(|body|, e.security, m.remoteType, m.remoteID, m.localType,
                 m.messageID, m.messageType, m.reqID, m.sendTime), body)
  }

  /** The bytes of a message: its fields in their places, then the content and, where it is sealed, the digest. */
  ghost predicate OnWire(w: seq<byte>, m: Message, e: Endpoint) {
    var seal := if e.security && |m.content| + DIGEST_LENGTH <= MAX_MSG_PACKET_SIZE then e.digest(m.content) else [];
    && |w| == HEADER_LENGTH + |m.content| + |seal| && w[HEADER_LENGTH..] == m.content + seal
    && |m.content| + |seal| < 0x8000_0000
    && Carries(w, Header(|m.content| + |seal|, e.security, m.remoteType, m.remoteID, m.localType,
                         m.messageID, m.messageType, m.reqID, m.sendTime), m.remoteType == 0)
  }

  lemma FrameOnWire(m: Message, e: Endpoint)
    requires |Seal(m.content, e)| < 0x8000_0000
    ensures OnWire(FrameOf(m, e).Wire(), m, e)
  {
    hide Carries, Encode;
    var f := FrameOf(m, e);
    EncodeCarries(f.head);
    CarriesMore(Encode(f.head), f.body, f.head, m.remoteType == 0);
  }

  lemma CarriesMore(s: seq<byte>, more: seq<byte>, h: Header, bigEndian: bool)
    requires |s| == HEADER_LENGTH && Carries(s, h, bigEndian)
    ensures Carries(s + more, h, bigEndian)
  {
  }

  /** strncmp over equal-length buffers: bytes after a common NUL are not compared. */
  predicate SameUpToNul(a: seq<byte>, b: seq<byte>)
    requires |a| == |b|
  {
    a == [] || (a[0] == b[0] && (a[0] == 0 || SameUpToNul(a[1..], b[1..])))
  }

  lemma {:induction false} SameUpToNulReflexive(a: seq<byte>)
    ensures SameUpToNul(a, a)
  {
    if a != [] {
      SameUpToNulReflexive(a[1..]);
    }
  }

  /** Message::UnEncryptMessage; a sealed body too short for a digest is rejected here. */
  function Unseal(body: seq<byte>, e: Endpoint): Option<seq<byte>>
    requires e.Valid()
  {
    if !e.security then Some(body) else
    if |body| < DIGEST_LENGTH then None else
    var content := body[..|body| - DIGEST_LENGTH];
    if SameUpToNul(e.digest(content), body[|body| - DIGEST_LENGTH..]) then Some(content) else None
  }

  /** Message::SetContent: a body too long for a digest behind it is not copied. */
  function Stored(body: seq<byte>, e: Endpoint): seq<byte> {
    if |body| + HEADER_LENGTH + DIGEST_LENGTH > MAX_MSG_PACKET_SIZE then e.blank(|body|) else body
  }

  /** The filter in Session::Recv, then SetHead, SetContent, UnEncryptMessage and AddMessage. */
  function Accept(f: Frame, e: Endpoint): (r: seq<Message>)
    requires e.Valid()
    ensures |r| <= 1
  {
    var h := f.head;
    if h.remoteID != e.localID || h.remoteType != e.localType || h.security != e.security then [] else
    match Unseal(Stored(f.body, e), e)
    case None => []
    case Some(content) =>
      if h.messageType == CONN_MESSAGE then []
      else [Message(content, h.remoteID, h.remoteType, h.localType, h.messageID, h.messageType, h.reqID, h.sendTime)]
  }

  /** The digests agree at every place up to and including the first NUL they both hold. */
  ghost predicate DigestsAgree(a: seq<byte>, b: seq<byte>)
    requires |a| == |b|
  {
    forall i :: 0 <= i < |a| && (forall j :: 0 <= j < i ==> a[j] != 0) ==> a[i] == b[i]
  }

  lemma {:induction false} SameUpToNulIff(a: seq<byte>, b: seq<byte>)
    requires |a| == |b|
    ensures SameUpToNul(a, b) <==> DigestsAgree(a, b)
  {
    if a != [] {
      var a', b' := a[1..], b[1..];
      SameUpToNulIff(a', b');
      if SameUpToNul(a, b) {
        forall i | 0 <= i < |a| && forall j :: 0 <= j < i ==> a[j] != 0
          ensures a[i] == b[i]
        {
          if i > 0 {
            assert a[0] != 0;
            forall j | 0 <= j < i - 1
              ensures a'[j] != 0
            {
              assert a[j + 1] != 0;
            }
            assert a'[i - 1] == b'[i - 1];
          }
        }
      } else if a[0] == b[0] {
        var i :| 0 <= i < |a'| && (forall j :: 0 <= j < i ==> a'[j] != 0) && a'[i] != b'[i];
        assert forall j :: 0 <= j < i + 1 ==> a[j] != 0 by {
          forall j | 0 <= j < i + 1
            ensures a[j] != 0
          {
            assert j > 0 ==> a'[j - 1] != 0;
          }
        }
        assert a[i + 1] != b[i + 1];
      }
    }
  }

  /** A frame gets through exactly when it is for this peer, carries a message to dispatch and, at a peer that seals,
      ends with the digest of what stands before; what gets through is the frame less its digest. */
  lemma AcceptIff(f: Frame, e: Endpoint)
    requires e.Valid()
    ensures var body := if |f.body| + 42 > 65536 then e.blank(|f.body|) else f.body;
            var n := |body| - 16;
            var h := f.head;
            && (Accept(f, e) != [] <==>
                  && h.remoteID == e.localID && h.remoteType == e.localType && h.security == e.security
                  && h.messageType != 0 && (e.security ==> n >= 0 && DigestsAgree(e.digest(body[..n]), body[n..])))
            && (Accept(f, e) != [] ==>
                  Accept(f, e) == [Message(if e.security then body[..n] else body, h.remoteID, h.remoteType,
                                           h.localType, h.messageID, h.messageType, h.reqID, h.sendTime)])
  {
    var body := Stored(f.body, e);
    if e.security && |body| >= DIGEST_LENGTH {
      var n := |body| - DIGEST_LENGTH;
      SameUpToNulIff(e.digest(body[..n]), body[n..]);
    }
  }

  function AcceptAll(fs: seq<Frame>, e: Endpoint): seq<Message>
    requires e.Valid()
  {
    if fs == [] then [] else Accept(fs[0], e) + AcceptAll(fs[1..], e)
  }

  lemma {:induction false} AcceptAllAppend(a: seq<Frame>, b: seq<Frame>, e: Endpoint)
    requires e.Valid()
    ensures AcceptAll(a + b, e) == AcceptAll(a, e) + AcceptAll(b, e)
  {
    hide Accept;
    if a == [] {
      assert a + b == b;
    } else {
      AcceptAllAppend(a[1..], b, e);
      assert (a + b)[1..] == a[1..] + b;
    }
  }

  /** What a sender may hand to its session for this peer: fields in range, both ends on the same side of the
      byte-order convention, and a body the compaction guard can never drop. */
  predicate Sendable(m: Message, from: Endpoint) {
    && m.remoteID >= 0 && m.remoteType < MAX_TYPE && m.localType < MAX_TYPE && m.messageType <= SYSTEM_MESSAGE
    && (m.remoteType == 0) == (m.localType == 0)
    && |Seal(m.content, from)| + HEADER_LENGTH <= MAX_SAFE_FRAME
  }

  predicate Addressed(m: Message, to: Endpoint) {
    m.remoteID == to.localID && m.remoteType == to.localType && m.messageType != CONN_MESSAGE
  }

  lemma SendableIsGood(m: Message, from: Endpoint)
    requires Sendable(m, from)
    ensures Good(FrameOf(m, from)) && FrameOf(m, from).Size() <= MAX_SAFE_FRAME
  {
  }

  /** A message addressed to a peer that shares the digest comes out as it went in. */
  lemma SealedRoundTrip(m: Message, from: Endpoint, to: Endpoint)
    requires from.Valid() && to.Valid() && Sendable(m, from)
    requires from.security == to.security && from.digest == to.digest
    ensures Accept(FrameOf(m, from), to) == if Addressed(m, to) then [m] else []
  {
    var f := FrameOf(m, from);
    if to.security {
      assert f.body[..|f.body| - DIGEST_LENGTH] == m.content;
      assert f.body[|f.body| - DIGEST_LENGTH..] == from.digest(m.content);
      SameUpToNulReflexive(from.digest(m.content));
    }
  }

  function FramesOf(ms: seq<Message>, from: Endpoint): (fs: seq<Frame>)
    requires forall m :: m in ms ==> Sendable(m, from)
    ensures |fs| == |ms|
  {
    if ms == [] then [] else
    var last := ms[|ms| - 1];
    assert Sendable(last, from);
    FramesOf(ms[..|ms| - 1], from) + [FrameOf(last, from)]
  }

  lemma {:induction false} FramesGood(ms: seq<Message>, from: Endpoint)
    requires forall m :: m in ms ==> Sendable(m, from)
    ensures forall f :: f in FramesOf(ms, from) ==> Good(f) && f.Size() <= MAX_SAFE_FRAME
  {
    if ms != [] {
      FramesGood(ms[..|ms| - 1], from);
      SendableIsGood(ms[|ms| - 1], from);
    }
  }

  /** Only messages for this peer get through, each exactly as sent. */
  function Intended(ms: seq<Message>, to: Endpoint): seq<Message> {
    if ms == [] then [] else
    Intended(ms[..|ms| - 1], to) + (if Addressed(ms[|ms| - 1], to) then [ms[|ms| - 1]] else [])
  }

  lemma {:induction false} AcceptFrames(ms: seq<Message>, from: Endpoint, to: Endpoint)
    requires from.Valid() && to.Valid() && from.security == to.security && from.digest == to.digest
    requires forall m :: m in ms ==> Sendable(m, from)
    ensures AcceptAll(FramesOf(ms, from), to) == Intended(ms, to)
  {
    hide Accept, FrameOf;
    if ms != [] {
      var last := ms[|ms| - 1];
      AcceptFrames(ms[..|ms| - 1], from, to);
      SealedRoundTrip(last, from, to);
      AcceptAllAppend(FramesOf(ms[..|ms| - 1], from), [FrameOf(last, from)], to);
      assert [FrameOf(last, from)][1..] == [];
      assert AcceptAll([FrameOf(last, from)], to) == Accept(FrameOf(last, from), to);
    }
  }
}
