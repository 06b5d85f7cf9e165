/** The packed 26-byte message header and its byte-order conversions (CommBase/Network/NetWorkConfig.h). */
module PacketHeader {
  import opened Bytes

  const HEADER_LENGTH := 26
  const MAX_TYPE := 9  // eMax
  const SYSTEM_MESSAGE := 4  // SystemMessage, the largest message type

  datatype Header = Header(
    length: int32, security: bool, remoteType: byte, remoteID: int16, localType: byte,
    messageID: uint32, messageType: byte, reqID: int32, sendTime: uint64)

  function SwapFields(h: Header): Header {
    h.(length := Swap32(h.length), remoteID := Swap16(h.remoteID), messageID := SwapU32(h.messageID),
       reqID := Swap32(h.reqID), sendTime := SwapU64(h.sendTime))
  }

  /** sHeader::toSmallEndian, run by the sender: only a message bound for a client is swapped. */
  function ToSmallEndian(h: Header): Header {
    if h.remoteType > 0 then h else SwapFields(h)
  }

  /** sHeader::toBigEndian, run by the receiver: only a message from a client is swapped. */
  function ToBigEndian(h: Header): Header {
    if h.localType > 0 then h else SwapFields(h)
  }

  /** The in-memory image of the packed struct. */
  function Image(h: Header): (s: seq<byte>)
    ensures |s| == HEADER_LENGTH
  {
    LE(Unsigned32(h.length), 4) + [if h.security then 1 else 0] + [h.remoteType] + LE(Unsigned16(h.remoteID), 2)
    + [h.localType] + LE(h.messageID, 4) + [h.messageType] + LE(Unsigned32(h.reqID), 4) + LE(h.sendTime, 8)
  }

  function FromImage(s: seq<byte>): (h: Header)
    requires |s| == HEADER_LENGTH
  {
    Widths();
    Header(Signed32(FromLE(s[0..4])), s[4] != 0, s[5], Signed16(FromLE(s[6..8])), s[8],
           FromLE(s[9..13]), s[13], Signed32(FromLE(s[14..18])), FromLE(s[18..26]))
  }

  /** What goes on the wire, and what the peer makes of it. */
  function Encode(h: Header): (s: seq<byte>)
    ensures |s| == HEADER_LENGTH
  {
    Image(ToSmallEndian(h))
  }

  function Decode(s: seq<byte>): Header
    requires |s| == HEADER_LENGTH
  {
    ToBigEndian(FromImage(s))
  }

  /** The body length a prepared header announces: a header bound for a client carries it swapped. */
  function AnnouncedLength(gh: Header): int32 {
    if gh.remoteType <= 0 then Swap32(gh.length) else gh.length
  }

  lemma AnnouncedIsLength(h: Header)
    ensures AnnouncedLength(ToSmallEndian(h)) == h.length
  {
    SwapFieldsTwice(h);
  }

  lemma ImageRoundTrip(h: Header)
    ensures FromImage(Image(h)) == h
  {
    var s := Image(h);
    Widths();
    assert s[0..4] == LE(Unsigned32(h.length), 4);
    assert s[6..8] == LE(Unsigned16(h.remoteID), 2);
    assert s[9..13] == LE(h.messageID, 4);
    assert s[14..18] == LE(Unsigned32(h.reqID), 4);
    assert s[18..26] == LE(h.sendTime, 8);
    LERoundTrip(Unsigned32(h.length), 4);
    LERoundTrip(Unsigned16(h.remoteID), 2);
    LERoundTrip(h.messageID, 4);
    LERoundTrip(Unsigned32(h.reqID), 4);
    LERoundTrip(h.sendTime, 8);
  }

  lemma SwapFieldsTwice(h: Header)
    ensures SwapFields(SwapFields(h)) == h
  {
    hide Swap16, Swap32;
    Widths();
    Swap32Twice(h.length);
    Swap16Twice(h.remoteID);
    SwapTwice(h.messageID, 4);
    Swap32Twice(h.reqID);
    SwapTwice(h.sendTime, 8);
  }

  /** Where each field of a header stands in 26 bytes, and how. */
  ghost predicate Carries(s: seq<byte>, h: Header, bigEndian: bool)
    requires |s| >= HEADER_LENGTH
  {
    && Digits(s, 0, h.length % 0x1_0000_0000, 4, bigEndian)
    && (s[4] != 0 <==> h.security)
    && s[5] == h.remoteType
    && Digits(s, 6, h.remoteID % 0x1_0000, 2, bigEndian)
    && s[8] == h.localType
    && Digits(s, 9, h.messageID, 4, bigEndian)
    && s[13] == h.messageType
    && Digits(s, 14, h.reqID % 0x1_0000_0000, 4, bigEndian)
    && Digits(s, 18, h.sendTime, 8, bigEndian)
  }

  /** A header bound for a client goes out with its most significant bytes first, any other as it stands in memory. */
  lemma EncodeCarries(h: Header)
    ensures Carries(Encode(h), h, h.remoteType == 0) && Encode(h)[4] <= 1
  {
    ImageFields(ToSmallEndian(h));
    Fields(Encode(h), h, h.remoteType == 0);
  }

  /** The receiver reads a header from a client, by what it says, most significant byte first. */
  lemma DecodeCarries(s: seq<byte>)
    requires |s| == HEADER_LENGTH
    ensures Carries(s, Decode(s), Decode(s).localType == 0)
  {
    hide Holds, FromImage, SwapFields;
    var h := FromImage(s);
    FromImageFields(s);
    SwapFieldsTwice(h);
    SwapKeepsTypes(h);
    Fields(s, Decode(s), h.localType == 0);
  }

  /** The bytes leave no choice of header. */
  lemma CarriesUnique(s: seq<byte>, h: Header, h': Header, bigEndian: bool)
    requires |s| >= HEADER_LENGTH && Carries(s, h, bigEndian) && Carries(s, h', bigEndian)
    ensures h == h'
  {
    hide Digits, Pow256;
    Widths();
    DigitsUnique(s, 0, h.length % 0x1_0000_0000, h'.length % 0x1_0000_0000, 4, bigEndian);
    DigitsUnique(s, 6, h.remoteID % 0x1_0000, h'.remoteID % 0x1_0000, 2, bigEndian);
    DigitsUnique(s, 9, h.messageID, h'.messageID, 4, bigEndian);
    DigitsUnique(s, 14, h.reqID % 0x1_0000_0000, h'.reqID % 0x1_0000_0000, 4, bigEndian);
    DigitsUnique(s, 18, h.sendTime, h'.sendTime, 8, bigEndian);
  }

  /** The image holds each field where the packed struct has it. */
  ghost predicate Holds(s: seq<byte>, h: Header)
    requires |s| == HEADER_LENGTH
  {
    && s[0..4] == LE(Unsigned32(h.length), 4) && (s[4] != 0 <==> h.security) && s[5] == h.remoteType
    && s[6..8] == LE(Unsigned16(h.remoteID), 2) && s[8] == h.localType && s[9..13] == LE(h.messageID, 4)
    && s[13] == h.messageType && s[14..18] == LE(Unsigned32(h.reqID), 4) && s[18..26] == LE(h.sendTime, 8)
  }

  lemma ImageFields(h: Header)
    ensures Holds(Image(h), h)
  {
  }

  lemma FromImageFields(s: seq<byte>)
    requires |s| == HEADER_LENGTH
    ensures Holds(s, FromImage(s))
  {
    hide LE, FromLE, Pow256;
    Widths();
    FromLERoundTrip(s[0..4]);
    FromLERoundTrip(s[6..8]);
    FromLERoundTrip(s[9..13]);
    FromLERoundTrip(s[14..18]);
    FromLERoundTrip(s[18..26]);
  }

  lemma UnsignedIs(h: Header)
    ensures Unsigned32(h.length) == h.length % 0x1_0000_0000 && Unsigned32(h.reqID) == h.reqID % 0x1_0000_0000
    ensures Unsigned16(h.remoteID) == h.remoteID % 0x1_0000
  {
  }

  lemma UnsignedSwap(h: Header)
    ensures Unsigned32(SwapFields(h).length) == Swap(Unsigned32(h.length), 4)
    ensures Unsigned16(SwapFields(h).remoteID) == Swap(Unsigned16(h.remoteID), 2)
    ensures Unsigned32(SwapFields(h).reqID) == Swap(Unsigned32(h.reqID), 4)
  {
    hide Swap;
    Widths();
  }

  lemma Fields(s: seq<byte>, h: Header, swapped: bool)
    requires |s| == HEADER_LENGTH && Holds(s, if swapped then SwapFields(h) else h)
    ensures Carries(s, h, swapped)
  {
    hide Digits, Swap, LE, Pow256;
    UnsignedIs(h);
    if swapped {
      UnsignedSwap(h);
      SwapDigits(s, 0, Unsigned32(h.length), 4);
      SwapDigits(s, 6, Unsigned16(h.remoteID), 2);
      SwapDigits(s, 9, h.messageID, 4);
      SwapDigits(s, 14, Unsigned32(h.reqID), 4);
      SwapDigits(s, 18, h.sendTime, 8);
    } else {
      LEDigits(s, 0, Unsigned32(h.length), 4);
      LEDigits(s, 6, Unsigned16(h.remoteID), 2);
      LEDigits(s, 9, h.messageID, 4);
      LEDigits(s, 14, Unsigned32(h.reqID), 4);
      LEDigits(s, 18, h.sendTime, 8);
    }
  }

  /** The two ends agree on whether to swap. */
  predicate SameSide(h: Header) {
    (h.remoteType == 0) == (h.localType == 0)
  }

  /** The header survives the wire exactly when the ends agree, or swapping happens to change nothing. */
  lemma EncodeDecode(h: Header)
    ensures Decode(Encode(h)) == (if SameSide(h) then h else SwapFields(h))
    ensures Decode(Encode(h)) == h <==> SameSide(h) || SwapFields(h) == h
  {
    ImageRoundTrip(ToSmallEndian(h));
    SwapFieldsTwice(h);
    SwapKeepsTypes(h);
    hide Image, FromImage, SwapFields;
  }

  lemma SwapKeepsTypes(h: Header)
    ensures SwapFields(h).remoteType == h.remoteType && SwapFields(h).localType == h.localType
  {
  }

  /** A concrete header from a server to a client that a peer running this code would misread. */
  lemma MixedSidesMisread()
    ensures var h := Header(1, false, 0, 0, 1, 0, 1, 0, 0);
            Decode(Encode(h)) != h && Decode(Encode(h)).length == 0x100_0000
  {
    var h := Header(1, false, 0, 0, 1, 0, 1, 0, 0);
    EncodeDecode(h);
    SwapOne();
  }
}
