/** The send-side wrap-around buffer (CommBase/Network/CircleBuffer.h, CircleBuffer.cpp). A packet is always
    stored in one piece: when the tail is too short it is abandoned and writing resumes at offset 0. */
module CircleBuffer {
  import opened Bytes
  import opened PacketHeader

  datatype NetRet =
    | Success | NoEnoughWrite | WriteHeaderErr | WritePacketErr | WriteBuffErr | BuffNull
    | SocketClose | NetError | SockSendErr

  /** CUtil::SafeMemmove: src is the snapshot of the source range, so overlap is harmless, as with memmove. */
  method SafeMemmove(dst: array<byte>, at: nat, dstLen: nat, src: seq<byte>) returns (rc: int)
    requires at + dstLen <= dst.Length
    modifies dst
    ensures rc == if dstLen < |src| then -1 else 0
    ensures rc == 0 ==> dst[..] == old(dst[..at]) + src + old(dst[at + |src|..])
    ensures rc != 0 ==> dst[..] == old(dst[..])
  {
    if dstLen < |src| {
      return -1;
    }
    forall i | 0 <= i < |src| {
      dst[at + i] := src[i];
    }
    return 0;
  }

  /** The four indices, without the bytes. */
  datatype Indices = Indices(read: int, write: int, last: int, cap: int) {
    /** The unread bytes are [read, write) in normal order and [read, last) then [0, write) when wrapped. */
    predicate Valid() {
      0 <= read && 0 <= write && if read <= write then write <= cap && last == cap else read <= last <= cap
    }

    predicate IsNormal() { read <= write }

    function GetReadLen(): int { if IsNormal() then write - read else last - read }

    function GetWriteLen(): int { if IsNormal() then cap - write else read - write - 1 }

    /** After an admitted write of n bytes. */
    function AfterWrite(n: int): Indices {
      var ix := WriteOverAgain(n);
      ix.(write := ix.write + n)
    }

    function WriteOverAgain(n: int): Indices {
      if IsNormal() && GetWriteLen() < n && read > 1 then this.(last := write, write := 0) else this
    }

    function ReadOverAgain(): Indices {
      if !IsNormal() && read >= last then this.(read := 0, last := cap) else this
    }

    /** One whole contiguous range taken off the front. */
    function AfterSend(): Indices {
      var j := ReadOverAgain();
      if j.read == j.write then j else j.(read := if j.IsNormal() then j.write else j.last)
    }

    /** The room a write of n bytes needs, in terms of the indices before the call. */
    predicate Admits(n: int) {
      if IsNormal() then n <= cap - write || (read > 1 && n <= read - 1) else n <= read - write - 1
    }

    function GetLeftBuffSize(): int { if IsNormal() then write - read else last - read + write }

    function Contents(mem: seq<byte>): (s: seq<byte>)
      requires Valid() && |mem| == cap
      ensures |s| == GetLeftBuffSize() && 0 <= GetReadLen() <= |s|
    {
      if IsNormal() then mem[read..write] else mem[read..last] + mem[..write]
    }
  }

  /** A refused write may already have wrapped the write index. It never makes room, and it costs room exactly
      when the abandoned tail was the larger gap. */
  lemma RefusalOnlyShrinks(ix: Indices, n: nat)
    requires ix.Valid() && !ix.Admits(n)
    ensures var after := ix.WriteOverAgain(n);
            && (forall m: nat :: after.Admits(m) ==> ix.Admits(m))
            && ((forall m: nat :: ix.Admits(m) ==> after.Admits(m))
                <==> !ix.IsNormal() || ix.read <= 1 || ix.cap - ix.write <= ix.read - 1)
  {
    var after := ix.WriteOverAgain(n);
    var tail := ix.cap - ix.write;
    if ix.IsNormal() && ix.read > 1 && tail > ix.read - 1 {
      assert ix.Admits(tail) && !after.Admits(tail);
    }
  }

  /** The byte at this place has been written and not yet read. */
  predicate Unread(ix: Indices, i: int) {
    if ix.IsNormal() then ix.read <= i < ix.write else ix.read <= i < ix.last || 0 <= i < ix.write
  }

  /** n bytes from a place on are free, in one piece, and short of the read position if they lie before it. */
  ghost predicate FreeFrom(ix: Indices, at: int, n: nat) {
    at + n <= ix.cap && (forall i :: at <= i < at + n ==> !Unread(ix, i)) && (at < ix.read ==> at + n < ix.read)
  }

  /** A write is admitted exactly when there is room for it in one piece, where writing goes on or at the front. */
  lemma AdmitsIff(ix: Indices, n: nat)
    requires ix.Valid()
    ensures ix.Admits(n) <==> FreeFrom(ix, ix.write, n) || FreeFrom(ix, 0, n)
  {
    assert n > 0 && FreeFrom(ix, 0, n) ==> !Unread(ix, 0);
  }

  /** Bytes put down in the free gap leave the unread bytes alone. */
  lemma GapWrite(ix: Indices, before: seq<byte>, data: seq<byte>, after: seq<byte>)
    requires ix.Valid() && |before| == ix.cap && |data| <= ix.GetWriteLen()
    requires after == before[..ix.write] + data + before[ix.write + |data|..]
    ensures |after| == ix.cap && after[ix.write..ix.write + |data|] == data
    ensures ix.Contents(after) == ix.Contents(before)
  {
    if ix.IsNormal() {
      assert after[ix.read..ix.write] == before[ix.read..ix.write];
    } else {
      assert after[ix.read..ix.last] == before[ix.read..ix.last];
      assert after[..ix.write] == before[..ix.write];
    }
  }

  lemma TwoMoves(before: seq<byte>, at: nat, a: seq<byte>, b: seq<byte>, mid: seq<byte>, after: seq<byte>)
    requires at + |a| + |b| <= |before|
    requires mid == before[..at] + a + before[at + |a|..]
    requires after == mid[..at + |a|] + b + mid[at + |a| + |b|..]
    ensures after == before[..at] + (a + b) + before[at + |a + b|..]
  {
    assert mid[..at + |a|] == before[..at] + a;
    assert mid[at + |a| + |b|..] == before[at + |a| + |b|..];
  }

  method MovePacket(dst: array<byte>, at: nat, spaceLen: nat, pHead: seq<byte>, strBuff: seq<byte>) returns (rc: NetRet)
    requires at + spaceLen <= dst.Length && |pHead| + |strBuff| <= spaceLen
    modifies dst
    ensures rc == Success
    ensures dst[..] == old(dst[..at]) + (pHead + strBuff) + old(dst[at + |pHead + strBuff|..])
  {
    ghost var before := dst[..];
    var moved := SafeMemmove(dst, at, spaceLen, pHead);
    if moved != 0 {
      return WriteHeaderErr;
    }
    ghost var mid := dst[..];
    moved := SafeMemmove(dst, at + |pHead|, spaceLen - |pHead|, strBuff);
    if moved != 0 {
      return WritePacketErr;
    }
    TwoMoves(before, at, pHead, strBuff, mid, dst[..]);
    return Success;
  }

  class CCircleBuff {
    var m_readIndex: int
    var m_writeIndex: int
    var m_lastIndex: int
    var m_bufCapacity: int
    var m_buffer: array<byte>

    ghost function Ix(): Indices
      reads this
    {
      Indices(m_readIndex, m_writeIndex, m_lastIndex, m_bufCapacity)
    }

    ghost predicate Valid()
      reads this
    {
      m_buffer.Length == m_bufCapacity && Ix().Valid()
    }

    /** The bytes accepted and not yet read. */
    ghost function Contents(): seq<byte>
      reads this, m_buffer
      requires Valid()
    {
      Ix().Contents(m_buffer[..])
    }

    constructor (buffSize: nat)
      ensures Valid() && Contents() == [] && m_bufCapacity == buffSize && fresh(m_buffer)
    {
      m_bufCapacity := buffSize;
      m_buffer := new byte[buffSize];
      m_readIndex, m_writeIndex, m_lastIndex := 0, 0, buffSize;
    }

    /** Reallocates and forgets everything unread. */
    method ResetSize(buffSize: nat)
      modifies this
      ensures Valid() && Contents() == [] && m_bufCapacity == buffSize && fresh(m_buffer)
    {
      m_bufCapacity := buffSize;
      m_buffer := new byte[buffSize];
      m_readIndex, m_writeIndex, m_lastIndex := 0, 0, buffSize;
    }

    /** The range just below the write index holds data in one piece. */
    ghost predicate EndsWith(data: seq<byte>)
      reads this, m_buffer
    {
      |data| <= m_writeIndex <= m_buffer.Length && m_buffer[m_writeIndex - |data|..m_writeIndex] == data
    }

    /** The source's emptiness test misses one empty state: wrapped, tail read to its end, nothing at the front. */
    predicate IsEmpty()
      reads this
    {
      m_readIndex == m_writeIndex
    }

    method IsWriteOverAgain(writeLen: int)
      requires Valid()
      modifies this
      ensures m_buffer == old(m_buffer) && Ix() == old(Ix().WriteOverAgain(writeLen))
      ensures Valid() && Contents() == old(Contents())
    {
      if m_readIndex > m_writeIndex {
        return;
      }
      if m_bufCapacity - m_writeIndex < writeLen && m_readIndex > 1 && m_readIndex <= m_writeIndex {
        m_lastIndex := m_writeIndex;
        m_writeIndex := 0;
      }
    }

    method IsReadOverAgain()
      requires Valid()
      modifies this
      ensures m_buffer == old(m_buffer) && Ix() == old(Ix().ReadOverAgain())
      ensures Valid() && Contents() == old(Contents())
    {
      if m_readIndex <= m_writeIndex {
        return;
      }
      if m_readIndex >= m_lastIndex {
        m_readIndex := 0;
        m_lastIndex := m_bufCapacity;
      }
    }

    function GetWriteLen(): int
      reads this
    {
      if m_readIndex <= m_writeIndex then m_bufCapacity - m_writeIndex else m_readIndex - m_writeIndex - 1
    }

    method HadWrite(writeLen: int)
      requires Valid()
      modifies this
      ensures m_buffer == old(m_buffer) && Ix() == old(Ix().(write := m_writeIndex + writeLen))
      ensures 0 <= writeLen <= old(GetWriteLen()) ==>
                Valid() && Contents() == old(Contents() + m_buffer[m_writeIndex..m_writeIndex + writeLen])
    {
      m_writeIndex := m_writeIndex + writeLen;
    }

    /** Takes readLen bytes off the front. */
    method HadRead(readLen: int)
      requires Valid()
      modifies this
      ensures m_buffer == old(m_buffer) && Ix() == old(Ix().(read := m_readIndex + readLen))
      ensures 0 <= readLen <= old(Ix().GetReadLen()) ==> Valid() && Contents() == old(Contents()[readLen..])
    {
      m_readIndex := m_readIndex + readLen;
    }

    /** Appends header and body as one contiguous range, or changes nothing but the write position. */
    method WriteData(strBuff: seq<byte>, pHead: seq<byte>) returns (rc: NetRet)
      requires Valid()
      modifies this, m_buffer
      ensures Valid() && m_buffer == old(m_buffer) && m_bufCapacity == old(m_bufCapacity)
      ensures rc == if old(Ix().Admits(|pHead| + |strBuff|)) then Success else NoEnoughWrite
      ensures rc.Success? ==> Contents() == old(Contents()) + (pHead + strBuff) && EndsWith(pHead + strBuff)
      ensures rc.Success? ==> Ix() == old(Ix().AfterWrite(|pHead| + |strBuff|))
      ensures !rc.Success? ==> Contents() == old(Contents()) && Ix() == old(Ix().WriteOverAgain(|pHead| + |strBuff|))
    {
      hide Indices.Contents;
      var writeLen := |strBuff| + |pHead|;
      IsWriteOverAgain(writeLen);
      var spaceLen := GetWriteLen();
      if spaceLen < writeLen {
        return NoEnoughWrite;
      }
      ghost var before := m_buffer[..];
      rc := MovePacket(m_buffer, m_writeIndex, spaceLen, pHead, strBuff);
      if rc.Success? {
        GapWrite(Ix(), before, pHead + strBuff, m_buffer[..]);
        HadWrite(writeLen);
      }
    }

    /** Appends a prepared header and as much of the content as the header announces. */
    method WriteSend(strBuff: seq<byte>, gh: Header) returns (rc: NetRet)
      requires Valid()
      requires 0 <= AnnouncedLength(gh) <= |strBuff|
      modifies this, m_buffer
      ensures Valid() && m_buffer == old(m_buffer) && m_bufCapacity == old(m_bufCapacity)
      ensures rc == if old(Ix().Admits(HEADER_LENGTH + AnnouncedLength(gh))) then Success else NoEnoughWrite
      ensures var packet := Image(gh) + strBuff[..AnnouncedLength(gh)];
              if rc.Success? then
                && Contents() == old(Contents()) + packet && EndsWith(packet)
                && Ix() == old(Ix().AfterWrite(HEADER_LENGTH + AnnouncedLength(gh)))
              else
                && Contents() == old(Contents())
                && Ix() == old(Ix().WriteOverAgain(HEADER_LENGTH + AnnouncedLength(gh)))
    {
      var len := gh.length;
      if gh.remoteType <= 0 {
        len := Swap32(gh.length);
      }
      rc := WriteData(strBuff[..len], Image(gh));
    }

    method WriteBuffer(strBuff: seq<byte>) returns (rc: NetRet)
      requires Valid()
      modifies this, m_buffer
      ensures Valid() && m_buffer == old(m_buffer) && m_bufCapacity == old(m_bufCapacity)
      ensures rc == if old(Ix().Admits(|strBuff|)) then Success else NoEnoughWrite
      ensures rc.Success? ==> Contents() == old(Contents()) + strBuff && EndsWith(strBuff)
      ensures rc.Success? ==> Ix() == old(Ix().AfterWrite(|strBuff|))
      ensures !rc.Success? ==> Contents() == old(Contents()) && Ix() == old(Ix().WriteOverAgain(|strBuff|))
    {
      hide Indices.Contents;
      IsWriteOverAgain(|strBuff|);
      var spaceLen := GetWriteLen();
      if spaceLen < |strBuff| {
        return NoEnoughWrite;
      }
      ghost var before := m_buffer[..];
      var at := m_writeIndex;
      var moved := SafeMemmove(m_buffer, at, spaceLen, strBuff);
      if moved != 0 {
        return WriteBuffErr;
      }
      GapWrite(Ix(), before, strBuff, m_buffer[..]);
      HadWrite(|strBuff|);
      return Success;
    }

    /** The next contiguous range to send, as an offset and a length. */
    method ReadSendBuff() returns (rc: NetRet, from: nat, len: nat)
      requires Valid()
      modifies this
      ensures Valid() && m_buffer == old(m_buffer) && Contents() == old(Contents())
      ensures Ix() == old(Ix().ReadOverAgain())
      ensures rc == if old(Contents()) == [] then BuffNull else Success
      ensures rc.Success? ==> 0 < len == Ix().GetReadLen() && from == m_readIndex
                              && m_buffer[from..from + len] == Contents()[..len]
    {
      IsReadOverAgain();
      if IsEmpty() {
        return BuffNull, 0, 0;
      }
      return Success, m_readIndex,
        if m_readIndex <= m_writeIndex then m_writeIndex - m_readIndex else m_lastIndex - m_readIndex;
    }
  }
}
