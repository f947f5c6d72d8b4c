/** The chat protocol's message header (base/include/Header.h, base/src/Header.cc). */
module Headers {
  import opened CppArithmetic
  import opened Endian

  const HEADER_SIZE := 16

  datatype Header = Header(dataLength: int, requestType: int, uid: int, stamp: int) {
    predicate Valid() {
      IsInt32(dataLength) && IsInt32(requestType) && IsInt32(uid) && IsInt32(stamp)
    }
  }

  /** An `int` in memory, least significant byte first. */
  function EncodeInt(x: int): (bytes: seq<byte>)
    ensures |bytes| == 4
  {
    var b := EncodeSigned(x, 4);
    [b[3], b[2], b[1], b[0]]
  }

  function DecodeInt(b: seq<byte>): int
    requires |b| == 4
  {
    DecodeSigned([b[3], b[2], b[1], b[0]])
  }

  lemma IntRoundTrip(x: int)
    requires IsInt32(x)
    ensures DecodeInt(EncodeInt(x)) == x
  {
    var b := EncodeSigned(x, 4);
    assert [b[0], b[1], b[2], b[3]] == b;
    assert Pow256(2) == 65536;
    assert Pow256(4) == 0x1_0000_0000;
    SignedRoundTrip(x, 4);
  }

  /** Four consecutive ints, as `memcpy` of the struct lays them out. */
  function EncodeHeader(h: Header): (bytes: seq<byte>)
    ensures |bytes| == HEADER_SIZE
  {
    EncodeInt(h.dataLength) + EncodeInt(h.requestType) + EncodeInt(h.uid) + EncodeInt(h.stamp)
  }

  function DecodeHeader(b: seq<byte>): Header
    requires |b| == HEADER_SIZE
  {
    Header(DecodeInt(b[0..4]), DecodeInt(b[4..8]), DecodeInt(b[8..12]), DecodeInt(b[12..16]))
  }

  /** Byte `j` of an int, from the least significant one up. */
  function ByteOf(x: int, j: nat): int
    requires j < 4
  {
    (if x < 0 then Pow256(4) + x else x) / Pow256(j) % 256
  }

  lemma IntLayout(x: int, j: nat)
    requires IsInt32(x) && j < 4
    ensures EncodeInt(x)[j] == ByteOf(x, j)
  {
    assert Pow256(2) == 65536;
    assert Pow256(4) == 0x1_0000_0000;
    TwosComplement(x, 4, 3 - j);
  }

  /** Where each byte of the struct lies: four ints, each least significant byte
      first. */
  lemma HeaderLayout(h: Header, j: nat)
    requires h.Valid() && j < 4
    ensures var b := EncodeHeader(h);
            && b[j] == ByteOf(h.dataLength, j) && b[4 + j] == ByteOf(h.requestType, j)
            && b[8 + j] == ByteOf(h.uid, j) && b[12 + j] == ByteOf(h.stamp, j)
  {
    hide EncodeInt, ByteOf;
    IntLayout(h.dataLength, j);
    IntLayout(h.requestType, j);
    IntLayout(h.uid, j);
    IntLayout(h.stamp, j);
  }

  lemma HeaderRoundTrip(h: Header)
    requires h.Valid()
    ensures DecodeHeader(EncodeHeader(h)) == h
  {
    hide EncodeInt;
    var b := EncodeHeader(h);
    assert b[0..4] == EncodeInt(h.dataLength);
    assert b[4..8] == EncodeInt(h.requestType);
    assert b[8..12] == EncodeInt(h.uid);
    assert b[12..16] == EncodeInt(h.stamp);
    hide DecodeInt;
    IntRoundTrip(h.dataLength);
    IntRoundTrip(h.requestType);
    IntRoundTrip(h.uid);
    IntRoundTrip(h.stamp);
  }

  /** A message: the header, its length field set, then the data. */
  function Formatted(header: Header, data: seq<byte>): seq<byte> {
    EncodeHeader(header.(dataLength := |data|)) + data
  }

  /** Writes the message into a fixed buffer, which must be large enough. */
  method FormatMessage(buffer: array<byte>, header: Header, data: seq<byte>) returns (sent: Header, length: nat)
    requires HEADER_SIZE + |data| <= buffer.Length
    modifies buffer
    ensures sent == header.(dataLength := |data|)
    ensures length == HEADER_SIZE + |data| && buffer[..length] == Formatted(header, data)
  {
    hide EncodeHeader;
    sent := header.(dataLength := |data|);
    var head := EncodeHeader(sent);
    forall i | 0 <= i < HEADER_SIZE {
      buffer[i] := head[i];
    }
    forall i | 0 <= i < |data| {
      buffer[HEADER_SIZE + i] := data[i];
    }
    length := HEADER_SIZE + |data|;
    assert buffer[..HEADER_SIZE] == head;
    assert buffer[HEADER_SIZE..length] == data;
    assert buffer[..length] == buffer[..HEADER_SIZE] + buffer[HEADER_SIZE..length];
  }
}
