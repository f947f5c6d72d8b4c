/** The sliding byte buffer (muduo/net/Buffer.h, Buffer.cc).

      0  <=  readerIndex  <=  writerIndex  <=  storage.Length

    `Content()` is what a client sees; every method is proved to do to it what
    the same operation does to a plain byte sequence.
 */
module Buffers {
  import opened Endian

  const CHEAP_PREPEND: nat := 8
  const INITIAL_SIZE: nat := 1024
  const EXTRA_SIZE: nat := 65536

  /** Outcome of one scatter read. */
  datatype ReadResult = Received(bytes: seq<byte>) | ReadError(errno: int)

  class Buffer {
    var storage: array<byte>
    var readerIndex: nat
    var writerIndex: nat

    ghost predicate Valid()
      reads this
    {
      readerIndex <= writerIndex <= storage.Length && CHEAP_PREPEND <= storage.Length
    }

    ghost function Content(): seq<byte>
      requires Valid()
      reads this, storage
    {
      storage[readerIndex..writerIndex]
    }

    constructor (initialSize: nat := INITIAL_SIZE)
      ensures Valid() && fresh(storage)
      ensures Content() == [] && WritableBytes() == initialSize && PrependableBytes() == CHEAP_PREPEND
    {
      storage := new byte[CHEAP_PREPEND + initialSize](_ => 0);
      readerIndex := CHEAP_PREPEND;
      writerIndex := CHEAP_PREPEND;
    }

    function ReadableBytes(): (n: nat)
      requires Valid()
      reads this, storage
      ensures n == |Content()|
    {
      writerIndex - readerIndex
    }

    function WritableBytes(): nat
      requires Valid()
      reads this
    {
      storage.Length - writerIndex
    }

    function PrependableBytes(): nat
      reads this
    {
      readerIndex
    }

    /** The first `len` readable bytes. */
    function Peek(len: nat): (bytes: seq<byte>)
      requires Valid() && len <= ReadableBytes()
      reads this, storage
      ensures bytes == Content()[..len]
    {
      storage[readerIndex..readerIndex + len]
    }

    method RetrieveAll()
      requires Valid()
      modifies this
      ensures Valid() && Content() == [] && PrependableBytes() == CHEAP_PREPEND
      ensures storage == old(storage)
    {
      readerIndex := CHEAP_PREPEND;
      writerIndex := CHEAP_PREPEND;
    }

    method Retrieve(len: nat)
      requires Valid() && len <= ReadableBytes()
      modifies this
      ensures Valid() && Content() == old(Content())[len..]
      ensures storage == old(storage)
      ensures Content() == [] ==> PrependableBytes() == CHEAP_PREPEND
      ensures Content() != [] ==> PrependableBytes() == old(PrependableBytes()) + len
    {
      if len < ReadableBytes() {
        readerIndex := readerIndex + len;
      } else {
        RetrieveAll();
      }
    }

    method RetrieveAsString(len: nat) returns (result: seq<byte>)
      requires Valid() && len <= ReadableBytes()
      modifies this
      ensures Valid() && result + Content() == old(Content()) && |result| == len
      ensures storage == old(storage)
      ensures Content() == [] ==> PrependableBytes() == CHEAP_PREPEND
    {
      result := Peek(len);
      Retrieve(len);
    }

    /** Whether the free bytes before and after the content are enough, 8 of them
        staying before it. */
    predicate HasRoom(len: nat)
      requires Valid()
      reads this
    {
      len + CHEAP_PREPEND <= storage.Length - (writerIndex - readerIndex)
    }

    /** Slide the content down over its own old place when that makes enough room;
        grow only when it does not, and then by no more than what is asked for. */
    method MakeSpace(len: nat)
      requires Valid() && WritableBytes() < len
      modifies this, storage
      ensures Valid() && Content() == old(Content()) && WritableBytes() >= len
      ensures if old(HasRoom(len)) then storage == old(storage) && PrependableBytes() == CHEAP_PREPEND
              else fresh(storage) && WritableBytes() == len && PrependableBytes() == old(PrependableBytes())
      ensures old(HasRoom(len)) ==> CHEAP_PREPEND < old(PrependableBytes())
    {
      if WritableBytes() + PrependableBytes() < len + CHEAP_PREPEND {
        storage := Resized(storage, writerIndex + len);
      } else {
        assert CHEAP_PREPEND < readerIndex;
        var readable := ReadableBytes();
        CopyDown(storage, readerIndex, CHEAP_PREPEND, readable);
        readerIndex := CHEAP_PREPEND;
        writerIndex := readerIndex + readable;
      }
    }

    method EnsureWritableBytes(len: nat)
      requires Valid()
      modifies this, storage
      ensures Valid() && Content() == old(Content()) && WritableBytes() >= len
      ensures storage == old(storage) || fresh(storage)
      ensures PrependableBytes() == old(PrependableBytes()) ||
              PrependableBytes() == CHEAP_PREPEND < old(PrependableBytes())
      ensures old(WritableBytes()) >= len ==>
                storage == old(storage) && readerIndex == old(readerIndex) && writerIndex == old(writerIndex)
      ensures writerIndex - readerIndex == old(writerIndex - readerIndex)
      ensures storage == old(storage) <==> old(WritableBytes() >= len || HasRoom(len))
      ensures storage != old(storage) ==> WritableBytes() == len
    {
      if WritableBytes() < len {
        MakeSpace(len);
      }
    }

    /** Into the writable bytes, without making space. */
    method WriteAtEnd(data: seq<byte>)
      requires Valid() && |data| <= WritableBytes()
      modifies this`writerIndex, storage
      ensures Valid() && Content() == old(Content()) + data
      ensures writerIndex == old(writerIndex) + |data|
    {
      ghost var was, w := Content(), writerIndex;
      CopyInto(storage, writerIndex, data);
      writerIndex := writerIndex + |data|;
      assert storage[readerIndex..w] == was;
      assert Content() == storage[readerIndex..w] + storage[w..writerIndex];
    }

    method Append(data: seq<byte>)
      requires Valid()
      modifies this, storage
      ensures Valid() && Content() == old(Content()) + data
      ensures storage == old(storage) || fresh(storage)
      ensures PrependableBytes() == old(PrependableBytes()) ||
              PrependableBytes() == CHEAP_PREPEND < old(PrependableBytes())
      ensures old(WritableBytes()) >= |data| ==>
                storage == old(storage) && WritableBytes() == old(WritableBytes()) - |data| &&
                PrependableBytes() == old(PrependableBytes())
      ensures storage == old(storage) <==> old(WritableBytes() >= |data| || HasRoom(|data|))
    {
      EnsureWritableBytes(|data|);
      WriteAtEnd(data);
    }

    method Unwrite(len: nat)
      requires Valid() && len <= ReadableBytes()
      modifies this
      ensures Valid() && Content() == old(Content())[..|old(Content())| - len]
      ensures storage == old(storage) && PrependableBytes() == old(PrependableBytes())
    {
      writerIndex := writerIndex - len;
    }

    method Prepend(data: seq<byte>)
      requires Valid() && |data| <= PrependableBytes()
      modifies this, storage
      ensures Valid() && Content() == data + old(Content())
      ensures storage == old(storage) && PrependableBytes() == old(PrependableBytes()) - |data|
    {
      readerIndex := readerIndex - |data|;
      CopyInto(storage, readerIndex, data);
      assert storage[readerIndex + |data|..writerIndex] == old(Content());
    }

    method Swap(rhs: Buffer)
      requires Valid() && rhs.Valid()
      modifies this, rhs
      ensures Valid() && rhs.Valid()
      ensures storage == old(rhs.storage) && rhs.storage == old(storage)
      ensures readerIndex == old(rhs.readerIndex) && writerIndex == old(rhs.writerIndex)
      ensures rhs.readerIndex == old(readerIndex) && rhs.writerIndex == old(writerIndex)
    {
      storage, rhs.storage := rhs.storage, storage;
      readerIndex, rhs.readerIndex := rhs.readerIndex, readerIndex;
      writerIndex, rhs.writerIndex := rhs.writerIndex, writerIndex;
    }

    method Shrink(reserve: nat)
      requires Valid()
      modifies this
      ensures Valid() && Content() == old(Content()) && WritableBytes() >= reserve
      ensures fresh(storage) && PrependableBytes() == CHEAP_PREPEND
      ensures storage.Length == CHEAP_PREPEND + if old(ReadableBytes()) + reserve <= INITIAL_SIZE then INITIAL_SIZE
                                                else old(ReadableBytes()) + reserve
    {
      var other := new Buffer();
      other.EnsureWritableBytes(ReadableBytes() + reserve);
      other.Append(Peek(ReadableBytes()));
      Swap(other);
    }

    /** Bytes beyond the writable part land in a second area and are appended. */
    method ReadFd(result: ReadResult) returns (n: int, savedErrno: int)
      requires Valid()
      requires result.Received? ==>
                 |result.bytes| <= WritableBytes() + if WritableBytes() < EXTRA_SIZE then EXTRA_SIZE else 0
      modifies this, storage
      ensures Valid()
      ensures storage == old(storage) || fresh(storage)
      ensures result.Received? && |result.bytes| <= old(WritableBytes()) ==> storage == old(storage)
      ensures match result
              case Received(bytes) => n == |bytes| && Content() == old(Content()) + bytes
              case ReadError(errno) => n == -1 && savedErrno == errno && Content() == old(Content())
    {
      hide Content;
      savedErrno := 0;
      var writable := WritableBytes();
      match result
      case ReadError(errno) =>
        n := -1;
        savedErrno := errno;
      case Received(bytes) =>
        n := |bytes|;
        if n <= writable {
          WriteAtEnd(bytes);
        } else {
          ghost var was := Content();
          var extrabuf := bytes[writable..];
          WriteAtEnd(bytes[..writable]);
          Append(extrabuf);
          assert was + bytes[..writable] + extrabuf == was + bytes;
        }
    }

    // ------------------------------------------- integers in network order

    method AppendInt(x: int, size: nat)
      requires Valid()
      modifies this, storage
      ensures Valid() && Content() == old(Content()) + EncodeSigned(x, size)
      ensures storage == old(storage) || fresh(storage)
      ensures PrependableBytes() == old(PrependableBytes()) ||
              PrependableBytes() == CHEAP_PREPEND < old(PrependableBytes())
    {
      Append(EncodeSigned(x, size));
    }

    method PrependInt(x: int, size: nat)
      requires Valid() && size <= PrependableBytes()
      modifies this, storage
      ensures Valid() && Content() == EncodeSigned(x, size) + old(Content())
      ensures storage == old(storage)
    {
      Prepend(EncodeSigned(x, size));
    }

    function PeekInt(size: nat): (x: int)
      requires Valid() && size <= ReadableBytes()
      reads this, storage
      ensures x == DecodeSigned(Content()[..size])
    {
      DecodeSigned(Peek(size))
    }

    /** Reading undoes an append at the other end. */
    method ReadInt(size: nat) returns (x: int)
      requires Valid() && 0 < size <= ReadableBytes()
      modifies this
      ensures Valid() && IsSigned(x, size)
      ensures EncodeSigned(x, size) + Content() == old(Content())
      ensures storage == old(storage)
    {
      x := PeekInt(size);
      SignedRoundTripBack(Peek(size));
      Retrieve(size);
    }
  }

  /** A longer vector with the same elements, zeros after them. */
  method Resized(a: array<byte>, length: nat) returns (r: array<byte>)
    requires a.Length <= length
    ensures fresh(r) && r.Length == length
    ensures r[..a.Length] == a[..]
  {
    r := new byte[length](_ => 0);
    CopyInto(r, 0, a[..]);
  }

  /** Front-to-back copy onto an earlier, possibly overlapping, place. */
  method CopyDown(a: array<byte>, from: nat, to: nat, len: nat)
    requires to <= from && from + len <= a.Length
    modifies a
    ensures a[to..to + len] == old(a[from..from + len])
  {
    ghost var was := a[..];
    for k := 0 to len
      invariant forall i :: to <= i < to + k ==> a[i] == was[i + from - to]
      invariant forall i :: from + k <= i < a.Length ==> a[i] == was[i]
    {
      a[to + k] := a[from + k];
    }
    assert a[to..to + len] == was[from..from + len];
  }

  method CopyInto(a: array<byte>, start: nat, data: seq<byte>)
    requires start + |data| <= a.Length
    modifies a
    ensures a[start..start + |data|] == data
    ensures forall i :: 0 <= i < a.Length && !(start <= i < start + |data|) ==> a[i] == old(a[i])
  {
    forall i | 0 <= i < |data| {
      a[start + i] := data[i];
    }
  }
}
