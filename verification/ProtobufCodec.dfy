/** Length-prefixed frames (muduo/net/protobuf/ProtobufCodecLite.h, .cc).

      size (4)  tag (M)  payload (N)  checksum (4)      size == M + N + 4
 */
module ProtobufCodec {
  import opened Wrappers
  import opened CppArithmetic
  import opened Endian
  import opened Buffers
  import opened Chunks
  import Adler32

  const HEADER_LEN := 4
  const CHECKSUM_LEN := 4
  const MAX_MESSAGE_LEN := 64 * 1024 * 1024

  datatype ErrorCode = NoError | InvalidLength | CheckSumError | InvalidNameLen | UnknownMessageType | ParseError

  /** The tag and the functions that the code generator and the user supply. */
  datatype Codec<!M(!new)> = Codec(
    tag: seq<byte>,
    serialize: M -> seq<byte>,
    parseFrom: seq<byte> -> Option<M>,
    rawAccepts: seq<byte> -> bool)
  {
    ghost predicate IsInverse() {
      forall m :: parseFrom(serialize(m)) == Some(m)
    }

    function MinMessageLen(): nat {
      |tag| + CHECKSUM_LEN
    }
  }

  datatype Parsed<+M> = Good(message: M) | Bad(error: ErrorCode)

  function ChecksumField(bytes: seq<byte>): (field: seq<byte>)
    ensures |field| == CHECKSUM_LEN
  {
    EncodeSigned(ToInt32(Adler32.Checksum(bytes)), CHECKSUM_LEN)
  }

  function Framed(body: seq<byte>): seq<byte> {
    var whole := body + ChecksumField(body);
    EncodeSigned(ToInt32(|whole|), HEADER_LEN) + whole
  }

  function Frame<M(!new)>(codec: Codec<M>, m: M): seq<byte> {
    Framed(codec.tag + codec.serialize(m))
  }

  predicate ValidateChecksum(buf: seq<byte>)
    requires |buf| >= CHECKSUM_LEN
  {
    var n := |buf| - CHECKSUM_LEN;
    DecodeSigned(buf[n..]) == ToInt32(Adler32.Checksum(buf[..n]))
  }

  function Parse<M(!new)>(codec: Codec<M>, buf: seq<byte>): Parsed<M>
    requires |buf| >= codec.MinMessageLen()
  {
    if ValidateChecksum(buf) then
      if buf[..|codec.tag|] == codec.tag then
        match codec.parseFrom(buf[|codec.tag|..|buf| - CHECKSUM_LEN])
        case Some(m) => Good(m)
        case None => Bad(ParseError)
      else Bad(UnknownMessageType)
    else Bad(CheckSumError)
  }

  /** When each outcome occurs. The checksum is tested first, then the tag. */
  lemma ParseOutcome<M(!new)>(codec: Codec<M>, buf: seq<byte>)
    requires |buf| >= codec.MinMessageLen()
    ensures var n := |buf| - CHECKSUM_LEN;
            var sound := DecodeSigned(buf[n..]) == ToInt32(Adler32.Checksum(buf[..n]));
            var payload := buf[|codec.tag|..n];
            var parsed := Parse(codec, buf);
            && (parsed == Bad(CheckSumError) <==> !sound)
            && (parsed == Bad(UnknownMessageType) <==> sound && !(codec.tag <= buf))
            && (parsed == Bad(ParseError) <==> sound && codec.tag <= buf && codec.parseFrom(payload) == None)
            && (parsed.Good? <==> sound && codec.tag <= buf && codec.parseFrom(payload) != None)
            && (parsed.Good? ==> codec.parseFrom(payload) == Some(parsed.message))
  {
    hide DecodeSigned, ToInt32, Adler32.Checksum;
  }

  /** What the head of the input is. */
  datatype Head<+M> = Incomplete | Refused(error: ErrorCode) | Skipped(size: nat) | Message(message: M, size: nat)

  function HeadOf<M(!new)>(codec: Codec<M>, s: seq<byte>): (head: Head<M>)
    ensures head.Skipped? || head.Message? ==> 0 < head.size <= |s|
  {
    if |s| < codec.MinMessageLen() + HEADER_LEN then Incomplete
    else
      var len := DecodeSigned(s[..HEADER_LEN]);
      if len > MAX_MESSAGE_LEN || len < codec.MinMessageLen() then Refused(InvalidLength)
      else if |s| >= HEADER_LEN + len then
        if !codec.rawAccepts(s[..HEADER_LEN + len]) then Skipped(HEADER_LEN + len)
        else
          match Parse(codec, s[HEADER_LEN..HEADER_LEN + len])
          case Good(m) => Message(m, HEADER_LEN + len)
          case Bad(error) => Refused(error)
      else Incomplete
  }

  /** Messages delivered in order, then the error callback at most once. */
  datatype Drained<+M> = Drained(messages: seq<M>, error: Option<ErrorCode>, rest: seq<byte>)

  /** One run of `onMessage`, with an error callback that leaves the buffer alone. */
  function Drain<M(!new)>(codec: Codec<M>, s: seq<byte>): Drained<M>
    decreases |s|
  {
    match HeadOf(codec, s)
    case Incomplete => Drained([], None, s)
    case Refused(error) => Drained([], Some(error), s)
    case Skipped(size) => Drain(codec, s[size..])
    case Message(m, size) => After([m], Drain(codec, s[size..]))
  }

  /** `d`, with earlier messages in front. */
  function After<M>(messages: seq<M>, d: Drained<M>): Drained<M> {
    d.(messages := messages + d.messages)
  }

  method SerializeToBuffer<M(!new)>(codec: Codec<M>, message: M, buf: Buffer)
    requires buf.Valid() && buf.PrependableBytes() >= HEADER_LEN
    modifies buf, buf.storage
    ensures buf.Valid() && buf.Content() == old(buf.Content()) + codec.serialize(message)
    ensures buf.PrependableBytes() >= HEADER_LEN
    ensures buf.storage == old(buf.storage) || fresh(buf.storage)
  {
    var payload := codec.serialize(message);
    buf.EnsureWritableBytes(|payload| + CHECKSUM_LEN);
    buf.Append(payload);
  }

  method FillEmptyBuffer<M(!new)>(codec: Codec<M>, buf: Buffer, message: M)
    requires buf.Valid() && buf.Content() == [] && buf.PrependableBytes() >= HEADER_LEN
    modifies buf, buf.storage
    ensures buf.Valid() && buf.Content() == Frame(codec, message)
    ensures buf.storage == old(buf.storage) || fresh(buf.storage)
  {
    hide EncodeSigned, ToInt32, Adler32.Checksum;
    buf.Append(codec.tag);
    assert [] + codec.tag == codec.tag;
    SerializeToBuffer(codec, message, buf);
    var body := buf.Peek(buf.ReadableBytes());
    assert body == buf.Content() == codec.tag + codec.serialize(message);
    hide Buffer.Content;
    buf.AppendInt(ToInt32(Adler32.Checksum(body)), CHECKSUM_LEN);
    ghost var whole := buf.Content();
    assert whole == body + ChecksumField(body);
    buf.PrependInt(ToInt32(buf.ReadableBytes()), HEADER_LEN);
  }

  /** The tests of the loop body decide what the head is. */
  lemma HeadOfWhole<M(!new)>(codec: Codec<M>, s: seq<byte>, len: int)
    requires |s| >= codec.MinMessageLen() + HEADER_LEN && len == DecodeSigned(s[..HEADER_LEN])
    ensures len > MAX_MESSAGE_LEN || len < codec.MinMessageLen() ==> HeadOf(codec, s) == Refused(InvalidLength)
    ensures codec.MinMessageLen() <= len <= MAX_MESSAGE_LEN && |s| < HEADER_LEN + len ==> HeadOf(codec, s) == Incomplete
    ensures codec.MinMessageLen() <= len <= MAX_MESSAGE_LEN && HEADER_LEN + len <= |s| ==>
              var parsed := Parse(codec, s[..HEADER_LEN + len][HEADER_LEN..]);
              && (!codec.rawAccepts(s[..HEADER_LEN + len]) ==> HeadOf(codec, s) == Skipped(HEADER_LEN + len))
              && (codec.rawAccepts(s[..HEADER_LEN + len]) && parsed.Good? ==>
                    HeadOf(codec, s) == Message(parsed.message, HEADER_LEN + len))
              && (codec.rawAccepts(s[..HEADER_LEN + len]) && parsed.Bad? ==>
                    HeadOf(codec, s) == Refused(parsed.error))
  {
    hide Parse, DecodeSigned;
    if codec.MinMessageLen() <= len && HEADER_LEN + len <= |s| {
      assert s[..HEADER_LEN + len][HEADER_LEN..] == s[HEADER_LEN..HEADER_LEN + len];
    }
  }

  /** When a call stops for lack of input, and when at the length. Shorter input
      than the smallest frame is not looked at. */
  lemma HeadOutcome<M(!new)>(codec: Codec<M>, s: seq<byte>)
    ensures var known := |s| >= codec.MinMessageLen() + HEADER_LEN;
            var len := if known then DecodeSigned(s[..HEADER_LEN]) else 0;
            var valid := codec.MinMessageLen() <= len <= MAX_MESSAGE_LEN;
            var whole := known && valid && |s| >= HEADER_LEN + len;
            && (HeadOf(codec, s) == Incomplete <==> !known || (valid && !whole))
            && (HeadOf(codec, s) == Refused(InvalidLength) <==> known && !valid)
            && (HeadOf(codec, s).Skipped? <==> whole && !codec.rawAccepts(s[..HEADER_LEN + len]))
            && (whole && HeadOf(codec, s).Skipped? ==> HeadOf(codec, s).size == HEADER_LEN + len)
            && (whole && HeadOf(codec, s).Message? ==> HeadOf(codec, s).size == HEADER_LEN + len)
  {
    hide DecodeSigned, Parse;
    if |s| >= codec.MinMessageLen() + HEADER_LEN {
      var len := DecodeSigned(s[..HEADER_LEN]);
      if codec.MinMessageLen() <= len && |s| >= HEADER_LEN + len {
        ParseOutcome(codec, s[HEADER_LEN..HEADER_LEN + len]);
      }
    }
  }

  /** The messages so far and the input still in the buffer account for all of it. */
  predicate Progress<M(!new, ==)>(codec: Codec<M>, input: seq<byte>, messages: seq<M>, s: seq<byte>) {
    Drain(codec, input) == After(messages, Drain(codec, s))
  }

  lemma ProgressStart<M(!new)>(codec: Codec<M>, input: seq<byte>)
    ensures Progress(codec, input, [], input)
  {
    hide Drain;
    assert [] + Drain(codec, input).messages == Drain(codec, input).messages;
  }

  lemma ProgressStep<M(!new)>(codec: Codec<M>, input: seq<byte>, messages: seq<M>, s: seq<byte>)
    requires Progress(codec, input, messages, s)
    ensures HeadOf(codec, s).Incomplete? ==> Drain(codec, input) == Drained(messages, None, s)
    ensures HeadOf(codec, s).Refused? ==> Drain(codec, input) == Drained(messages, Some(HeadOf(codec, s).error), s)
    ensures HeadOf(codec, s).Skipped? ==> Progress(codec, input, messages, s[HeadOf(codec, s).size..])
    ensures HeadOf(codec, s).Message? ==>
              var head := HeadOf(codec, s);
              Progress(codec, input, messages + [head.message], s[head.size..])
  {
    hide HeadOf;
    var head := HeadOf(codec, s);
    if head.Message? {
      var later := Drain(codec, s[head.size..]).messages;
      assert messages + ([head.message] + later) == messages + [head.message] + later;
    } else if !head.Skipped? {
      assert messages + [] == messages;
    }
  }

  method OnMessage<M(!new)>(codec: Codec<M>, buf: Buffer) returns (messages: seq<M>, error: Option<ErrorCode>)
    requires buf.Valid()
    modifies buf
    ensures buf.Valid() && buf.storage == old(buf.storage)
    ensures Drained(messages, error, buf.Content()) == Drain(codec, old(buf.Content()))
  {
    hide Parse, DecodeSigned, Drain, Progress, Buffer.Content;
    ghost var input := buf.Content();
    messages, error := [], None;
    ProgressStart(codec, input);
    while buf.ReadableBytes() >= codec.MinMessageLen() + HEADER_LEN
      invariant buf.Valid() && buf.storage == old(buf.storage)
      invariant Progress(codec, input, messages, buf.Content())
      decreases |buf.Content()|
    {
      var len := buf.PeekInt(HEADER_LEN);
      ProgressStep(codec, input, messages, buf.Content());
      HeadOfWhole(codec, buf.Content(), len);
      hide HeadOf;
      if len > MAX_MESSAGE_LEN || len < codec.MinMessageLen() {
        error := Some(InvalidLength);
        return;
      } else if buf.ReadableBytes() >= HEADER_LEN + len {
        if !codec.rawAccepts(buf.Peek(HEADER_LEN + len)) {
          buf.Retrieve(HEADER_LEN + len);
          continue;
        }
        var parsed := Parse(codec, buf.Peek(HEADER_LEN + len)[HEADER_LEN..]);
        match parsed
        case Good(message) =>
          messages := messages + [message];
          buf.Retrieve(HEADER_LEN + len);
        case Bad(e) =>
          error := Some(e);
          return;
      } else {
        return;
      }
    }
    ProgressStep(codec, input, messages, buf.Content());
  }

  // -------------------------------------------- independence of the network

  /** More input never changes a head that was complete. */
  lemma HeadIsStable<M(!new)>(codec: Codec<M>, a: seq<byte>, b: seq<byte>)
    requires !HeadOf(codec, a).Incomplete?
    ensures HeadOf(codec, a + b) == HeadOf(codec, a)
  {
    hide Parse;
    assert (a + b)[..HEADER_LEN] == a[..HEADER_LEN];
    var len := DecodeSigned(a[..HEADER_LEN]);
    if codec.MinMessageLen() <= len <= MAX_MESSAGE_LEN {
      assert (a + b)[..HEADER_LEN + len] == a[..HEADER_LEN + len];
      assert (a + b)[HEADER_LEN..HEADER_LEN + len] == a[HEADER_LEN..HEADER_LEN + len];
    }
  }

  /** Draining `a`, then what is left followed by `b`, is draining `a + b`. */
  lemma {:induction false} DrainAppend<M(!new)>(codec: Codec<M>, a: seq<byte>, b: seq<byte>)
    ensures var first := Drain(codec, a);
            Drain(codec, a + b) == After(first.messages, Drain(codec, first.rest + b))
    decreases |a|
  {
    hide HeadOf, Drain;
    DrainHead(codec, a);
    var head := HeadOf(codec, a);
    var second := Drain(codec, Drain(codec, a).rest + b).messages;
    if !head.Incomplete? {
      HeadIsStable(codec, a, b);
      DrainHead(codec, a + b);
    }
    if head.Incomplete? || head.Refused? {
      assert [] + second == second;
    } else {
      DrainAppend(codec, a[head.size..], b);
      assert (a + b)[head.size..] == a[head.size..] + b;
      if head.Message? {
        var later := Drain(codec, a[head.size..]).messages;
        assert [head.message] + (later + second) == [head.message] + later + second;
      }
    }
  }

  /** The four ways a run of `onMessage` starts. */
  lemma DrainHead<M(!new)>(codec: Codec<M>, s: seq<byte>)
    ensures var head := HeadOf(codec, s);
            && (head.Incomplete? ==> Drain(codec, s) == Drained([], None, s))
            && (head.Refused? ==> Drain(codec, s) == Drained([], Some(head.error), s))
            && (head.Skipped? ==> Drain(codec, s) == Drain(codec, s[head.size..]))
            && (head.Message? ==> Drain(codec, s) == After([head.message], Drain(codec, s[head.size..])))
  {
    hide HeadOf;
  }

  datatype Fed<+M> = Fed(messages: seq<M>, errors: seq<Option<ErrorCode>>, rest: seq<byte>)

  /** One read, then one `onMessage`, for each chunk. */
  function Feed<M(!new)>(codec: Codec<M>, buffered: seq<byte>, chunks: seq<seq<byte>>): Fed<M>
    decreases |chunks|
  {
    if chunks == [] then Fed([], [], buffered)
    else
      var d := Drain(codec, buffered + chunks[0]);
      var later := Feed(codec, d.rest, chunks[1..]);
      Fed(d.messages + later.messages, [d.error] + later.errors, later.rest)
  }

  /** What `onMessage` leaves in the buffer yields nothing by itself. */
  predicate IsLeftover<M(!new)>(codec: Codec<M>, s: seq<byte>) {
    HeadOf(codec, s).Incomplete? || HeadOf(codec, s).Refused?
  }

  lemma {:induction false} RestIsLeftover<M(!new)>(codec: Codec<M>, s: seq<byte>)
    ensures IsLeftover(codec, Drain(codec, s).rest)
    decreases |s|
  {
    hide HeadOf;
    var head := HeadOf(codec, s);
    if head.Skipped? || head.Message? {
      RestIsLeftover(codec, s[head.size..]);
    }
  }

  /** Any bytes, cut in any way: same messages, same bytes left over, and the last
      call reports the error that draining the whole reports. */
  lemma {:induction false} SplitIndependence<M(!new)>(codec: Codec<M>, buffered: seq<byte>, chunks: seq<seq<byte>>)
    requires IsLeftover(codec, buffered)
    ensures var fed := Feed(codec, buffered, chunks);
            var whole := Drain(codec, buffered + Concat(chunks));
            && fed.messages == whole.messages && fed.rest == whole.rest
            && |fed.errors| == |chunks|
            && (chunks != [] ==> fed.errors[|chunks| - 1] == whole.error)
    decreases |chunks|
  {
    hide HeadOf;
    if chunks == [] {
      assert buffered + Concat(chunks) == buffered;
    } else {
      hide IsLeftover, Drain;
      var d := Drain(codec, buffered + chunks[0]);
      RestIsLeftover(codec, buffered + chunks[0]);
      SplitIndependence(codec, d.rest, chunks[1..]);
      DrainAppend(codec, buffered + chunks[0], Concat(chunks[1..]));
      assert buffered + Concat(chunks) == buffered + chunks[0] + Concat(chunks[1..]);
      if |chunks| == 1 {
        assert buffered + Concat(chunks) == buffered + chunks[0];
      }
    }
  }

  /** Once a head is refused, every later read reports the same error again and
      nothing behind it is ever delivered. */
  lemma {:induction false} NothingPastBadFrame<M(!new)>(codec: Codec<M>, buffered: seq<byte>, chunks: seq<seq<byte>>)
    requires HeadOf(codec, buffered).Refused?
    ensures var fed := Feed(codec, buffered, chunks);
            && fed.messages == [] && fed.rest == buffered + Concat(chunks)
            && |fed.errors| == |chunks|
            && (forall i :: 0 <= i < |fed.errors| ==> fed.errors[i] == Some(HeadOf(codec, buffered).error))
    decreases |chunks|
  {
    hide HeadOf;
    if chunks == [] {
      assert buffered + Concat(chunks) == buffered;
    } else {
      HeadIsStable(codec, buffered, chunks[0]);
      NothingPastBadFrame(codec, buffered + chunks[0], chunks[1..]);
      assert buffered + Concat(chunks) == buffered + chunks[0] + Concat(chunks[1..]);
    }
  }

  /** An error stays: every later call reports it too. */
  lemma {:induction false} ErrorStays<M(!new)>(codec: Codec<M>, buffered: seq<byte>, chunks: seq<seq<byte>>, i: nat)
    requires IsLeftover(codec, buffered)
    requires i < |chunks|
    ensures |Feed(codec, buffered, chunks).errors| == |chunks|
    ensures var errors := Feed(codec, buffered, chunks).errors;
            errors[i].Some? ==> forall j :: i <= j < |chunks| ==> errors[j] == errors[i]
    decreases |chunks|
  {
    hide HeadOf, Drain;
    var d := Drain(codec, buffered + chunks[0]);
    RestIsLeftover(codec, buffered + chunks[0]);
    SplitIndependence(codec, d.rest, chunks[1..]);
    if i > 0 {
      ErrorStays(codec, d.rest, chunks[1..], i - 1);
    } else if d.error.Some? {
      ErrorHead(codec, buffered + chunks[0]);
      NothingPastBadFrame(codec, d.rest, chunks[1..]);
    }
  }

  /** What a call with an error leaves behind is refused for that error. */
  lemma {:induction false} ErrorHead<M(!new)>(codec: Codec<M>, s: seq<byte>)
    requires Drain(codec, s).error.Some?
    ensures var head := HeadOf(codec, Drain(codec, s).rest);
            head.Refused? && Drain(codec, s).error == Some(head.error)
    decreases |s|
  {
    hide HeadOf;
    var head := HeadOf(codec, s);
    if head.Skipped? || head.Message? {
      ErrorHead(codec, s[head.size..]);
    }
  }

  /** Some call reports an error exactly when draining the whole does. */
  lemma ErrorReportedIff<M(!new)>(codec: Codec<M>, buffered: seq<byte>, chunks: seq<seq<byte>>)
    requires IsLeftover(codec, buffered) && chunks != []
    ensures Drain(codec, buffered + Concat(chunks)).error.Some?
       <==> exists i :: 0 <= i < |Feed(codec, buffered, chunks).errors| && Feed(codec, buffered, chunks).errors[i].Some?
  {
    hide Drain, Feed, HeadOf, IsLeftover;
    SplitIndependence(codec, buffered, chunks);
    var errors := Feed(codec, buffered, chunks).errors;
    if i :| 0 <= i < |errors| && errors[i].Some? {
      ErrorStays(codec, buffered, chunks, i);
      assert errors[|chunks| - 1] == errors[i];
    }
  }

  // ------------------------------------------------------------- round trip

  /** What the size field of `m`'s frame counts. */
  function SizeOf<M(!new)>(codec: Codec<M>, m: M): nat {
    |codec.tag| + |codec.serialize(m)| + CHECKSUM_LEN
  }

  lemma ParseFramed<M(!new)>(codec: Codec<M>, body: seq<byte>)
    requires |body| >= |codec.tag|
    ensures var parsed := Parse(codec, Framed(body)[HEADER_LEN..]);
            var payload := body[|codec.tag|..];
            parsed == if !(codec.tag <= body) then Bad(UnknownMessageType)
                      else if codec.parseFrom(payload).None? then Bad(ParseError)
                      else Good(codec.parseFrom(payload).value)
  {
    hide EncodeSigned, DecodeSigned, ToInt32, Adler32.Checksum, Parse;
    var buf := Framed(body)[HEADER_LEN..];
    var n := |buf| - CHECKSUM_LEN;
    assert buf == body + ChecksumField(body);
    assert buf[..n] == body && buf[n..] == ChecksumField(body);
    FieldIsSigned(ToInt32(Adler32.Checksum(body)));
    assert buf[|codec.tag|..n] == body[|codec.tag|..];
    assert codec.tag <= buf <==> codec.tag <= body;
    ParseOutcome(codec, buf);
  }

  lemma ParseFrame<M(!new)>(codec: Codec<M>, m: M)
    requires codec.IsInverse()
    ensures |Frame(codec, m)| == HEADER_LEN + SizeOf(codec, m)
    ensures Parse(codec, Frame(codec, m)[HEADER_LEN..]) == Good(m)
  {
    hide Parse;
    var body := codec.tag + codec.serialize(m);
    assert body[|codec.tag|..] == codec.serialize(m);
    ParseFramed(codec, body);
  }

  lemma FrameHeader(body: seq<byte>)
    ensures |Framed(body)| == HEADER_LEN + |body| + CHECKSUM_LEN
    ensures Framed(body)[..HEADER_LEN] == EncodeSigned(ToInt32(|body| + CHECKSUM_LEN), HEADER_LEN)
  {
    hide ToInt32;
  }

  lemma FieldIsSigned(x: int)
    requires IsInt32(x)
    ensures DecodeSigned(EncodeSigned(x, 4)) == x
  {
    assert Pow256(2) == 65536;
    assert Pow256(4) == 0x1_0000_0000;
    SignedRoundTrip(x, 4);
  }

  /** The size field of an oversized frame reads as too long, or as negative. */
  lemma HeadOfFramed<M(!new)>(codec: Codec<M>, body: seq<byte>, rest: seq<byte>)
    requires |codec.tag| <= |body| && |body| + CHECKSUM_LEN < 0x1_0000_0000
    ensures var payload := body[|codec.tag|..];
            var head := HeadOf(codec, Framed(body) + rest);
            head == if |body| + CHECKSUM_LEN > MAX_MESSAGE_LEN then Refused(InvalidLength)
                    else if !codec.rawAccepts(Framed(body)) then Skipped(|Framed(body)|)
                    else if !(codec.tag <= body) then Refused(UnknownMessageType)
                    else if codec.parseFrom(payload).None? then Refused(ParseError)
                    else Message(codec.parseFrom(payload).value, |Framed(body)|)
  {
    hide Parse, DecodeSigned, EncodeSigned, Framed, HeadOf, ToInt32;
    var n := |body| + CHECKSUM_LEN;
    var s := Framed(body) + rest;
    ParseFramed(codec, body);
    FrameHeader(body);
    assert s[..HEADER_LEN] == Framed(body)[..HEADER_LEN];
    SizeField(n);
    HeadOfWhole(codec, s, ToInt32(n));
    if n <= MAX_MESSAGE_LEN {
      assert s[..HEADER_LEN + n] == Framed(body);
    }
  }

  lemma HeadOfFrame<M(!new)>(codec: Codec<M>, m: M, rest: seq<byte>)
    requires codec.IsInverse() && SizeOf(codec, m) < 0x1_0000_0000
    ensures HeadOf(codec, Frame(codec, m) + rest)
         == if SizeOf(codec, m) > MAX_MESSAGE_LEN then Refused(InvalidLength)
            else if !codec.rawAccepts(Frame(codec, m)) then Skipped(|Frame(codec, m)|)
            else Message(m, |Frame(codec, m)|)
  {
    hide Framed, HeadOf;
    var body := codec.tag + codec.serialize(m);
    assert body[|codec.tag|..] == codec.serialize(m);
    HeadOfFramed(codec, body, rest);
  }

  lemma SizeField(n: nat)
    requires n < 0x1_0000_0000
    ensures DecodeSigned(EncodeSigned(ToInt32(n), HEADER_LEN)) == ToInt32(n)
    ensures n <= MAX_MESSAGE_LEN ==> ToInt32(n) == n
    ensures n > MAX_MESSAGE_LEN ==> ToInt32(n) > MAX_MESSAGE_LEN || ToInt32(n) < 0
  {
    hide EncodeSigned, DecodeSigned;
    FieldIsSigned(ToInt32(n));
  }

  /** A frame is delivered exactly when its size is within 64 MiB and the raw
      callback lets it through. */
  lemma FrameDeliveredIff<M(!new)>(codec: Codec<M>, m: M)
    requires codec.IsInverse() && SizeOf(codec, m) < 0x1_0000_0000
    ensures Drain(codec, Frame(codec, m)) == Drained([m], None, [])
       <==> SizeOf(codec, m) <= MAX_MESSAGE_LEN && codec.rawAccepts(Frame(codec, m))
  {
    hide Frame, HeadOf, Drain, Codec.IsInverse;
    var f := Frame(codec, m);
    HeadOfFrame(codec, m, []);
    assert f + [] == f && f[|f|..] == [];
    DrainHead(codec, f);
    DrainNothing(codec);
  }

  /** One message, of as many bytes as the limit, so that its frame exceeds it. */
  const OVERSIZED: Codec<()> := Codec([], _ => seq(MAX_MESSAGE_LEN, _ => 0), _ => Some(()), _ => true)

  lemma OversizedIsRefused()
    ensures OVERSIZED.IsInverse() && OVERSIZED.rawAccepts(Frame(OVERSIZED, ()))
    ensures Drain(OVERSIZED, Frame(OVERSIZED, ())).error == Some(InvalidLength)
    ensures Drain(OVERSIZED, Frame(OVERSIZED, ())).messages == []
  {
    hide Frame, HeadOf;
    var f := Frame(OVERSIZED, ());
    assert OVERSIZED.IsInverse() by {
      forall m: ()
        ensures OVERSIZED.parseFrom(OVERSIZED.serialize(m)) == Some(m)
      {
        assert m == ();
      }
    }
    HeadOfFrame(OVERSIZED, (), []);
    assert f + [] == f;
  }

  function Frames<M(!new)>(codec: Codec<M>, ms: seq<M>): seq<byte> {
    if ms == [] then [] else Frame(codec, ms[0]) + Frames(codec, ms[1..])
  }

  /** The messages whose frames the raw callback lets through. */
  function Delivered<M(!new)>(codec: Codec<M>, ms: seq<M>): seq<M> {
    if ms == [] then []
    else (if codec.rawAccepts(Frame(codec, ms[0])) then [ms[0]] else []) + Delivered(codec, ms[1..])
  }

  lemma {:induction false} AllDelivered<M(!new)>(codec: Codec<M>, ms: seq<M>)
    requires forall m :: m in ms ==> codec.rawAccepts(Frame(codec, m))
    ensures Delivered(codec, ms) == ms
    decreases |ms|
  {
    hide Frame;
    if ms != [] {
      AllDelivered(codec, ms[1..]);
      assert ms == [ms[0]] + ms[1..];
    }
  }

  ghost predicate Sendable<M(!new)>(codec: Codec<M>, ms: seq<M>) {
    codec.IsInverse() && forall m :: m in ms ==> SizeOf(codec, m) <= MAX_MESSAGE_LEN
  }

  /** Frames in front of other bytes are all taken off, whatever follows. */
  lemma {:induction false} DrainFrames<M(!new)>(codec: Codec<M>, ms: seq<M>, rest: seq<byte>)
    requires Sendable(codec, ms)
    ensures Drain(codec, Frames(codec, ms) + rest) == After(Delivered(codec, ms), Drain(codec, rest))
    decreases |ms|
  {
    hide Frame, HeadOf, Drain, Codec.IsInverse, SizeOf;
    if ms == [] {
      assert Frames(codec, ms) + rest == rest;
      assert [] + Drain(codec, rest).messages == Drain(codec, rest).messages;
    } else {
      var f, more := Frame(codec, ms[0]), Frames(codec, ms[1..]) + rest;
      assert Frames(codec, ms) + rest == f + more;
      HeadOfFrame(codec, ms[0], more);
      DrainHead(codec, f + more);
      assert (f + more)[|f|..] == more;
      DrainFrames(codec, ms[1..], rest);
      DeliveredMore(codec, ms, Drain(codec, rest).messages);
    }
  }

  lemma DeliveredMore<M(!new)>(codec: Codec<M>, ms: seq<M>, later: seq<M>)
    requires ms != []
    ensures Delivered(codec, ms) + later
         == if codec.rawAccepts(Frame(codec, ms[0])) then [ms[0]] + (Delivered(codec, ms[1..]) + later)
            else Delivered(codec, ms[1..]) + later
  {
    hide Frame;
    var first := if codec.rawAccepts(Frame(codec, ms[0])) then [ms[0]] else [];
    assert first + Delivered(codec, ms[1..]) + later == first + (Delivered(codec, ms[1..]) + later);
    assert [] + (Delivered(codec, ms[1..]) + later) == Delivered(codec, ms[1..]) + later;
  }

  lemma DrainNothing<M(!new)>(codec: Codec<M>)
    ensures IsLeftover(codec, []) && Drain(codec, []) == Drained([], None, [])
  {
    assert HeadOf(codec, []) == Incomplete;
  }

  /** Frames from one end, cut anywhere by the network, come out as the messages
      that went in, less those that the raw callback rejects. */
  lemma CodecRoundTrip<M(!new)>(codec: Codec<M>, ms: seq<M>, chunks: seq<seq<byte>>)
    requires Sendable(codec, ms) && Concat(chunks) == Frames(codec, ms)
    ensures Feed(codec, [], chunks).messages == Delivered(codec, ms)
    ensures (forall m :: m in ms ==> codec.rawAccepts(Frame(codec, m))) ==> Feed(codec, [], chunks).messages == ms
    ensures Feed(codec, [], chunks).rest == []
    ensures forall e :: e in Feed(codec, [], chunks).errors ==> e == None
  {
    hide Drain, Feed, HeadOf, Frame, Frames, Delivered, Sendable, IsLeftover;
    DrainNothing(codec);
    SplitIndependence(codec, [], chunks);
    assert [] + Concat(chunks) == Concat(chunks) == Frames(codec, ms) + [];
    DrainFrames(codec, ms, []);
    assert Delivered(codec, ms) + [] == Delivered(codec, ms);
    if forall m :: m in ms ==> codec.rawAccepts(Frame(codec, m)) {
      AllDelivered(codec, ms);
    }
    if chunks != [] {
      ErrorReportedIff(codec, [], chunks);
    }
  }

  /** A frame that does not start with the codec's tag, behind good ones and in
      any cuts: what came before is delivered, then the error, nothing after. */
  lemma ForeignFrameStops<M(!new)>(
    codec: Codec<M>, ms: seq<M>, body: seq<byte>, rest: seq<byte>, chunks: seq<seq<byte>>)
    requires Sendable(codec, ms) && codec.rawAccepts(Framed(body))
    requires |codec.tag| <= |body| <= MAX_MESSAGE_LEN - CHECKSUM_LEN && !(codec.tag <= body)
    requires Concat(chunks) == Frames(codec, ms) + (Framed(body) + rest)
    ensures chunks != []
    ensures var fed := Feed(codec, [], chunks);
            && fed.messages == Delivered(codec, ms)
            && fed.rest == Framed(body) + rest
            && |fed.errors| == |chunks| && fed.errors[|chunks| - 1] == Some(UnknownMessageType)
  {
    hide Drain, Feed, HeadOf, Framed, Frames, Delivered, Sendable, IsLeftover, Concat;
    FrameHeader(body);
    NoChunks();
    DrainNothing(codec);
    SplitIndependence(codec, [], chunks);
    assert [] + Concat(chunks) == Concat(chunks);
    DrainFrames(codec, ms, Framed(body) + rest);
    HeadOfFramed(codec, body, rest);
    DrainHead(codec, Framed(body) + rest);
    assert Delivered(codec, ms) + [] == Delivered(codec, ms);
  }

  lemma NoChunks()
    ensures Concat<byte>([]) == []
  {
  }

  /** A frame with one damaged byte in tag, payload or checksum is refused by
      the checksum. */
  lemma DamageDetected<M(!new)>(codec: Codec<M>, buf: seq<byte>, i: nat, b: byte)
    requires |buf| >= codec.MinMessageLen() && ValidateChecksum(buf)
    requires i < |buf| && b != buf[i]
    ensures Parse(codec, buf[i := b]) == Bad(CheckSumError)
  {
    var n := |buf| - CHECKSUM_LEN;
    var bad := buf[i := b];
    if i < n {
      assert bad[..n] == buf[..n][i := b];
      assert bad[n..] == buf[n..];
      Adler32.SingleChangeDetected(buf[..n], i, b);
      ToInt32Injective(Adler32.Checksum(buf[..n]), Adler32.Checksum(bad[..n]));
    } else {
      assert bad[..n] == buf[..n];
      assert bad[n..][i - n] != buf[n..][i - n];
      SignedRoundTripBack(bad[n..]);
      SignedRoundTripBack(buf[n..]);
    }
  }

  lemma ToInt32Injective(x: nat, y: nat)
    requires x < 0x1_0000_0000 && y < 0x1_0000_0000 && x != y
    ensures ToInt32(x) != ToInt32(y)
  {
  }
}
