/** The servers' incremental message parser (base/src/BasicParser.cc), with the
    header taken out of the buffer (`retrieve_head_` true). */
module BasicParsers {
  import opened CppArithmetic
  import opened Endian
  import opened Buffers
  import opened Chunks
  import opened Headers

  datatype State = WAIT_HEAD | WAIT_DATA

  /** What the parser remembers between calls. */
  datatype Memory = Memory(state: State, header: Header)

  /** One call of `parseData`: the header and the data it announces. */
  datatype Call = Call(header: Header, payload: seq<byte>)

  datatype Parsed = Parsed(calls: seq<Call>, memory: Memory, rest: seq<byte>)

  /** `readableBytes()` cast to `int`, against the announced length. */
  predicate AbleToReadData(readable: nat, dataLength: int) {
    ToInt32(readable) >= dataLength
  }

  /** A negative length converts to a huge unsigned one, and a retrieve of more
      than there is drops everything. */
  function AfterData(s: seq<byte>, dataLength: int): seq<byte> {
    if 0 <= dataLength < |s| then s[dataLength..] else []
  }

  function Payload(s: seq<byte>, dataLength: int): seq<byte>
    requires dataLength <= |s|
  {
    if dataLength < 0 then [] else s[..dataLength]
  }

  lemma AbleIsEnough(readable: nat, dataLength: int)
    requires AbleToReadData(readable, dataLength)
    ensures dataLength <= readable
  {
  }

  function Rank(state: State): nat {
    if state == WAIT_HEAD then 0 else 1
  }

  /** One run of `parse`. */
  function ParseAll(m: Memory, s: seq<byte>): Parsed
    decreases |s|, Rank(m.state)
  {
    if m.state == WAIT_HEAD then
      if |s| >= HEADER_SIZE then
        ParseAll(Memory(WAIT_DATA, DecodeHeader(s[..HEADER_SIZE])), s[HEADER_SIZE..])
      else Parsed([], m, s)
    else if AbleToReadData(|s|, m.header.dataLength) then
      AbleIsEnough(|s|, m.header.dataLength);
      var call := Call(m.header, Payload(s, m.header.dataLength));
      After([call], ParseAll(Memory(WAIT_HEAD, m.header), AfterData(s, m.header.dataLength)))
    else Parsed([], m, s)
  }

  function After(calls: seq<Call>, p: Parsed): Parsed {
    p.(calls := calls + p.calls)
  }

  /** The calls so far and the input left account for all of it. */
  predicate Progress(m: Memory, s: seq<byte>, calls: seq<Call>, m': Memory, s': seq<byte>) {
    ParseAll(m, s) == After(calls, ParseAll(m', s'))
  }

  lemma ProgressStart(m: Memory, s: seq<byte>)
    ensures Progress(m, s, [], m, s)
  {
    hide ParseAll;
    assert [] + ParseAll(m, s).calls == ParseAll(m, s).calls;
  }

  lemma ProgressStep(m: Memory, s: seq<byte>, calls: seq<Call>, m': Memory, s': seq<byte>)
    requires Progress(m, s, calls, m', s')
    ensures m'.state == WAIT_HEAD && |s'| >= HEADER_SIZE ==>
              Progress(m, s, calls, Memory(WAIT_DATA, DecodeHeader(s'[..HEADER_SIZE])), s'[HEADER_SIZE..])
    ensures m'.state == WAIT_HEAD && |s'| < HEADER_SIZE ==> ParseAll(m, s) == Parsed(calls, m', s')
    ensures var n := m'.header.dataLength;
            m'.state == WAIT_DATA && AbleToReadData(|s'|, n) ==>
              n <= |s'| &&
              Progress(m, s, calls + [Call(m'.header, Payload(s', n))], Memory(WAIT_HEAD, m'.header), AfterData(s', n))
    ensures m'.state == WAIT_DATA && !AbleToReadData(|s'|, m'.header.dataLength) ==>
              ParseAll(m, s) == Parsed(calls, m', s')
  {
    hide AbleToReadData, DecodeHeader, Payload, AfterData;
    var n := m'.header.dataLength;
    if m'.state == WAIT_DATA && AbleToReadData(|s'|, n) {
      AbleIsEnough(|s'|, n);
      var call := Call(m'.header, Payload(s', n));
      var later := ParseAll(Memory(WAIT_HEAD, m'.header), AfterData(s', n)).calls;
      assert calls + ([call] + later) == calls + [call] + later;
    } else {
      assert calls + [] == calls;
    }
  }

  class BasicParser {
    var state: State
    var header: Header

    constructor ()
      ensures Remembered() == Memory(WAIT_HEAD, Header(0, 0, 0, 0))
    {
      state := WAIT_HEAD;
      header := Header(0, 0, 0, 0);
    }

    function Remembered(): Memory
      reads this
    {
      Memory(state, header)
    }

    method ParseHead(buffer: Buffer)
      requires buffer.Valid() && buffer.ReadableBytes() >= HEADER_SIZE
      modifies this`header, buffer
      ensures buffer.Valid() && buffer.storage == old(buffer.storage)
      ensures header == DecodeHeader(old(buffer.Content())[..HEADER_SIZE])
      ensures buffer.Content() == old(buffer.Content())[HEADER_SIZE..]
    {
      header := DecodeHeader(buffer.Peek(HEADER_SIZE));
      buffer.Retrieve(HEADER_SIZE);
    }

    method ParseData(buffer: Buffer) returns (payload: seq<byte>)
      requires buffer.Valid() && AbleToReadData(buffer.ReadableBytes(), header.dataLength)
      modifies buffer
      ensures buffer.Valid() && buffer.storage == old(buffer.storage)
      ensures header.dataLength <= |old(buffer.Content())|
      ensures payload == Payload(old(buffer.Content()), header.dataLength)
      ensures buffer.Content() == AfterData(old(buffer.Content()), header.dataLength)
      ensures |buffer.Content()| <= |old(buffer.Content())|
    {
      AbleIsEnough(buffer.ReadableBytes(), header.dataLength);
      if header.dataLength < 0 {
        payload := [];
        buffer.RetrieveAll();
      } else {
        payload := buffer.Peek(header.dataLength);
        buffer.Retrieve(header.dataLength);
      }
    }

    method Parse(buffer: Buffer) returns (calls: seq<Call>)
      requires buffer.Valid()
      modifies this, buffer
      ensures buffer.Valid() && buffer.storage == old(buffer.storage)
      ensures Parsed(calls, Remembered(), buffer.Content())
           == ParseAll(old(Remembered()), old(buffer.Content()))
    {
      hide DecodeHeader, AbleToReadData, Payload, AfterData, Buffer.Content, Progress, ParseAll;
      ghost var m, s := Remembered(), buffer.Content();
      calls := [];
      ProgressStart(m, s);
      while true
        invariant buffer.Valid() && buffer.storage == old(buffer.storage)
        invariant Progress(m, s, calls, Remembered(), buffer.Content())
        decreases |buffer.Content()|, Rank(state)
      {
        ProgressStep(m, s, calls, Remembered(), buffer.Content());
        if state == WAIT_HEAD {
          if buffer.ReadableBytes() >= HEADER_SIZE {
            ParseHead(buffer);
            state := WAIT_DATA;
            ProgressStep(m, s, calls, Remembered(), buffer.Content());
          } else {
            break;
          }
        }
        if state == WAIT_DATA {
          if AbleToReadData(buffer.ReadableBytes(), header.dataLength) {
            var payload := ParseData(buffer);
            calls := calls + [Call(header, payload)];
            state := WAIT_HEAD;
          } else {
            break;
          }
        }
      }
    }
  }

  // -------------------------------------------- independence of the network

  /** What parsing the bytes means, however many: `ParseAll` without the cast. */
  function ParseWide(m: Memory, s: seq<byte>): Parsed
    decreases |s|, Rank(m.state)
  {
    if m.state == WAIT_HEAD then
      if |s| >= HEADER_SIZE then
        ParseWide(Memory(WAIT_DATA, DecodeHeader(s[..HEADER_SIZE])), s[HEADER_SIZE..])
      else Parsed([], m, s)
    else if |s| >= m.header.dataLength then
      var call := Call(m.header, Payload(s, m.header.dataLength));
      After([call], ParseWide(Memory(WAIT_HEAD, m.header), AfterData(s, m.header.dataLength)))
    else Parsed([], m, s)
  }

  lemma {:induction false} CastKeepsParse(m: Memory, s: seq<byte>)
    requires |s| <= INT32_MAX
    ensures ParseAll(m, s) == ParseWide(m, s)
    decreases |s|, Rank(m.state)
  {
    hide DecodeHeader, Payload;
    if m.state == WAIT_HEAD {
      if |s| >= HEADER_SIZE {
        CastKeepsParse(Memory(WAIT_DATA, DecodeHeader(s[..HEADER_SIZE])), s[HEADER_SIZE..]);
      }
    } else if |s| >= m.header.dataLength {
      CastKeepsParse(Memory(WAIT_HEAD, m.header), AfterData(s, m.header.dataLength));
    }
  }

  /** From 2 to 4 GiB buffered the cast gives a negative count: the parser waits,
      although the data is there. */
  lemma LargeBufferStalls(m: Memory, s: seq<byte>)
    requires m.state == WAIT_DATA && m.header.dataLength >= 0
    requires INT32_MAX < |s| < 0x1_0000_0000
    ensures ParseAll(m, s) == Parsed([], m, s)
    ensures m.header.dataLength <= |s| ==> ParseWide(m, s).calls != []
  {
    assert ToInt32(|s|) < 0;
    hide ToInt32;
  }

  /** A negative length: a call without data, and all that is buffered is gone. */
  lemma NegativeDropsAll(m: Memory, s: seq<byte>)
    requires m.state == WAIT_DATA && m.header.dataLength < 0 && |s| <= INT32_MAX
    ensures ParseAll(m, s) == Parsed([Call(m.header, [])], Memory(WAIT_HEAD, m.header), [])
  {
    assert AbleToReadData(|s|, m.header.dataLength);
    assert [Call(m.header, [])] + [] == [Call(m.header, [])];
  }

  /** Parsing `s` meets a negative length with bytes still buffered behind it. */
  predicate Discards(m: Memory, s: seq<byte>)
    decreases |s|, Rank(m.state)
  {
    if m.state == WAIT_HEAD then
      |s| >= HEADER_SIZE && Discards(Memory(WAIT_DATA, DecodeHeader(s[..HEADER_SIZE])), s[HEADER_SIZE..])
    else
      |s| >= m.header.dataLength &&
      (if m.header.dataLength < 0 then s != []
       else Discards(Memory(WAIT_HEAD, m.header), AfterData(s, m.header.dataLength)))
  }

  lemma AppendUnderData(a: seq<byte>, b: seq<byte>, dataLength: int)
    requires 0 <= dataLength <= |a|
    ensures Payload(a + b, dataLength) == Payload(a, dataLength)
    ensures AfterData(a + b, dataLength) == AfterData(a, dataLength) + b
  {
  }

  /** Parsing `a` and then what is left followed by `b` is parsing `a + b`. */
  predicate Appends(m: Memory, a: seq<byte>, b: seq<byte>) {
    var first := ParseWide(m, a);
    && |first.rest| <= |a|
    && !Discards(first.memory, first.rest + b)
    && ParseWide(m, a + b) == After(first.calls, ParseWide(first.memory, first.rest + b))
  }

  lemma AppendsAtHead(m: Memory, a: seq<byte>, b: seq<byte>)
    requires m.state == WAIT_HEAD && |a| >= HEADER_SIZE
    requires Appends(Memory(WAIT_DATA, DecodeHeader(a[..HEADER_SIZE])), a[HEADER_SIZE..], b)
    ensures Appends(m, a, b)
  {
    hide DecodeHeader, Discards;
    assert (a + b)[..HEADER_SIZE] == a[..HEADER_SIZE];
    assert (a + b)[HEADER_SIZE..] == a[HEADER_SIZE..] + b;
    var m' := Memory(WAIT_DATA, DecodeHeader(a[..HEADER_SIZE]));
    assert ParseWide(m, a) == ParseWide(m', a[HEADER_SIZE..]);
    assert ParseWide(m, a + b) == ParseWide(m', a[HEADER_SIZE..] + b);
  }

  lemma AppendsAtData(m: Memory, a: seq<byte>, b: seq<byte>)
    requires m.state == WAIT_DATA && |a| >= m.header.dataLength
    requires m.header.dataLength < 0 ==> a + b == []
    requires Appends(Memory(WAIT_HEAD, m.header), AfterData(a, m.header.dataLength), b)
    ensures Appends(m, a, b)
  {
    hide Discards, ParseWide, Payload, AfterData;
    var n := m.header.dataLength;
    if n < 0 {
      assert a + b == a == [];
      assert AfterData(a, n) == [] by {
        NothingAfterNegative(a, n);
      }
      assert b == [] && [] + b == [];
    } else {
      AppendUnderData(a, b, n);
    }
    assert Payload(a + b, n) == Payload(a, n) && AfterData(a + b, n) == AfterData(a, n) + b;
    WideAtData(m, a);
    WideAtData(m, a + b);
    AfterIsShorter(a, n);
    var m' := Memory(WAIT_HEAD, m.header);
    var call := Call(m.header, Payload(a, n));
    var later := ParseWide(m', AfterData(a, n));
    var second := ParseWide(later.memory, later.rest + b);
    assert [call] + (later.calls + second.calls) == [call] + later.calls + second.calls;
  }

  lemma WideAtData(m: Memory, s: seq<byte>)
    requires m.state == WAIT_DATA && |s| >= m.header.dataLength
    ensures var n := m.header.dataLength;
            var later := ParseWide(Memory(WAIT_HEAD, m.header), AfterData(s, n));
            ParseWide(m, s) == After([Call(m.header, Payload(s, n))], later)
  {
    hide Payload, AfterData;
  }

  lemma NothingAfterNegative(s: seq<byte>, dataLength: int)
    requires dataLength < 0
    ensures AfterData(s, dataLength) == []
  {
  }

  lemma AfterIsShorter(s: seq<byte>, dataLength: int)
    ensures |AfterData(s, dataLength)| <= |s|
  {
  }

  /** This holds for every cut as long as nothing is discarded. */
  lemma {:induction false} ParseAppend(m: Memory, a: seq<byte>, b: seq<byte>)
    requires !Discards(m, a + b)
    ensures Appends(m, a, b)
    decreases |a|, Rank(m.state)
  {
    hide DecodeHeader;
    var n := m.header.dataLength;
    if m.state == WAIT_HEAD && |a| >= HEADER_SIZE {
      assert (a + b)[..HEADER_SIZE] == a[..HEADER_SIZE];
      assert (a + b)[HEADER_SIZE..] == a[HEADER_SIZE..] + b;
      ParseAppend(Memory(WAIT_DATA, DecodeHeader(a[..HEADER_SIZE])), a[HEADER_SIZE..], b);
      AppendsAtHead(m, a, b);
    } else if m.state == WAIT_DATA && |a| >= n {
      if n >= 0 {
        AppendUnderData(a, b, n);
      } else {
        assert a + b == [];
        assert b == [];
      }
      ParseAppend(Memory(WAIT_HEAD, m.header), AfterData(a, n), b);
      AppendsAtData(m, a, b);
    } else {
      var whole := ParseWide(m, a + b).calls;
      assert [] + whole == whole;
    }
  }

  /** One read, then one `parse`, for each chunk. */
  function Feed(m: Memory, buffered: seq<byte>, chunks: seq<seq<byte>>): Parsed
    decreases |chunks|
  {
    if chunks == [] then Parsed([], m, buffered)
    else
      var p := ParseAll(m, buffered + chunks[0]);
      After(p.calls, Feed(p.memory, p.rest, chunks[1..]))
  }

  /** At no call more is buffered than an `int` can count. The stream may be
      longer. */
  predicate ReadsFit(m: Memory, buffered: seq<byte>, chunks: seq<seq<byte>>)
    decreases |chunks|
  {
    && |buffered| <= INT32_MAX
    && (chunks != [] ==>
          && |buffered + chunks[0]| <= INT32_MAX
          && var p := ParseAll(m, buffered + chunks[0]); ReadsFit(p.memory, p.rest, chunks[1..]))
  }

  /** A parser between two reads: nothing more to do with what it has. */
  predicate Settled(m: Memory, buffered: seq<byte>) {
    ParseAll(m, buffered) == Parsed([], m, buffered)
  }

  lemma {:induction false} ParseSettles(m: Memory, s: seq<byte>)
    ensures Settled(ParseAll(m, s).memory, ParseAll(m, s).rest)
    decreases |s|, Rank(m.state)
  {
    if m.state == WAIT_HEAD {
      if |s| >= HEADER_SIZE {
        ParseSettles(Memory(WAIT_DATA, DecodeHeader(s[..HEADER_SIZE])), s[HEADER_SIZE..]);
      }
    } else if AbleToReadData(|s|, m.header.dataLength) {
      AbleIsEnough(|s|, m.header.dataLength);
      ParseSettles(Memory(WAIT_HEAD, m.header), AfterData(s, m.header.dataLength));
    }
  }

  lemma {:induction false} FeedIsParse(m: Memory, buffered: seq<byte>, chunks: seq<seq<byte>>)
    requires Settled(m, buffered) && ReadsFit(m, buffered, chunks)
    requires !Discards(m, buffered + Concat(chunks))
    ensures Feed(m, buffered, chunks) == ParseWide(m, buffered + Concat(chunks))
    decreases |chunks|
  {
    hide ParseAll, ParseWide, Discards;
    if chunks == [] {
      assert buffered + Concat(chunks) == buffered;
      CastKeepsParse(m, buffered);
    } else {
      var rest := Concat(chunks[1..]);
      assert buffered + Concat(chunks) == buffered + chunks[0] + rest;
      var p := ParseAll(m, buffered + chunks[0]);
      CastKeepsParse(m, buffered + chunks[0]);
      ParseAppend(m, buffered + chunks[0], rest);
      ParseSettles(m, buffered + chunks[0]);
      FeedIsParse(p.memory, p.rest, chunks[1..]);
    }
  }

  // ----------------------------------- what cutting behind a bad length shows

  /** Not as an idle parser that was never given a byte. */
  predicate Shows(p: Parsed) {
    p.calls != [] || p.memory.state == WAIT_DATA || p.rest != []
  }

  /** Bytes that arrive always leave a trace. */
  lemma InputShows(m: Memory, s: seq<byte>)
    requires m.state == WAIT_DATA || s != []
    ensures Shows(ParseAll(m, s))
  {
    hide DecodeHeader;
    if m.state == WAIT_HEAD && |s| >= HEADER_SIZE {
      DataShows(Memory(WAIT_DATA, DecodeHeader(s[..HEADER_SIZE])), s[HEADER_SIZE..]);
    } else if m.state == WAIT_DATA {
      DataShows(m, s);
    }
  }

  lemma DataShows(m: Memory, s: seq<byte>)
    requires m.state == WAIT_DATA
    ensures Shows(ParseAll(m, s))
  {
    if AbleToReadData(|s|, m.header.dataLength) {
      AbleIsEnough(|s|, m.header.dataLength);
    }
  }

  lemma {:induction false} FeedShows(m: Memory, buffered: seq<byte>, chunks: seq<seq<byte>>)
    requires m.state == WAIT_DATA || buffered != [] || Concat(chunks) != []
    ensures Shows(Feed(m, buffered, chunks))
    decreases |chunks|
  {
    if chunks != [] {
      var s := buffered + chunks[0];
      var p := ParseAll(m, s);
      if m.state == WAIT_DATA || s != [] {
        InputShows(m, s);
      }
      hide ParseAll;
      if p.calls == [] {
        FeedShows(p.memory, p.rest, chunks[1..]);
      }
    }
  }

  lemma {:induction false} FeedAppend(m: Memory, buffered: seq<byte>, a: seq<seq<byte>>, b: seq<seq<byte>>)
    ensures var first := Feed(m, buffered, a);
            Feed(m, buffered, a + b) == After(first.calls, Feed(first.memory, first.rest, b))
    decreases |a|
  {
    hide ParseAll;
    if a == [] {
      assert a + b == b;
      var later := Feed(m, buffered, b).calls;
      assert [] + later == later;
    } else {
      var p := ParseAll(m, buffered + a[0]);
      FeedAppend(p.memory, p.rest, a[1..], b);
      assert (a + b)[0] == a[0] && (a + b)[1..] == a[1..] + b;
      var middle := Feed(p.memory, p.rest, a[1..]);
      var later := Feed(middle.memory, middle.rest, b).calls;
      assert p.calls + (middle.calls + later) == p.calls + middle.calls + later;
    }
  }

  /** Reads of one byte each. */
  function Bytes(s: seq<byte>): (chunks: seq<seq<byte>>)
    ensures Concat(chunks) == s
  {
    if s == [] then [] else
      var chunks := [[s[0]]] + Bytes(s[1..]);
      assert chunks[1..] == Bytes(s[1..]);
      chunks
  }

  lemma {:induction false} BytesSplit(a: seq<byte>, b: seq<byte>)
    ensures Bytes(a + b) == Bytes(a) + Bytes(b)
    decreases |a|
  {
    if a == [] {
      assert a + b == b;
    } else {
      assert (a + b)[1..] == a[1..] + b;
      BytesSplit(a[1..], b);
    }
  }

  lemma DecodedLengthFits(b: seq<byte>)
    requires |b| == HEADER_SIZE
    ensures IsInt32(DecodeHeader(b).dataLength)
  {
    var field := b[0..4];
    SignedRoundTripBack([field[3], field[2], field[1], field[0]]);
    assert Pow256(2) == 65536;
    assert Pow256(4) == 0x1_0000_0000;
  }

  lemma {:induction false} HeaderStaysInt(m: Memory, s: seq<byte>)
    requires IsInt32(m.header.dataLength)
    ensures IsInt32(ParseAll(m, s).memory.header.dataLength)
    decreases |s|, Rank(m.state)
  {
    hide DecodeHeader, Payload;
    if m.state == WAIT_HEAD {
      if |s| >= HEADER_SIZE {
        DecodedLengthFits(s[..HEADER_SIZE]);
        HeaderStaysInt(Memory(WAIT_DATA, DecodeHeader(s[..HEADER_SIZE])), s[HEADER_SIZE..]);
      }
    } else if AbleToReadData(|s|, m.header.dataLength) {
      AbleIsEnough(|s|, m.header.dataLength);
      HeaderStaysInt(Memory(WAIT_HEAD, m.header), AfterData(s, m.header.dataLength));
    }
  }

  /** A parser at rest has room for one more byte. */
  lemma SettledHasRoom(m: Memory, buffered: seq<byte>)
    requires Settled(m, buffered) && IsInt32(m.header.dataLength) && |buffered| <= INT32_MAX
    ensures |buffered| < INT32_MAX
  {
    if m.state == WAIT_DATA {
      assert AbleToReadData(|buffered|, m.header.dataLength) ==> ParseAll(m, buffered).calls != [];
    } else {
      HeadHasRoom(m, buffered);
    }
  }

  lemma HeadHasRoom(m: Memory, buffered: seq<byte>)
    requires Settled(m, buffered) && m.state == WAIT_HEAD
    ensures |buffered| < HEADER_SIZE
  {
    if |buffered| >= HEADER_SIZE {
      RestIsShorter(m, buffered);
    }
  }

  lemma RestIsShorter(m: Memory, s: seq<byte>)
    requires m.state == WAIT_HEAD && |s| >= HEADER_SIZE
    ensures |ParseAll(m, s).rest| < |s|
  {
    hide DecodeHeader;
    RestIsNoLonger(Memory(WAIT_DATA, DecodeHeader(s[..HEADER_SIZE])), s[HEADER_SIZE..]);
  }

  lemma {:induction false} RestIsNoLonger(m: Memory, s: seq<byte>)
    ensures |ParseAll(m, s).rest| <= |s|
    decreases |s|, Rank(m.state)
  {
    hide DecodeHeader, Payload;
    if m.state == WAIT_HEAD {
      if |s| >= HEADER_SIZE {
        RestIsNoLonger(Memory(WAIT_DATA, DecodeHeader(s[..HEADER_SIZE])), s[HEADER_SIZE..]);
      }
    } else if AbleToReadData(|s|, m.header.dataLength) {
      AbleIsEnough(|s|, m.header.dataLength);
      RestIsNoLonger(Memory(WAIT_HEAD, m.header), AfterData(s, m.header.dataLength));
    }
  }

  /** Reads of one byte fit whatever the stream. */
  lemma {:induction false} BytesFit(m: Memory, buffered: seq<byte>, s: seq<byte>)
    requires Settled(m, buffered) && IsInt32(m.header.dataLength) && |buffered| <= INT32_MAX
    ensures ReadsFit(m, buffered, Bytes(s))
    decreases |s|
  {
    hide ParseAll, Settled;
    if s != [] {
      var chunk := [s[0]];
      SettledHasRoom(m, buffered);
      HeaderStaysInt(m, buffered + chunk);
      RestIsNoLonger(m, buffered + chunk);
      ParseSettles(m, buffered + chunk);
      var p := ParseAll(m, buffered + chunk);
      BytesFit(p.memory, p.rest, s[1..]);
      assert Bytes(s)[0] == chunk && Bytes(s)[1..] == Bytes(s[1..]);
    }
  }

  /** More calls, another memory or more leftover than before. */
  lemma AfterShows(first: Parsed, second: Parsed)
    requires first.memory.state == WAIT_HEAD && first.rest == [] && Shows(second)
    ensures After(first.calls, second) != first
  {
    if second.calls != [] {
      assert |first.calls + second.calls| > |first.calls|;
    }
  }

  /** Right behind the negative header parsing comes to the same as with the rest
      of the bytes, which it drops. */
  lemma {:induction false} CutBehindNegative(m: Memory, s: seq<byte>) returns (cut: nat)
    requires Discards(m, s)
    ensures cut < |s| && !Discards(m, s[..cut])
    ensures var first := ParseWide(m, s[..cut]);
            && ParseWide(m, s) == first
            && first.memory.state == WAIT_HEAD && first.rest == []
    decreases |s|, Rank(m.state)
  {
    hide DecodeHeader;
    if m.state == WAIT_HEAD {
      var tail := s[HEADER_SIZE..];
      var c := CutBehindNegative(Memory(WAIT_DATA, DecodeHeader(s[..HEADER_SIZE])), tail);
      cut := HEADER_SIZE + c;
      assert s[..cut][..HEADER_SIZE] == s[..HEADER_SIZE];
      assert s[..cut][HEADER_SIZE..] == tail[..c];
    } else if m.header.dataLength < 0 {
      cut := 0;
      assert AfterData(s, m.header.dataLength) == [] == AfterData(s[..0], m.header.dataLength);
    } else {
      var n := m.header.dataLength;
      var tail := AfterData(s, n);
      var c := CutBehindNegative(Memory(WAIT_HEAD, m.header), tail);
      cut := n + c;
      assert AfterData(s[..cut], n) == tail[..c];
      assert Payload(s[..cut], n) == Payload(s, n);
    }
  }

  /** Every way of reading the stream gives what parsing it means. */
  ghost predicate SplitIndependent(m: Memory, s: seq<byte>) {
    forall chunks: seq<seq<byte>> :: Concat(chunks) == s && ReadsFit(m, [], chunks) ==>
      Feed(m, [], chunks) == ParseWide(m, s)
  }

  lemma BytesShowDiscard(m: Memory, s: seq<byte>)
    requires Settled(m, []) && IsInt32(m.header.dataLength) && Discards(m, s)
    ensures ReadsFit(m, [], Bytes(s)) && Feed(m, [], Bytes(s)) != ParseWide(m, s)
  {
    hide ParseAll, ParseWide, Discards, Feed, Concat, Bytes, Settled, ReadsFit;
    BytesFit(m, [], s);
    var cut := CutBehindNegative(m, s);
    var head, tail := s[..cut], s[cut..];
    BytesFit(m, [], head);
    assert [] + head == head;
    FeedIsParse(m, [], Bytes(head));
    var first := ParseWide(m, head);
    FeedShows(first.memory, [], Bytes(tail));
    FeedAppend(m, [], Bytes(head), Bytes(tail));
    BytesSplit(head, tail);
    assert head + tail == s;
    AfterShows(first, Feed(first.memory, [], Bytes(tail)));
  }

  /** Every way of cutting the stream gives the calls, state and leftover of
      parsing it whole, exactly when no negative length has bytes behind it. */
  lemma SplitIndependentIff(m: Memory, s: seq<byte>)
    requires Settled(m, []) && IsInt32(m.header.dataLength)
    ensures SplitIndependent(m, s) <==> !Discards(m, s)
  {
    hide ParseAll, ParseWide, Discards, Feed, Concat, Settled, ReadsFit, Bytes;
    if Discards(m, s) {
      BytesShowDiscard(m, s);
    } else {
      forall chunks: seq<seq<byte>> | Concat(chunks) == s && ReadsFit(m, [], chunks)
        ensures Feed(m, [], chunks) == ParseWide(m, s)
      {
        assert [] + Concat(chunks) == s;
        FeedIsParse(m, [], chunks);
      }
    }
  }

  const NEGATIVE := Header(-1, 0, 0, 0)

  /** A header with length -1 and one byte: read at once the byte is lost, read
      by itself it is kept. */
  lemma NegativeLengthSplits()
    ensures var idle, s := Memory(WAIT_HEAD, NEGATIVE), EncodeHeader(NEGATIVE) + [0];
            && Discards(idle, s) && !SplitIndependent(idle, s)
            && ParseAll(idle, s).rest == []
            && Feed(idle, [], [EncodeHeader(NEGATIVE), [0]]).rest == [0]
  {
    hide EncodeHeader, DecodeHeader;
    var idle, head := Memory(WAIT_HEAD, NEGATIVE), EncodeHeader(NEGATIVE);
    HeaderRoundTrip(NEGATIVE);
    assert (head + [0])[..HEADER_SIZE] == head == head[..HEADER_SIZE];
    assert (head + [0])[HEADER_SIZE..] == [0] && head[HEADER_SIZE..] == [];
    assert Discards(Memory(WAIT_DATA, NEGATIVE), [0]);
    IdleOnEmpty(NEGATIVE);
    SplitIndependentIff(idle, head + [0]);
    var first := ParseAll(idle, head);
    assert ParseAll(Memory(WAIT_DATA, NEGATIVE), []).rest == [];
    assert first.memory == idle && first.rest == [];
    assert ParseAll(idle, [0]) == Parsed([], idle, [0]);
    assert [] + head == head && [] + [0] == [0];
    assert [head, [0]][1..] == [[0]] && [[0]][1..] == [];
    assert Feed(idle, [], [[0]]).rest == [0];
  }

  lemma IdleOnEmpty(h: Header)
    ensures Settled(Memory(WAIT_HEAD, h), [])
  {
  }

  // ------------------------------------------------------------- round trip

  datatype Message = Message(header: Header, data: seq<byte>) {
    predicate Valid() {
      |data| <= INT32_MAX && IsInt32(header.requestType) && IsInt32(header.uid) && IsInt32(header.stamp)
    }

    function Sent(): Call {
      Call(header.(dataLength := |data|), data)
    }
  }

  function Stream(messages: seq<Message>): seq<byte> {
    if messages == [] then []
    else Formatted(messages[0].header, messages[0].data) + Stream(messages[1..])
  }

  function Calls(messages: seq<Message>): seq<Call> {
    if messages == [] then [] else [messages[0].Sent()] + Calls(messages[1..])
  }

  /** Parsing one formatted message off the front. */
  lemma ParseFormatted(h: Header, message: Message, rest: seq<byte>)
    requires message.Valid()
    ensures var s := Formatted(message.header, message.data) + rest;
            var idle := Memory(WAIT_HEAD, message.Sent().header);
            && ParseWide(Memory(WAIT_HEAD, h), s) == After([message.Sent()], ParseWide(idle, rest))
            && (Discards(Memory(WAIT_HEAD, h), s) <==> Discards(idle, rest))
  {
    hide EncodeHeader, DecodeHeader;
    var s := Formatted(message.header, message.data) + rest;
    var sent := message.Sent().header;
    HeaderRoundTrip(sent);
    assert s[..HEADER_SIZE] == EncodeHeader(sent);
    var tail := s[HEADER_SIZE..];
    assert tail == message.data + rest;
    assert tail[..|message.data|] == message.data;
    assert AfterData(tail, |message.data|) == rest;
  }

  lemma {:induction false} ParseStream(h: Header, messages: seq<Message>)
    requires forall i :: 0 <= i < |messages| ==> messages[i].Valid()
    ensures !Discards(Memory(WAIT_HEAD, h), Stream(messages))
    ensures var p := ParseWide(Memory(WAIT_HEAD, h), Stream(messages));
            p.calls == Calls(messages) && p.memory.state == WAIT_HEAD && p.rest == []
    decreases |messages|
  {
    if messages != [] {
      ParseFormatted(h, messages[0], Stream(messages[1..]));
      ParseStream(messages[0].Sent().header, messages[1..]);
    }
  }

  /** Formatted messages, however many, cut anywhere, come out as the calls they
      announce. */
  lemma ParserRoundTrip(h: Header, messages: seq<Message>, chunks: seq<seq<byte>>)
    requires forall i :: 0 <= i < |messages| ==> messages[i].Valid()
    requires Concat(chunks) == Stream(messages) && ReadsFit(Memory(WAIT_HEAD, h), [], chunks)
    ensures var fed := Feed(Memory(WAIT_HEAD, h), [], chunks);
            fed.calls == Calls(messages) && fed.memory.state == WAIT_HEAD && fed.rest == []
  {
    hide ParseWide, Discards, Feed, Stream, Calls, Concat, ReadsFit, Settled;
    ParseStream(h, messages);
    IdleOnEmpty(h);
    assert [] + Concat(chunks) == Concat(chunks);
    FeedIsParse(Memory(WAIT_HEAD, h), [], chunks);
  }
}
