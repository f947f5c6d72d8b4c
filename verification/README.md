# A model of the chat servers' reactor library and framing, with proofs

The servers of this repository run on a vendored copy of the muduo library and
frame their messages with a small parser of their own on top of its byte buffer.
This project models the parts of both whose correctness is not visible from a
single function, and proves what the code's asserts, comments and tests promise,
for all inputs and all runs.

* **Calendar** (`Date.dfy`, `TimeZone.dfy`). Julian day numbers in both
  directions, UTC fields for times before and after 1970, and local time with the
  repeated hour of a fall-back.
* **Bytes** (`Endian.dfy`, `Buffer.dfy`). Network byte order, and the sliding
  buffer on a real array: every method does to the content what it would do to a
  plain byte sequence.
* **Framing** (`ProtobufCodec.dfy`, `Adler32.dfy`, `Header.dfy`,
  `BasicParser.dfy`, `Chunks.dfy`). Both parsers as loops over the buffer, proved
  against recursive specifications that do not see how the network cut the bytes.
* **Timers** (`SortedEntries.dfy`, `TimerQueue.dfy`, `TimerQueueRuns.dfy`,
  `TimerQueueClass.dfy`). Two indexes, callbacks that add and cancel at will,
  reused addresses, and the timerfd.
* **Event loop** (`EventLoop.dfy`, `EventLoopClass.dfy`). The cross-thread queue
  and its eventfd as atomic steps of the loop and of any number of threads.
* **Pollers** (`Pollers.dfy`, `PollerClass.dfy`). The `poll` table with negated
  descriptors and swap-with-last removal, the `epoll` registration states, and
  both on one run.
* **Connections** (`TcpConnection.dfy`, `TcpConnectionClass.dfy`). The output path
  over the real buffer, with partial writes and the deferred half-close.
* **Blocking queues** (`MonitorQueue.dfy`, `MonitorQueueClass.dfy`). The bounded
  queue and the thread pool as monitors with one `notify` an operation.
* **Logging** (`LogStream.dfy`, `AsyncLogging.dfy`, `AsyncLoggingClass.dfy`).
  Integer printing in place into a fixed buffer, and the double-buffered logger.

`CppArithmetic.dfy` has truncating division and 32-bit casts, `Wrappers.dfy` the
optional value. Where the source updates an object in place there is a class
(`...Class.dfy`, or in the file itself) whose methods have the source's branches
and loops. Each is proved to move the object exactly by a step on values; the
invariants and run theorems are about these steps and therefore about the objects.

Threads are interleaved atomic steps. A callback is an arbitrary finite script of
calls. Results of system calls, clocks and allocated addresses are parameters.
What the source asserts of its callers is a precondition, and what it asserts of
itself is proved.

## What turned out false, and exactly when it holds

* A date round trips exactly from 1 March -4800 on; 29 February -4800 collides
  with the next day (`Date.RoundTripIff`). Accordingly `tm_yday` is wrong by one in
  the year -4800 and right in all later years (`TimeZone.YdayIff`,
  `TimeZone.YdayMisses`).
* `weekDay` truncates below day -1: `tm_wday` is the day of the week, and in range,
  exactly for day numbers from -1 on and those below that are one less than a
  multiple of 7; the first second of day -3 has `tm_wday` -2 (`Date.WeekDayIff`,
  `TimeZone.WdayLeavesRange`). All other fields are always in range
  (`TimeZone.UtcRoundTrip`).
* Local time round trips at every second exactly when summer time is 3600 s ahead
  or never ends: the constant 3600 stands for the shift. With another shift the
  first pass of a repeated hour is off by the difference
  (`TimeZone.LocalRoundTripError`, `TimeZone.LocalRoundTripIff`; half an hour in
  `TimeZone.HalfHourMisses`). Transitions need only be further apart than the shift.
* The timerfd never goes off sooner than 100 microseconds after it is set, so the
  alarm covers the earliest expiration or that moment, whichever is later
  (`TimerQueueRuns.AlarmCovers`). It is in time exactly when the expiration was that
  far ahead when the alarm was set (`TimerQueueRuns.AlarmInTimeIff`); a timer added
  49 microseconds ahead is late (`TimerQueueRuns.AlarmLate`). It is never early for
  the timer it was set for (`TimerQueueRuns.AlarmWasSet`).
* A cancelled timer runs in no later batch exactly when its addition had run before
  the cancel. `addTimer` in another thread only queues the addition; a cancel in the
  loop that overtakes it finds nothing and is lost
  (`TimerQueueRuns.CancelledNeverRunsAgainIff`, `TimerQueueRuns.CancelOvertakesAdd`).
* A negative length in a header makes the parser drop all that is buffered, since
  the length converts to a huge unsigned number and asserts are compiled out of
  release builds. What is dropped depends on the cutting, so independence holds
  exactly when no negative length has bytes behind it
  (`BasicParsers.SplitIndependentIff`, `BasicParsers.NegativeLengthSplits`).
* A frame made by `fillEmptyBuffer` is delivered exactly when its size is at most
  64 MiB and the raw callback lets it through (`ProtobufCodec.FrameDeliveredIff`,
  `ProtobufCodec.OversizedIsRefused`).
* The two pollers agree exactly when no streak of updates without events has left
  them apart: after an update with events none or an odd number of them, from the
  start one or an even number (`Pollers.SameTableIff`, `Pollers.TablesDiffer`).
* No functor is ever stranded exactly when `loop()` starts with an empty list or is
  already being told (`EventLoops.NeverStrandedIff`): what the loop's own thread
  queues before `loop()` is not signalled to the first `poll`
  (`EventLoops.QueuedBeforeLoopSleeps`).
* PollPoller asserts that the slot of a removed channel is negated. In every run it
  is exactly when the channel had another update since it was added than one without
  events (`Pollers.RemoveAssertIff`); `disableAll` on a channel never enabled, as in
  the destructor of `Acceptor` (`net/Acceptor.cc:40-45`), leaves it as it is
  (`Pollers.BareRemovalFails`). The removal itself is right all the same, and
  EPollPoller has no such assert.
* `connectDestroyed` removes a channel without interests, as `Channel::remove`
  asserts, exactly when the connection is not shutting down
  (`TcpConnections.DestroyLeavesNothingIff`, `TcpConnections.DestroyKeepsReading`).
* The logger does not keep lines at least as long as a buffer
  (`AsyncLoggings.AppendedIsKept`). Of what it keeps, text is missing from the file
  exactly when a batch has more than 25 buffers and those after the second are not
  all empty (`AsyncLoggings.LostIff`, `AsyncLoggings.TextIsLost`).

The comment before `readInt64` asks for the size of a 32-bit integer; the code
asserts, and the model requires, 8 bytes (`net/Buffer.h:250-292`).

## Model

| member | source | states |
|---|---|---|
| Date.DecodeEncode | third-party/muduo/muduo/base/Date.cc:21-43 | every day number from -32044 on decodes to a real Gregorian date, and that date encodes back to it |
| Date.EncodeDecode | third-party/muduo/muduo/base/Date.cc:21-43 | every real date from 1 March -4800 on decodes back from its day number, so no two dates share one |
| Date.DecodeIsValidIff | third-party/muduo/muduo/base/Date.cc:30-43 | the decoded date is a real one if and only if the day number is at least -32044 |
| Date.RoundTripIff | third-party/muduo/muduo/base/Date.cc:21-43 | a date survives the round trip if and only if it is not before 1 March -4800 |
| Date.LeapDayOfEpochCollides | third-party/muduo/muduo/base/Date.cc:21-28 | the concrete failure: 29 February -4800 has the day number of the next day |
| Date.Successor | third-party/muduo/muduo/base/Date.cc:21-28 | the next date by month lengths and the leap rule has the next day number |
| Date.DecodeIsCalendarWalk | third-party/muduo/muduo/base/Date.cc:30-43 | decoding day j + n gives the date reached from that of j by n single steps through the calendar |
| Date.EncodeKeepsOrder | third-party/muduo/muduo/base/Date.cc:21-28 | day numbers order dates exactly as year, month, day do |
| Date.DecodeFitsIff | third-party/muduo/muduo/base/Date.cc:30-43 | no intermediate of the decoder overflows a 32-bit int if and only if the day number is between -536902956 and 536838867 |
| Date.WeekDayIff | third-party/muduo/muduo/base/Date.h:95-99 | `weekDay` is the day of the week by the calendar, and in the range 0 to 6, if and only if the day number is at least -1 or one less than a multiple of 7 |
| Date.WeekDayTruncates | third-party/muduo/muduo/base/Date.h:95-99 | the concrete failure: day -3 has week day -2 instead of 5 |
| Date.WeekDayAdvancesIff | third-party/muduo/muduo/base/Date.h:95-99 | consecutive days have consecutive week days if and only if the first is at least -1 or two less than a multiple of 7 |
| TimeZone.FillHMS | third-party/muduo/muduo/base/TimeZone.cc:76-82 | hours, minutes and seconds of the day; nothing else changes |
| TimeZone.ToUtcTime | third-party/muduo/muduo/base/TimeZone.cc:322-348 | the method computes the specified fields, truncating division and correction included |
| TimeZone.UtcTimeFields | third-party/muduo/muduo/base/TimeZone.cc:322-348 | the fields mean what they are called: date of the floor day, time of day that sums to the floor remainder, for times before 1970 too; the week day is that of the calendar if and only if the day number is at least -1 or one less than a multiple of 7 |
| TimeZone.WdayRangeIff | third-party/muduo/muduo/base/TimeZone.cc:339-339 | `tm_wday` is between 0 and 6 if and only if the day number is at least -1 or one less than a multiple of 7 |
| TimeZone.WdayLeavesRange | third-party/muduo/muduo/base/TimeZone.cc:339-339 | the concrete failure: the first second of day -3 has `tm_wday` -2 |
| TimeZone.UtcRoundTrip | third-party/muduo/muduo/base/TimeZone.cc:322-354 | every supported second, negative ones included, comes back, with a valid date, time of day and `tm_yday`; all fields are in range if and only if the week day is |
| TimeZone.UtcRoundTripBack | third-party/muduo/muduo/base/TimeZone.cc:322-354 | every valid date and time of day comes back from its second |
| TimeZone.YdayIff | third-party/muduo/muduo/base/TimeZone.cc:341-345 | `tm_yday` counts the days since 1 January, by adding up months, if and only if the year is not -4800, and is between 0 and 365 always |
| TimeZone.YdayMisses | third-party/muduo/muduo/base/TimeZone.cc:341-345 | the concrete failure: 1 March -4800 has `tm_yday` 59 instead of 60 |
| TimeZone.LowerBound | third-party/muduo/muduo/base/TimeZone.cc:238-238 | the binary search ends on the first transition not below the key |
| TimeZone.FindLocaltime | third-party/muduo/muduo/base/TimeZone.cc:222-255 | on any sorted table the iterator ends on the first transition at the key, else on the last before it, else on the first local type |
| TimeZone.ToLocalTime | third-party/muduo/muduo/base/TimeZone.cc:277-297 | UTC fields of the shifted second with the governing type's offset and DST flag |
| TimeZone.FromLocalTime | third-party/muduo/muduo/base/TimeZone.cc:299-320 | the method computes the specified second, the ambiguous-hour branch included |
| TimeZone.TypesOnBothSides | third-party/muduo/muduo/base/TimeZone.cc:223-320 | searching by wall clock finds the type that governs the second, or the next one exactly when the second is in the first pass of a repeated hour |
| TimeZone.LocalTimeMeans | third-party/muduo/muduo/base/TimeZone.cc:277-297 | local time shows the second that is the governing offset away and says which offset and DST flag; its fields are valid |
| TimeZone.CorrectionIff | third-party/muduo/muduo/base/TimeZone.cc:299-320 | on any table and for any fields: an hour is taken off if and only if the fields say summer time while the second without that is standard time and shows the same hour and minute |
| TimeZone.LocalRoundTripError | third-party/muduo/muduo/base/TimeZone.cc:299-320 | for alternating zones with any shift: the correction fires if and only if the second is in a first pass, and the round trip is off by shift - 3600 there and exact elsewhere |
| TimeZone.LocalRoundTrip | third-party/muduo/muduo/base/TimeZone.cc:277-320 | with a one-hour shift `fromLocalTime(toLocalTime(t)) == t` for every supported t, both passes of a repeated hour included |
| TimeZone.LocalRoundTripIff | third-party/muduo/muduo/base/TimeZone.cc:277-320 | an alternating zone round trips at every second if and only if its shift is 3600 s or it never falls back |
| TimeZone.HalfHourMisses | third-party/muduo/muduo/base/TimeZone.cc:299-320 | the concrete failure: with summer time half an hour ahead, the second before it ends comes back half an hour early |
| Endian.BigEndianRoundTrip | third-party/muduo/muduo/net/Buffer.h:221-323 | unsigned integers of any width read back from network order |
| Endian.FromBigEndianRoundTrip | third-party/muduo/muduo/net/Buffer.h:221-323 | every byte string is the network form of the integer read from it |
| Endian.BigEndianAt | third-party/muduo/muduo/net/Buffer.h:221-323 | the most significant byte comes first |
| Endian.TwosComplement | third-party/muduo/muduo/net/Buffer.h:221-323 | negative integers go as their two's complement |
| Endian.SignedRoundTrip | third-party/muduo/muduo/net/Buffer.h:221-323 | signed integers, negatives included, read back |
| Endian.SignedRoundTripBack | third-party/muduo/muduo/net/Buffer.h:286-323 | whatever is read is in range and encodes to the bytes it was read from |
| Buffers.Buffer.constructor | third-party/muduo/muduo/net/Buffer.h:48-56 | empty, with the initial writable and 8 prependable bytes |
| Buffers.Buffer.Swap | third-party/muduo/muduo/net/Buffer.h:61-66 | storage and both indexes change places |
| Buffers.Buffer.Retrieve | third-party/muduo/muduo/net/Buffer.h:113-124 | drops the first bytes and keeps the rest; an emptied buffer has its prependable bytes back |
| Buffers.Buffer.RetrieveAll | third-party/muduo/muduo/net/Buffer.h:153-157 | empty, with 8 prependable bytes |
| Buffers.Buffer.RetrieveAsString | third-party/muduo/muduo/net/Buffer.h:164-170 | the result followed by what is left is what there was |
| Buffers.Buffer.Append | third-party/muduo/muduo/net/Buffer.h:182-187 | the content is the old one followed by the data, wherever the storage went; new storage if and only if the free bytes do not suffice |
| Buffers.Buffer.WriteAtEnd | third-party/muduo/muduo/net/Buffer.h:203-213 | copying behind the content extends it |
| Buffers.Buffer.EnsureWritableBytes | third-party/muduo/muduo/net/Buffer.h:194-201 | room is there, the content is the same, and new storage is taken if and only if the free bytes do not suffice, then no more than asked for |
| Buffers.Buffer.Unwrite | third-party/muduo/muduo/net/Buffer.h:215-219 | drops the last bytes |
| Buffers.Buffer.AppendInt | third-party/muduo/muduo/net/Buffer.h:224-248 | the content is extended by the network form of the integer |
| Buffers.Buffer.ReadInt | third-party/muduo/muduo/net/Buffer.h:254-284 | an integer in range whose network form was the front of the content, which is gone |
| Buffers.Buffer.PeekInt | third-party/muduo/muduo/net/Buffer.h:290-323 | the integer at the front |
| Buffers.Buffer.PrependInt | third-party/muduo/muduo/net/Buffer.h:328-352 | the network form of the integer comes before the content |
| Buffers.Buffer.Prepend | third-party/muduo/muduo/net/Buffer.h:354-360 | the data comes before the content |
| Buffers.Buffer.Shrink | third-party/muduo/muduo/net/Buffer.h:362-369 | the same content in new storage of exactly the size that is needed, with 8 prependable and enough writable bytes |
| Buffers.Buffer.MakeSpace | third-party/muduo/muduo/net/Buffer.h:390-409 | keeps the content and gives room: by the overlapping move in the same storage if the free bytes suffice, else by growing to exactly what is asked; the assert of the moving branch holds |
| Buffers.CopyDown | third-party/muduo/muduo/net/Buffer.h:402-404 | front-to-back copying onto an earlier overlapping place moves the bytes intact |
| Buffers.Buffer.ReadFd | third-party/muduo/muduo/net/Buffer.cc:25-57 | whatever the kernel put in the two areas is appended once, in order; an error changes nothing |
| Adler32.ClosedForm | third-party/muduo/muduo/net/protobuf/ProtobufCodecLite.cc:195-199 | the running sums are those of the definition in section 8.2 of RFC 1950: plain and weighted byte sums modulo 65521 |
| Adler32.ChecksumIs | third-party/muduo/muduo/net/protobuf/ProtobufCodecLite.cc:195-199 | the weighted byte sum modulo 65521 is the high half of the checksum, the plain one the low half, as in section 8.2 of RFC 1950 |
| Adler32.ChecksumOfAbc | third-party/muduo/muduo/net/protobuf/ProtobufCodecLite.cc:195-199 | the checksum of the bytes 97, 98, 99 is 0x024D0127 |
| Adler32.SingleChangeDetected | third-party/muduo/muduo/net/protobuf/ProtobufCodecLite.cc:195-207 | changing any one byte changes the checksum |
| ProtobufCodec.SerializeToBuffer | third-party/muduo/muduo/net/protobuf/ProtobufCodecLite.cc:104-142 | the payload is appended |
| ProtobufCodec.FillEmptyBuffer | third-party/muduo/muduo/net/protobuf/ProtobufCodecLite.cc:42-56 | an empty buffer becomes exactly size, tag, payload, checksum |
| ProtobufCodec.OnMessage | third-party/muduo/muduo/net/protobuf/ProtobufCodecLite.cc:58-97 | the loop delivers the messages, reports the error and leaves the bytes that the recursive specification says |
| ProtobufCodec.HeadIsStable | third-party/muduo/muduo/net/protobuf/ProtobufCodecLite.cc:64-94 | bytes that arrive later never change what a complete head is |
| ProtobufCodec.DrainAppend | third-party/muduo/muduo/net/protobuf/ProtobufCodecLite.cc:58-97 | a call on some bytes and a call on the rest with more is one call on all of them |
| ProtobufCodec.SplitIndependence | third-party/muduo/muduo/net/protobuf/ProtobufCodecLite.cc:58-97 | any bytes, good or bad, cut into reads in any way give the same messages and the same leftover, and the last call the same error |
| ProtobufCodec.ErrorReportedIff | third-party/muduo/muduo/net/protobuf/ProtobufCodecLite.cc:58-97 | some call reports an error if and only if the whole has one |
| ProtobufCodec.ErrorStays | third-party/muduo/muduo/net/protobuf/ProtobufCodecLite.cc:66-94 | after an error every later call reports the same one |
| ProtobufCodec.NothingPastBadFrame | third-party/muduo/muduo/net/protobuf/ProtobufCodecLite.cc:66-94 | behind a refused head nothing is ever delivered or consumed; each later call reports the same error |
| ProtobufCodec.ParseOutcome | third-party/muduo/muduo/net/protobuf/ProtobufCodecLite.cc:209-242 | for every buffer of at least the minimal length, when each outcome occurs: good if and only if checksum, tag and payload are, and then with that message; a parse error, an unknown type and a checksum error each if and only if theirs is the first test that fails |
| ProtobufCodec.ParseFramed | third-party/muduo/muduo/net/protobuf/ProtobufCodecLite.cc:201-242 | any body framed with its checksum passes that test, is refused as unknown if and only if it does not start with the tag, and else parses as its payload does |
| ProtobufCodec.ParseFrame | third-party/muduo/muduo/net/protobuf/ProtobufCodecLite.cc:201-242 | a frame passes checksum and tag test and parses to its message |
| ProtobufCodec.HeadOutcome | third-party/muduo/muduo/net/protobuf/ProtobufCodecLite.cc:64-94 | when a call waits for more input, when it reports the length, and what it skips, for every input |
| ProtobufCodec.HeadOfFramed | third-party/muduo/muduo/net/protobuf/ProtobufCodecLite.cc:64-94 | what becomes of any framed body at the head: too long, rejected by the raw callback, of another type, not parsed, or a message |
| ProtobufCodec.HeadOfFrame | third-party/muduo/muduo/net/protobuf/ProtobufCodecLite.cc:64-94 | a frame up to 64 MiB is recognised unless the raw callback rejects it, a longer one is refused, 32-bit wrap of the size field included |
| ProtobufCodec.ForeignFrameStops | third-party/muduo/muduo/net/protobuf/ProtobufCodecLite.cc:58-97 | a frame that does not start with the tag, behind good ones and in any cuts: these are delivered, the last call reports an unknown type, nothing behind it is taken |
| ProtobufCodec.FrameDeliveredIff | third-party/muduo/muduo/net/protobuf/ProtobufCodecLite.cc:42-97 | a frame is delivered if and only if its size is at most 64 MiB and the raw callback lets it through |
| ProtobufCodec.OversizedIsRefused | third-party/muduo/muduo/net/protobuf/ProtobufCodecLite.cc:42-97 | the concrete failure: a message of 64 MiB makes a frame that is refused |
| ProtobufCodec.DrainFrames | third-party/muduo/muduo/net/protobuf/ProtobufCodecLite.cc:58-97 | frames in front of any bytes yield their messages, less those the raw callback rejects, and then what these bytes yield |
| ProtobufCodec.CodecRoundTrip | third-party/muduo/muduo/net/protobuf/ProtobufCodecLite.cc:42-97 | frames of any messages, cut anywhere by the network, come out as these messages in order, less exactly those the raw callback rejects, with no error from any call |
| ProtobufCodec.DamageDetected | third-party/muduo/muduo/net/protobuf/ProtobufCodecLite.cc:201-242 | a valid frame with one byte of tag, payload or checksum changed is refused with a checksum error |
| Headers.HeaderLayout | base/include/Header.h:14-17 | where each byte of each of the four ints lies, least significant first |
| Headers.HeaderRoundTrip | base/src/Header.cc:7-14 | the 16 bytes of a header read back to it, negative fields included |
| Headers.FormatMessage | base/include/Header.h:43-67 | header with the data length set, then the data |
| BasicParsers.BasicParser.ParseHead | base/src/BasicParser.cc:28-33 | the header is read and taken out |
| BasicParsers.BasicParser.ParseData | base/src/BasicParser.cc:35-37 | the announced bytes are taken out; a negative length drops everything |
| BasicParsers.BasicParser.Parse | base/src/BasicParser.cc:7-26 | the loop terminates and makes the calls, and leaves the state and bytes, of the recursive specification |
| BasicParsers.ParseSettles | base/src/BasicParser.cc:7-26 | after `parse` another `parse` has nothing to do |
| BasicParsers.CastKeepsParse | base/src/BasicParser.cc:44-48 | up to 2 GiB buffered at a call the cast to `int` makes no difference |
| BasicParsers.LargeBufferStalls | base/src/BasicParser.cc:44-48 | from 2 to 4 GiB buffered the cast makes the parser wait, although the data is there |
| BasicParsers.NegativeDropsAll | base/src/BasicParser.cc:35-48 | a negative length makes one call without data and drops all that is buffered |
| BasicParsers.ParseAppend | base/src/BasicParser.cc:7-26 | unless bytes are discarded, parsing in two steps is parsing at once, for input of any length |
| BasicParsers.FeedIsParse | base/src/BasicParser.cc:7-48 | unless bytes are discarded, every way of cutting a stream of any length, with at most 2 GiB buffered at each call, gives the calls, state and leftover of parsing the whole |
| BasicParsers.CutBehindNegative | base/src/BasicParser.cc:35-48 | behind a negative length with bytes after it: the cut up to which parsing comes to the same as with these bytes |
| BasicParsers.BytesFit | base/src/BasicParser.cc:44-48 | reads of one byte each never buffer more than an `int` counts |
| BasicParsers.NegativeLengthSplits | base/src/BasicParser.cc:35-48 | the concrete failure: behind a header with length -1 one byte is lost when read with it and kept when read by itself |
| BasicParsers.SplitIndependentIff | base/src/BasicParser.cc:7-48 | for a stream of any length the result is independent of the cutting if and only if no negative length is met with bytes buffered behind it |
| BasicParsers.ParserRoundTrip | base/src/BasicParser.cc:7-48 | messages written by `formatMessage`, however many, cut anywhere with at most 2 GiB buffered at each call, come out as one call each with their header and data |
| LogStreams.NumeralReadsBack | third-party/muduo/muduo/base/LogStream.cc:46-85 | digits read back to the number in base 10 and 16, without superfluous leading zero |
| LogStreams.DecimalRoundTrip | third-party/muduo/muduo/base/LogStream.cc:46-67 | the text of any integer, sign included, reads back to it |
| LogStreams.NumeralLength | third-party/muduo/muduo/base/LogStream.cc:46-85 | fewer than base to the k needs at most k digits |
| LogStreams.DecimalFits | third-party/muduo/muduo/base/LogStream.cc:224-234 | every signed or unsigned 64-bit integer, the most negative included, takes at most 20 characters |
| LogStreams.HexFits | third-party/muduo/muduo/base/LogStream.cc:224-234 | a 64-bit pointer takes at most 16 digits |
| LogStreams.Reverse | third-party/muduo/muduo/base/LogStream.cc:64-64 | the in-place reversal, and nothing outside it changes |
| LogStreams.Convert | third-party/muduo/muduo/base/LogStream.cc:46-67 | writes exactly the decimal text and its terminator, touching nothing before it |
| LogStreams.ConvertHex | third-party/muduo/muduo/base/LogStream.cc:69-85 | the same in base 16 |
| LogStreams.LogStream.FormatInteger | third-party/muduo/muduo/base/LogStream.cc:236-244 | appends the whole decimal text when 48 bytes are free, else nothing; never passes the end |
| LogStreams.LogStream.FormatPointer | third-party/muduo/muduo/base/LogStream.cc:294-306 | the same for `0x` and the digits of a pointer |
| LogStreams.FixedBuffer.Append | third-party/muduo/muduo/base/LogStream.h:39-47 | all of the text when it is shorter than what is free, else none of it |
| LogStreams.FixedBuffer.Add | third-party/muduo/muduo/base/LogStream.h:55-55 | moves the end of the text by any length; it stays inside the buffer if and only if the length is below what was free |
| SortedEntries.Insert | third-party/muduo/muduo/net/TimerQueue.h:57-58 | sorted again, one entry more; says when the first changes |
| SortedEntries.Erase | third-party/muduo/muduo/net/TimerQueue.h:57-58 | sorted, that entry less |
| SortedEntries.DueCount | third-party/muduo/muduo/net/TimerQueue.cc:187-190 | the search with the greatest pointer value stops exactly behind the entries due now |
| TimerQueues.CreateKeeps | third-party/muduo/muduo/net/TimerQueue.cc:116-124 | the queue invariant survives creating a timer at any free address |
| TimerQueues.AddKeeps | third-party/muduo/muduo/net/TimerQueue.cc:132-141 | and adding it, the alarm reset when it becomes the earliest |
| TimerQueues.CancelKeeps | third-party/muduo/muduo/net/TimerQueue.cc:143-161 | and cancelling with any handle, valid or stale, also from a callback |
| TimerQueues.BeginKeeps | third-party/muduo/muduo/net/TimerQueue.cc:163-202 | and collecting the expired timers |
| TimerQueues.ResetKeeps | third-party/muduo/muduo/net/TimerQueue.cc:204-222 | and each round of `reset`, which never inserts an entry twice |
| TimerQueues.EndKeeps | third-party/muduo/muduo/net/TimerQueue.cc:204-233 | and the whole of `reset`, which leaves the alarm set for what is queued |
| TimerQueues.TickKeeps | third-party/muduo/muduo/net/TimerQueue.cc:41-81 | and the passing of time |
| TimerQueueRuns.IndexesAgree | third-party/muduo/muduo/net/TimerQueue.cc:145-145 | `timers_` and `activeTimers_` hold the same timers: equal size, and the same handles |
| TimerQueueRuns.Conservation | third-party/muduo/muduo/net/TimerQueue.cc:132-259 | in every run each timer ever created is in exactly one of queued, in the batch, waiting to be added and deleted, and the four counts add up |
| TimerQueueRuns.ExpiredExactly | third-party/muduo/muduo/net/TimerQueue.cc:183-202 | `getExpired` removes exactly the entries not after now, in order of expiration and then address |
| TimerQueueRuns.BatchStaysAlive | third-party/muduo/muduo/net/TimerQueue.cc:170-178 | whatever callbacks and other threads do, no timer of the running batch is deleted or changed before `reset` |
| TimerQueueRuns.ResetOutcome | third-party/muduo/muduo/net/TimerQueue.cc:204-233 | every repeating timer of the batch not cancelled meanwhile is queued at the batch time plus its interval, every other one is deleted, queued timers are untouched |
| TimerQueueRuns.RepeatsIff | third-party/muduo/muduo/net/TimerQueue.cc:163-222 | over a whole `handleRead` a timer of the batch is queued again, one interval on, if and only if it repeats and no cancel named it during the callbacks; else it is deleted |
| TimerQueueRuns.MarkedIff | third-party/muduo/muduo/net/TimerQueue.cc:156-160 | a timer of the running batch is marked if and only if it was or a callback cancels it |
| TimerQueueRuns.CancelledNeverRunsAgainIff | third-party/muduo/muduo/net/TimerQueue.cc:143-161 | in every run, for the handle of any live timer: no continuation has the timer in a later batch, even when it cancels itself, if and only if its addition had already run when it was cancelled |
| TimerQueueRuns.CancelOvertakesAdd | third-party/muduo/muduo/net/TimerQueue.cc:116-161 | the concrete failure: created by another thread, cancelled by the loop before the queued addition, the timer is added and collected |
| TimerQueueRuns.CancelTouchesOne | third-party/muduo/muduo/net/TimerQueue.cc:143-161 | a cancel removes the queued timer it names and no other; outside `handleRead` it leaves nothing else behind |
| TimerQueueRuns.StaleCancelIsHarmless | third-party/muduo/muduo/net/TimerQueue.cc:143-161 | cancelling with the handle of a deleted timer changes nothing but a mark in the whole further run, although its address may have been reused |
| TimerQueueRuns.AlarmCovers | third-party/muduo/muduo/net/TimerQueue.cc:132-141 | in every run, outside `handleRead` and with timers queued, the alarm has fired or will by the earliest expiration or 100 us from when it was set |
| TimerQueueRuns.AlarmChanges | third-party/muduo/muduo/net/TimerQueue.cc:41-81 | all that happens to the alarm: only adding the earliest timer and the end of `handleRead` set it, at the expiration of the earliest timer or 100 us from now; only time sets it off, only reading clears it |
| TimerQueueRuns.AlarmWasSet | third-party/muduo/muduo/net/TimerQueue.cc:132-141 | in every run, cancels included, an armed alarm is exactly what was right for the earliest timer at the moment it was set |
| TimerQueueRuns.AlarmIsExact | third-party/muduo/muduo/net/TimerQueue.cc:132-141 | in every run without cancels, outside `handleRead`, an armed alarm goes off exactly at the earliest expiration or 100 us from when it was set, whichever is later |
| TimerQueueRuns.AlarmInTimeIff | third-party/muduo/muduo/net/TimerQueue.cc:41-81 | in every run an armed alarm goes off by the earliest expiration if and only if that was at least 100 us ahead when the alarm was set |
| TimerQueueRuns.AlarmLate | third-party/muduo/muduo/net/TimerQueue.cc:41-81 | the concrete failure: a timer added 49 us ahead has its alarm 51 us late |
| TimerQueueRuns.DueTimerIsCollected | third-party/muduo/muduo/net/TimerQueue.cc:163-202 | once that time has passed the alarm has fired and the next batch starts with the earliest timer |
| TimerQueueClass.TimerQueue.constructor | third-party/muduo/muduo/net/TimerQueue.cc:91-102 | starts in the state all runs start from |
| TimerQueueClass.TimerQueue.AddTimer | third-party/muduo/muduo/net/TimerQueue.cc:116-124 | allocates and numbers the timer as the create step |
| TimerQueueClass.TimerQueue.AddTimerInLoop | third-party/muduo/muduo/net/TimerQueue.cc:132-141 | the object moves exactly by the add step and keeps the queue invariant; an earlier alarm is set when needed |
| TimerQueueClass.TimerQueue.CancelInLoop | third-party/muduo/muduo/net/TimerQueue.cc:143-161 | the object moves exactly by the cancel step, from a callback or not, and keeps the queue invariant |
| TimerQueueClass.TimerQueue.HandleRead | third-party/muduo/muduo/net/TimerQueue.cc:163-181 | for any callback scripts: the read step, the scripts one after the other, the end step |
| TimerQueueClass.TimerQueue.GetExpired | third-party/muduo/muduo/net/TimerQueue.cc:183-202 | cuts the due entries off both indexes |
| TimerQueueClass.TimerQueue.Reset | third-party/muduo/muduo/net/TimerQueue.cc:204-233 | the loop and the final rearming are the end step |
| TimerQueueClass.TimerQueue.InsertTimer | third-party/muduo/muduo/net/TimerQueue.cc:235-259 | enters both indexes and tells whether the earliest changed |
| EventLoops.StepKeeps | third-party/muduo/muduo/net/EventLoop.cc:103-171 | order and wake-up invariant survive every atomic step of the loop and of any other thread |
| EventLoops.LeavesIffAsked | third-party/muduo/muduo/net/EventLoop.cc:103-146 | in every run the test of the loop leaves if and only if `quit` was called, by whatever thread, and polls otherwise |
| EventLoops.LeftWasAsked | third-party/muduo/muduo/net/EventLoop.cc:103-146 | in every run the loop has left only if it was asked to |
| EventLoops.QuitIsAsked | third-party/muduo/muduo/net/EventLoop.cc:136-146 | the flag is set if and only if a step asked for it |
| EventLoops.RoundGoesOn | third-party/muduo/muduo/net/EventLoop.cc:103-134 | each round is poll, handlers with the eventfd exactly when poll reported it, one swap of the whole list, the batch, and the test again |
| EventLoops.WakeIsCounted | third-party/muduo/muduo/net/EventLoop.cc:234-252 | in every run the eventfd counts exactly the wake-ups written since it was read |
| EventLoops.FunctorsConserved | third-party/muduo/muduo/net/EventLoop.cc:160-171 | in every interleaving executed, rest of the batch and pending together are the functors of the push steps, in order, each once |
| EventLoops.NothingStranded | third-party/muduo/muduo/net/EventLoop.cc:160-171 | in every interleaving: at `poll` with functors pending, the eventfd is readable or a thread is between push and wake-up |
| EventLoops.QuitNotMissed | third-party/muduo/muduo/net/EventLoop.cc:136-146 | the same for `quit` |
| EventLoops.QueuedIsExecuted | third-party/muduo/muduo/net/EventLoop.cc:254-269 | everything queued before a moment has been executed, in order, when the loop polls again after a later swap |
| EventLoops.SwappedIsExecuted | third-party/muduo/muduo/net/EventLoop.cc:254-269 | after a swap the functors queued before it are executed or in the batch |
| EventLoops.NeverStrandedIff | third-party/muduo/muduo/net/EventLoop.cc:103-134 | from the start of `loop()` with any queue: no run is ever at an unsignalled `poll` with functors pending if and only if the list starts empty, the eventfd is readable or a thread is about to write it |
| EventLoops.QueuedBeforeLoopSleeps | third-party/muduo/muduo/net/EventLoop.cc:160-171 | the concrete failure: one functor queued by the own thread before `loop()` |
| EventLoopClass.EventLoop.HandleRead | third-party/muduo/muduo/net/EventLoop.cc:244-252 | the read takes the whole counter |
| EventLoopClass.EventLoop.WakeUp | third-party/muduo/muduo/net/EventLoop.cc:234-242 | the counter grows by one |
| EventLoopClass.EventLoop.QueueInLoop | third-party/muduo/muduo/net/EventLoop.cc:160-171 | push, any steps of others, then the wake-up exactly when it is called from a functor |
| EventLoopClass.EventLoop.SwapPending | third-party/muduo/muduo/net/EventLoop.cc:256-262 | flag, any steps of others, swap |
| EventLoopClass.EventLoop.RunFunctors | third-party/muduo/muduo/net/EventLoop.cc:264-267 | each functor of the batch once, in order, whatever each of them does |
| EventLoopClass.EventLoop.DoPendingFunctors | third-party/muduo/muduo/net/EventLoop.cc:254-269 | the whole of it is that sequence of steps |
| EventLoopClass.FunctorsKeepBatch | third-party/muduo/muduo/net/EventLoop.cc:254-269 | what functors queue never enters the running batch |
| MonitorQueues.PutKeeps | third-party/muduo/muduo/base/ThreadPool.cc:72-91 | the counting invariant survives a producer's stay in the mutex |
| MonitorQueues.TakeKeeps | third-party/muduo/muduo/base/ThreadPool.cc:93-112 | and a consumer's |
| MonitorQueues.StepKeeps | third-party/muduo/muduo/base/BoundedBlockingQueue.h:30-66 | and every step, spurious wake-ups included |
| MonitorQueues.PutOutcome | third-party/muduo/muduo/base/ThreadPool.cc:72-91 | a producer's stay ends asleep with its item if full, else with the item queued last and exactly one sleeping consumer woken, and with nothing done after `stop` |
| MonitorQueues.TakeOutcome | third-party/muduo/muduo/base/ThreadPool.cc:93-112 | a consumer's stay ends asleep if there is nothing, else with the oldest item and, if bounded, exactly one sleeping producer woken; after `stop` what is left is still handed out |
| MonitorQueues.SpuriousOutcome | third-party/muduo/muduo/base/BoundedBlockingQueue.h:30-66 | a spurious wake-up takes one thread out of its sleep |
| MonitorQueues.FifoAndBounded | third-party/muduo/muduo/base/BoundedBlockingQueue.h:30-66 | in every interleaving items leave in the order they came, once each, and the capacity is not exceeded |
| MonitorQueues.NoItemLost | third-party/muduo/muduo/base/BoundedBlockingQueue.h:30-66 | in every interleaving while running, the items of all calls of `put` are those taken and queued and those that sleeping or woken producers still bring, each once |
| MonitorQueues.WokenSuffice | third-party/muduo/muduo/base/BoundedBlockingQueue.h:30-66 | while running: if a consumer sleeps, items are at most the woken consumers; if a producer sleeps, free slots are at most the woken producers |
| MonitorQueues.NobodyStranded | third-party/muduo/muduo/base/BoundedBlockingQueue.h:30-66 | with nobody on the way a sleeping consumer means empty, a sleeping producer means full, and both at once only a capacity of 0 |
| MonitorQueues.NobodySleepsAfterStop | third-party/muduo/muduo/base/ThreadPool.cc:52-64 | after `stop` nobody sleeps or falls asleep in any run, and nothing more is accepted |
| MonitorQueueClass.Condition.Wait | third-party/muduo/muduo/base/Condition.h:30-34 | the thread is among the sleepers |
| MonitorQueueClass.Condition.Notify | third-party/muduo/muduo/base/Condition.h:39-42 | one sleeper, if there is any, is woken; the others sleep on |
| MonitorQueueClass.Condition.NotifyAll | third-party/muduo/muduo/base/Condition.h:44-47 | all sleepers are woken |
| MonitorQueueClass.BoundedBlockingQueue.Put | third-party/muduo/muduo/base/BoundedBlockingQueue.h:30-52 | one stay in the mutex is the put step; sleeps if and only if full |
| MonitorQueueClass.BoundedBlockingQueue.Take | third-party/muduo/muduo/base/BoundedBlockingQueue.h:54-66 | one stay is the take step; sleeps if and only if empty, else returns the oldest item |
| MonitorQueueClass.ThreadPool.Run | third-party/muduo/muduo/base/ThreadPool.cc:72-91 | one stay is the put step; sleeps if and only if full and running |
| MonitorQueueClass.ThreadPool.Take | third-party/muduo/muduo/base/ThreadPool.cc:93-112 | one stay is the take step; the oldest task, or none after `stop` |
| MonitorQueueClass.ThreadPool.Stop | third-party/muduo/muduo/base/ThreadPool.cc:52-64 | wakes every sleeper |
| MonitorQueueClass.ThreadPool.IsFull | third-party/muduo/muduo/base/ThreadPool.cc:114-118 | full only with a positive maximum that is reached |
| TcpConnections.StepKeeps | third-party/muduo/muduo/net/TcpConnection.cc:139-421 | the stream and interest invariant survives every call, for every result of a write |
| TcpConnections.OutputConserved | third-party/muduo/muduo/net/TcpConnection.cc:139-192 | in every run bytes taken by the kernel followed by the output buffer are the messages sent while connected and not lost, in order and whole, as a function of the steps alone |
| TcpConnections.CallbacksAreDue | third-party/muduo/muduo/net/TcpConnection.cc:139-247 | in every run the callbacks handed to the loop are exactly those the steps call for, in order, computed from lengths and phases alone |
| TcpConnections.PhaseIsTracked | third-party/muduo/muduo/net/TcpConnection.cc:194-421 | in every run phase, half-close and reading are what the steps amount to |
| TcpConnections.ForceCloseCloses | third-party/muduo/muduo/net/TcpConnection.cc:239-269 | in every run one close is queued for each `forceClose` of an open connection and for nothing else; from there the connection is disconnecting, and the close, when it runs, ends it with no interest left |
| TcpConnections.WatchesIffBacklog | third-party/muduo/muduo/net/TcpConnection.cc:368-406 | while open the channel is writing if and only if the output buffer is non-empty; closed, it is not |
| TcpConnections.HalfCloseAfterDrain | third-party/muduo/muduo/net/TcpConnection.cc:194-213 | the half-close happens only when the kernel has every message that was not lost, and a drained connection that is shutting down has done it unless `forceClose` was called, with a delay or without |
| TcpConnections.NothingAfterHalfClose | third-party/muduo/muduo/net/TcpConnection.cc:205-213 | no run after a half-close gives the kernel a byte or accepts one |
| TcpConnections.LostIff | third-party/muduo/muduo/net/TcpConnection.cc:139-192 | in every run a message sent while connected is whole and in its place in the stream, or absent from it; absent if and only if nothing was held before it and the peer was gone |
| TcpConnections.DestroyLeavesNothingIff | third-party/muduo/muduo/net/TcpConnection.cc:334-345 | the channel has no interest left when it is removed, as its assert demands, if and only if the connection was not shutting down |
| TcpConnections.DestroyKeepsReading | third-party/muduo/muduo/net/TcpConnection.cc:334-345 | the concrete failure: destroyed right after `shutdown`, the channel is still reading |
| TcpConnections.HighWaterIff | third-party/muduo/muduo/net/TcpConnection.cc:179-185 | the high-water callback is queued if and only if the backlog crosses the mark from below, with the new backlog |
| TcpConnections.WriteCompleteIff | third-party/muduo/muduo/net/TcpConnection.cc:139-192 | the write-complete callback is queued if and only if the write left nothing |
| TcpConnectionClass.TcpConnection.constructor | third-party/muduo/muduo/net/TcpConnection.cc:38-64 | starts unconnected with an empty buffer |
| TcpConnectionClass.TcpConnection.SendInLoop | third-party/muduo/muduo/net/TcpConnection.cc:139-192 | direct write, then the rest into the real buffer, is the send of the specification |
| TcpConnectionClass.TcpConnection.TryWrite | third-party/muduo/muduo/net/TcpConnection.cc:150-174 | what is taken, the callback when all is, and whether the peer is gone |
| TcpConnectionClass.TcpConnection.Hold | third-party/muduo/muduo/net/TcpConnection.cc:177-191 | the rest is appended, the high-water callback queued, writing enabled |
| TcpConnectionClass.TcpConnection.Send | third-party/muduo/muduo/net/TcpConnection.cc:92-110 | only when connected |
| TcpConnectionClass.TcpConnection.ShutdownInLoop | third-party/muduo/muduo/net/TcpConnection.cc:205-213 | the half-close waits while bytes wait; nothing else changes |
| TcpConnectionClass.TcpConnection.Shutdown | third-party/muduo/muduo/net/TcpConnection.cc:194-203 | no more sends are accepted; half-closed at once only with nothing to write, invariant kept |
| TcpConnectionClass.TcpConnection.HandleWrite | third-party/muduo/muduo/net/TcpConnection.cc:368-406 | the kernel gets a front part of the real buffer, which loses just that; drained, writing stops, the callback is queued and a pending half-close is done |
| TcpConnectionClass.TcpConnection.ForceCloseWithDelay | third-party/muduo/muduo/net/TcpConnection.cc:249-259 | the connection stops accepting; the close itself is left to a timer |
| TcpConnectionClass.TcpConnection.ForceClose | third-party/muduo/muduo/net/TcpConnection.cc:239-247 | on an open connection the close is queued, not done, and the connection stops accepting, as the specification whose closes are counted |
| TcpConnectionClass.TcpConnection.RunForceClose | third-party/muduo/muduo/net/TcpConnection.cc:261-269 | closes a connection that is still open, once |
| TcpConnectionClass.TcpConnection.HandleClose | third-party/muduo/muduo/net/TcpConnection.cc:408-421 | closed and interested in nothing |
| TcpConnectionClass.TcpConnection.HandleRead | third-party/muduo/muduo/net/TcpConnection.cc:347-366 | end of stream closes |
| TcpConnectionClass.TcpConnection.ConnectEstablished | third-party/muduo/muduo/net/TcpConnection.cc:323-332 | connected and reading |
| TcpConnectionClass.TcpConnection.ConnectDestroyed | third-party/muduo/muduo/net/TcpConnection.cc:334-345 | closes a connected one |
| Pollers.PollUpdateKeeps | third-party/muduo/muduo/net/poller/PollPoller.cc:75-110 | channels and slots stay in exact bijection through the index, each slot showing its channel's interest, negated when ignored |
| Pollers.UpdateTouchesOne | third-party/muduo/muduo/net/poller/PollPoller.cc:75-110 | an update changes the channel's own slot, which shows no event yet, and no other |
| Pollers.PollRemoveKeeps | third-party/muduo/muduo/net/poller/PollPoller.cc:112-140 | the same under swap-with-last removal |
| Pollers.EPollUpdateKeeps | third-party/muduo/muduo/net/poller/EPollPoller.cc:107-149 | no refused `epoll_ctl`; registered if and only if `kAdded`, with the current events |
| Pollers.EPollRemoveKeeps | third-party/muduo/muduo/net/poller/EPollPoller.cc:151-170 | the same for removal |
| Pollers.StepKeeps | third-party/muduo/muduo/net/poller/PollPoller.cc:75-140 | both invariants, and the same channels known to both, on a common run |
| Pollers.RunFollows | third-party/muduo/muduo/net/poller/PollPoller.cc:75-140 | how a descriptor's updates ended decides what each poller does with it |
| Pollers.SameTableIff | third-party/muduo/muduo/net/poller/PollPoller.cc:75-140 | both watch the same descriptor-to-events table if and only if every descriptor's closing streak of empty updates leaves them together |
| Pollers.TablesDiffer | third-party/muduo/muduo/net/poller/EPollPoller.cc:107-149 | the concrete failure: enabled, disabled and disabled again, a descriptor is watched by EPollPoller only |
| Pollers.OneTable | third-party/muduo/muduo/net/poller/EPollPoller.cc:107-192 | on runs without empty-to-empty updates they are the same table: channels with events, and channels added without any |
| Pollers.EPollRunKeeps | third-party/muduo/muduo/net/poller/EPollPoller.cc:107-192 | the registration invariant survives any run of updates and of removals of known channels without events |
| Pollers.EPollNeverRefused | third-party/muduo/muduo/net/poller/EPollPoller.cc:107-192 | every such run makes only `epoll_ctl` calls the kernel allows; registered if and only if `kAdded`, with the current events |
| Pollers.KernelRefusesIff | third-party/muduo/muduo/net/poller/EPollPoller.cc:172-192 | the kernel refuses a second registration, and a change or removal of what is not registered, and nothing else |
| Pollers.SlotsMatchChannels | third-party/muduo/muduo/net/poller/PollPoller.cc:75-140 | in every run slots and channels are in exact bijection through the index, each slot showing its channel's current interest |
| Pollers.CommonIsOwn | third-party/muduo/muduo/net/poller/EPollPoller.cc:107-170 | every run of EPollPoller is one that both pollers can make |
| Pollers.RemoveAssertIff | third-party/muduo/muduo/net/poller/PollPoller.cc:121-122 | in every run the slot of a channel to be removed is negated, as `removeChannel` asserts, if and only if the channel had another update since it was added than one without events |
| Pollers.BareRemovalFails | third-party/muduo/muduo/net/poller/PollPoller.cc:121-122 | the concrete failure: descriptor 3, disabled without having been enabled, has slot descriptor 3 |
| Pollers.ReadyIsExact | third-party/muduo/muduo/net/poller/PollPoller.cc:55-73 | the scanned list holds exactly the marked slots |
| PollerClass.PollPoller.constructor | third-party/muduo/muduo/net/poller/PollPoller.cc:22-25 | starts empty |
| PollerClass.PollPoller.UpdateChannel | third-party/muduo/muduo/net/poller/PollPoller.cc:75-110 | the update of the specification, on the shared channels; others untouched |
| PollerClass.PollPoller.ChangeSlot | third-party/muduo/muduo/net/poller/PollPoller.cc:93-109 | the slot rewritten in place, negated without events |
| PollerClass.PollPoller.AddSlot | third-party/muduo/muduo/net/poller/PollPoller.cc:79-92 | a slot at the end, the channel told its index |
| PollerClass.PollPoller.RemoveChannel | third-party/muduo/muduo/net/poller/PollPoller.cc:112-140 | the removal of the specification; the moved channel learns its index, and the removed one keeps its own, so that it cannot be updated again |
| PollerClass.PollPoller.DropSlot | third-party/muduo/muduo/net/poller/PollPoller.cc:123-139 | swap with the last, restore a negated descriptor, pop |
| PollerClass.PollPoller.FillActiveChannels | third-party/muduo/muduo/net/poller/PollPoller.cc:55-73 | despite the early exit, exactly the channels of the marked slots, in order, each told its events |
| PollerClass.EPollPoller.constructor | third-party/muduo/muduo/net/poller/EPollPoller.cc:39-48 | starts empty |
| PollerClass.EPollPoller.UpdateChannel | third-party/muduo/muduo/net/poller/EPollPoller.cc:107-149 | the update of the specification, on the shared channels |
| PollerClass.EPollPoller.RemoveChannel | third-party/muduo/muduo/net/poller/EPollPoller.cc:151-170 | the removal of the specification; the channel is new again and can be registered anew |
| PollerClass.EPollPoller.Update | third-party/muduo/muduo/net/poller/EPollPoller.cc:172-192 | `epoll_ctl`, which the kernel may refuse |
| AsyncLoggings.StepKeeps | third-party/muduo/muduo/base/AsyncLogging.cc:34-132 | text conservation and supply of buffers survive every append, swap and write |
| AsyncLoggings.LoggedOutput | third-party/muduo/muduo/base/AsyncLogging.cc:92-107 | written and dropped text of a batch together are its text in order |
| AsyncLoggings.LinesConserved | third-party/muduo/muduo/base/AsyncLogging.cc:34-132 | in every interleaving file (dropped text included), batch, full buffers and current buffer are all lines shorter than a buffer, in order and whole |
| AsyncLoggings.AppendedIsKept | third-party/muduo/muduo/base/AsyncLogging.cc:34-56 | a line is kept if and only if it is shorter than a buffer |
| AsyncLoggings.SparesReady | third-party/muduo/muduo/base/AsyncLogging.cc:69-90 | in every run: both spares at each head; a batch after each swap, the second spare gone if and only if it has more than one buffer; the next buffer there if and only if none has filled since the swap |
| AsyncLoggings.PackKeeps | third-party/muduo/muduo/base/AsyncLogging.cc:34-56 | packing lines into buffers keeps every line shorter than a buffer, in order, and fills no buffer |
| AsyncLoggings.RunAmounts | third-party/muduo/muduo/base/AsyncLogging.cc:34-132 | in every run buffers, batch and file are determined by the lines between swaps, packed |
| AsyncLoggings.LostIff | third-party/muduo/muduo/base/AsyncLogging.cc:92-107 | in every run everything logged is on disk if and only if in each batch written at most 25 buffers had filled up between two swaps or those after the second hold no text |
| AsyncLoggings.OutputShape | third-party/muduo/muduo/base/AsyncLogging.cc:92-107 | a notice is written if and only if a batch has more than 25 buffers, then with exactly the first two of them; any other batch is on disk whole |
| AsyncLoggings.TextIsLost | third-party/muduo/muduo/base/AsyncLogging.cc:92-107 | the concrete failure: 26 lines that fill a buffer each, with no swap between them |
| AsyncLoggingClass.AsyncLogging.constructor | third-party/muduo/muduo/base/AsyncLogging.cc:14-32 | four empty buffers, each with one owner |
| AsyncLoggingClass.AsyncLogging.PutLine | third-party/muduo/muduo/base/AsyncLogging.cc:37-40 | the text of one buffer changes |
| AsyncLoggingClass.AsyncLogging.NextBuffer | third-party/muduo/muduo/base/AsyncLogging.cc:43-52 | the full buffer is queued, next or new takes its place, one owner each |
| AsyncLoggingClass.AsyncLogging.Append | third-party/muduo/muduo/base/AsyncLogging.cc:34-56 | the line ends up behind all earlier text, in this buffer or the next; every buffer still has one owner |
| AsyncLoggingClass.AsyncLogging.SwapBuffers | third-party/muduo/muduo/base/AsyncLogging.cc:75-88 | all text moves to the batch in order, front end and thread own the same buffers between them, each once |
| AsyncLoggingClass.AsyncLogging.OutputAll | third-party/muduo/muduo/base/AsyncLogging.cc:103-107 | the batch's text in order |
| AsyncLoggingClass.AsyncLogging.RefillFirst | third-party/muduo/muduo/base/AsyncLogging.cc:115-121 | the last buffer of the batch, emptied, is the first spare; owners stay single |
| AsyncLoggingClass.AsyncLogging.RefillSecond | third-party/muduo/muduo/base/AsyncLogging.cc:123-129 | the same for the second |
| AsyncLoggingClass.AsyncLogging.Resize | third-party/muduo/muduo/base/AsyncLogging.cc:109-113 | buffers are freed, none is shared |
| AsyncLoggingClass.AsyncLogging.Recycle | third-party/muduo/muduo/base/AsyncLogging.cc:109-131 | both spares are there, empty and owned by nobody else |
| AsyncLoggingClass.AsyncLogging.WriteBatch | third-party/muduo/muduo/base/AsyncLogging.cc:92-131 | the file grows by the batch as specified, dropping after two of more than 25, and both spares are back |

## Left out

- Reading zone files, zone names and `toIsoString`.
- Zone tables whose transitions are not in order, for which the binary search is undefined.
- Overflow of `size_t` and the growth policy of the vector inside `Buffer`; searches for line ends.
- The proxy's head-kept mode of `BasicParser`: it waits for the data length only, so independence of the cutting does not hold there.
- ProtobufCodec.FrameDeliveredIff: sizes of 4 GiB and more, where the 32-bit size field wraps onto small values; protobuf does not serialise messages that long.
- BasicParsers.FeedIsParse: calls of `parse` with 2 GiB or more in the buffer, where the parser stalls (`BasicParsers.LargeBufferStalls`); streams may be longer (`ReadsFit`).
- Generated protobuf code: serialising and parsing are arbitrary functions, inverse where a theorem says so.
- The size limits of the static buffers of `formatMessage`, which the source does not test, are a precondition.
- The cast of a timer interval from seconds to microseconds; intervals are given in microseconds.
- TimerQueue reads a monotonic and a real-time clock; the model has one clock that does not go back, and time stands still while `handleRead` collects its batch.
- Which handlers a channel calls for which events, and the polling timeout.
- TcpConnection: sends and shutdowns from other threads, stopping and starting to read, events of a channel removed while it still had interests, and what the user's callbacks do other than call the connection again.
- EPollPoller's `fillActiveChannels` and the growth of its event list, which only copy what the kernel reports.
- A ThreadPool without threads, which runs tasks in the caller; starting and joining threads; exceptions from tasks.
- AsyncLogging: buffers are named by numbers and a map holds their texts, so sharing and ownership are modelled but not the bytes in place; rolling and flushing of files; lines still in the current buffer when the thread stops.
- Mutexes and condition variables themselves: a stay inside a mutex is one step.
- `formatSI` and `formatIEC` (floating point), the proxy's routing, the lobby, HTTP, RPC, the connector and the inspectors.
