/** The double-buffered logger (muduo/base/AsyncLogging.h, AsyncLogging.cc), as
    steps of any number of front-end threads and of the writing thread. A buffer
    is the text in it; the class in AsyncLoggingClass.dfy has the objects. */
module AsyncLoggings {
  import LogStreams
  import opened Chunks

  const CAPACITY: nat := LogStreams.LARGE_BUFFER
  const MAX_BATCH := 25

  /** What reached the log file, and what was dropped in between. */
  datatype Piece = Written(text: string) | Notice(dropped: nat) | Lost(text: string)

  /** The writing thread is at the head of its loop or has a batch to write. */
  datatype Phase = AtHead | Writing

  /** `spare1` and `spare2` say whether the writing thread's two spare buffers are
      there; spare and next buffers are always empty. `appended` is history. */
  datatype Logger = Logger(
    current: string,
    hasNext: bool,
    buffers: seq<string>,
    spare1: bool,
    spare2: bool,
    batch: seq<string>,
    phase: Phase,
    file: seq<Piece>,
    appended: string)

  const STARTED := Logger("", true, [], true, true, [], AtHead, [], "")

  /** Appending to a buffer that has no room leaves it as it is. */
  function Put(buffer: string, line: string): string {
    if CAPACITY - |buffer| > |line| then buffer + line else buffer
  }

  function Append(l: Logger, line: string): Logger {
    (if CAPACITY - |l.current| > |line| then
       l.(current := Put(l.current, line))
     else
       l.(buffers := l.buffers + [l.current], hasNext := false, current := Put("", line)))
    .(appended := l.appended + if |line| < CAPACITY then line else "")
  }

  /** The critical section of `threadFunc`. */
  function Swap(l: Logger): Logger {
    l.(batch := l.buffers + [l.current],
       current := "",
       spare1 := false,
       buffers := [],
       hasNext := true,
       spare2 := l.spare2 && l.hasNext,
       phase := Writing)
  }

  function Pieces(texts: seq<string>): seq<Piece> {
    seq(|texts|, i requires 0 <= i < |texts| => Written(texts[i]))
  }

  function Output(batch: seq<string>): seq<Piece> {
    if |batch| > MAX_BATCH then
      [Notice(|batch| - 2)] + Pieces(batch[..2]) + [Lost(Concat(batch[2..]))]
    else Pieces(batch)
  }

  /** Writing the batch, then keeping up to two of its buffers as spares. */
  function Write(l: Logger): Logger {
    var kept := if |l.batch| > 2 then 2 else |l.batch|;
    var afterFirst := if !l.spare1 && kept > 0 then kept - 1 else kept;
    l.(file := l.file + Output(l.batch),
       spare1 := l.spare1 || kept > 0,
       spare2 := l.spare2 || afterFirst > 0,
       batch := [],
       phase := AtHead)
  }

  datatype Step = AppendStep(line: string) | SwapStep | WriteStep

  predicate Enabled(l: Logger, step: Step) {
    match step
    case AppendStep(_) => true
    case SwapStep => l.phase == AtHead
    case WriteStep => l.phase == Writing
  }

  function Apply(l: Logger, step: Step): Logger
    requires Enabled(l, step)
  {
    match step
    case AppendStep(line) => Append(l, line)
    case SwapStep => Swap(l)
    case WriteStep => Write(l)
  }

  // -------------------------------------------------------------- invariants

  /** The text of the file, dropped text included. */
  function Logged(file: seq<Piece>): string {
    if file == [] then ""
    else Logged(file[..|file| - 1]) +
         match file[|file| - 1]
         case Written(text) => text
         case Notice(_) => ""
         case Lost(text) => text
  }

  predicate Conserved(l: Logger) {
    Logged(l.file) + Concat(l.batch) + Concat(l.buffers) + l.current == l.appended
  }

  predicate Supplied(l: Logger) {
    && |l.current| < CAPACITY
    && (l.hasNext <==> l.buffers == [])
    && (l.phase == AtHead ==> l.spare1 && l.spare2 && l.batch == [])
    && (l.phase == Writing ==> !l.spare1 && l.batch != [] && (l.spare2 <==> |l.batch| == 1))
  }

  predicate Inv(l: Logger) {
    Conserved(l) && Supplied(l)
  }

  lemma {:induction false} LoggedAppend(a: seq<Piece>, b: seq<Piece>)
    ensures Logged(a + b) == Logged(a) + Logged(b)
    decreases |b|
  {
    if b == [] {
      assert a + b == a;
    } else {
      var n := |b| - 1;
      LoggedAppend(a, b[..n]);
      assert (a + b)[..|a| + n] == a + b[..n];
      assert (a + b)[|a| + n] == b[n];
      var last := Logged([b[n]]);
      LoggedLast(b);
      LoggedLast(a + b);
      hide Logged;
      Assoc(Logged(a), Logged(b[..n]), last);
    }
  }

  lemma LoggedLast(file: seq<Piece>)
    requires file != []
    ensures Logged(file) == Logged(file[..|file| - 1]) + Logged([file[|file| - 1]])
  {
    LoggedOne(file[|file| - 1]);
  }

  lemma {:induction false} LoggedPieces(texts: seq<string>)
    ensures Logged(Pieces(texts)) == Concat(texts)
    decreases |texts|
  {
    if texts != [] {
      var n := |texts| - 1;
      LoggedPieces(texts[..n]);
      assert Pieces(texts)[..n] == Pieces(texts[..n]);
      ConcatAppend(texts[..n], [texts[n]]);
      ConcatOne(texts[n]);
      assert texts[..n] + [texts[n]] == texts;
    }
  }

  lemma LoggedOne(piece: Piece)
    ensures Logged([piece]) == match piece case Written(text) => text case Notice(_) => "" case Lost(text) => text
  {
    assert [piece][..0] == [];
  }

  /** Dropped or not, a batch's text is accounted for in order. */
  lemma LoggedOutput(batch: seq<string>)
    ensures Logged(Output(batch)) == Concat(batch)
  {
    hide Logged, Concat, Pieces;
    if |batch| > MAX_BATCH {
      var notice, kept, lost := [Notice(|batch| - 2)], Pieces(batch[..2]), [Lost(Concat(batch[2..]))];
      LoggedAppend(notice + kept, lost);
      LoggedAppend(notice, kept);
      LoggedOne(notice[0]);
      LoggedOne(lost[0]);
      LoggedPieces(batch[..2]);
      ConcatAppend(batch[..2], batch[2..]);
      assert batch[..2] + batch[2..] == batch;
      assert "" + Concat(batch[..2]) == Concat(batch[..2]);
    } else {
      LoggedPieces(batch);
    }
  }

  lemma Assoc(a: string, b: string, c: string)
    ensures a + (b + c) == a + b + c
  {
  }

  lemma AppendConserves(l: Logger, line: string)
    requires Conserved(l)
    ensures Conserved(Append(l, line))
  {
    hide Logged, Concat;
    var before := Logged(l.file) + Concat(l.batch);
    var line' := if |line| < CAPACITY then line else "";
    if CAPACITY - |l.current| > |line| {
      Assoc(before + Concat(l.buffers), l.current, line);
    } else {
      ConcatAppend(l.buffers, [l.current]);
      ConcatOne(l.current);
      Assoc(before, Concat(l.buffers), l.current);
      assert Put("", line) == line';
    }
  }

  lemma SwapConserves(l: Logger)
    requires Conserved(l) && l.batch == []
    ensures Conserved(Swap(l))
  {
    hide Logged, Concat;
    ConcatAppend(l.buffers, [l.current]);
    ConcatOne(l.current);
    ConcatNone();
    var file := Logged(l.file);
    PlusNothing(file);
    Assoc(file, Concat(l.buffers), l.current);
    PlusNothing(file + Concat(l.buffers) + l.current);
  }

  lemma ConcatNone()
    ensures Concat<char>([]) == ""
  {
  }

  lemma PlusNothing(a: string)
    ensures a + "" == a
  {
  }

  lemma WriteConserves(l: Logger)
    requires Conserved(l)
    ensures Conserved(Write(l))
  {
    LoggedAppend(l.file, Output(l.batch));
    LoggedOutput(l.batch);
    assert Logged(l.file) + Concat(l.batch) + "" == Logged(l.file) + Concat(l.batch);
  }

  lemma StepKeeps(l: Logger, step: Step)
    requires Inv(l) && Enabled(l, step)
    ensures Inv(Apply(l, step))
  {
    hide Conserved, Output, Concat;
    match step
    case AppendStep(line) => AppendConserves(l, line);
    case SwapStep => SwapConserves(l);
    case WriteStep => WriteConserves(l);
  }

  predicate Legal(l: Logger, steps: seq<Step>)
    decreases |steps|
  {
    steps == [] || (Enabled(l, steps[0]) && Legal(Apply(l, steps[0]), steps[1..]))
  }

  function Run(l: Logger, steps: seq<Step>): Logger
    requires Legal(l, steps)
    decreases |steps|
  {
    if steps == [] then l else Run(Apply(l, steps[0]), steps[1..])
  }

  lemma {:induction false} RunKeeps(l: Logger, steps: seq<Step>)
    requires Inv(l) && Legal(l, steps)
    ensures Inv(Run(l, steps))
    decreases |steps|
  {
    hide Inv, Apply, Enabled;
    if steps != [] {
      StepKeeps(l, steps[0]);
      RunKeeps(Apply(l, steps[0]), steps[1..]);
    }
  }

  // ------------------------------------------------------------ main results

  /** All that was appended, except lines as long as a whole buffer. */
  function Kept(steps: seq<Step>): string
    decreases |steps|
  {
    if steps == [] then ""
    else
      var step := steps[|steps| - 1];
      Kept(steps[..|steps| - 1]) + if step.AppendStep? && |step.line| < CAPACITY then step.line else ""
  }

  lemma {:induction false} AppendedIsKept(steps: seq<Step>)
    requires Legal(STARTED, steps)
    ensures Run(STARTED, steps).appended == Kept(steps)
    decreases |steps|
  {
    if steps != [] {
      var n := |steps| - 1;
      assert steps == steps[..n] + [steps[n]];
      RunSplits(STARTED, steps[..n], [steps[n]]);
      AppendedIsKept(steps[..n]);
      var l := Run(STARTED, steps[..n]);
      assert [steps[n]][1..] == [];
      assert Run(l, [steps[n]]) == Apply(l, steps[n]);
      assert Kept(steps[..n]) + "" == Kept(steps[..n]);
    }
  }

  lemma {:induction false} RunSplits(l: Logger, a: seq<Step>, b: seq<Step>)
    requires Legal(l, a + b)
    ensures Legal(l, a) && Legal(Run(l, a), b) && Run(l, a + b) == Run(Run(l, a), b)
    decreases |a|
  {
    hide Apply, Enabled;
    if a == [] {
      assert a + b == b;
    } else {
      assert (a + b)[0] == a[0] && (a + b)[1..] == a[1..] + b;
      RunSplits(Apply(l, a[0]), a[1..], b);
    }
  }

  lemma StartedInv()
    ensures Inv(STARTED)
  {
  }

  /** In every interleaving the file, what was dropped included, then the batch
      being written, then the full buffers, then the current one are the lines
      appended, in order and whole. */
  lemma LinesConserved(steps: seq<Step>)
    requires Legal(STARTED, steps)
    ensures var l := Run(STARTED, steps);
            Logged(l.file) + Concat(l.batch) + Concat(l.buffers) + l.current == Kept(steps)
  {
    StartedInv();
    RunKeeps(STARTED, steps);
    AppendedIsKept(steps);
  }

  /** At each loop head both spare buffers are there, so `append` and the writing
      thread never have to share one: the asserts of `threadFunc`. The next buffer
      is used up exactly when a buffer has filled since the last swap, so a new one
      is only allocated for the second; the second spare replaces it then. */
  lemma SparesReady(steps: seq<Step>)
    requires Legal(STARTED, steps)
    ensures var l := Run(STARTED, steps);
            && (l.phase == AtHead ==> l.spare1 && l.spare2 && l.batch == [])
            && (l.phase == Writing ==> !l.spare1 && l.batch != [] && (l.spare2 <==> |l.batch| == 1))
            && (l.hasNext <==> l.buffers == [])
  {
    StartedInv();
    RunKeeps(STARTED, steps);
  }

  // ------------------------------------------------- what reaches the file

  /** Lines in buffers as `append` fills them, from an empty one on. */
  function Pack(lines: seq<string>): (texts: seq<string>)
    ensures texts != []
  {
    if lines == [] then [""]
    else
      var n := |lines| - 1;
      var before := Pack(lines[..n]);
      var m := |before| - 1;
      if CAPACITY - |before[m]| > |lines[n]| then before[m := before[m] + lines[n]]
      else before + [Put("", lines[n])]
  }

  /** The lines appended since the last swap. */
  function NewLines(steps: seq<Step>): seq<string> {
    if steps == [] then []
    else
      var before := NewLines(steps[..|steps| - 1]);
      match steps[|steps| - 1]
      case AppendStep(line) => before + [line]
      case SwapStep => []
      case WriteStep => before
  }

  /** One batch a swap: the lines since the swap before it, packed. */
  function Batches(steps: seq<Step>): seq<seq<string>> {
    if steps == [] then []
    else
      var before := steps[..|steps| - 1];
      if steps[|steps| - 1] == SwapStep then Batches(before) + [Pack(NewLines(before))] else Batches(before)
  }

  /** Those that have been written. */
  function Finished(steps: seq<Step>): seq<seq<string>> {
    if steps == [] then []
    else
      var before := steps[..|steps| - 1];
      if steps[|steps| - 1] == WriteStep then Batches(before) else Finished(before)
  }

  function Outputs(batches: seq<seq<string>>): seq<Piece> {
    if batches == [] then [] else Outputs(batches[..|batches| - 1]) + Output(batches[|batches| - 1])
  }

  /** The logger's fields, as the steps alone determine them. */
  predicate Amounts(l: Logger, lines: seq<string>, batches: seq<seq<string>>, finished: seq<seq<string>>) {
    && l.buffers + [l.current] == Pack(lines)
    && l.file == Outputs(finished)
    && batches == finished + (if l.phase == Writing then [l.batch] else [])
  }

  lemma PackMore(lines: seq<string>, line: string)
    ensures var before := Pack(lines);
            var m := |before| - 1;
            Pack(lines + [line]) == if CAPACITY - |before[m]| > |line| then before[m := before[m] + line]
                                    else before + [Put("", line)]
  {
    assert (lines + [line])[..|lines|] == lines;
  }

  lemma AppendAmounts(
    l: Logger, line: string, lines: seq<string>, batches: seq<seq<string>>, finished: seq<seq<string>>)
    requires Amounts(l, lines, batches, finished)
    ensures Amounts(Append(l, line), lines + [line], batches, finished)
  {
    hide Pack, Outputs;
    PackMore(lines, line);
    var before := Pack(lines);
    assert before == l.buffers + [l.current];
    assert before[|before| - 1] == l.current;
    assert l.buffers + [l.current + line] == before[|before| - 1 := l.current + line];
    assert l.buffers + [l.current] + [Put("", line)] == before + [Put("", line)];
  }

  lemma SwapAmounts(l: Logger, lines: seq<string>, batches: seq<seq<string>>, finished: seq<seq<string>>)
    requires Amounts(l, lines, batches, finished) && l.phase == AtHead
    ensures Amounts(Swap(l), [], batches + [Pack(lines)], finished)
  {
    hide Outputs;
    assert finished + [] == finished;
    assert [] + [""] == [""];
  }

  lemma WriteAmounts(l: Logger, lines: seq<string>, batches: seq<seq<string>>, finished: seq<seq<string>>)
    requires Amounts(l, lines, batches, finished) && l.phase == Writing
    ensures Amounts(Write(l), lines, batches, batches)
  {
    hide Pack, Output;
    assert batches[..|batches| - 1] == finished;
    assert batches + [] == batches;
  }

  lemma {:induction false} RunAmounts(steps: seq<Step>)
    requires Legal(STARTED, steps)
    ensures Amounts(Run(STARTED, steps), NewLines(steps), Batches(steps), Finished(steps))
    decreases |steps|
  {
    hide Amounts, Append, Swap, Write, Pack, Outputs;
    if steps == [] {
      StartAmounts();
    } else {
      var n := |steps| - 1;
      assert steps == steps[..n] + [steps[n]];
      RunSplits(STARTED, steps[..n], [steps[n]]);
      RunAmounts(steps[..n]);
      var l := Run(STARTED, steps[..n]);
      assert [steps[n]][1..] == [];
      assert Run(l, [steps[n]]) == Apply(l, steps[n]);
      var lines, batches, finished := NewLines(steps[..n]), Batches(steps[..n]), Finished(steps[..n]);
      match steps[n]
      case AppendStep(line) => AppendAmounts(l, line, lines, batches, finished);
      case SwapStep => SwapAmounts(l, lines, batches, finished);
      case WriteStep => WriteAmounts(l, lines, batches, finished);
    }
  }

  lemma StartAmounts()
    ensures Amounts(STARTED, [], [], [])
  {
    assert [] + [""] == [""];
  }

  /** What can be read in the file, but for the notices. */
  function OnDisk(file: seq<Piece>): string {
    if file == [] then ""
    else
      OnDisk(file[..|file| - 1]) +
      match file[|file| - 1]
      case Written(text) => text
      case _ => ""
  }

  /** How much text was dropped. */
  function Missing(file: seq<Piece>): nat {
    if file == [] then 0
    else
      Missing(file[..|file| - 1]) +
      match file[|file| - 1]
      case Lost(text) => |text|
      case _ => 0
  }

  /** Nothing is missing from what was logged exactly when no text was dropped. */
  lemma {:induction false} MissingIff(file: seq<Piece>)
    ensures |Logged(file)| == |OnDisk(file)| + Missing(file)
    ensures OnDisk(file) == Logged(file) <==> Missing(file) == 0
    decreases |file|
  {
    if file != [] {
      MissingIff(file[..|file| - 1]);
    }
  }

  lemma {:induction false} MissingAppend(a: seq<Piece>, b: seq<Piece>)
    ensures Missing(a + b) == Missing(a) + Missing(b)
    decreases |b|
  {
    if b == [] {
      assert a + b == a;
    } else {
      var n := |b| - 1;
      MissingAppend(a, b[..n]);
      assert (a + b)[..|a| + n] == a + b[..n];
    }
  }

  /** A batch drops text exactly when it has more than 25 buffers and those after
      the second are not all empty. */
  predicate Keeps(batch: seq<string>) {
    |batch| <= MAX_BATCH || Concat(batch[2..]) == ""
  }

  lemma {:induction false} WrittenMissNothing(texts: seq<string>)
    ensures Missing(Pieces(texts)) == 0
    decreases |texts|
  {
    if texts != [] {
      var n := |texts| - 1;
      WrittenMissNothing(texts[..n]);
      assert Pieces(texts)[..n] == Pieces(texts[..n]);
    }
  }

  lemma OutputMisses(batch: seq<string>)
    ensures Missing(Output(batch)) == 0 <==> Keeps(batch)
  {
    hide Concat, Pieces;
    if |batch| > MAX_BATCH {
      var notice, kept, lost := [Notice(|batch| - 2)], Pieces(batch[..2]), [Lost(Concat(batch[2..]))];
      MissingAppend(notice + kept, lost);
      MissingAppend(notice, kept);
      WrittenMissNothing(batch[..2]);
      assert notice[..0] == [] && lost[..0] == [];
    } else {
      WrittenMissNothing(batch);
    }
  }

  lemma {:induction false} OutputsMiss(batches: seq<seq<string>>)
    ensures Missing(Outputs(batches)) == 0 <==> forall k :: 0 <= k < |batches| ==> Keeps(batches[k])
    decreases |batches|
  {
    hide Output, Keeps, Missing;
    if batches == [] {
      NothingMissing();
    } else {
      var n := |batches| - 1;
      OutputsMiss(batches[..n]);
      OutputMisses(batches[n]);
      MissingAppend(Outputs(batches[..n]), Output(batches[n]));
      assert forall k :: 0 <= k < n ==> batches[..n][k] == batches[k];
      if forall k :: 0 <= k < |batches| ==> Keeps(batches[k]) {
        assert forall k :: 0 <= k < n ==> Keeps(batches[..n][k]);
      } else {
        var k :| 0 <= k < |batches| && !Keeps(batches[k]);
        assert k < n ==> !Keeps(batches[..n][k]);
      }
    }
  }

  lemma NothingMissing()
    ensures Missing([]) == 0
  {
  }

  /** In every run: everything logged is on disk exactly when in each batch, that
      is among the lines between two swaps, at most 25 buffers had filled up or
      those after the second hold no text. */
  lemma LostIff(steps: seq<Step>)
    requires Legal(STARTED, steps)
    ensures Run(STARTED, steps).file == Outputs(Finished(steps))
    ensures OnDisk(Run(STARTED, steps).file) == Logged(Run(STARTED, steps).file) <==>
              forall k :: 0 <= k < |Finished(steps)| ==> Keeps(Finished(steps)[k])
  {
    hide Run, Legal, Batches, Finished, Outputs, Output, Keeps, OnDisk, Logged, Missing;
    RunAmounts(steps);
    OutputsMiss(Finished(steps));
    MissingIff(Outputs(Finished(steps)));
  }

  predicate HasNotice(file: seq<Piece>) {
    exists i :: 0 <= i < |file| && file[i].Notice?
  }

  /** A batch that drops buffers leaves a notice of how many and its first two;
      any other leaves exactly its own text, and no notice. */
  lemma OutputShape(batch: seq<string>)
    ensures HasNotice(Output(batch)) <==> |batch| > MAX_BATCH
    ensures |batch| <= MAX_BATCH ==> OnDisk(Output(batch)) == Concat(batch) && |Output(batch)| == |batch|
    ensures |batch| > MAX_BATCH ==>
              && Output(batch)
              == [Notice(|batch| - 2), Written(batch[0]), Written(batch[1]), Lost(Concat(batch[2..]))]
              && OnDisk(Output(batch)) == batch[0] + batch[1]
  {
    hide Concat, OnDisk;
    if |batch| > MAX_BATCH {
      var notice, lost := Notice(|batch| - 2), Lost(Concat(batch[2..]));
      assert Pieces(batch[..2]) == [Written(batch[0]), Written(batch[1])];
      assert Output(batch) == [notice] + [Written(batch[0])] + [Written(batch[1])] + [lost];
      assert Output(batch)[0].Notice?;
      OnDiskLast([], notice);
      assert [] + [notice] == [notice];
      OnDiskLast([notice], Written(batch[0]));
      OnDiskLast([notice] + [Written(batch[0])], Written(batch[1]));
      OnDiskLast([notice] + [Written(batch[0])] + [Written(batch[1])], lost);
      NothingOnDisk();
      assert "" + "" + batch[0] == batch[0] && batch[0] + batch[1] + "" == batch[0] + batch[1];
    } else {
      WrittenMissNothing(batch);
      MissingIff(Pieces(batch));
      LoggedPieces(batch);
    }
  }

  lemma OnDiskLast(file: seq<Piece>, piece: Piece)
    ensures OnDisk(file + [piece]) == OnDisk(file) + if piece.Written? then piece.text else ""
  {
    assert (file + [piece])[..|file|] == file;
  }

  lemma NothingOnDisk()
    ensures OnDisk([]) == ""
  {
  }

  /** The bookkeeping one step further on. */
  lemma LastStep(steps: seq<Step>, step: Step)
    ensures NewLines(steps + [step]) == match step
                                        case AppendStep(line) => NewLines(steps) + [line]
                                        case SwapStep => []
                                        case WriteStep => NewLines(steps)
    ensures Batches(steps + [step]) == Batches(steps) + if step == SwapStep then [Pack(NewLines(steps))] else []
    ensures Finished(steps + [step]) == if step == WriteStep then Batches(steps) else Finished(steps)
  {
    hide Pack;
    assert (steps + [step])[..|steps|] == steps;
    assert Batches(steps) + [] == Batches(steps);
  }

  lemma {:induction false} LegalStep(l: Logger, steps: seq<Step>, step: Step)
    requires Legal(l, steps) && Enabled(Run(l, steps), step)
    ensures Legal(l, steps + [step]) && Run(l, steps + [step]) == Apply(Run(l, steps), step)
    decreases |steps|
  {
    hide Apply, Enabled;
    if steps == [] {
      assert [] + [step] == [step] && [step][1..] == [];
    } else {
      LegalStep(Apply(l, steps[0]), steps[1..], step);
      assert (steps + [step])[0] == steps[0] && (steps + [step])[1..] == steps[1..] + [step];
    }
  }

  function Repeat(line: string, n: nat): seq<Step> {
    if n == 0 then [] else Repeat(line, n - 1) + [AppendStep(line)]
  }

  lemma {:induction false} RepeatFills(line: string, n: nat)
    requires |line| == CAPACITY - 1
    ensures Legal(STARTED, Repeat(line, n)) && Run(STARTED, Repeat(line, n)).phase == AtHead
    ensures Batches(Repeat(line, n)) == []
    ensures var packed := Pack(NewLines(Repeat(line, n)));
            if n == 0 then packed == [""] else |packed| == n && packed[n - 1] == line
  {
    hide Pack, NewLines, Batches, Finished, Legal, Run;
    if n == 0 {
      RepeatNothing(line);
    } else {
      var before := Repeat(line, n - 1);
      RepeatFills(line, n - 1);
      LegalStep(STARTED, before, AppendStep(line));
      LastStep(before, AppendStep(line));
      PackMore(NewLines(before), line);
      assert "" + line == line;
    }
  }

  lemma RepeatNothing(line: string)
    ensures Legal(STARTED, []) && Run(STARTED, []) == STARTED && Batches([]) == [] && Pack(NewLines([])) == [""]
  {
  }

  const LONG_LINE: string := seq(CAPACITY - 1, _ => 'x')

  /** 26 lines that fill a buffer each, with no swap between them. */
  lemma TextIsLost()
    ensures var steps := Repeat(LONG_LINE, 26) + [SwapStep] + [WriteStep];
            Legal(STARTED, steps) && OnDisk(Run(STARTED, steps).file) != Logged(Run(STARTED, steps).file)
  {
    hide Repeat, Legal, Run, Pack, NewLines, Batches, Finished, OnDisk, Logged, Concat;
    var lines := Repeat(LONG_LINE, 26);
    RepeatFills(LONG_LINE, 26);
    LegalStep(STARTED, lines, SwapStep);
    LastStep(lines, SwapStep);
    LegalStep(STARTED, lines + [SwapStep], WriteStep);
    LastStep(lines + [SwapStep], WriteStep);
    var batch := Pack(NewLines(lines));
    assert Finished(lines + [SwapStep] + [WriteStep]) == [batch];
    ConcatEnds(batch[2..]);
    assert batch[2..][|batch| - 3] == LONG_LINE;
    assert !Keeps([batch][0]);
    LostIff(lines + [SwapStep] + [WriteStep]);
  }

  lemma ConcatEnds(texts: seq<string>)
    requires texts != [] && texts[|texts| - 1] != ""
    ensures Concat(texts) != ""
  {
    var n := |texts| - 1;
    assert texts[..n] + [texts[n]] == texts;
    ConcatAppend(texts[..n], [texts[n]]);
    ConcatOne(texts[n]);
  }

  /** Packing keeps every line shorter than a buffer, in order, in buffers that
      are never full. */
  lemma {:induction false} PackKeeps(lines: seq<string>)
    ensures Concat(Pack(lines)) == KeptLines(lines)
    ensures forall i :: 0 <= i < |Pack(lines)| ==> |Pack(lines)[i]| < CAPACITY
    decreases |lines|
  {
    hide Concat;
    if lines == [] {
      ConcatOne("");
    } else {
      var n := |lines| - 1;
      var before := Pack(lines[..n]);
      var m := |before| - 1;
      PackKeeps(lines[..n]);
      assert |before[m]| < CAPACITY;
      if CAPACITY - |before[m]| > |lines[n]| {
        ConcatLast(before, lines[n]);
      } else {
        ConcatAppend(before, [Put("", lines[n])]);
        ConcatOne(Put("", lines[n]));
      }
    }
  }

  lemma ConcatLast(texts: seq<string>, line: string)
    requires texts != []
    ensures var m := |texts| - 1; Concat(texts[m := texts[m] + line]) == Concat(texts) + line
  {
    hide Concat;
    var m := |texts| - 1;
    ConcatAppend(texts[..m], [texts[m]]);
    ConcatOne(texts[m]);
    assert texts[..m] + [texts[m]] == texts;
    ConcatAppend(texts[..m], [texts[m] + line]);
    ConcatOne(texts[m] + line);
    assert texts[..m] + [texts[m] + line] == texts[m := texts[m] + line];
    Assoc(Concat(texts[..m]), texts[m], line);
  }

  function KeptLines(lines: seq<string>): string {
    if lines == [] then ""
    else
      var line := lines[|lines| - 1];
      KeptLines(lines[..|lines| - 1]) + if |line| < CAPACITY then line else ""
  }
}
