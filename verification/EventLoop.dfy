/** The event loop's cross-thread queue (muduo/net/EventLoop.h, EventLoop.cc), as
    atomic steps of the loop thread and of any number of other threads. */
module EventLoops {

  /** A label for a queued callback. */
  type Functor = nat
  type Tid = nat

  /** Where the loop thread is. `AtCheck` evaluates `!quit_`; `Swapping` is
      inside `doPendingFunctors` before the swap, `Running` after it. */
  datatype Pc = AtCheck | Polling | Handling | Swapping | Running | Exited

  /** `wake` is the eventfd counter; `wakeReady` says that the running iteration
      has still to handle a readable eventfd. A thread in `pushed` or `quitting`
      has done the first half of `queueInLoop` or `quit` and not yet written the
      eventfd; `ownWake` is the same for the loop thread. `batch`, `executed` and
      `history` follow the functors. */
  datatype Loop = Loop(
    pc: Pc,
    quit: bool,
    calling: bool,
    pending: seq<Functor>,
    batch: seq<Functor>,
    wake: nat,
    wakeReady: bool,
    ownWake: bool,
    pushed: set<Tid>,
    quitting: set<Tid>,
    executed: seq<Functor>,
    history: seq<Functor>)

  const STARTED := Loop(AtCheck, false, false, [], [], 0, false, false, {}, {}, [], [])

  datatype Step =
    // the loop thread
    | Check
    | PollReturns(sawWake: bool)
    | HandleWakeup
    | HandlersDone
    | Swap
    | RunNext
    | OwnQueue(f: Functor)
    | OwnWakeup
    | OwnQuit
    | BatchDone
    // another thread
    | Push(t: Tid, f: Functor)
    | Wakeup(t: Tid)
    | SetQuit(t: Tid)
    | QuitWakeup(t: Tid)

  /** User code runs in the loop thread from handlers and from functors. */
  predicate InUserCode(l: Loop) {
    (l.pc == Handling || l.pc == Running) && !l.ownWake
  }

  predicate Enabled(l: Loop, step: Step) {
    match step
    case Check => l.pc == AtCheck
    case PollReturns(sawWake) => l.pc == Polling && (sawWake ==> l.wake > 0)
    case HandleWakeup => l.pc == Handling && l.wakeReady && !l.ownWake
    case HandlersDone => l.pc == Handling && !l.wakeReady && !l.ownWake
    case Swap => l.pc == Swapping
    case RunNext => l.pc == Running && !l.ownWake && l.batch != []
    case OwnQueue(_) => InUserCode(l)
    case OwnWakeup => l.ownWake
    case OwnQuit => InUserCode(l)
    case BatchDone => l.pc == Running && !l.ownWake && l.batch == []
    case Push(t, _) => t !in l.pushed && t !in l.quitting
    case Wakeup(t) => t in l.pushed
    case SetQuit(t) => t !in l.pushed && t !in l.quitting
    case QuitWakeup(t) => t in l.quitting
  }

  function PushBack(l: Loop, f: Functor): Loop {
    l.(pending := l.pending + [f], history := l.history + [f])
  }

  function Apply(l: Loop, step: Step): Loop
    requires Enabled(l, step)
  {
    match step
    case Check => l.(pc := if l.quit then Exited else Polling)
    case PollReturns(sawWake) => l.(pc := Handling, wakeReady := sawWake)
    case HandleWakeup => l.(wake := 0, wakeReady := false)
    case HandlersDone => l.(pc := Swapping, calling := true)
    case Swap => l.(pc := Running, batch := l.pending, pending := [])
    case RunNext => l.(executed := l.executed + [l.batch[0]], batch := l.batch[1..])
    // in its own thread, `queueInLoop` writes the eventfd only when it is
    // called from a functor
    case OwnQueue(f) => PushBack(l, f).(ownWake := l.calling)
    case OwnWakeup => l.(ownWake := false, wake := l.wake + 1)
    case OwnQuit => l.(quit := true)
    case BatchDone => l.(pc := AtCheck, calling := false)
    case Push(t, f) => PushBack(l, f).(pushed := l.pushed + {t})
    case Wakeup(t) => l.(pushed := l.pushed - {t}, wake := l.wake + 1)
    case SetQuit(t) => l.(quit := true, quitting := l.quitting + {t})
    case QuitWakeup(t) => l.(quitting := l.quitting - {t}, wake := l.wake + 1)
  }

  // -------------------------------------------------------------- invariants

  /** The loop can see that there is work, or someone is about to tell it. */
  predicate Signalled(l: Loop) {
    l.wake > 0 || l.ownWake || l.pushed != {}
  }

  predicate InOrder(l: Loop) {
    l.history == l.executed + l.batch + l.pending
  }

  /** `Inv` but for what keeps the loop from sleeping on work. */
  predicate WellFormed(l: Loop) {
    && InOrder(l)
    && (l.calling <==> l.pc == Swapping || l.pc == Running)
    && (l.batch != [] || l.ownWake ==> l.pc == Running)
    && (l.wakeReady ==> l.pc == Handling)
    && (l.pc == Polling && l.quit ==> l.wake > 0 || l.quitting != {})
  }

  predicate Inv(l: Loop) {
    && WellFormed(l)
    && (l.pc == AtCheck || l.pc == Polling || l.pc == Running ==> l.pending == [] || Signalled(l))
  }

  lemma StepKeepsOrder(l: Loop, step: Step)
    requires InOrder(l) && Enabled(l, step) && (step == Swap ==> l.batch == [])
    ensures InOrder(Apply(l, step))
  {
    if step == RunNext {
      assert l.batch == [l.batch[0]] + l.batch[1..];
    }
  }

  lemma StepKeeps(l: Loop, step: Step)
    requires Inv(l) && Enabled(l, step)
    ensures Inv(Apply(l, step))
  {
    hide InOrder;
    StepKeepsOrder(l, step);
  }

  predicate Legal(l: Loop, steps: seq<Step>)
    decreases |steps|
  {
    steps == [] || (Enabled(l, steps[0]) && Legal(Apply(l, steps[0]), steps[1..]))
  }

  function Run(l: Loop, steps: seq<Step>): Loop
    requires Legal(l, steps)
    decreases |steps|
  {
    if steps == [] then l else Run(Apply(l, steps[0]), steps[1..])
  }

  lemma {:induction false} RunKeeps(l: Loop, steps: seq<Step>)
    requires Inv(l) && Legal(l, steps)
    ensures Inv(Run(l, steps))
    decreases |steps|
  {
    if steps != [] {
      StepKeeps(l, steps[0]);
      RunKeeps(Apply(l, steps[0]), steps[1..]);
    }
  }

  // ------------------------------------------------------------ main results

  /** The functors that the steps hand over, in order. */
  function Queued(steps: seq<Step>): seq<Functor> {
    if steps == [] then []
    else
      (match steps[0]
       case Push(_, f) => [f]
       case OwnQueue(f) => [f]
       case _ => [])
      + Queued(steps[1..])
  }

  lemma {:induction false} HistoryIsQueued(l: Loop, steps: seq<Step>)
    requires Legal(l, steps)
    ensures Run(l, steps).history == l.history + Queued(steps)
    decreases |steps|
  {
    if steps == [] {
      assert l.history + [] == l.history;
    } else {
      HistoryIsQueued(Apply(l, steps[0]), steps[1..]);
      HistoryStep(l, steps[0], Queued(steps[1..]));
    }
  }

  lemma HistoryStep(l: Loop, step: Step, later: seq<Functor>)
    requires Enabled(l, step)
    ensures Apply(l, step).history + later
         == l.history + ((match step case Push(_, f) => [f] case OwnQueue(f) => [f] case _ => []) + later)
  {
  }

  /** In every interleaving each functor queued is executed at most once and in
      order: what was executed, then the rest of the batch, then the pending
      list, is what was queued. */
  lemma FunctorsConserved(steps: seq<Step>)
    requires Legal(STARTED, steps)
    ensures var l := Run(STARTED, steps); l.executed + l.batch + l.pending == Queued(steps)
  {
    RunKeeps(STARTED, steps);
    HistoryIsQueued(STARTED, steps);
    assert [] + Queued(steps) == Queued(steps);
  }

  /** The loop never sleeps on work: in `poll` with functors pending, the eventfd
      is readable or a thread is between its push and its write. */
  lemma NothingStranded(steps: seq<Step>)
    requires Legal(STARTED, steps)
    ensures var l := Run(STARTED, steps);
            l.pc == Polling && l.pending != [] ==> l.wake > 0 || l.pushed != {}
  {
    RunKeeps(STARTED, steps);
  }

  /** Nor does it sleep through `quit`. */
  lemma QuitNotMissed(steps: seq<Step>)
    requires Legal(STARTED, steps)
    ensures var l := Run(STARTED, steps);
            l.pc == Polling && l.quit ==> l.wake > 0 || l.quitting != {}
  {
    RunKeeps(STARTED, steps);
  }

  // --------------------------------------------------- how the loop goes round

  predicate AsksToQuit(step: Step) {
    step.SetQuit? || step.OwnQuit?
  }

  predicate IsAsked(steps: seq<Step>) {
    exists step :: step in steps && AsksToQuit(step)
  }

  lemma {:induction false} RunSplits(l: Loop, a: seq<Step>, b: seq<Step>)
    requires Legal(l, a + b)
    ensures Legal(l, a) && Legal(Run(l, a), b) && Run(l, a + b) == Run(Run(l, a), b)
    decreases |a|
  {
    hide Apply, Enabled;
    if a == [] {
      assert a + b == b;
    } else {
      assert (a + b)[0] == a[0] && (a + b)[1..] == a[1..] + b;
      RunSplits(Apply(l, a[0]), a[1..], b);
    }
  }

  lemma RunLast(l: Loop, steps: seq<Step>, step: Step)
    requires Legal(l, steps + [step])
    ensures Legal(l, steps) && Enabled(Run(l, steps), step) && Run(l, steps + [step]) == Apply(Run(l, steps), step)
  {
    hide Apply, Enabled;
    RunSplits(l, steps, [step]);
    assert [step][1..] == [];
  }

  lemma {:induction false} QuitIsAsked(l: Loop, steps: seq<Step>)
    requires Legal(l, steps)
    ensures Run(l, steps).quit <==> l.quit || IsAsked(steps)
    decreases |steps|
  {
    if steps != [] {
      QuitIsAsked(Apply(l, steps[0]), steps[1..]);
      assert Apply(l, steps[0]).quit <==> l.quit || AsksToQuit(steps[0]);
      assert forall step :: step in steps <==> step == steps[0] || step in steps[1..];
    }
  }

  /** `while (!quit_)`: in every run, when the loop looks it goes on to poll if
      nobody has asked it to quit and leaves if somebody has. */
  lemma LeavesIffAsked(steps: seq<Step>)
    requires Legal(STARTED, steps + [Check])
    ensures Run(STARTED, steps + [Check]).pc == if IsAsked(steps) then Exited else Polling
  {
    RunLast(STARTED, steps, Check);
    QuitIsAsked(STARTED, steps);
  }

  /** And it has left only if it was asked. */
  lemma {:induction false} LeftWasAsked(l: Loop, steps: seq<Step>)
    requires Legal(l, steps) && Run(l, steps).pc == Exited
    ensures l.pc == Exited || l.quit || IsAsked(steps)
    decreases |steps|
  {
    if steps != [] && l.pc != Exited && !l.quit {
      var l' := Apply(l, steps[0]);
      LeftWasAsked(l', steps[1..]);
      assert l'.pc != Exited;
      assert l'.quit ==> AsksToQuit(steps[0]);
      assert steps[0] in steps && forall step :: step in steps[1..] ==> step in steps;
    }
  }

  /** A round: poll, handlers, the eventfd among them exactly when poll reported
      it, one swap, the batch, and back to the test. Other threads never move the
      loop. */
  lemma RoundGoesOn(l: Loop, step: Step)
    requires Inv(l) && Enabled(l, step)
    ensures Apply(l, step).wakeReady == if step.PollReturns? then step.sawWake else l.wakeReady && !step.HandleWakeup?
    ensures step.HandlersDone? ==> !l.wakeReady
    ensures var pc := Apply(l, step).pc;
            match step
            case PollReturns(_) => pc == Handling
            case HandlersDone => pc == Swapping
            case Swap => pc == Running && Apply(l, step).batch == l.pending && Apply(l, step).pending == []
            case BatchDone => pc == AtCheck && l.batch == []
            case Check => true
            case _ => pc == l.pc
  {
  }

  function WakesSince(steps: seq<Step>): nat {
    if steps == [] then 0
    else
      var before := WakesSince(steps[..|steps| - 1]);
      match steps[|steps| - 1]
      case HandleWakeup => 0
      case Wakeup(_) => before + 1
      case QuitWakeup(_) => before + 1
      case OwnWakeup => before + 1
      case _ => before
  }

  /** The eventfd is readable only for wake-ups written since it was read: the
      loop never wakes for nothing. */
  lemma {:induction false} WakeIsCounted(steps: seq<Step>)
    requires Legal(STARTED, steps)
    ensures Run(STARTED, steps).wake == WakesSince(steps)
    decreases |steps|
  {
    if steps != [] {
      var n := |steps| - 1;
      assert steps == steps[..n] + [steps[n]];
      RunLast(STARTED, steps[..n], steps[n]);
      WakeIsCounted(steps[..n]);
    }
  }

  /** How far the loop owes execution to the first `n` functors of the history. */
  predicate OnItsWay(l: Loop, n: nat, swapped: bool) {
    swapped ==> n <= |l.executed| + |l.batch|
  }

  lemma {:induction false} SwappedIsExecuted(l: Loop, steps: seq<Step>, n: nat, swapped: bool)
    requires Inv(l) && Legal(l, steps) && n <= |l.history| && OnItsWay(l, n, swapped)
    ensures OnItsWay(Run(l, steps), n, swapped || Swap in steps)
    ensures l.history <= Run(l, steps).history
    decreases |steps|
  {
    if steps != [] {
      StepKeeps(l, steps[0]);
      var l' := Apply(l, steps[0]);
      assert l.history <= l'.history;
      SwappedIsExecuted(l', steps[1..], n, swapped || steps[0] == Swap);
      assert Swap in steps <==> steps[0] == Swap || Swap in steps[1..];
    }
  }

  /** From any moment on, one pass through `doPendingFunctors` executes all that
      was queued by then: once a swap has happened and the loop is polling again,
      the whole earlier history has been executed, in order. */
  lemma QueuedIsExecuted(before: seq<Step>, after: seq<Step>)
    requires Legal(STARTED, before) && Legal(Run(STARTED, before), after)
    requires Swap in after && Run(Run(STARTED, before), after).pc == Polling
    ensures Queued(before) <= Run(Run(STARTED, before), after).executed
  {
    var l := Run(STARTED, before);
    HistoryIsQueued(STARTED, before);
    assert [] + Queued(before) == Queued(before);
    RunKeeps(STARTED, before);
    RunKeeps(l, after);
    SwappedIsExecuted(l, after, |l.history|, false);
    var r := Run(l, after);
    assert r.executed + r.batch + r.pending == r.history;
    assert r.executed == r.history[..|r.executed|];
  }

  /** Asleep on work: functors are pending, the eventfd is not readable and
      nobody is about to write it for them. */
  predicate Stranded(l: Loop) {
    l.pc == Polling && l.pending != [] && !Signalled(l)
  }

  ghost predicate NeverStranded(l: Loop) {
    forall steps :: Legal(l, steps) ==> !Stranded(Run(l, steps))
  }

  /** From `loop()` on, whatever was queued before it: nothing is ever stranded
      exactly when the list starts empty or the loop is already being told. What
      the loop's own thread queues before `loop()` is not signalled. */
  lemma NeverStrandedIff(l: Loop)
    requires WellFormed(l) && l.pc == AtCheck && !l.quit
    ensures NeverStranded(l) <==> l.pending == [] || l.wake > 0 || l.pushed != {}
  {
    if l.pending == [] || Signalled(l) {
      forall steps | Legal(l, steps)
        ensures !Stranded(Run(l, steps))
      {
        RunKeeps(l, steps);
      }
    } else {
      assert [Check][1..] == [];
      assert Legal(l, [Check]) && Run(l, [Check]) == Apply(l, Check);
      assert Stranded(Run(l, [Check]));
    }
  }

  lemma QueuedBeforeLoopSleeps(f: Functor)
    ensures WellFormed(PushBack(STARTED, f)) && !NeverStranded(PushBack(STARTED, f))
  {
    NeverStrandedIff(PushBack(STARTED, f));
  }
}
