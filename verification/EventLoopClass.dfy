/** The event loop as an object: `queueInLoop`, `handleRead` and
    `doPendingFunctors` update its fields in place, with the steps of other
    threads in between (muduo/net/EventLoop.cc). */
module EventLoopClass {
  import opened EventLoops

  predicate IsOther(step: Step) {
    step.Push? || step.Wakeup? || step.SetQuit? || step.QuitWakeup?
  }

  /** Steps that a functor may take, and other threads meanwhile. */
  predicate IsFunctorCode(step: Step) {
    IsOther(step) || step.OwnQueue? || step.OwnWakeup? || step.OwnQuit?
  }

  /** One functor after the other, each followed by what it does. */
  function Batch(scripts: seq<seq<Step>>): seq<Step> {
    if scripts == [] then [] else [RunNext] + scripts[0] + Batch(scripts[1..])
  }

  class EventLoop {
    var quit: bool
    var callingPendingFunctors: bool
    var pendingFunctors: seq<Functor>
    var wakeupFd: nat

    ghost var pc: Pc
    ghost var batch: seq<Functor>
    ghost var wakeReady: bool
    ghost var ownWake: bool
    ghost var pushed: set<Tid>
    ghost var quitting: set<Tid>
    ghost var executed: seq<Functor>
    ghost var history: seq<Functor>

    ghost function State(): Loop
      reads this
    {
      Loop(pc, quit, callingPendingFunctors, pendingFunctors, batch, wakeupFd, wakeReady, ownWake,
           pushed, quitting, executed, history)
    }

    constructor ()
      ensures State() == STARTED
    {
      quit, callingPendingFunctors, pendingFunctors, wakeupFd := false, false, [], 0;
      pc, batch, wakeReady, ownWake := AtCheck, [], false, false;
      pushed, quitting, executed, history := {}, {}, [], [];
    }

    method WakeUp()
      modifies this`wakeupFd
      ensures wakeupFd == old(wakeupFd) + 1
    {
      wakeupFd := wakeupFd + 1;
    }

    /** The read takes the whole counter. */
    method HandleRead()
      requires Enabled(State(), HandleWakeup)
      modifies this
      ensures State() == Apply(old(State()), HandleWakeup)
    {
      wakeupFd := 0;
      wakeReady := false;
    }

    /** Another thread, or the body of a functor, takes one step. */
    method Perform(step: Step)
      requires Enabled(State(), step) && IsFunctorCode(step)
      modifies this
      ensures State() == Apply(old(State()), step)
    {
      match step
      case Push(t, f) =>
        pendingFunctors := pendingFunctors + [f];
        history, pushed := history + [f], pushed + {t};
      case Wakeup(t) =>
        WakeUp();
        pushed := pushed - {t};
      case SetQuit(t) =>
        quit := true;
        quitting := quitting + {t};
      case QuitWakeup(t) =>
        WakeUp();
        quitting := quitting - {t};
      case OwnQueue(f) =>
        pendingFunctors := pendingFunctors + [f];
        history, ownWake := history + [f], callingPendingFunctors;
      case OwnWakeup =>
        WakeUp();
        ownWake := false;
      case OwnQuit =>
        quit := true;
    }

    method PerformAll(steps: seq<Step>)
      requires Legal(State(), steps) && forall s :: s in steps ==> IsFunctorCode(s)
      modifies this
      ensures State() == Run(old(State()), steps)
    {
      hide Apply, Enabled, IsFunctorCode;
      ghost var start := State();
      for i := 0 to |steps|
        invariant Legal(State(), steps[i..])
        invariant Run(State(), steps[i..]) == Run(start, steps)
      {
        assert steps[i..][0] == steps[i] && steps[i..][1..] == steps[i + 1..];
        Perform(steps[i]);
      }
    }

    /** `queueInLoop` in the loop's own thread, other threads running between its
        two halves. */
    method QueueInLoop(f: Functor, between: seq<Step>)
      requires InUserCode(State()) && Inv(State())
      requires Legal(Apply(State(), OwnQueue(f)), between) && forall s :: s in between ==> IsOther(s)
      modifies this
      ensures var mid := Run(Apply(old(State()), OwnQueue(f)), between);
              State() == if mid.ownWake then Apply(mid, OwnWakeup) else mid
    {
      Perform(OwnQueue(f));
      ghost var queued := State();
      PerformAll(between);
      OthersLeaveLoopAlone(queued, between);
      if callingPendingFunctors {
        WakeUp();
        ownWake := false;
      }
    }

    /** The flag, the steps of other threads until the lock is taken, the swap. */
    method SwapPending(before: seq<Step>) returns (functors: seq<Functor>)
      requires Enabled(State(), HandlersDone) && forall s :: s in before ==> IsOther(s)
      requires Legal(State(), [HandlersDone] + before + [Swap])
      modifies this
      ensures State() == Run(old(State()), [HandlersDone] + before + [Swap])
      ensures functors == batch
    {
      hide Apply, Enabled, Legal, Run, IsFunctorCode, IsOther;
      ghost var l := State();
      RunSplits(l, [HandlersDone] + before, [Swap]);
      RunSplits(l, [HandlersDone], before);
      RunOne(l, HandlersDone);
      ApplyHandlersDone(l);
      callingPendingFunctors := true;
      pc := Swapping;
      OthersAreFunctorCode(before);
      PerformAll(before);

      ghost var m := State();
      RunOne(m, Swap);
      ApplySwap(m);
      functors := pendingFunctors;
      pendingFunctors := [];
      pc, batch := Running, functors;
    }

    /** `scripts[i]` happens while the i-th functor runs. */
    method RunFunctors(functors: seq<Functor>, scripts: seq<seq<Step>>)
      requires functors == batch && |scripts| == |functors|
      requires forall s, step :: s in scripts && step in s ==> IsFunctorCode(step)
      requires Legal(State(), Batch(scripts))
      modifies this
      ensures State() == Run(old(State()), Batch(scripts))
    {
      hide Apply, Enabled, Legal, Run, IsFunctorCode;
      ghost var start := State();
      for i := 0 to |functors|
        invariant batch == functors[i..]
        invariant Legal(State(), Batch(scripts[i..]))
        invariant Run(State(), Batch(scripts[i..])) == Run(start, Batch(scripts))
      {
        ghost var l := State();
        assert scripts[i..][0] == scripts[i] && scripts[i..][1..] == scripts[i + 1..];
        RunSplits(l, [RunNext] + scripts[i], Batch(scripts[i + 1..]));
        RunSplits(l, [RunNext], scripts[i]);
        RunOne(l, RunNext);
        ApplyRunNext(l);
        executed, batch := executed + [functors[i]], functors[i + 1..];
        ghost var called := State();
        PerformAll(scripts[i]);
        FunctorsKeepBatch(called, scripts[i]);
      }
      assert scripts[|functors|..] == [];
      RunNothing(State());
    }

    method DoPendingFunctors(before: seq<Step>, scripts: seq<seq<Step>>)
      requires Enabled(State(), HandlersDone)
      requires forall s :: s in before ==> IsOther(s)
      requires forall s, step :: s in scripts && step in s ==> IsFunctorCode(step)
      requires Legal(State(), [HandlersDone] + before + [Swap])
      requires |scripts| == |Run(State(), [HandlersDone] + before + [Swap]).batch|
      requires Legal(Run(State(), [HandlersDone] + before + [Swap]), Batch(scripts) + [BatchDone])
      modifies this
      ensures State() == Run(Run(old(State()), [HandlersDone] + before + [Swap]), Batch(scripts) + [BatchDone])
    {
      hide Apply, Enabled, Legal, Run, IsFunctorCode, IsOther, Batch;
      var functors := SwapPending(before);
      RunSplits(State(), Batch(scripts), [BatchDone]);
      RunFunctors(functors, scripts);
      ghost var l := State();
      RunOne(l, BatchDone);
      ApplyBatchDone(l);
      callingPendingFunctors := false;
      pc := AtCheck;
    }
  }

  lemma RunOne(l: Loop, step: Step)
    requires Legal(l, [step])
    ensures Enabled(l, step) && Run(l, [step]) == Apply(l, step)
  {
    assert [step][1..] == [];
  }

  /** Functors are queued for a later batch, never into the running one. */
  lemma {:induction false} FunctorsKeepBatch(l: Loop, steps: seq<Step>)
    requires Legal(l, steps) && forall s :: s in steps ==> IsFunctorCode(s)
    ensures Run(l, steps).batch == l.batch
    decreases |steps|
  {
    if steps != [] {
      assert IsFunctorCode(steps[0]);
      FunctorsKeepBatch(Apply(l, steps[0]), steps[1..]);
    }
  }

  lemma RunNothing(l: Loop)
    ensures Legal(l, []) && Run(l, []) == l
  {
  }

  lemma ApplyHandlersDone(l: Loop)
    requires Enabled(l, HandlersDone)
    ensures Apply(l, HandlersDone) == l.(pc := Swapping, calling := true)
  {
  }

  lemma ApplySwap(l: Loop)
    requires Enabled(l, Swap)
    ensures Apply(l, Swap) == l.(pc := Running, batch := l.pending, pending := [])
  {
  }

  lemma ApplyRunNext(l: Loop)
    requires Enabled(l, RunNext)
    ensures l.batch != []
    ensures Apply(l, RunNext) == l.(executed := l.executed + [l.batch[0]], batch := l.batch[1..])
  {
  }

  lemma ApplyBatchDone(l: Loop)
    requires Enabled(l, BatchDone)
    ensures Apply(l, BatchDone) == l.(pc := AtCheck, calling := false)
  {
  }

  lemma OthersAreFunctorCode(steps: seq<Step>)
    requires forall s :: s in steps ==> IsOther(s)
    ensures forall s :: s in steps ==> IsFunctorCode(s)
  {
  }

  lemma {:induction false} OthersLeaveLoopAlone(l: Loop, steps: seq<Step>)
    requires Legal(l, steps) && forall s :: s in steps ==> IsOther(s)
    ensures var r := Run(l, steps); r.calling == l.calling && r.ownWake == l.ownWake && r.pc == l.pc
    decreases |steps|
  {
    if steps != [] {
      assert IsOther(steps[0]);
      OthersLeaveLoopAlone(Apply(l, steps[0]), steps[1..]);
    }
  }
}
