/** The timer queue as the object it is: fields updated in place
    (muduo/net/TimerQueue.cc). Each method is proved to take the step of
    TimerQueue.dfy that it stands for. */
module TimerQueueClass {
  import opened Chunks
  import opened SortedEntries
  import Spec = TimerQueues
  import opened TimerQueues
  import opened TimerQueueRuns

  class TimerQueue {
    // the timer objects, by address, and the count of those created
    var heap: map<Address, Timer>
    var created: nat
    // the clock and the timerfd
    var clock: int
    var alarm: Alarm

    var timers: seq<Entry>
    var active: set<TimerId>
    var callingExpiredTimers: bool
    var cancelingTimers: set<TimerId>

    ghost var batch: seq<Entry>
    ghost var readTime: int
    ghost var waiting: set<Address>
    ghost var deleted: set<nat>
    ghost var cancelled: set<nat>

    ghost function State(): Queue
      reads this
    {
      Queue(heap, created, timers, active, callingExpiredTimers, cancelingTimers, alarm, clock,
            batch, readTime, waiting, deleted, cancelled)
    }

    ghost predicate Valid()
      reads this
    {
      Inv(State())
    }

    constructor ()
      ensures State() == INITIAL && Valid()
    {
      heap, created := map[], 0;
      clock, alarm := 1, Disarmed;
      timers, active := [], {};
      callingExpiredTimers, cancelingTimers := false, {};
      batch, readTime, waiting, deleted, cancelled := [], 0, {}, {}, {};
      new;
      InitialInv();
    }

    /** `a` is where the allocator puts the new timer. */
    method AddTimer(a: Address, when: int, repeat: bool, delta: nat) returns (id: TimerId)
      requires Valid() && a !in heap
      modifies this
      ensures Valid() && State() == Create(old(State()), a, when, repeat, delta)
      ensures id == TimerId(a, created) && id.timer in waiting
    {
      hide Inv;
      CreateKeeps(State(), a, when, repeat, delta);
      created := created + 1;
      heap := heap[a := Timer(when, repeat, delta, created)];
      waiting := waiting + {a};
      id := TimerId(a, created);
    }

    method InsertTimer(a: Address) returns (earliestChanged: bool)
      requires a in heap && Sorted(timers) && Entry(heap[a].expiration, a) !in timers
      modifies this`timers, this`active
      ensures State() == Inserted(old(State()), a)
      ensures earliestChanged <==> old(timers) == [] || heap[a].expiration < old(timers)[0].when
    {
      earliestChanged := false;
      var when := heap[a].expiration;
      if |timers| == 0 || when < timers[0].when {
        earliestChanged := true;
      }
      timers := Insert(timers, Entry(when, a));
      active := active + {IdOf(heap, a)};
    }

    method AddTimerInLoop(a: Address)
      requires Valid() && a in waiting
      modifies this
      ensures Entry(old(heap)[a].expiration, a) !in old(timers)
      ensures Valid() && State() == Spec.AddTimerInLoop(old(State()), a)
    {
      hide Inv;
      AddKeeps(State(), a);
      var earliestChanged := InsertTimer(a);
      waiting := waiting - {a};
      if earliestChanged {
        alarm := ResetTimerfd(clock, heap[a].expiration);
      }
    }

    method CancelInLoop(id: TimerId)
      requires Valid()
      modifies this
      ensures id in old(active) ==>
                id.timer in old(heap) && Entry(old(heap)[id.timer].expiration, id.timer) in old(timers)
      ensures Valid() && State() == Spec.CancelInLoop(old(State()), id)
    {
      hide Inv;
      CancelKeeps(State(), id);
      if Names(State(), id) {
        cancelled := cancelled + {id.sequence};
      }
      if id in active {
        timers := Erase(timers, Entry(heap[id.timer].expiration, id.timer));
        deleted := deleted + {heap[id.timer].sequence};
        heap := heap - {id.timer};
        active := active - {id};
      } else if callingExpiredTimers {
        cancelingTimers := cancelingTimers + {id};
      }
    }

    method GetExpired(now: int) returns (expired: seq<Entry>)
      requires Filed(heap, timers)
      modifies this`timers, this`active
      ensures var n := DueCount(old(timers), now);
              && expired == old(timers)[..n] && timers == old(timers)[n..]
              && active == old(active) - Ids(heap, expired)
    {
      var end := DueCount(timers, now);
      expired := timers[..end];
      timers := timers[end..];
      for i := 0 to |expired|
        invariant timers == old(timers)[end..]
        invariant forall e :: e in expired ==> e.timer in heap
        invariant active == old(active) - Ids(heap, expired[..i])
      {
        var timer := IdOf(heap, expired[i].timer);
        active := active - {timer};
        assert expired[..i + 1] == expired[..i] + [expired[i]];
        assert Ids(heap, expired[..i + 1]) == Ids(heap, expired[..i]) + {timer};
      }
      assert expired[..|expired|] == expired;
    }

    method Reset(expired: seq<Entry>, now: int)
      requires Inv(State().(calling := true)) && !callingExpiredTimers
      requires batch == expired && readTime == now
      modifies this
      ensures State() == EndRead(old(State()).(calling := true))
    {
      hide Inv, EndRead;
      ghost var start := State().(calling := true);
      for i := 0 to |expired|
        invariant Inv(State().(calling := true)) && !callingExpiredTimers
        invariant batch == expired[i..] && readTime == now
        invariant EndRead(State().(calling := true)) == EndRead(start)
      {
        ghost var q := State().(calling := true);
        EndStep(q);
        var a := expired[i].timer;
        if heap[a].repeat && IdOf(heap, a) !in cancelingTimers {
          heap := heap[a := heap[a].Restart(now)];
          var _ := InsertTimer(a);
        } else {
          deleted := deleted + {heap[a].sequence};
          heap := heap - {a};
        }
        batch := batch[1..];
        assert State().(calling := true) == ResetOne(q);
      }
      EndLast(State().(calling := true));
      if |timers| != 0 {
        var nextExpire := heap[timers[0].timer].expiration;
        if nextExpire > 0 {
          alarm := ResetTimerfd(clock, nextExpire);
        }
      }
    }

    /** A call from a callback, or from another thread during one. */
    method Perform(op: Op)
      requires Valid() && Enabled(State(), op) && op != ReadOp && op != EndOp
      modifies this
      ensures Valid() && State() == Apply(old(State()), op)
    {
      hide Inv;
      match op
      case CreateOp(a, when, repeat, delta) =>
        var _ := AddTimer(a, when, repeat, delta);
      case AddOp(a) =>
        AddTimerInLoop(a);
      case CancelOp(id) =>
        CancelInLoop(id);
      case TickOp(micros) =>
        TickKeeps(State(), micros);
        clock := clock + micros;
        if alarm.Armed? && alarm.deadline <= clock {
          alarm := Fired;
        }
    }

    method RunCallback(script: seq<Op>)
      requires Valid() && Legal(State(), script) && ReadOp !in script && EndOp !in script
      modifies this
      ensures Valid() && State() == Run(old(State()), script)
    {
      hide Inv, Apply, Enabled;
      ghost var start := State();
      for i := 0 to |script|
        invariant Valid() && Legal(State(), script[i..])
        invariant Run(State(), script[i..]) == Run(start, script)
      {
        assert script[i..][0] == script[i] && script[i..][1..] == script[i + 1..];
        Perform(script[i]);
      }
    }

    /** `scripts[i]` is what the callback of the i-th expired timer does; what
        they do may depend on anything. */
    method HandleRead(scripts: seq<seq<Op>>)
      requires Valid() && !callingExpiredTimers
      requires |scripts| == DueCount(timers, clock)
      requires forall s :: s in scripts ==> ReadOp !in s && EndOp !in s
      requires Legal(State(), [ReadOp] + Concat(scripts) + [EndOp])
      modifies this
      ensures Valid() && State() == Run(old(State()), [ReadOp] + Concat(scripts) + [EndOp])
    {
      hide Inv, Apply, Enabled, EndRead, Filed, Run, Legal;
      ghost var q := State();
      BeginKeeps(q);
      NoEndIn(scripts);
      ReadAndEnd(q, Concat(scripts));
      var now := clock;
      alarm := ReadTimerfd(alarm);
      var expired := GetExpired(now);
      callingExpiredTimers := true;
      cancelingTimers := {};
      batch, readTime := expired, now;
      assert State() == BeginRead(q);
      ghost var start := State();
      for i := 0 to |expired|
        invariant Valid() && Legal(State(), Concat(scripts[i..]))
        invariant Run(State(), Concat(scripts[i..])) == Run(start, Concat(scripts))
      {
        assert scripts[i..][0] == scripts[i] && scripts[i..][1..] == scripts[i + 1..];
        assert Concat(scripts[i..]) == scripts[i] + Concat(scripts[i + 1..]);
        RunSplits(State(), scripts[i], Concat(scripts[i + 1..]));
        RunCallback(scripts[i]);
      }
      assert Concat(scripts[|expired|..]) == [];
      RunNothing(State());
      BatchStaysAlive(start, Concat(scripts));
      callingExpiredTimers := false;
      EndKeeps(Run(start, Concat(scripts)));
      Reset(expired, now);
    }
  }

  lemma EndStep(q: Queue)
    requires Inv(q) && q.batch != []
    ensures q.batch[0].timer in q.heap && Sorted(q.timers)
    ensures q.heap[q.batch[0].timer].repeat ==>
              Entry(q.heap[q.batch[0].timer].Restart(q.readTime).expiration, q.batch[0].timer) !in q.timers
    ensures Inv(ResetOne(q)) && ResetOne(q).calling && EndRead(q) == EndRead(ResetOne(q))
  {
    ResetKeeps(q);
  }

  lemma EndLast(q: Queue)
    requires Inv(q) && q.batch == []
    ensures q.timers != [] ==> q.timers[0].timer in q.heap
    ensures EndRead(q) == Rearm(q.(calling := false))
  {
    assert q.timers != [] ==> q.timers[0] in q.timers;
  }

  lemma RunNothing(q: Queue)
    requires Inv(q)
    ensures Legal(q, []) && Run(q, []) == q
  {
  }

  lemma NoEndIn(scripts: seq<seq<Op>>)
    requires forall s :: s in scripts ==> EndOp !in s
    ensures EndOp !in Concat(scripts)
  {
  }

  lemma ReadAndEnd(q: Queue, middle: seq<Op>)
    requires Inv(q) && !q.calling && Legal(q, [ReadOp] + middle + [EndOp]) && EndOp !in middle
    ensures Filed(q.heap, q.timers) && Inv(BeginRead(q)) && Legal(BeginRead(q), middle)
    ensures var q' := Run(BeginRead(q), middle);
            q'.calling && Run(q, [ReadOp] + middle + [EndOp]) == EndRead(q')
  {
    hide Inv, EndRead, BeginRead;
    BeginKeeps(q);
    assert Apply(q, ReadOp) == BeginRead(q);
    RunSplits(q, [ReadOp] + middle, [EndOp]);
    RunSplits(q, [ReadOp], middle);
    assert [ReadOp][1..] == [] && [EndOp][1..] == [];
    assert Run(q, [ReadOp]) == Run(Apply(q, ReadOp), []);
    var q' := Run(BeginRead(q), middle);
    BatchStaysAlive(BeginRead(q), middle);
    assert Run(q', [EndOp]) == Run(Apply(q', EndOp), []);
  }
}
