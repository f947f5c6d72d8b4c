/** What holds in every run of the timer queue. */
module TimerQueueRuns {
  import opened SortedEntries
  import opened TimerQueues

  /** `ReadOp` is `handleRead` up to its first callback and `EndOp` its end; what
      comes between is what the callbacks do, and other threads meanwhile. */
  datatype Op =
    | CreateOp(a: Address, when: int, repeat: bool, delta: nat)
    | AddOp(a: Address)
    | CancelOp(id: TimerId)
    | TickOp(micros: nat)
    | ReadOp
    | EndOp

  predicate Enabled(q: Queue, op: Op) {
    match op
    case CreateOp(a, _, _, _) => a !in q.heap
    case AddOp(a) => a in q.waiting
    case CancelOp(_) => true
    case TickOp(_) => true
    case ReadOp => !q.calling
    case EndOp => q.calling
  }

  function Apply(q: Queue, op: Op): (q': Queue)
    requires Inv(q) && Enabled(q, op)
    ensures Inv(q')
  {
    match op
    case CreateOp(a, when, repeat, delta) => CreateKeeps(q, a, when, repeat, delta); Create(q, a, when, repeat, delta)
    case AddOp(a) => AddKeeps(q, a); AddTimerInLoop(q, a)
    case CancelOp(id) => CancelKeeps(q, id); CancelInLoop(q, id)
    case TickOp(micros) => TickKeeps(q, micros); Tick(q, micros)
    case ReadOp => BeginKeeps(q); BeginRead(q)
    case EndOp => EndKeeps(q); EndRead(q)
  }

  predicate Legal(q: Queue, ops: seq<Op>)
    requires Inv(q)
    decreases |ops|
  {
    ops == [] || (Enabled(q, ops[0]) && Legal(Apply(q, ops[0]), ops[1..]))
  }

  /** Reached from the empty queue by any interleaving of calls. */
  function Run(q: Queue, ops: seq<Op>): (q': Queue)
    requires Inv(q) && Legal(q, ops)
    ensures Inv(q')
    decreases |ops|
  {
    if ops == [] then q else Run(Apply(q, ops[0]), ops[1..])
  }

  lemma InitialInv()
    ensures Inv(INITIAL)
  {
  }

  lemma {:induction false} RunSplits(q: Queue, a: seq<Op>, b: seq<Op>)
    requires Inv(q) && Legal(q, a + b)
    ensures Legal(q, a) && Legal(Run(q, a), b) && Run(q, a + b) == Run(Run(q, a), b)
    decreases |a|
  {
    hide Apply, Enabled, Inv;
    if a == [] {
      assert a + b == b;
    } else {
      assert (a + b)[0] == a[0] && (a + b)[1..] == a[1..] + b;
      RunSplits(Apply(q, a[0]), a[1..], b);
    }
  }

  // ------------------------------------------------------------ conservation

  lemma OneEntry(heap: map<Address, Timer>, entries: seq<Entry>, e: Entry)
    requires entries == [e] && e.timer in heap
    ensures Addresses(entries) == {e.timer} && Ids(heap, entries) == {IdOf(heap, e.timer)}
  {
  }

  lemma {:induction false} DistinctAddresses(heap: map<Address, Timer>, entries: seq<Entry>)
    requires Filed(heap, entries)
    ensures |Addresses(entries)| == |entries|
    ensures |Ids(heap, entries)| == |entries|
    decreases |entries|
  {
    if entries != [] {
      SplitOwns(heap, entries, 1);
      OneEntry(heap, entries[..1], entries[0]);
      assert entries[..1] == [entries[0]];
      assert entries[0] in entries;
      assert Ids(heap, entries[..1]) <= Ids(heap, entries);
      hide Filed, Addresses, Ids;
      DistinctAddresses(heap, entries[1..]);
      assert |Addresses(entries)| == |Addresses(entries[..1])| + |Addresses(entries[1..])|;
      assert Ids(heap, entries) == Ids(heap, entries[1..]) + Ids(heap, entries[..1]);
    }
  }

  /** The size check that the code asserts around every operation. */
  lemma IndexesAgree(q: Queue)
    requires Owned(q)
    ensures |q.timers| == |q.active|
    ensures forall id :: id in q.active <==> Names(q, id) && Entry(q.heap[id.timer].expiration, id.timer) in q.timers
  {
    DistinctAddresses(q.heap, q.timers);
    forall id
      ensures id in q.active <==> Names(q, id) && Entry(q.heap[id.timer].expiration, id.timer) in q.timers
    {
      QueuedAddress(q, id);
      if Names(q, id) && Entry(q.heap[id.timer].expiration, id.timer) in q.timers {
        assert id.timer in Addresses(q.timers);
      }
    }
  }

  function Numbers(heap: map<Address, Timer>): set<nat> {
    set a | a in heap :: heap[a].sequence
  }

  lemma {:induction false} NumbersCount(heap: map<Address, Timer>)
    requires forall a, b :: a in heap && b in heap && heap[a].sequence == heap[b].sequence ==> a == b
    ensures |Numbers(heap)| == |heap.Keys|
    decreases |heap.Keys|
  {
    if heap.Keys != {} {
      var a :| a in heap.Keys;
      var rest := heap - {a};
      assert rest.Keys == heap.Keys - {a};
      NumbersCount(rest);
      assert Numbers(heap) == Numbers(rest) + {heap[a].sequence} by {
        forall n | n in Numbers(heap)
          ensures n in Numbers(rest) + {heap[a].sequence}
        {
          var b :| b in heap && heap[b].sequence == n;
          assert b == a || b in rest;
        }
        forall n | n in Numbers(rest)
          ensures n in Numbers(heap)
        {
          var b :| b in rest && rest[b].sequence == n;
          assert b in heap;
        }
      }
    }
  }

  function UpTo(n: nat): (s: set<nat>)
    ensures |s| == n && forall k :: k in s <==> 1 <= k <= n
  {
    if n == 0 then {} else UpTo(n - 1) + {n}
  }

  predicate IsQueued(q: Queue, n: nat) {
    exists e :: e in q.timers && e.timer in q.heap && q.heap[e.timer].sequence == n
  }

  predicate InBatch(q: Queue, n: nat) {
    exists e :: e in q.batch && e.timer in q.heap && q.heap[e.timer].sequence == n
  }

  predicate Waits(q: Queue, n: nat) {
    exists a :: a in q.waiting && a in q.heap && q.heap[a].sequence == n
  }

  function Count(here: bool): nat {
    if here then 1 else 0
  }

  /** In how many places the timer with this number is. */
  function Places(q: Queue, n: nat): nat {
    Count(n in q.deleted) + Count(IsQueued(q, n)) + Count(InBatch(q, n)) + Count(Waits(q, n))
  }

  /** Every timer ever created is queued, in the running batch, still to be
      added, or deleted: each in exactly one place, and deleted only once. */
  lemma Conservation(ops: seq<Op>)
    requires Inv(INITIAL) && Legal(INITIAL, ops)
    ensures var q := Run(INITIAL, ops);
            && q.created == |q.timers| + |q.batch| + |q.waiting| + |q.deleted|
            && forall n :: 1 <= n <= q.created ==> Places(q, n) == 1
  {
    hide Inv, Run, Legal, Places;
    var q := Run(INITIAL, ops);
    ConservationAt(q);
    forall n | 1 <= n <= q.created
      ensures Places(q, n) == 1
    {
      OnePlace(q, n);
    }
  }

  lemma OnePlace(q: Queue, n: nat)
    requires Inv(q) && 1 <= n <= q.created
    ensures Places(q, n) == 1
  {
    hide Owned, Settled, Watched;
    if n in q.deleted {
      assert !IsQueued(q, n) && !InBatch(q, n) && !Waits(q, n);
    } else {
      assert IsLive(q.heap, n);
      var a :| a in q.heap && q.heap[a].sequence == n;
      QueuedIff(q, q.timers, a);
      QueuedIff(q, q.batch, a);
      assert Waits(q, n) <==> a in q.waiting;
      OneOwner(q, a);
    }
  }

  /** A number stands for one address. */
  lemma QueuedIff(q: Queue, entries: seq<Entry>, a: Address)
    requires Numbered(q) && a in q.heap
    ensures (exists e :: e in entries && e.timer in q.heap && q.heap[e.timer].sequence == q.heap[a].sequence)
       <==> a in Addresses(entries)
  {
    if a in Addresses(entries) {
      var e :| e in entries && e.timer == a;
      assert q.heap[e.timer].sequence == q.heap[a].sequence;
    }
  }

  lemma OneOwner(q: Queue, a: Address)
    requires Owned(q) && a in q.heap
    ensures Count(a in Addresses(q.timers)) + Count(a in Addresses(q.batch)) + Count(a in q.waiting) == 1
  {
    hide Filed, Addresses, Ids;
  }

  lemma ConservationAt(q: Queue)
    requires Inv(q)
    ensures q.created == |q.timers| + |q.batch| + |q.waiting| + |q.deleted|
  {
    hide Owned, Numbered, Settled, Watched, Filed, Addresses, Numbers, UpTo;
    LiveCount(q);
    CreatedCount(q);
  }

  lemma LiveCount(q: Queue)
    requires Owned(q)
    ensures |q.heap.Keys| == |q.timers| + |q.batch| + |q.waiting|
  {
    hide Filed, Addresses;
    DistinctAddresses(q.heap, q.timers);
    DistinctAddresses(q.heap, q.batch);
    var queued := Addresses(q.timers) + Addresses(q.batch);
    assert |queued| == |Addresses(q.timers)| + |Addresses(q.batch)|;
    assert queued !! q.waiting;
  }

  lemma CreatedCount(q: Queue)
    requires Numbered(q)
    ensures q.created == |q.heap.Keys| + |q.deleted|
  {
    hide UpTo;
    NumbersCount(q.heap);
    var numbers := Numbers(q.heap);
    forall n | 1 <= n <= q.created && n !in q.deleted
      ensures n in numbers
    {
      assert IsLive(q.heap, n);
      var a :| a in q.heap && q.heap[a].sequence == n;
    }
    assert UpTo(q.created) == numbers + q.deleted;
    assert numbers !! q.deleted;
  }

  // ----------------------------------------------------------------- batches

  /** `getExpired` takes exactly the due entries, in order of expiration and, at
      the same time, of address. */
  lemma ExpiredExactly(q: Queue)
    requires Inv(q) && !q.calling
    ensures var q' := BeginRead(q);
            && q'.batch + q'.timers == q.timers
            && (forall e :: e in q'.batch ==> e.when <= q.clock)
            && (forall e :: e in q'.timers ==> q.clock < e.when)
            && (forall i, j :: 0 <= i < j < |q'.batch| ==>
                  q'.batch[i].when < q'.batch[j].when ||
                  (q'.batch[i].when == q'.batch[j].when && q'.batch[i].timer < q'.batch[j].timer))
  {
    var n := DueCount(q.timers, q.clock);
    assert q.timers[..n] + q.timers[n..] == q.timers;
  }

  /** Whatever the callbacks do, every timer of the batch stays alive, with the
      number it had, until `reset`. */
  lemma {:induction false} BatchStaysAlive(q: Queue, ops: seq<Op>)
    requires Inv(q) && q.calling && Legal(q, ops) && EndOp !in ops
    ensures var q' := Run(q, ops);
            && q'.calling && q'.batch == q.batch && q'.readTime == q.readTime
            && (forall e :: e in q.batch ==>
                  e.timer in q.heap && e.timer in q'.heap && q'.heap[e.timer] == q.heap[e.timer])
    decreases |ops|
  {
    if ops != [] {
      StepKeepsBatch(q, ops[0]);
      hide Inv, Apply;
      BatchStaysAlive(Apply(q, ops[0]), ops[1..]);
    }
  }

  lemma StepKeepsBatch(q: Queue, op: Op)
    requires Inv(q) && q.calling && Enabled(q, op) && op != EndOp
    ensures var q' := Apply(q, op);
            && q'.calling && q'.batch == q.batch && q'.readTime == q.readTime
            && (forall e :: e in q.batch ==>
                  e.timer in q.heap && e.timer in q'.heap && q'.heap[e.timer] == q.heap[e.timer])
  {
    assert forall e :: e in q.batch ==> e.timer in Addresses(q.batch);
    if op.CancelOp? {
      QueuedAddress(q, op.id);
    }
  }

  /** What `reset` owes to a timer of the batch. */
  predicate Treated(q: Queue, e: Entry, q': Queue)
    requires e.timer in q.heap
  {
    var timer := q.heap[e.timer];
    if timer.repeat && IdOf(q.heap, e.timer) !in q.canceling then
      e.timer in q'.heap && q'.heap[e.timer] == timer.Restart(q.readTime) &&
      Entry(q.readTime + timer.delta, e.timer) in q'.timers
    else timer.sequence in q'.deleted
  }

  /** Queued timers stay as they are and deleted ones stay deleted. */
  predicate Preserved(q: Queue, q': Queue) {
    && (forall e :: e in q.timers ==>
          e in q'.timers && e.timer in q.heap && e.timer in q'.heap && q'.heap[e.timer] == q.heap[e.timer])
    && q.deleted <= q'.deleted
  }

  predicate BatchIsLive(q: Queue) {
    forall e :: e in q.batch ==> e.timer in q.heap
  }

  lemma ResetOneOutcome(q: Queue, a: Address)
    requires Filed(q.heap, q.timers) && Filed(q.heap, q.batch) && q.batch != [] && a == q.batch[0].timer
    requires forall when :: Entry(when, a) !in q.timers
    ensures var q' := ResetOne(q);
            && Preserved(q, q') && Treated(q, q.batch[0], q')
            && q'.readTime == q.readTime && q'.canceling == q.canceling && q'.batch == q.batch[1..]
            && (forall e :: e in q'.batch ==> e.timer in q'.heap && q'.heap[e.timer] == q.heap[e.timer])
  {
    BatchHead(q.heap, q.batch);
    assert forall e :: e in q.timers ==> e.timer != a;
    assert forall e :: e in q.batch[1..] ==> e in q.batch && e.timer in Addresses(q.batch[1..]);
  }

  lemma BatchFacts(q: Queue)
    requires Inv(q) && q.batch != []
    ensures Filed(q.heap, q.timers) && Filed(q.heap, q.batch) && BatchIsLive(q)
    ensures forall when :: Entry(when, q.batch[0].timer) !in q.timers
    ensures Inv(ResetOne(q)) && EndRead(q) == EndRead(ResetOne(q))
  {
    ResetKeeps(q);
    BatchHeadIsFree(q);
  }

  lemma EndOutcome(q: Queue)
    requires Inv(q) && q.batch == []
    ensures Preserved(q, EndRead(q))
  {
    assert forall e :: e in q.timers ==> e.timer in q.heap;
  }

  lemma PreservedTwice(q: Queue, r: Queue, s: Queue)
    requires Preserved(q, r) && Preserved(r, s)
    ensures Preserved(q, s)
  {
  }

  /** After `reset` every repeating timer that was not cancelled meanwhile is
      queued one interval after the batch's time, every other timer of the batch
      is deleted, and what was queued still is. */
  lemma {:induction false} ResetOutcome(q: Queue)
    requires Inv(q)
    ensures Preserved(q, EndRead(q)) && BatchIsLive(q)
    ensures forall e :: e in q.batch ==> Treated(q, e, EndRead(q))
    decreases |q.batch|
  {
    hide Inv, ResetOne, EndRead;
    if q.batch == [] {
      EndOutcome(q);
    } else {
      BatchFacts(q);
      ResetOneOutcome(q, q.batch[0].timer);
      var r := ResetOne(q);
      ResetOutcome(r);
      PreservedTwice(q, r, EndRead(q));
      forall e | e in q.batch
        ensures Treated(q, e, EndRead(q))
      {
        if e != q.batch[0] {
          assert e in r.batch && Treated(r, e, EndRead(r));
        } else {
          assert Treated(q, e, r);
        }
      }
    }
  }

  /** During callbacks a timer of the batch is marked exactly when it was before or
      is cancelled: only marks of this `handleRead` count. */
  lemma {:induction false} MarkedIff(q: Queue, ops: seq<Op>, e: Entry)
    requires Inv(q) && q.calling && Legal(q, ops) && EndOp !in ops
    requires e in q.batch && e.timer in q.heap
    ensures Run(q, ops).calling
    ensures IdOf(q.heap, e.timer) in Run(q, ops).canceling <==>
              IdOf(q.heap, e.timer) in q.canceling || CancelOp(IdOf(q.heap, e.timer)) in ops
    decreases |ops|
  {
    if ops != [] {
      StepKeepsBatch(q, ops[0]);
      StepMarks(q, ops[0], e);
      hide Inv, Apply, Enabled;
      MarkedIff(Apply(q, ops[0]), ops[1..], e);
      assert CancelOp(IdOf(q.heap, e.timer)) in ops <==>
               CancelOp(IdOf(q.heap, e.timer)) == ops[0] || CancelOp(IdOf(q.heap, e.timer)) in ops[1..];
    }
  }

  lemma StepMarks(q: Queue, op: Op, e: Entry)
    requires Inv(q) && q.calling && Enabled(q, op) && op != EndOp
    requires e in q.batch && e.timer in q.heap
    ensures var id := IdOf(q.heap, e.timer);
            id in Apply(q, op).canceling <==> id in q.canceling || op == CancelOp(id)
  {
    assert e.timer in Addresses(q.batch);
    if op.CancelOp? {
      QueuedAddress(q, op.id);
    }
  }

  /** The fate of a timer of the batch over a whole `handleRead`: it is queued once
      more, one interval after the batch's time, exactly when it repeats and no
      cancel names it during the callbacks; otherwise it is deleted. */
  lemma RepeatsIff(q: Queue, start: Queue, middle: seq<Op>, last: Queue, e: Entry)
    requires Inv(q) && !q.calling && start == Apply(q, ReadOp) && e in start.batch
    requires Inv(start) && Legal(start, middle) && EndOp !in middle && last == Run(start, middle)
    ensures Inv(last) && last.calling && e.timer in q.heap
    ensures Happened(q, e, CancelOp(IdOf(q.heap, e.timer)) in middle, EndRead(last))
  {
    hide Inv, Legal, Run, EndRead, Apply, Enabled, Preserved, Treated, Filed;
    BeginFacts(q);
    BatchStaysAlive(start, middle);
    MarkedIff(start, middle, e);
    ResetOutcome(last);
    TreatedHappened(q, e, CancelOp(IdOf(q.heap, e.timer)) in middle, last, EndRead(last));
  }

  predicate Happened(q: Queue, e: Entry, cancelled: bool, q': Queue)
    requires e.timer in q.heap
  {
    var timer := q.heap[e.timer];
    if timer.repeat && !cancelled then Entry(q.clock + timer.delta, e.timer) in q'.timers
    else timer.sequence in q'.deleted
  }

  lemma TreatedHappened(q: Queue, e: Entry, cancelled: bool, last: Queue, q': Queue)
    requires e.timer in q.heap && e.timer in last.heap && last.heap[e.timer] == q.heap[e.timer]
    requires last.readTime == q.clock && Treated(last, e, q')
    requires IdOf(q.heap, e.timer) in last.canceling <==> cancelled
    ensures Happened(q, e, cancelled, q')
  {
  }

  lemma BeginFacts(q: Queue)
    requires Inv(q) && !q.calling
    ensures var start := Apply(q, ReadOp);
            start.calling && start.heap == q.heap && start.canceling == {} && start.readTime == q.clock
  {
    hide Inv;
    BeginKeeps(q);
  }

  // ------------------------------------------------------------ cancellation

  lemma {:induction false} CancelledGrows(q: Queue, ops: seq<Op>)
    requires Inv(q) && Legal(q, ops)
    ensures q.cancelled <= Run(q, ops).cancelled
    decreases |ops|
  {
    if ops != [] {
      StepCancelled(q, ops[0]);
      hide Inv, Apply;
      CancelledGrows(Apply(q, ops[0]), ops[1..]);
    }
  }

  lemma StepCancelled(q: Queue, op: Op)
    requires Inv(q) && Enabled(q, op)
    ensures q.cancelled <= Apply(q, op).cancelled
  {
    if op == EndOp {
      EndCancelled(q);
    }
  }

  lemma {:induction false} EndCancelled(q: Queue)
    requires Inv(q)
    ensures EndRead(q).cancelled == q.cancelled
    decreases |q.batch|
  {
    if q.batch != [] {
      ResetKeeps(q);
      EndCancelled(ResetOne(q));
    }
  }

  /** No continuation, whatever happens in it, collects the timer. */
  ghost predicate NeverCollected(q: Queue, n: nat)
    requires Inv(q)
  {
    forall ops :: Legal(q, ops + [ReadOp]) ==> !InBatch(Run(q, ops + [ReadOp]), n)
  }

  predicate IsLiveHandle(q: Queue, id: TimerId) {
    id.timer in q.heap && IdOf(q.heap, id.timer) == id
  }

  lemma CancelHolds(q: Queue, id: TimerId)
    requires Inv(q) && Names(q, id)
    ensures NeverCollected(Apply(q, CancelOp(id)), id.sequence)
  {
    hide Inv, Apply, Enabled, Legal, Run, InBatch, Names;
    CancelEnabled(q, id);
    var q1 := Apply(q, CancelOp(id));
    CancelIsNoted(q, id);
    forall ops | Legal(q1, ops + [ReadOp])
      ensures !InBatch(Run(q1, ops + [ReadOp]), id.sequence)
    {
      RunSplits(q1, ops, [ReadOp]);
      RunCons(Run(q1, ops), ReadOp, []);
      CancelledGrows(q1, ops);
      ReadExcludes(Run(q1, ops), id.sequence);
    }
  }

  lemma CancelIsNoted(q: Queue, id: TimerId)
    requires Inv(q) && Names(q, id)
    ensures id.sequence in Apply(q, CancelOp(id)).cancelled
  {
    hide Inv;
  }

  lemma ReadExcludes(q: Queue, n: nat)
    requires Inv(q) && Enabled(q, ReadOp) && n in q.cancelled
    ensures !InBatch(Apply(q, ReadOp), n)
  {
    NextBatchExcludes(q, n);
  }

  lemma RunCons(q: Queue, op: Op, ops: seq<Op>)
    requires Inv(q)
    ensures Legal(q, [op] + ops) <==> Enabled(q, op) && Legal(Apply(q, op), ops)
    ensures Legal(q, [op] + ops) ==> Run(q, [op] + ops) == Run(Apply(q, op), ops)
    ensures ops == [] ==> [op] + ops == [op]
    ensures ops == [] && Enabled(q, op) ==> Legal(q, [op]) && Run(q, [op]) == Apply(q, op)
  {
    hide Inv, Apply, Enabled;
    assert ([op] + ops)[0] == op && ([op] + ops)[1..] == ops;
  }

  /** A timer still to be added is not in the sets that a cancel looks at. */
  lemma CancelMissesWaiting(q: Queue, id: TimerId)
    requires Inv(q) && IsLiveHandle(q, id) && id.timer in q.waiting
    ensures var q1 := Apply(q, CancelOp(id)); q1 == q.(canceling := q1.canceling)
  {
    QueuedAddress(q, id);
  }

  lemma AddQueues(q: Queue, a: Address)
    requires Inv(q) && a in q.waiting
    ensures a in q.heap && Enabled(q, AddOp(a))
    ensures var q' := Apply(q, AddOp(a));
            && q'.heap == q.heap && q'.calling == q.calling && q'.clock == q.clock
            && Entry(q.heap[a].expiration, a) in q'.timers
  {
    AddKeeps(q, a);
  }

  lemma EndQueues(q: Queue, e: Entry)
    requires Inv(q) && q.calling && e in q.timers && e.timer in q.heap
    ensures var q' := Apply(q, EndOp);
            !q'.calling && e in q'.timers && e.timer in q'.heap && q'.heap[e.timer] == q.heap[e.timer]
  {
    hide Inv, EndRead;
    ResetOutcome(q);
    EndKeeps(q);
  }

  lemma DueIsCollected(q: Queue, e: Entry, n: nat)
    requires Inv(q) && !q.calling && e in q.timers && e.timer in q.heap && q.heap[e.timer].sequence == n
    requires e.when <= q.clock
    ensures Enabled(q, ReadOp) && InBatch(Apply(q, ReadOp), n)
  {
    ExpiredExactly(q);
    assert e in Apply(q, ReadOp).batch + Apply(q, ReadOp).timers;
  }

  /** Outside `handleRead` a queued timer is collected after some time. */
  lemma WaitAndRead(q: Queue, e: Entry, n: nat) returns (ops: seq<Op>)
    requires Inv(q) && !q.calling && e in q.timers && e.timer in q.heap && q.heap[e.timer].sequence == n
    ensures Legal(q, ops + [ReadOp]) && InBatch(Run(q, ops + [ReadOp]), n)
  {
    var tick := TickOp(if e.when > q.clock then e.when - q.clock else 0);
    var q' := Apply(q, tick);
    DueIsCollected(q', e, n);
    RunCons(q', ReadOp, []);
    RunCons(q, tick, [ReadOp]);
    ops := [tick];
  }

  /** The end of `handleRead` first, when in a callback. */
  lemma EndAndRead(q: Queue, e: Entry, n: nat) returns (ops: seq<Op>)
    requires Inv(q) && e in q.timers && e.timer in q.heap && q.heap[e.timer].sequence == n
    ensures Legal(q, ops + [ReadOp]) && InBatch(Run(q, ops + [ReadOp]), n)
  {
    hide Inv, Apply, Legal, Run, InBatch;
    if q.calling {
      EndQueues(q, e);
      var later := WaitAndRead(Apply(q, EndOp), e, n);
      RunCons(q, EndOp, later + [ReadOp]);
      ops := [EndOp] + later;
      assert ops + [ReadOp] == [EndOp] + (later + [ReadOp]);
    } else {
      ops := WaitAndRead(q, e, n);
    }
  }

  lemma CancelIsLost(q: Queue, id: TimerId)
    requires Inv(q) && IsLiveHandle(q, id) && id.timer in q.waiting
    ensures !NeverCollected(Apply(q, CancelOp(id)), id.sequence)
  {
    hide Inv, Apply, Legal, Run, InBatch, Enabled;
    CancelEnabled(q, id);
    var q1, add := Apply(q, CancelOp(id)), AddOp(id.timer);
    CancelMissesWaiting(q, id);
    AddQueues(q1, id.timer);
    var later := EndAndRead(Apply(q1, add), Entry(q1.heap[id.timer].expiration, id.timer), id.sequence);
    RunCons(q1, add, later + [ReadOp]);
    var ops := [add] + later;
    assert ops + [ReadOp] == [add] + (later + [ReadOp]);
    assert Legal(q1, ops + [ReadOp]) && InBatch(Run(q1, ops + [ReadOp]), id.sequence);
  }

  /** A cancel takes off the one timer that it names, if it is queued, and touches
      no other. Outside `handleRead` nothing is left behind. */
  lemma CancelTouchesOne(q: Queue, id: TimerId)
    requires Inv(q)
    ensures var q' := Apply(q, CancelOp(id));
            && (forall e :: e in q'.timers <==> e in q.timers && !(id in q.active && e.timer == id.timer))
            && (forall a :: a in q.heap && !(id in q.active && a == id.timer) ==>
                  a in q'.heap && q'.heap[a] == q.heap[a])
            && (id in q.active ==> q'.deleted == q.deleted + {id.sequence} && id.timer !in q'.heap)
            && (id !in q.active ==> q'.deleted == q.deleted && q'.heap == q.heap)
            && (!q.calling || id in q.active ==> q'.canceling == q.canceling)
            && (q.calling && id !in q.active ==> q'.canceling == q.canceling + {id})
            && q'.batch == q.batch && q'.waiting == q.waiting && q'.clock == q.clock && q'.calling == q.calling
  {
    CancelKeeps(q, id);
    QueuedAddress(q, id);
    hide Numbered, Settled, Watched;
  }

  /** In every run: a cancel in time, even by the timer itself while it runs,
      keeps the timer out of all later batches; one before the timer's own
      `addTimerInLoop` is lost, and some continuation runs the timer. */
  lemma CancelledNeverRunsAgainIff(before: seq<Op>, id: TimerId)
    requires Inv(INITIAL) && Legal(INITIAL, before) && IsLiveHandle(Run(INITIAL, before), id)
    ensures var q := Run(INITIAL, before);
            NeverCollected(Apply(q, CancelOp(id)), id.sequence) <==> id.timer !in q.waiting
  {
    var q := Run(INITIAL, before);
    if id.timer in q.waiting {
      CancelIsLost(q, id);
    } else {
      CancelHolds(q, id);
    }
  }

  /** Such a run: another thread has created the timer, the loop cancels it, and
      then the addition arrives. */
  lemma CancelOvertakesAdd()
    requires Inv(INITIAL)
    ensures var ops := [CreateOp(7, 50, true, 1000), CancelOp(TimerId(7, 1)), AddOp(7), TickOp(1000), ReadOp];
            Legal(INITIAL, ops) && InBatch(Run(INITIAL, ops), 1)
  {
    hide Inv, InBatch, Legal, Run, Apply, Enabled;
    var create, cancel, add, tick := CreateOp(7, 50, true, 1000), CancelOp(TimerId(7, 1)), AddOp(7), TickOp(1000);
    CreateWaits(INITIAL, 7, 50, true, 1000);
    var q := Apply(INITIAL, create);
    CancelEnabled(q, TimerId(7, 1));
    CancelMissesWaiting(q, TimerId(7, 1));
    var q1 := Apply(q, cancel);
    AddQueues(q1, 7);
    var q2 := Apply(q1, add);
    TickMoves(q2, 1000);
    var q3 := Apply(q2, tick);
    DueIsCollected(q3, Entry(50, 7), 1);
    RunCons(q3, ReadOp, []);
    RunCons(q2, tick, [ReadOp]);
    RunCons(q1, add, [tick, ReadOp]);
    RunCons(q, cancel, [add, tick, ReadOp]);
    RunCons(INITIAL, create, [cancel, add, tick, ReadOp]);
    assert [create] + [cancel, add, tick, ReadOp] == [create, cancel, add, tick, ReadOp];
    assert [cancel] + [add, tick, ReadOp] == [cancel, add, tick, ReadOp];
    assert [add] + [tick, ReadOp] == [add, tick, ReadOp];
    assert [tick] + [ReadOp] == [tick, ReadOp];
  }

  lemma CreateWaits(q: Queue, a: Address, when: int, repeat: bool, delta: nat)
    requires Inv(q) && a !in q.heap
    ensures Enabled(q, CreateOp(a, when, repeat, delta))
    ensures var q' := Apply(q, CreateOp(a, when, repeat, delta));
            && a in q'.waiting && a in q'.heap && q'.heap[a] == Timer(when, repeat, delta, q.created + 1)
            && q'.calling == q.calling && q'.clock == q.clock && q'.timers == q.timers && q'.alarm == q.alarm
  {
    hide Inv;
  }

  lemma CancelEnabled(q: Queue, id: TimerId)
    ensures Enabled(q, CancelOp(id))
  {
  }

  lemma TickMoves(q: Queue, micros: nat)
    requires Inv(q)
    ensures Enabled(q, TickOp(micros))
    ensures var q' := Apply(q, TickOp(micros));
            q'.clock == q.clock + micros && q'.heap == q.heap && q'.timers == q.timers && q'.calling == q.calling
  {
    hide Inv;
  }

  lemma NextBatchExcludes(q: Queue, n: nat)
    requires Inv(q) && !q.calling && n in q.cancelled
    ensures forall e :: e in BeginRead(q).batch ==> e.timer in q.heap && q.heap[e.timer].sequence != n
  {
    assert n in q.deleted;
    assert forall e :: e in BeginRead(q).batch ==> e in q.timers;
  }

  /** States that differ at most in a mark for `id`, whose timer is gone. */
  ghost predicate SameButFor(q: Queue, r: Queue, id: TimerId) {
    && r == q.(canceling := r.canceling)
    && (forall x :: x != id ==> (x in r.canceling <==> x in q.canceling))
    && id.sequence in q.deleted
  }

  lemma {:induction false} EndSame(q: Queue, r: Queue, id: TimerId)
    requires Inv(q) && Inv(r) && SameButFor(q, r, id)
    ensures SameButFor(EndRead(q), EndRead(r), id)
    decreases |q.batch|
  {
    if q.batch != [] {
      ResetKeeps(q);
      ResetKeeps(r);
      var own := IdOf(q.heap, q.batch[0].timer);
      assert own != id;
      EndSame(ResetOne(q), ResetOne(r), id);
    }
  }

  lemma SameCreate(q: Queue, r: Queue, id: TimerId, a: Address, when: int, repeat: bool, delta: nat)
    requires SameButFor(q, r, id) && a !in q.heap
    ensures a !in r.heap && SameButFor(Create(q, a, when, repeat, delta), Create(r, a, when, repeat, delta), id)
  {
  }

  lemma SameAdd(q: Queue, r: Queue, id: TimerId, a: Address)
    requires SameButFor(q, r, id) && a in q.heap && Sorted(q.timers) && Entry(q.heap[a].expiration, a) !in q.timers
    ensures SameButFor(AddTimerInLoop(q, a), AddTimerInLoop(r, a), id)
  {
  }

  lemma SameCancel(q: Queue, r: Queue, id: TimerId, other: TimerId)
    requires SameButFor(q, r, id) && Sorted(q.timers)
    requires other in q.active ==>
               other.timer in q.heap && Entry(q.heap[other.timer].expiration, other.timer) in q.timers
    ensures SameButFor(CancelInLoop(q, other), CancelInLoop(r, other), id)
  {
  }

  lemma SameRead(q: Queue, r: Queue, id: TimerId)
    requires SameButFor(q, r, id) && Filed(q.heap, q.timers)
    ensures SameButFor(BeginRead(q), BeginRead(r), id)
  {
  }

  lemma StepSame(q: Queue, r: Queue, id: TimerId, op: Op)
    requires Inv(q) && Inv(r) && SameButFor(q, r, id) && Enabled(q, op)
    ensures Enabled(r, op) && SameButFor(Apply(q, op), Apply(r, op), id)
  {
    hide Inv, Filed, AddTimerInLoop, CancelInLoop, BeginRead, EndRead;
    match op
    case CreateOp(a, when, repeat, delta) =>
      SameCreate(q, r, id, a, when, repeat, delta);
    case AddOp(a) =>
      AddKeeps(q, a);
      SameAdd(q, r, id, a);
    case CancelOp(other) =>
      CancelKeeps(q, other);
      SameCancel(q, r, id, other);
    case TickOp(_) =>
    case ReadOp =>
      BeginKeeps(q);
      SameRead(q, r, id);
    case EndOp =>
      EndSame(q, r, id);
  }

  lemma {:induction false} RunSame(q: Queue, r: Queue, id: TimerId, ops: seq<Op>)
    requires Inv(q) && Inv(r) && SameButFor(q, r, id) && Legal(q, ops)
    ensures Legal(r, ops) && SameButFor(Run(q, ops), Run(r, ops), id)
    decreases |ops|
  {
    if ops != [] {
      StepSame(q, r, id, ops[0]);
      hide Inv, Apply, SameButFor, Enabled;
      RunSame(Apply(q, ops[0]), Apply(r, ops[0]), id, ops[1..]);
    }
  }

  /** Cancelling with the handle of a deleted timer changes no timer, now or
      later, although its address may have been given to another one. */
  lemma StaleCancelIsHarmless(q: Queue, id: TimerId, ops: seq<Op>)
    requires Inv(q) && id.sequence in q.deleted && Legal(q, ops)
    ensures var r := Apply(q, CancelOp(id));
            && Legal(r, ops)
            && Run(r, ops) == Run(q, ops).(canceling := Run(r, ops).canceling)
  {
    QueuedAddress(q, id);
    RunSame(q, Apply(q, CancelOp(id)), id, ops);
  }

  // ------------------------------------------------------------------- alarm

  /** Outside `handleRead` a queue with timers has an alarm that has gone off, or
      will by the earliest expiration or 100 microseconds from when it was set. */
  lemma AlarmCovers(ops: seq<Op>)
    requires Inv(INITIAL) && Legal(INITIAL, ops)
    ensures var q := Run(INITIAL, ops);
            !q.calling && q.timers != [] ==>
              q.alarm == Fired ||
              (q.alarm.Armed? && q.alarm.deadline <= Max(q.timers[0].when, q.alarm.setAt + MIN_DELAY))
  {
    hide Inv, Run, Legal, Max;
    AlarmBounds(Run(INITIAL, ops));
  }

  lemma AlarmBounds(q: Queue)
    requires Inv(q)
    ensures !q.calling ==> Covered(q)
    ensures q.alarm.Armed? ==> q.alarm.setAt + MIN_DELAY <= q.alarm.deadline
  {
    hide Owned, Numbered, Settled, Covered;
  }

  /** It goes off by the earliest expiration exactly when that lay at least 100
      microseconds ahead when the alarm was set. */
  lemma AlarmInTimeIff(ops: seq<Op>)
    requires Inv(INITIAL) && Legal(INITIAL, ops)
    ensures var q := Run(INITIAL, ops);
            !q.calling && q.timers != [] && q.alarm.Armed? ==>
              (q.alarm.deadline <= q.timers[0].when <==> q.timers[0].when >= q.alarm.setAt + MIN_DELAY)
  {
    hide Inv, Run, Legal;
    AlarmBounds(Run(INITIAL, ops));
  }

  /** What an alarm that is set now for the earliest timer looks like: at its
      expiration, but not within 100 microseconds. */
  predicate IsSetFor(q: Queue, alarm: Alarm) {
    q.timers != [] &&
    alarm == Armed(q.clock, if q.timers[0].when - q.clock >= 100 then q.timers[0].when else q.clock + 100)
  }

  /** All that ever happens to the alarm. Only adding the earliest timer and the
      end of `handleRead` set it, always for the earliest timer; only time sets
      it off, and only reading clears it. */
  lemma AlarmChanges(q: Queue, op: Op)
    requires Inv(q) && Enabled(q, op)
    ensures var q' := Apply(q, op);
            && (op.CreateOp? || op.CancelOp? ==> q'.alarm == q.alarm)
            && (op.AddOp? && (q.timers == [] || q.heap[op.a].expiration < q.timers[0].when) ==>
                  IsSetFor(q', q'.alarm) && q'.timers[0] == Entry(q.heap[op.a].expiration, op.a))
            && (op.AddOp? && !(q.timers == [] || q.heap[op.a].expiration < q.timers[0].when) ==> q'.alarm == q.alarm)
            && (op == EndOp && q'.timers != [] && q'.timers[0].when > 0 ==> IsSetFor(q', q'.alarm))
            && (op == EndOp && (q'.timers == [] || q'.timers[0].when <= 0) ==> q'.alarm == q.alarm)
            && (op == ReadOp ==> q'.alarm == if q.alarm == Fired then Disarmed else q.alarm)
            && (op.TickOp? ==> q'.clock == q.clock + op.micros &&
                               q'.alarm == if q.alarm.Armed? && q.alarm.deadline <= q'.clock then Fired else q.alarm)
  {
    hide Inv;
    match op
    case CreateOp(_, _, _, _) =>
    case AddOp(a) => AddKeeps(q, a);
    case CancelOp(id) => CancelKeeps(q, id);
    case TickOp(_) =>
    case ReadOp => BeginKeeps(q);
    case EndOp => EndAlarm(q);
  }

  lemma {:induction false} EndAlarm(q: Queue)
    requires Inv(q)
    ensures var q' := EndRead(q);
            && q'.clock == q.clock
            && (q'.timers != [] && q'.timers[0].when > 0 ==> IsSetFor(q', q'.alarm))
            && (q'.timers == [] || q'.timers[0].when <= 0 ==> q'.alarm == q.alarm)
    decreases |q.batch|
  {
    if q.batch != [] {
      ResetKeeps(q);
      EndAlarm(ResetOne(q));
    } else {
      EarliestIsFiled(q);
    }
  }

  /** An armed alarm was set at some moment of the run, for what was the earliest
      timer then: it is never early for that timer, whatever was cancelled since. */
  lemma {:induction false} AlarmWasSet(ops: seq<Op>)
    requires Inv(INITIAL) && Legal(INITIAL, ops) && Run(INITIAL, ops).alarm.Armed?
    ensures exists i :: 0 <= i <= |ops| && Legal(INITIAL, ops[..i]) &&
                        IsSetFor(Run(INITIAL, ops[..i]), Run(INITIAL, ops).alarm)
    decreases |ops|
  {
    hide Inv, Legal, Run, Apply, Enabled, IsSetFor;
    RunNone();
    if ops != [] {
      var n := |ops| - 1;
      assert ops == ops[..n] + [ops[n]];
      RunSplits(INITIAL, ops[..n], [ops[n]]);
      var q := Run(INITIAL, ops[..n]);
      RunCons(q, ops[n], []);
      AlarmChanges(q, ops[n]);
      assert ops[..|ops|] == ops;
      if !IsSetFor(Run(INITIAL, ops), Run(INITIAL, ops).alarm) {
        assert Run(INITIAL, ops).alarm == q.alarm;
        AlarmWasSet(ops[..n]);
        var i :| 0 <= i <= n && Legal(INITIAL, ops[..n][..i]) && IsSetFor(Run(INITIAL, ops[..n][..i]), q.alarm);
        assert ops[..n][..i] == ops[..i];
      }
    }
  }

  lemma RunNone()
    requires Inv(INITIAL)
    ensures Legal(INITIAL, []) && Run(INITIAL, []) == INITIAL
  {
  }

  /** Exactly at the earliest expiration, or 100 microseconds from when it was set. */
  predicate IsExact(q: Queue) {
    q.timers != [] && q.alarm.Armed? ==> q.alarm.deadline == Max(q.timers[0].when, q.alarm.setAt + 100)
  }

  /** Callbacks leave the alarm to `reset`, but for timers that `reset` skips. */
  predicate IsExactEnough(q: Queue) {
    (q.calling ==> q.timers == [] || q.timers[0].when > 0 || IsExact(q)) && (!q.calling ==> IsExact(q))
  }

  lemma {:induction false} EndIsExact(q: Queue)
    requires Inv(q) && q.calling && IsExactEnough(q)
    ensures IsExact(EndRead(q))
    decreases |q.batch|
  {
    if q.batch != [] {
      ResetKeeps(q);
      ResetOneExact(q);
      EndIsExact(ResetOne(q));
    } else {
      EarliestIsFiled(q);
    }
  }

  lemma EarliestIsFiled(q: Queue)
    requires Inv(q)
    ensures q.timers != [] ==>
              q.timers[0].timer in q.heap && q.heap[q.timers[0].timer].expiration == q.timers[0].when
  {
    if q.timers != [] {
      assert q.timers[0] in q.timers;
    }
  }

  /** Restarted timers have positive expirations. */
  lemma ResetOneExact(q: Queue)
    requires Inv(q) && q.calling && q.batch != [] && IsExactEnough(q)
    ensures q.batch[0].timer in q.heap && Sorted(q.timers)
    ensures q.heap[q.batch[0].timer].repeat ==>
              Entry(q.heap[q.batch[0].timer].Restart(q.readTime).expiration, q.batch[0].timer) !in q.timers
    ensures IsExactEnough(ResetOne(q))
  {
    ResetKeeps(q);
    hide Owned, Numbered, Settled;
  }

  lemma StepIsExact(q: Queue, op: Op)
    requires Inv(q) && Enabled(q, op) && !op.CancelOp? && IsExactEnough(q)
    ensures IsExactEnough(Apply(q, op))
  {
    hide Owned, Numbered, Settled;
    AlarmChanges(q, op);
    match op
    case CreateOp(_, _, _, _) =>
    case AddOp(a) => AddKeeps(q, a);
    case TickOp(_) =>
    case ReadOp => BeginKeeps(q);
    case EndOp => EndKeeps(q); EndIsExact(q);
  }

  lemma {:induction false} RunIsExact(q: Queue, ops: seq<Op>)
    requires Inv(q) && Legal(q, ops) && IsExactEnough(q) && forall op :: op in ops ==> !op.CancelOp?
    ensures IsExactEnough(Run(q, ops))
    decreases |ops|
  {
    hide Inv, Apply, Enabled, IsExactEnough;
    if ops != [] {
      StepIsExact(q, ops[0]);
      RunIsExact(Apply(q, ops[0]), ops[1..]);
    }
  }

  /** In every run without cancels, outside `handleRead`, an armed alarm goes off
      exactly at the earliest expiration or 100 microseconds from when it was set,
      whichever is later: never early, never later than need be. */
  lemma AlarmIsExact(ops: seq<Op>)
    requires Inv(INITIAL) && Legal(INITIAL, ops) && forall op :: op in ops ==> !op.CancelOp?
    ensures var q := Run(INITIAL, ops);
            !q.calling && q.timers != [] && q.alarm.Armed? ==>
              q.alarm.deadline == Max(q.timers[0].when, q.alarm.setAt + 100)
  {
    hide Inv, Run, Legal;
    RunIsExact(INITIAL, ops);
  }

  lemma FirstAdd(q: Queue, a: Address)
    requires Inv(q) && a in q.waiting && a in q.heap && q.timers == []
    ensures Enabled(q, AddOp(a))
    ensures var q' := Apply(q, AddOp(a));
            && q'.timers == [Entry(q.heap[a].expiration, a)]
            && q'.alarm == ResetTimerfd(q.clock, q.heap[a].expiration)
  {
    hide Inv;
    AddKeeps(q, a);
  }

  /** A timer added 49 microseconds ahead is 51 microseconds late. */
  lemma AlarmLate()
    requires Inv(INITIAL)
    ensures var ops := [CreateOp(7, 50, false, 0), AddOp(7)];
            && Legal(INITIAL, ops)
            && Run(INITIAL, ops).alarm == Armed(1, 101) && Run(INITIAL, ops).timers == [Entry(50, 7)]
  {
    hide Inv, Legal, Run;
    CreateWaits(INITIAL, 7, 50, false, 0);
    var q := Apply(INITIAL, CreateOp(7, 50, false, 0));
    AddQueues(q, 7);
    FirstAdd(q, 7);
    RunCons(q, AddOp(7), []);
    RunCons(INITIAL, CreateOp(7, 50, false, 0), [AddOp(7)]);
    assert [CreateOp(7, 50, false, 0)] + [AddOp(7)] == [CreateOp(7, 50, false, 0), AddOp(7)];
  }

  /** So once that much time has passed the loop is woken, and the batch it then
      collects starts with the earliest timer. */
  lemma DueTimerIsCollected(q: Queue, micros: nat)
    requires Inv(q) && !q.calling && q.timers != []
    requires q.clock + micros >= q.timers[0].when
    requires q.alarm.Armed? ==> q.clock + micros >= q.alarm.setAt + MIN_DELAY
    ensures var later := Tick(q, micros);
            && later.alarm == Fired
            && Inv(later) && BeginRead(later).batch != [] && BeginRead(later).batch[0] == q.timers[0]
  {
    TickKeeps(q, micros);
  }
}
