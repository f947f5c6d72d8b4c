/** The timer queue's states and steps (muduo/net/TimerQueue.h, TimerQueue.cc,
    Timer.h, Timer.cc), as values. The class over them is in TimerQueueClass.dfy. */
module TimerQueues {
  import opened SortedEntries

  /** `delta` is the interval in microseconds, after the cast to an integer. */
  datatype Timer = Timer(expiration: int, repeat: bool, delta: nat, sequence: nat) {
    function Restart(now: int): Timer {
      this.(expiration := if repeat then now + delta else 0)
    }
  }

  /** An address and a sequence number; addresses are reused, numbers are not. */
  datatype TimerId = TimerId(timer: Address, sequence: nat)

  /** The timerfd: when it was set and when it goes off, or that it went off and
      has not been read. */
  datatype Alarm = Disarmed | Armed(setAt: int, deadline: int) | Fired

  /** `batch` is the local `expired` of a running `handleRead`, less what `reset`
      is done with; `readTime` is its `now`. `waiting` holds timers whose
      `addTimerInLoop` has not run yet; `deleted` and `cancelled` are history. */
  datatype Queue = Queue(
    heap: map<Address, Timer>,
    created: nat,
    timers: seq<Entry>,
    active: set<TimerId>,
    calling: bool,
    canceling: set<TimerId>,
    alarm: Alarm,
    clock: int,
    batch: seq<Entry>,
    readTime: int,
    waiting: set<Address>,
    deleted: set<nat>,
    cancelled: set<nat>)

  const MIN_DELAY := 100

  function IdOf(heap: map<Address, Timer>, a: Address): TimerId
    requires a in heap
  {
    TimerId(a, heap[a].sequence)
  }

  // ------------------------------------------------------------------- steps

  function Max(a: int, b: int): int {
    if a < b then b else a
  }

  /** Never sooner than 100 microseconds from now; replaces any earlier setting. */
  function ResetTimerfd(clock: int, expiration: int): Alarm {
    Armed(clock, clock + Max(expiration - clock, MIN_DELAY))
  }

  function ReadTimerfd(alarm: Alarm): Alarm {
    if alarm == Fired then Disarmed else alarm
  }

  function Create(q: Queue, a: Address, when: int, repeat: bool, delta: nat): Queue
    requires a !in q.heap
  {
    q.(heap := q.heap[a := Timer(when, repeat, delta, q.created + 1)],
       created := q.created + 1,
       waiting := q.waiting + {a})
  }

  /** `insert`, without the alarm. */
  function Inserted(q: Queue, a: Address): Queue
    requires a in q.heap && Sorted(q.timers) && Entry(q.heap[a].expiration, a) !in q.timers
  {
    q.(timers := Insert(q.timers, Entry(q.heap[a].expiration, a)),
       active := q.active + {IdOf(q.heap, a)})
  }

  function AddTimerInLoop(q: Queue, a: Address): Queue
    requires a in q.heap && Sorted(q.timers) && Entry(q.heap[a].expiration, a) !in q.timers
  {
    var when := q.heap[a].expiration;
    var earliestChanged := q.timers == [] || when < q.timers[0].when;
    Inserted(q, a).(
      waiting := q.waiting - {a},
      alarm := if earliestChanged then ResetTimerfd(q.clock, when) else q.alarm)
  }

  /** `id` is the handle of a timer that is queued or in the current batch. */
  predicate Names(q: Queue, id: TimerId) {
    id.timer in q.heap && IdOf(q.heap, id.timer) == id && id.timer !in q.waiting
  }

  function CancelInLoop(q: Queue, id: TimerId): Queue
    requires Sorted(q.timers)
    requires id in q.active ==> id.timer in q.heap && Entry(q.heap[id.timer].expiration, id.timer) in q.timers
  {
    var q' := q.(cancelled := if Names(q, id) then q.cancelled + {id.sequence} else q.cancelled);
    if id in q.active then
      q'.(timers := Erase(q.timers, Entry(q.heap[id.timer].expiration, id.timer)),
          heap := q.heap - {id.timer},
          deleted := q.deleted + {q.heap[id.timer].sequence},
          active := q.active - {id})
    else if q.calling then
      q'.(canceling := q.canceling + {id})
    else q'
  }

  function Ids(heap: map<Address, Timer>, entries: seq<Entry>): set<TimerId>
    requires forall e :: e in entries ==> e.timer in heap
  {
    set e | e in entries :: IdOf(heap, e.timer)
  }

  /** `handleRead` up to its first callback. */
  function BeginRead(q: Queue): Queue
    requires Filed(q.heap, q.timers)
  {
    var n := DueCount(q.timers, q.clock);
    q.(alarm := ReadTimerfd(q.alarm),
       timers := q.timers[n..],
       active := q.active - Ids(q.heap, q.timers[..n]),
       calling := true,
       canceling := {},
       batch := q.timers[..n],
       readTime := q.clock)
  }

  /** One round of the loop in `reset`. */
  function ResetOne(q: Queue): Queue
    requires q.batch != [] && q.batch[0].timer in q.heap && Sorted(q.timers)
    requires var a := q.batch[0].timer;
             var restarted := q.heap[a].Restart(q.readTime);
             q.heap[a].repeat ==> Entry(restarted.expiration, a) !in q.timers
  {
    var a := q.batch[0].timer;
    var timer := q.heap[a];
    if timer.repeat && IdOf(q.heap, a) !in q.canceling then
      Inserted(q.(heap := q.heap[a := timer.Restart(q.readTime)], batch := q.batch[1..]), a)
    else
      q.(heap := q.heap - {a}, deleted := q.deleted + {timer.sequence}, batch := q.batch[1..])
  }

  /** The end of `reset`. */
  function Rearm(q: Queue): Queue
    requires q.timers != [] ==> q.timers[0].timer in q.heap
  {
    if q.timers != [] && q.heap[q.timers[0].timer].expiration > 0 then
      q.(alarm := ResetTimerfd(q.clock, q.heap[q.timers[0].timer].expiration))
    else q
  }

  /** Time passes; an alarm whose time has come goes off. */
  function Tick(q: Queue, micros: nat): Queue {
    var clock := q.clock + micros;
    q.(clock := clock,
       alarm := if q.alarm.Armed? && q.alarm.deadline <= clock then Fired else q.alarm)
  }

  const INITIAL := Queue(map[], 0, [], {}, false, {}, Disarmed, 1, [], 0, {}, {}, {})

  // -------------------------------------------------------------- invariants

  /** The entries are a set of live timers, filed under their expirations. */
  predicate Filed(heap: map<Address, Timer>, entries: seq<Entry>) {
    && Sorted(entries)
    && forall e :: e in entries ==> e.timer in heap && heap[e.timer].expiration == e.when
  }

  function Addresses(entries: seq<Entry>): set<Address> {
    set e | e in entries :: e.timer
  }

  /** Both indexes hold the same timers, and every live timer is in exactly one
      of queued, in the batch, or waiting to be added. */
  predicate Owned(q: Queue) {
    && Filed(q.heap, q.timers) && Filed(q.heap, q.batch)
    && q.active == Ids(q.heap, q.timers)
    && q.heap.Keys == Addresses(q.timers) + Addresses(q.batch) + q.waiting
    && Addresses(q.timers) !! Addresses(q.batch) !! q.waiting
    && (!q.calling ==> q.batch == [])
  }

  /** Sequence numbers name timers once and for all; each ever given out is live
      or deleted, not both. */
  predicate Numbered(q: Queue) {
    && (forall a :: a in q.heap ==> 1 <= q.heap[a].sequence <= q.created && q.heap[a].sequence !in q.deleted)
    && (forall a, b :: a in q.heap && b in q.heap && q.heap[a].sequence == q.heap[b].sequence ==> a == b)
    && (forall n :: n in q.deleted ==> 1 <= n <= q.created)
    && (forall n :: 1 <= n <= q.created ==> n in q.deleted || IsLive(q.heap, n))
  }

  /** A live timer has this number. */
  predicate IsLive(heap: map<Address, Timer>, n: nat) {
    exists a :: a in heap && heap[a].sequence == n
  }

  /** A cancelled timer is gone, or in the batch and marked. */
  predicate Settled(q: Queue) {
    && (forall n :: n in q.cancelled ==>
          n in q.deleted ||
          exists e :: e in q.batch && e.timer in q.heap && IdOf(q.heap, e.timer) == TimerId(e.timer, n)
                      && TimerId(e.timer, n) in q.canceling)
    && (forall n :: n in q.cancelled ==> n <= q.created)
  }

  /** The alarm goes off by the earliest expiration, or within 100 microseconds
      of when it was set. */
  predicate Covered(q: Queue) {
    q.timers == [] || q.alarm == Fired ||
    (q.alarm.Armed? && q.alarm.deadline <= Max(q.timers[0].when, q.alarm.setAt + MIN_DELAY))
  }

  /** During callbacks only expirations that `reset` will not rearm for need cover. */
  predicate Watched(q: Queue) {
    && q.clock > 0
    && (q.alarm.Armed? ==> q.alarm.setAt <= q.clock && q.alarm.setAt + MIN_DELAY <= q.alarm.deadline)
    && (q.calling ==> 0 < q.readTime <= q.clock)
    && (!q.calling ==> Covered(q))
    && (q.timers != [] && q.timers[0].when <= 0 ==> Covered(q))
  }

  predicate Inv(q: Queue) {
    Owned(q) && Numbered(q) && Settled(q) && Watched(q)
  }

  // ------------------------------------------- every step keeps the invariant

  lemma IdsAgree(h: map<Address, Timer>, h': map<Address, Timer>, entries: seq<Entry>)
    requires forall e :: e in entries ==> e.timer in h && e.timer in h' && h[e.timer].sequence == h'[e.timer].sequence
    ensures Ids(h, entries) == Ids(h', entries)
  {
    assert forall e :: e in entries ==> IdOf(h, e.timer) == IdOf(h', e.timer);
  }

  lemma InsertOwns(heap: map<Address, Timer>, entries: seq<Entry>, a: Address)
    requires a in heap && Filed(heap, entries) && a !in Addresses(entries)
    ensures var e := Entry(heap[a].expiration, a);
            && e !in entries
            && Filed(heap, Insert(entries, e))
            && Addresses(Insert(entries, e)) == Addresses(entries) + {a}
            && Ids(heap, Insert(entries, e)) == Ids(heap, entries) + {IdOf(heap, a)}
  {
    var e := Entry(heap[a].expiration, a);
    assert e in entries ==> a in Addresses(entries);
    var r := Insert(entries, e);
    assert e in r;
    assert forall x :: x in r ==> x.timer in Addresses(entries) + {a};
    assert forall x :: x in entries ==> x in r;
    assert forall x :: x in r ==> IdOf(heap, x.timer) in Ids(heap, entries) + {IdOf(heap, a)};
  }

  lemma EraseOwns(heap: map<Address, Timer>, entries: seq<Entry>, a: Address)
    requires a in heap && Filed(heap, entries) && a in Addresses(entries)
    ensures var e := Entry(heap[a].expiration, a);
            && e in entries
            && Filed(heap - {a}, Erase(entries, e))
            && Addresses(Erase(entries, e)) == Addresses(entries) - {a}
            && Ids(heap - {a}, Erase(entries, e)) == Ids(heap, entries) - {IdOf(heap, a)}
  {
    var e := Entry(heap[a].expiration, a);
    assert exists x :: x in entries && x.timer == a;
    var r := Erase(entries, e);
    assert forall x :: x in entries && x.timer == a ==> x == e;
    assert forall x :: x in r ==> x.timer in Addresses(entries) - {a};
    forall b | b in Addresses(entries) - {a}
      ensures b in Addresses(r)
    {
      var x :| x in entries && x.timer == b;
      assert x in r;
    }
    forall id | id in Ids(heap, entries) - {IdOf(heap, a)}
      ensures id in Ids(heap - {a}, r)
    {
      var x :| x in entries && IdOf(heap, x.timer) == id;
      assert x in r && IdOf(heap - {a}, x.timer) == id;
    }
    forall id | id in Ids(heap - {a}, r)
      ensures id in Ids(heap, entries) - {IdOf(heap, a)}
    {
      var x :| x in r && IdOf(heap - {a}, x.timer) == id;
      assert x in entries && IdOf(heap, x.timer) == id && x.timer != a;
    }
  }

  lemma CreateOwns(q: Queue, a: Address, when: int, repeat: bool, delta: nat)
    requires Owned(q) && a !in q.heap
    ensures Owned(Create(q, a, when, repeat, delta))
  {
    var q' := Create(q, a, when, repeat, delta);
    IdsAgree(q.heap, q'.heap, q.timers);
    assert a !in Addresses(q.timers) && a !in Addresses(q.batch) && a !in q.waiting;
    assert forall e :: e in q.timers || e in q.batch ==> e.timer in q.heap && e.timer != a;
  }

  lemma CreateNumbers(q: Queue, a: Address, when: int, repeat: bool, delta: nat)
    requires Numbered(q) && a !in q.heap
    ensures Numbered(Create(q, a, when, repeat, delta))
  {
    var q' := Create(q, a, when, repeat, delta);
    forall n | 1 <= n <= q'.created
      ensures n in q'.deleted || IsLive(q'.heap, n)
    {
      if n == q'.created {
        assert a in q'.heap && q'.heap[a].sequence == n;
      } else if n !in q.deleted {
        assert IsLive(q.heap, n);
        var b :| b in q.heap && q.heap[b].sequence == n;
        assert b in q'.heap && q'.heap[b].sequence == n;
      }
    }
  }

  lemma CreateKeeps(q: Queue, a: Address, when: int, repeat: bool, delta: nat)
    requires Inv(q) && a !in q.heap
    ensures Inv(Create(q, a, when, repeat, delta))
  {
    hide Owned, Numbered, Settled;
    CreateOwns(q, a, when, repeat, delta);
    CreateNumbers(q, a, when, repeat, delta);
    SettledByHeap(q, Create(q, a, when, repeat, delta));
  }

  /** Marks survive as long as the batch and its timers' numbers do. */
  lemma SettledByHeap(q: Queue, q': Queue)
    requires Settled(q) && q'.cancelled == q.cancelled && q.deleted <= q'.deleted && q'.created >= q.created
    requires q'.batch == q.batch && q.canceling <= q'.canceling
    requires forall e :: e in q.batch && e.timer in q.heap ==>
               e.timer in q'.heap && IdOf(q'.heap, e.timer) == IdOf(q.heap, e.timer)
    ensures Settled(q')
  {
    forall n | n in q'.cancelled && n !in q'.deleted
      ensures exists e :: e in q'.batch && e.timer in q'.heap && IdOf(q'.heap, e.timer) == TimerId(e.timer, n)
                          && TimerId(e.timer, n) in q'.canceling
    {
      var e :| e in q.batch && e.timer in q.heap && IdOf(q.heap, e.timer) == TimerId(e.timer, n)
               && TimerId(e.timer, n) in q.canceling;
      assert e in q'.batch && IdOf(q'.heap, e.timer) == TimerId(e.timer, n);
    }
  }

  lemma AddKeeps(q: Queue, a: Address)
    requires Inv(q) && a in q.waiting
    ensures a in q.heap && Sorted(q.timers) && Entry(q.heap[a].expiration, a) !in q.timers
    ensures Inv(AddTimerInLoop(q, a))
  {
    InsertOwns(q.heap, q.timers, a);
    var q' := AddTimerInLoop(q, a);
    assert Owned(q');
    assert Numbered(q');
    SettledByHeap(q, q');
  }

  lemma QueuedAddress(q: Queue, id: TimerId)
    requires Owned(q)
    ensures id in q.active <==> Names(q, id) && id.timer in Addresses(q.timers)
    ensures id in q.active ==> Entry(q.heap[id.timer].expiration, id.timer) in q.timers
  {
    if id in q.active {
      var e :| e in q.timers && IdOf(q.heap, e.timer) == id;
      assert e.timer in Addresses(q.timers);
    }
    if Names(q, id) && id.timer in Addresses(q.timers) {
      var e :| e in q.timers && e.timer == id.timer;
      assert IdOf(q.heap, e.timer) == id;
    }
  }

  /** Deleting a live timer moves its number from the live ones to the deleted. */
  lemma DropNumbers(q: Queue, q': Queue, a: Address)
    requires Numbered(q) && a in q.heap
    requires q'.heap == q.heap - {a} && q'.deleted == q.deleted + {q.heap[a].sequence} && q'.created == q.created
    ensures Numbered(q')
  {
    forall n | 1 <= n <= q'.created && n !in q'.deleted
      ensures IsLive(q'.heap, n)
    {
      assert IsLive(q.heap, n);
      var b :| b in q.heap && q.heap[b].sequence == n;
      assert b in q'.heap;
    }
  }

  lemma CancelQueuedOwns(q: Queue, id: TimerId)
    requires Owned(q) && Watched(q) && id in q.active
    requires id.timer in q.heap && Entry(q.heap[id.timer].expiration, id.timer) in q.timers
    ensures Owned(CancelInLoop(q, id)) && Watched(CancelInLoop(q, id))
  {
    QueuedAddress(q, id);
    EraseOwns(q.heap, q.timers, id.timer);
    assert id == IdOf(q.heap, id.timer);
    assert forall e :: e in q.batch ==> e.timer in Addresses(q.batch);
    assert Filed(q.heap - {id.timer}, q.batch);
  }

  lemma CancelQueuedKeeps(q: Queue, id: TimerId)
    requires Inv(q) && id in q.active
    ensures id.timer in q.heap && Entry(q.heap[id.timer].expiration, id.timer) in q.timers
    ensures Inv(CancelInLoop(q, id))
  {
    QueuedAddress(q, id);
    CancelQueuedOwns(q, id);
    var q' := CancelInLoop(q, id);
    assert id.timer !in Addresses(q.batch);
    assert forall e :: e in q.batch ==> e.timer in Addresses(q.batch);
    assert q.heap[id.timer].sequence == id.sequence <= q.created;
    hide Owned, Watched, Numbered, Settled;
    DropNumbers(q, q', id.timer);
    SettledByHeap(q, q'.(cancelled := q.cancelled));
    CancelledOne(q'.(cancelled := q.cancelled), q', id.sequence);
  }

  /** One more cancelled number, already deleted or marked in the batch. */
  lemma CancelledOne(q: Queue, q': Queue, n: nat)
    requires Settled(q) && q' == q.(cancelled := q.cancelled + {n}) && n <= q.created
    requires n in q.deleted ||
             exists e :: e in q.batch && e.timer in q.heap && IdOf(q.heap, e.timer) == TimerId(e.timer, n)
                         && TimerId(e.timer, n) in q.canceling
    ensures Settled(q')
  {
  }

  lemma CancelOtherKeeps(q: Queue, id: TimerId)
    requires Inv(q) && id !in q.active
    ensures Inv(CancelInLoop(q, id))
  {
    QueuedAddress(q, id);
    var q' := CancelInLoop(q, id);
    assert Owned(q') && Numbered(q') && Watched(q');
    SettledByHeap(q, q'.(cancelled := q.cancelled));
    if Names(q, id) {
      var e :| e in q.batch && e.timer == id.timer;
      assert IdOf(q.heap, e.timer) == TimerId(e.timer, id.sequence);
      assert q.calling;
      hide Owned, Watched, Numbered, Settled;
      CancelledOne(q'.(cancelled := q.cancelled), q', id.sequence);
    }
  }

  lemma CancelKeeps(q: Queue, id: TimerId)
    requires Inv(q)
    ensures Sorted(q.timers)
    ensures id in q.active ==> id.timer in q.heap && Entry(q.heap[id.timer].expiration, id.timer) in q.timers
    ensures Inv(CancelInLoop(q, id))
  {
    if id in q.active {
      CancelQueuedKeeps(q, id);
    } else {
      CancelOtherKeeps(q, id);
    }
  }

  lemma TickKeeps(q: Queue, micros: nat)
    requires Inv(q)
    ensures Inv(Tick(q, micros))
  {
    SettledByHeap(q, Tick(q, micros));
  }

  /** `getExpired` cuts the queue in two; both parts stay filed. */
  lemma SplitOwns(heap: map<Address, Timer>, entries: seq<Entry>, n: nat)
    requires Filed(heap, entries) && n <= |entries|
    ensures Filed(heap, entries[..n]) && Filed(heap, entries[n..])
    ensures Addresses(entries[..n]) !! Addresses(entries[n..])
    ensures Addresses(entries[..n]) + Addresses(entries[n..]) == Addresses(entries)
    ensures Ids(heap, entries[n..]) == Ids(heap, entries) - Ids(heap, entries[..n])
  {
    var due, later := entries[..n], entries[n..];
    assert entries == due + later;
    forall e, f | e in due && f in later
      ensures e.timer != f.timer
    {
      var i :| 0 <= i < n && entries[i] == e;
      var j :| n <= j < |entries| && entries[j] == f;
      assert Less(entries[i], entries[j]);
    }
    assert forall e :: e in entries <==> e in due || e in later;
    forall id | id in Ids(heap, later)
      ensures id in Ids(heap, entries) - Ids(heap, due)
    {
      var f :| f in later && IdOf(heap, f.timer) == id;
      assert f in entries;
    }
  }

  lemma BeginKeeps(q: Queue)
    requires Inv(q) && !q.calling
    ensures Filed(q.heap, q.timers) && Inv(BeginRead(q)) && BeginRead(q).calling
  {
    var q' := BeginRead(q);
    var n := DueCount(q.timers, q.clock);
    SplitOwns(q.heap, q.timers, n);
    assert Owned(q');
    assert Watched(q');
    assert Numbered(q');
    assert Settled(q');
  }

  lemma BatchHead(heap: map<Address, Timer>, batch: seq<Entry>)
    requires Filed(heap, batch) && batch != []
    ensures batch[0].timer in heap
    ensures Filed(heap - {batch[0].timer}, batch[1..])
    ensures Addresses(batch[1..]) == Addresses(batch) - {batch[0].timer}
  {
    SplitOwns(heap, batch, 1);
    assert Addresses(batch[..1]) == {batch[0].timer};
  }

  /** The head of the batch is live and filed nowhere else. */
  lemma BatchHeadIsFree(q: Queue)
    requires Owned(q) && q.batch != []
    ensures var a := q.batch[0].timer;
            && a in q.heap && a !in Addresses(q.timers) && a !in q.waiting
            && (forall when :: Entry(when, a) !in q.timers)
  {
    var a := q.batch[0].timer;
    assert a in Addresses(q.batch);
    assert forall e :: e in q.timers ==> e.timer in Addresses(q.timers);
  }

  lemma RestartOwns(q: Queue, a: Address)
    requires Owned(q) && Watched(q) && q.batch != [] && a == q.batch[0].timer && q.calling
    requires a in q.heap && q.heap[a].repeat && a !in Addresses(q.timers) && a !in q.waiting
    ensures var heap' := q.heap[a := q.heap[a].Restart(q.readTime)];
            && Entry(heap'[a].expiration, a) !in q.timers
            && Owned(Inserted(q.(heap := heap', batch := q.batch[1..]), a))
            && Watched(Inserted(q.(heap := heap', batch := q.batch[1..]), a))
  {
    var heap' := q.heap[a := q.heap[a].Restart(q.readTime)];
    BatchHead(q.heap, q.batch);
    assert forall e :: e in q.timers ==> e.timer in Addresses(q.timers);
    assert forall e :: e in q.batch[1..] ==> e.timer in Addresses(q.batch[1..]);
    IdsAgree(q.heap, heap', q.timers);
    assert Filed(heap', q.timers) && Filed(heap', q.batch[1..]);
    InsertOwns(heap', q.timers, a);
  }

  lemma DropOwns(q: Queue, a: Address)
    requires Owned(q) && Watched(q) && q.batch != [] && a == q.batch[0].timer && q.calling
    requires a in q.heap && a !in Addresses(q.timers) && a !in q.waiting
    ensures var q' := q.(heap := q.heap - {a}, deleted := q.deleted + {q.heap[a].sequence}, batch := q.batch[1..]);
            Owned(q') && Watched(q')
  {
    BatchHead(q.heap, q.batch);
    assert forall e :: e in q.timers ==> e.timer in Addresses(q.timers);
    IdsAgree(q.heap, q.heap - {a}, q.timers);
  }

  lemma ResetKeeps(q: Queue)
    requires Inv(q) && q.batch != []
    ensures q.batch[0].timer in q.heap
    ensures q.heap[q.batch[0].timer].repeat ==>
              Entry(q.heap[q.batch[0].timer].Restart(q.readTime).expiration, q.batch[0].timer) !in q.timers
    ensures Inv(ResetOne(q)) && ResetOne(q).calling
  {
    BatchHeadIsFree(q);
    var a, q' := q.batch[0].timer, ResetOne(q);
    ResetSettles(q);
    hide Owned, Numbered, Settled, Watched, Filed;
    if q.heap[a].repeat && IdOf(q.heap, a) !in q.canceling {
      RestartOwns(q, a);
      SameNumbers(q, q', a);
    } else {
      DropOwns(q, a);
      DropNumbers(q, q', a);
    }
  }

  lemma SameNumbers(q: Queue, q': Queue, a: Address)
    requires Numbered(q) && a in q.heap
    requires q'.deleted == q.deleted && q'.created == q.created && q'.heap.Keys == q.heap.Keys
    requires forall b :: b in q.heap ==> q'.heap[b].sequence == q.heap[b].sequence
    ensures Numbered(q')
  {
    forall n | 1 <= n <= q'.created && n !in q'.deleted
      ensures IsLive(q'.heap, n)
    {
      assert IsLive(q.heap, n);
      var b :| b in q.heap && q.heap[b].sequence == n;
      assert b in q'.heap;
    }
  }

  lemma ResetSettles(q: Queue)
    requires Settled(q) && Filed(q.heap, q.batch) && q.batch != [] && Sorted(q.timers)
    requires q.heap[q.batch[0].timer].repeat ==>
              Entry(q.heap[q.batch[0].timer].Restart(q.readTime).expiration, q.batch[0].timer) !in q.timers
    ensures Settled(ResetOne(q))
  {
    var a, q' := q.batch[0].timer, ResetOne(q);
    BatchHead(q.heap, q.batch);
    forall n | n in q'.cancelled && n !in q'.deleted
      ensures exists e :: e in q'.batch && e.timer in q'.heap && IdOf(q'.heap, e.timer) == TimerId(e.timer, n)
                          && TimerId(e.timer, n) in q'.canceling
    {
      var e :| e in q.batch && e.timer in q.heap && IdOf(q.heap, e.timer) == TimerId(e.timer, n)
               && TimerId(e.timer, n) in q.canceling;
      assert e.timer != a;
      assert e in q'.batch && IdOf(q'.heap, e.timer) == TimerId(e.timer, n);
    }
  }

  /** The whole of `reset`, and `callingExpiredTimers_` back to false. */
  function EndRead(q: Queue): Queue
    requires Inv(q)
    decreases |q.batch|
  {
    if q.batch != [] then
      ResetKeeps(q);
      EndRead(ResetOne(q))
    else
      Rearm(q.(calling := false))
  }

  lemma {:induction false} EndKeeps(q: Queue)
    requires Inv(q) && q.calling
    ensures Inv(EndRead(q)) && !EndRead(q).calling
    decreases |q.batch|
  {
    if q.batch != [] {
      ResetKeeps(q);
      EndKeeps(ResetOne(q));
    } else {
      var q' := EndRead(q);
      SettledByHeap(q, q');
      assert q.timers != [] ==> q.timers[0] in q.timers;
      assert Owned(q') && Numbered(q') && Watched(q');
    }
  }
}
