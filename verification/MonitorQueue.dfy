/** Blocking queues guarded by one mutex and two condition variables
    (muduo/base/BoundedBlockingQueue.h, ThreadPool.cc), as steps. A step is what
    a thread does while it holds the mutex: from taking it, or from waking up, to
    leaving it or going to sleep. */
module MonitorQueues {

  type Tid = nat
  type Item = nat

  datatype Capacity = Unbounded | Bounded(size: nat)

  /** Producers and consumers that sleep, and those woken that have not got the
      mutex back yet; `carrying` is the item a producer brings. `accepted` and
      `taken` are history. A BoundedBlockingQueue is always running. */
  datatype Monitor = Monitor(
    capacity: Capacity,
    running: bool,
    queue: seq<Item>,
    carrying: map<Tid, Item>,
    producersWaiting: set<Tid>,
    producersWoken: set<Tid>,
    consumersWaiting: set<Tid>,
    consumersWoken: set<Tid>,
    accepted: seq<Item>,
    taken: seq<Item>)

  function Started(capacity: Capacity): Monitor {
    Monitor(capacity, true, [], map[], {}, {}, {}, {}, [], [])
  }

  predicate IsFull(m: Monitor) {
    m.capacity.Bounded? && |m.queue| >= m.capacity.size
  }

  predicate IsIdle(m: Monitor, t: Tid) {
    t !in m.producersWaiting && t !in m.producersWoken && t !in m.consumersWaiting && t !in m.consumersWoken
  }

  /** `notify` wakes one sleeper, if there is any; `who` is the system's choice. */
  predicate MayNotify(sleepers: set<Tid>, who: Tid) {
    sleepers != {} ==> who in sleepers
  }

  function NotifyConsumer(m: Monitor, who: Tid): Monitor {
    if who in m.consumersWaiting then
      m.(consumersWaiting := m.consumersWaiting - {who}, consumersWoken := m.consumersWoken + {who})
    else m
  }

  function NotifyProducer(m: Monitor, who: Tid): Monitor {
    if who in m.producersWaiting then
      m.(producersWaiting := m.producersWaiting - {who}, producersWoken := m.producersWoken + {who})
    else m
  }

  /** `put`, or `run` of a pool with threads, from the loop test on. */
  function PutRegion(m: Monitor, t: Tid, x: Item, who: Tid): Monitor {
    if IsFull(m) && m.running then
      m.(producersWaiting := m.producersWaiting + {t}, carrying := m.carrying[t := x])
    else if !m.running then m
    else NotifyConsumer(m.(queue := m.queue + [x], accepted := m.accepted + [x]), who)
  }

  /** `take`, from the loop test on. */
  function TakeRegion(m: Monitor, t: Tid, who: Tid): Monitor {
    if m.queue == [] && m.running then
      m.(consumersWaiting := m.consumersWaiting + {t})
    else if m.queue != [] then
      var m' := m.(queue := m.queue[1..], taken := m.taken + [m.queue[0]]);
      if m.capacity.Bounded? then NotifyProducer(m', who) else m'
    else m
  }

  datatype Step =
    | Put(t: Tid, x: Item, who: Tid)
    | PutAgain(t: Tid, who: Tid)
    | Take(t: Tid, who: Tid)
    | TakeAgain(t: Tid, who: Tid)
    | SpuriousProducer(t: Tid)
    | SpuriousConsumer(t: Tid)
    | Stop

  predicate Enabled(m: Monitor, step: Step) {
    match step
    case Put(t, _, who) => IsIdle(m, t) && MayNotify(m.consumersWaiting, who)
    case PutAgain(t, who) => t in m.producersWoken && t in m.carrying && MayNotify(m.consumersWaiting, who)
    case Take(t, who) => IsIdle(m, t) && MayNotify(m.producersWaiting, who)
    case TakeAgain(t, who) => t in m.consumersWoken && MayNotify(m.producersWaiting, who)
    case SpuriousProducer(t) => t in m.producersWaiting
    case SpuriousConsumer(t) => t in m.consumersWaiting
    case Stop => true
  }

  function Apply(m: Monitor, step: Step): Monitor
    requires Enabled(m, step)
  {
    match step
    case Put(t, x, who) => PutRegion(m, t, x, who)
    case PutAgain(t, who) =>
      PutRegion(m.(producersWoken := m.producersWoken - {t}), t, m.carrying[t], who)
    case Take(t, who) => TakeRegion(m, t, who)
    case TakeAgain(t, who) => TakeRegion(m.(consumersWoken := m.consumersWoken - {t}), t, who)
    case SpuriousProducer(t) => NotifyProducer(m, t)
    case SpuriousConsumer(t) => NotifyConsumer(m, t)
    case Stop =>
      m.(running := false,
         producersWaiting := {}, producersWoken := m.producersWoken + m.producersWaiting,
         consumersWaiting := {}, consumersWoken := m.consumersWoken + m.consumersWaiting)
  }

  // -------------------------------------------------------------- invariants

  predicate Separate(m: Monitor) {
    && m.producersWaiting !! m.producersWoken
    && m.consumersWaiting !! m.consumersWoken
    && m.producersWaiting + m.producersWoken <= m.carrying.Keys
  }

  /** Woken threads are enough for the items, and for the free slots; `p` and `c`
      make up for a producer or consumer that has just got the mutex back. */
  predicate Signalled(m: Monitor, p: nat, c: nat) {
    && (m.consumersWaiting != {} ==> |m.queue| <= |m.consumersWoken| + c)
    && (m.producersWaiting != {} ==>
          m.capacity.Bounded? && m.capacity.size - |m.queue| <= |m.producersWoken| + p)
  }

  predicate Fifo(m: Monitor) {
    m.taken + m.queue == m.accepted
  }

  predicate WithinCapacity(m: Monitor) {
    m.capacity.Bounded? ==> |m.queue| <= m.capacity.size
  }

  predicate NobodyWaits(m: Monitor) {
    m.consumersWaiting == {} && m.producersWaiting == {}
  }

  predicate InvBut(m: Monitor, p: nat, c: nat) {
    && Fifo(m) && WithinCapacity(m) && Separate(m)
    && (if m.running then Signalled(m, p, c) else NobodyWaits(m))
  }

  predicate Inv(m: Monitor) {
    InvBut(m, 0, 0)
  }

  lemma PutKeeps(m: Monitor, t: Tid, x: Item, who: Tid)
    requires InvBut(m, 1, 0) && t !in m.producersWaiting + m.producersWoken && MayNotify(m.consumersWaiting, who)
    ensures Inv(PutRegion(m, t, x, who))
  {
    assert m.taken + (m.queue + [x]) == m.taken + m.queue + [x];
  }

  lemma TakeKeeps(m: Monitor, t: Tid, who: Tid)
    requires InvBut(m, 0, 1) && t !in m.consumersWaiting + m.consumersWoken && MayNotify(m.producersWaiting, who)
    ensures Inv(TakeRegion(m, t, who))
  {
    if m.queue != [] {
      assert m.taken + [m.queue[0]] + m.queue[1..] == m.taken + m.queue;
    }
  }

  lemma PutAgainKeeps(m: Monitor, t: Tid, who: Tid)
    requires Inv(m) && Enabled(m, PutAgain(t, who))
    ensures Inv(Apply(m, PutAgain(t, who)))
  {
    hide PutRegion;
    PutKeeps(m.(producersWoken := m.producersWoken - {t}), t, m.carrying[t], who);
  }

  lemma TakeAgainKeeps(m: Monitor, t: Tid, who: Tid)
    requires Inv(m) && Enabled(m, TakeAgain(t, who))
    ensures Inv(Apply(m, TakeAgain(t, who)))
  {
    hide TakeRegion;
    TakeKeeps(m.(consumersWoken := m.consumersWoken - {t}), t, who);
  }

  lemma SpuriousKeeps(m: Monitor, t: Tid)
    requires Inv(m)
    ensures Inv(NotifyConsumer(m, t)) && Inv(NotifyProducer(m, t))
  {
  }

  lemma StepKeeps(m: Monitor, step: Step)
    requires Inv(m) && Enabled(m, step)
    ensures Inv(Apply(m, step))
  {
    hide PutRegion, TakeRegion, NotifyConsumer, NotifyProducer;
    match step
    case Put(t, x, who) => PutKeeps(m, t, x, who);
    case PutAgain(t, who) => PutAgainKeeps(m, t, who);
    case Take(t, who) => TakeKeeps(m, t, who);
    case TakeAgain(t, who) => TakeAgainKeeps(m, t, who);
    case SpuriousProducer(t) => SpuriousKeeps(m, t);
    case SpuriousConsumer(t) => SpuriousKeeps(m, t);
    case Stop =>
  }

  // ------------------------------------------------------------ main results

  predicate Legal(m: Monitor, steps: seq<Step>)
    decreases |steps|
  {
    steps == [] || (Enabled(m, steps[0]) && Legal(Apply(m, steps[0]), steps[1..]))
  }

  function Run(m: Monitor, steps: seq<Step>): Monitor
    requires Legal(m, steps)
    decreases |steps|
  {
    if steps == [] then m else Run(Apply(m, steps[0]), steps[1..])
  }

  lemma {:induction false} RunKeeps(m: Monitor, steps: seq<Step>)
    requires Inv(m) && Legal(m, steps)
    ensures Inv(Run(m, steps))
    decreases |steps|
  {
    hide Inv, Enabled, Apply;
    if steps != [] {
      StepKeeps(m, steps[0]);
      RunKeeps(Apply(m, steps[0]), steps[1..]);
    }
  }

  lemma StartedInv(capacity: Capacity)
    ensures Inv(Started(capacity))
  {
  }

  /** Items leave in the order they came, each once, and never more than the
      capacity are held. */
  lemma FifoAndBounded(capacity: Capacity, steps: seq<Step>)
    requires Legal(Started(capacity), steps)
    ensures var m := Run(Started(capacity), steps);
            && m.taken + m.queue == m.accepted
            && (capacity.Bounded? ==> |m.queue| <= capacity.size)
  {
    StartedInv(capacity);
    RunKeeps(Started(capacity), steps);
    CapacityFixed(Started(capacity), steps);
  }

  lemma {:induction false} CapacityFixed(m: Monitor, steps: seq<Step>)
    requires Legal(m, steps)
    ensures Run(m, steps).capacity == m.capacity
    ensures Run(m, steps).running ==> m.running && Stop !in steps
    decreases |steps|
  {
    if steps != [] {
      CapacityFixed(Apply(m, steps[0]), steps[1..]);
    }
  }

  /** The items that the steps bring, one for each call of `put`. */
  function Offered(steps: seq<Step>): seq<Item> {
    if steps == [] then []
    else (if steps[0].Put? then [steps[0].x] else []) + Offered(steps[1..])
  }

  /** What these producers bring. */
  ghost function Carried(carrying: map<Tid, Item>, producers: set<Tid>): multiset<Item>
    requires producers <= carrying.Keys
    decreases |producers|
  {
    if producers == {} then multiset{}
    else
      var t :| t in producers;
      multiset{carrying[t]} + Carried(carrying, producers - {t})
  }

  /** Those asleep and those woken, still in the middle of a `put`. */
  function Producers(m: Monitor): set<Tid> {
    m.producersWaiting + m.producersWoken
  }

  lemma {:induction false} CarriedBut(carrying: map<Tid, Item>, producers: set<Tid>, t: Tid)
    requires producers <= carrying.Keys && t in producers
    ensures Carried(carrying, producers) == multiset{carrying[t]} + Carried(carrying, producers - {t})
    decreases |producers|
  {
    var u :| u in producers &&
             Carried(carrying, producers) == multiset{carrying[u]} + Carried(carrying, producers - {u});
    if u != t {
      CarriedBut(carrying, producers - {u}, t);
      CarriedBut(carrying, producers - {t}, u);
      assert producers - {u} - {t} == producers - {t} - {u};
    }
  }

  lemma {:induction false} CarriedAgree(carrying: map<Tid, Item>, carrying': map<Tid, Item>, producers: set<Tid>)
    requires producers <= carrying.Keys && producers <= carrying'.Keys
    requires forall t :: t in producers ==> carrying[t] == carrying'[t]
    ensures Carried(carrying, producers) == Carried(carrying', producers)
    decreases |producers|
  {
    if producers != {} {
      var t :| t in producers;
      CarriedBut(carrying, producers, t);
      CarriedBut(carrying', producers, t);
      CarriedAgree(carrying, carrying', producers - {t});
    }
  }

  /** One more producer. */
  lemma CarriedMore(carrying: map<Tid, Item>, producers: set<Tid>, t: Tid, x: Item)
    requires producers <= carrying.Keys && t !in producers
    ensures Carried(carrying[t := x], producers + {t}) == multiset{x} + Carried(carrying, producers)
  {
    CarriedBut(carrying[t := x], producers + {t}, t);
    assert producers + {t} - {t} == producers;
    CarriedAgree(carrying, carrying[t := x], producers);
  }

  /** What the queue has got and what is on the way to it. */
  ghost function Held(m: Monitor): multiset<Item>
    requires Separate(m)
  {
    multiset(m.accepted) + Carried(m.carrying, Producers(m))
  }

  /** A producer's stay in the mutex neither loses nor doubles its item. */
  lemma PutHolds(m: Monitor, t: Tid, x: Item, who: Tid)
    requires m.running && Separate(m) && t !in Producers(m)
    ensures Separate(PutRegion(m, t, x, who)) && Held(PutRegion(m, t, x, who)) == Held(m) + multiset{x}
  {
    var m' := PutRegion(m, t, x, who);
    if IsFull(m) {
      assert Producers(m') == Producers(m) + {t};
      CarriedMore(m.carrying, Producers(m), t, x);
    }
  }

  lemma TakeHolds(m: Monitor, t: Tid, who: Tid)
    requires Separate(m) && t !in m.consumersWoken
    ensures var m' := TakeRegion(m, t, who);
            m'.accepted == m.accepted && m'.carrying == m.carrying && Producers(m') == Producers(m)
  {
    assert who in m.producersWaiting ==>
             m.producersWaiting - {who} + (m.producersWoken + {who}) == Producers(m);
  }

  lemma StepHolds(m: Monitor, step: Step)
    requires Inv(m) && Enabled(m, step) && Apply(m, step).running && Inv(Apply(m, step))
    ensures Held(Apply(m, step)) == Held(m) + if step.Put? then multiset{step.x} else multiset{}
  {
    hide PutRegion, TakeRegion, Fifo, WithinCapacity, Signalled, Carried;
    match step
    case Put(t, x, who) =>
      RunningBefore(m, step);
      PutHolds(m, t, x, who);
    case PutAgain(t, who) =>
      RunningBefore(m, step);
      var m' := m.(producersWoken := m.producersWoken - {t});
      CarriedBut(m.carrying, Producers(m), t);
      assert Producers(m') == Producers(m) - {t};
      PutHolds(m', t, m.carrying[t], who);
    case Take(t, who) =>
      TakeHolds(m, t, who);
    case TakeAgain(t, who) =>
      TakeHolds(m.(consumersWoken := m.consumersWoken - {t}), t, who);
    case SpuriousProducer(t) =>
      assert Producers(Apply(m, step)) == Producers(m);
    case SpuriousConsumer(t) =>
    case Stop =>
  }

  lemma RunningBefore(m: Monitor, step: Step)
    requires Enabled(m, step) && Apply(m, step).running
    ensures m.running
  {
  }

  lemma {:induction false} RunHolds(m: Monitor, steps: seq<Step>)
    requires Inv(m) && Legal(m, steps) && Run(m, steps).running
    ensures Inv(Run(m, steps)) && Held(Run(m, steps)) == Held(m) + multiset(Offered(steps))
    decreases |steps|
  {
    hide Inv, InvBut, Enabled, Apply, Held;
    if steps != [] {
      var m' := Apply(m, steps[0]);
      StepKeeps(m, steps[0]);
      CapacityFixed(m', steps[1..]);
      StepHoldsInv(m, steps[0]);
      RunHolds(m', steps[1..]);
      assert multiset(Offered(steps))
          == (if steps[0].Put? then multiset{steps[0].x} else multiset{}) + multiset(Offered(steps[1..]));
    }
  }

  lemma StepHoldsInv(m: Monitor, step: Step)
    requires Inv(m) && Enabled(m, step) && Apply(m, step).running
    ensures Separate(m) && Separate(Apply(m, step))
    ensures Held(Apply(m, step)) == Held(m) + if step.Put? then multiset{step.x} else multiset{}
  {
    hide Enabled, Apply, Held, Fifo, WithinCapacity, Signalled;
    StepKeeps(m, step);
    StepHolds(m, step);
  }

  /** While running, every item of every `put` has been accepted once, or its
      producer still brings it: none is lost or doubled across a sleep. */
  lemma NoItemLost(capacity: Capacity, steps: seq<Step>)
    requires Legal(Started(capacity), steps) && Run(Started(capacity), steps).running
    ensures var m := Run(Started(capacity), steps);
            && Separate(m)
            && multiset(Offered(steps)) == multiset(m.taken + m.queue) + Carried(m.carrying, Producers(m))
  {
    StartedInv(capacity);
    RunHolds(Started(capacity), steps);
    NothingHeld(capacity);
    FifoAndBounded(capacity, steps);
  }

  lemma NothingHeld(capacity: Capacity)
    ensures Held(Started(capacity)) == multiset{}
  {
  }

  /** One `notify` per operation is enough: a consumer only sleeps while the
      woken consumers suffice for the items, a producer while the woken producers
      suffice for the free slots. */
  lemma WokenSuffice(capacity: Capacity, steps: seq<Step>)
    requires Legal(Started(capacity), steps) && Run(Started(capacity), steps).running
    ensures var m := Run(Started(capacity), steps);
            && (m.consumersWaiting != {} ==> |m.queue| <= |m.consumersWoken|)
            && (m.producersWaiting != {} ==>
                  capacity.Bounded? && capacity.size - |m.queue| <= |m.producersWoken|)
  {
    StartedInv(capacity);
    RunKeeps(Started(capacity), steps);
    CapacityFixed(Started(capacity), steps);
  }

  /** So when everyone has settled, sleepers sleep for a reason, and with room
      for at least one item producers and consumers never sleep together. */
  lemma NobodyStranded(capacity: Capacity, steps: seq<Step>)
    requires Legal(Started(capacity), steps)
    requires var m := Run(Started(capacity), steps); m.producersWoken == {} && m.consumersWoken == {}
    ensures var m := Run(Started(capacity), steps);
            && (m.consumersWaiting != {} ==> m.queue == [])
            && (m.producersWaiting != {} ==> IsFull(m))
            && (m.consumersWaiting != {} && m.producersWaiting != {} ==> capacity == Bounded(0))
  {
    StartedInv(capacity);
    RunKeeps(Started(capacity), steps);
    CapacityFixed(Started(capacity), steps);
  }

  /** The thread that is next to enter, when it is there from outside or woken. */
  function Entering(m: Monitor, step: Step): Monitor {
    match step
    case PutAgain(t, _) => m.(producersWoken := m.producersWoken - {t})
    case TakeAgain(t, _) => m.(consumersWoken := m.consumersWoken - {t})
    case _ => m
  }

  predicate IsPut(step: Step) {
    step.Put? || step.PutAgain?
  }

  predicate IsTake(step: Step) {
    step.Take? || step.TakeAgain?
  }

  /** One sleeper is woken if there is any, and nobody else. */
  predicate WakesOne(waiting: set<Tid>, woken: set<Tid>, waiting': set<Tid>, woken': set<Tid>, who: Tid) {
    if waiting == {} then waiting' == {} && woken' == woken
    else who in waiting && waiting' == waiting - {who} && woken' == woken + {who}
  }

  /** How a stay of a producer ends: asleep with its item when full, else with
      the item at the end of the queue and one consumer woken; after `stop` with
      nothing done. */
  lemma PutOutcome(m: Monitor, step: Step)
    requires Enabled(m, step) && IsPut(step)
    ensures var from, m' := Entering(m, step), Apply(m, step);
            var x := if step.Put? then step.x else m.carrying[step.t];
            && m'.taken == m.taken && m'.running == m.running
            && (!m.running ==> m' == from)
            && (m.running && IsFull(m) ==>
                  m' == from.(producersWaiting := m.producersWaiting + {step.t},
                              carrying := m.carrying[step.t := x]))
            && (m.running && !IsFull(m) ==>
                  && m'.queue == m.queue + [x] && m'.accepted == m.accepted + [x]
                  && m'.producersWaiting == m.producersWaiting && m'.producersWoken == from.producersWoken
                  && WakesOne(m.consumersWaiting, m.consumersWoken, m'.consumersWaiting, m'.consumersWoken, step.who))
  {
  }

  /** A spurious wake-up takes one thread, the one it is for, out of its sleep. */
  lemma SpuriousOutcome(m: Monitor, step: Step)
    requires Enabled(m, step) && (step.SpuriousProducer? || step.SpuriousConsumer?)
    ensures var t, m' := step.t, Apply(m, step);
            m' == if step.SpuriousProducer? then
                    m.(producersWaiting := m.producersWaiting - {t}, producersWoken := m.producersWoken + {t})
                  else m.(consumersWaiting := m.consumersWaiting - {t}, consumersWoken := m.consumersWoken + {t})
  {
  }

  /** And of a consumer: asleep when there is nothing and the queue runs, else
      with the oldest item and, if the queue is bounded, one producer woken;
      after `stop` and the last item with nothing. */
  lemma TakeOutcome(m: Monitor, step: Step)
    requires Enabled(m, step) && IsTake(step)
    ensures var from, m' := Entering(m, step), Apply(m, step);
            && m'.accepted == m.accepted && m'.carrying == m.carrying && m'.running == m.running
            && (m.queue == [] && m.running ==> m' == from.(consumersWaiting := m.consumersWaiting + {step.t}))
            && (m.queue == [] && !m.running ==> m' == from)
            && (m.queue != [] ==>
                  && [m'.taken[|m.taken|]] + m'.queue == m.queue && m'.taken == m.taken + [m.queue[0]]
                  && m'.consumersWaiting == m.consumersWaiting && m'.consumersWoken == from.consumersWoken
                  && if m.capacity.Bounded? then
                       WakesOne(m.producersWaiting, m.producersWoken, m'.producersWaiting, m'.producersWoken, step.who)
                     else m'.producersWaiting == m.producersWaiting && m'.producersWoken == m.producersWoken)
  {
  }

  /** After `stop` nobody sleeps, then or ever again, and nothing is accepted. */
  lemma {:induction false} NobodySleepsAfterStop(m: Monitor, steps: seq<Step>)
    requires Inv(m) && Legal(m, [Stop] + steps)
    ensures var r := Run(m, [Stop] + steps);
            !r.running && r.consumersWaiting == {} && r.producersWaiting == {} && r.accepted == m.accepted
  {
    assert ([Stop] + steps)[0] == Stop && ([Stop] + steps)[1..] == steps;
    StepKeeps(m, Stop);
    StoppedStays(Apply(m, Stop), steps);
    RunKeeps(Apply(m, Stop), steps);
    var r := Run(Apply(m, Stop), steps);
  }

  lemma {:induction false} StoppedStays(m: Monitor, steps: seq<Step>)
    requires !m.running && Legal(m, steps)
    ensures !Run(m, steps).running && Run(m, steps).accepted == m.accepted
    decreases |steps|
  {
    if steps != [] {
      StoppedStays(Apply(m, steps[0]), steps[1..]);
    }
  }
}
