/** The two blocking queues as objects. A method is one stay inside the mutex:
    a fresh call or a woken thread, the loop test, then sleep or finish. */
module MonitorQueueClass {
  import opened MonitorQueues

  function PutStep(t: Tid, x: Item, who: Tid, again: bool): Step {
    if again then PutAgain(t, who) else Put(t, x, who)
  }

  function TakeStep(t: Tid, who: Tid, again: bool): Step {
    if again then TakeAgain(t, who) else Take(t, who)
  }

  lemma InvWithin(m: Monitor)
    requires Inv(m)
    ensures WithinCapacity(m)
  {
  }

  /** A condition variable as the threads that sleep on it and those woken that
      have not got the mutex back (muduo/base/Condition.h). */
  class Condition {
    var waiting: set<Tid>
    ghost var woken: set<Tid>

    constructor ()
      ensures waiting == {} && woken == {}
    {
      waiting, woken := {}, {};
    }

    method Wait(t: Tid)
      modifies this
      ensures waiting == old(waiting) + {t} && woken == old(woken)
    {
      waiting := waiting + {t};
    }

    method Resume(t: Tid)
      modifies this
      ensures waiting == old(waiting) && woken == old(woken) - {t}
    {
      woken := woken - {t};
    }

    /** Wakes one sleeper, the system's choice, if there is any. */
    method Notify(who: Tid)
      requires MayNotify(waiting, who)
      modifies this
      ensures old(waiting) != {} ==>
                who in old(waiting) && waiting == old(waiting) - {who} && woken == old(woken) + {who}
      ensures old(waiting) == {} ==> waiting == {} && woken == old(woken)
    {
      if who in waiting {
        waiting, woken := waiting - {who}, woken + {who};
      }
    }

    method NotifyAll()
      modifies this
      ensures waiting == {} && woken == old(woken) + old(waiting)
    {
      waiting, woken := {}, woken + waiting;
    }
  }

  /** muduo/base/BoundedBlockingQueue.h */
  class BoundedBlockingQueue {
    const maxSize: nat
    const notFull: Condition
    const notEmpty: Condition
    var queue: seq<Item>
    // what the producers bring
    var carrying: map<Tid, Item>
    ghost var accepted: seq<Item>
    ghost var taken: seq<Item>

    ghost function State(): Monitor
      reads this, notFull, notEmpty
    {
      Monitor(Bounded(maxSize), true, queue, carrying, notFull.waiting, notFull.woken,
              notEmpty.waiting, notEmpty.woken, accepted, taken)
    }

    ghost predicate Valid()
      reads this, notFull, notEmpty
    {
      notFull != notEmpty && Inv(State())
    }

    constructor (maxSize: nat)
      ensures Valid() && State() == Started(Bounded(maxSize))
      ensures fresh(notFull) && fresh(notEmpty)
    {
      this.maxSize := maxSize;
      notFull := new Condition();
      notEmpty := new Condition();
      queue, carrying, accepted, taken := [], map[], [], [];
    }

    /** `again` says that the thread has just been woken in `notFull_.wait()`. */
    method Put(t: Tid, x: Item, who: Tid, again: bool) returns (sleeps: bool)
      requires Valid() && Enabled(State(), PutStep(t, x, who, again))
      requires again ==> x == carrying[t]
      modifies this, notFull, notEmpty
      ensures Valid() && State() == Apply(old(State()), PutStep(t, x, who, again))
      ensures sleeps <==> |old(queue)| == maxSize
    {
      hide Inv;
      InvWithin(State());
      StepKeeps(State(), PutStep(t, x, who, again));
      if again {
        notFull.Resume(t);
      }
      sleeps := |queue| == maxSize;
      if sleeps {
        notFull.Wait(t);
        carrying := carrying[t := x];
      } else {
        queue := queue + [x];
        accepted := accepted + [x];
        notEmpty.Notify(who);
      }
    }

    method Take(t: Tid, who: Tid, again: bool) returns (sleeps: bool, front: Item)
      requires Valid() && Enabled(State(), TakeStep(t, who, again))
      modifies this, notFull, notEmpty
      ensures Valid() && State() == Apply(old(State()), TakeStep(t, who, again))
      ensures sleeps <==> old(queue) == []
      ensures !sleeps ==> front == old(queue)[0] && taken == old(taken) + [front]
    {
      hide Inv;
      StepKeeps(State(), TakeStep(t, who, again));
      if again {
        notEmpty.Resume(t);
      }
      front := 0;
      sleeps := |queue| == 0;
      if sleeps {
        notEmpty.Wait(t);
      } else {
        front := queue[0];
        queue := queue[1..];
        taken := taken + [front];
        notFull.Notify(who);
      }
    }
  }

  /** muduo/base/ThreadPool.cc, with threads; a maximum size of 0 means none. */
  class ThreadPool {
    const maxQueueSize: nat
    const notFull: Condition
    const notEmpty: Condition
    var running: bool
    var queue: seq<Item>
    var carrying: map<Tid, Item>
    ghost var accepted: seq<Item>
    ghost var taken: seq<Item>

    ghost function State(): Monitor
      reads this, notFull, notEmpty
    {
      Monitor(if maxQueueSize == 0 then Unbounded else Bounded(maxQueueSize), running, queue, carrying,
              notFull.waiting, notFull.woken, notEmpty.waiting, notEmpty.woken, accepted, taken)
    }

    ghost predicate Valid()
      reads this, notFull, notEmpty
    {
      notFull != notEmpty && Inv(State())
    }

    constructor (maxQueueSize: nat)
      ensures Valid() && State() == Started(if maxQueueSize == 0 then Unbounded else Bounded(maxQueueSize))
      ensures fresh(notFull) && fresh(notEmpty)
    {
      this.maxQueueSize := maxQueueSize;
      notFull := new Condition();
      notEmpty := new Condition();
      running, queue, carrying, accepted, taken := true, [], map[], [], [];
    }

    predicate IsFull()
      reads this, notFull, notEmpty
      ensures IsFull() == MonitorQueues.IsFull(State())
    {
      maxQueueSize > 0 && |queue| >= maxQueueSize
    }

    method Run(t: Tid, task: Item, who: Tid, again: bool) returns (sleeps: bool)
      requires Valid() && Enabled(State(), PutStep(t, task, who, again))
      requires again ==> task == carrying[t]
      modifies this, notFull, notEmpty
      ensures Valid() && State() == Apply(old(State()), PutStep(t, task, who, again))
      ensures sleeps <==> old(IsFull() && running)
    {
      hide Inv;
      StepKeeps(State(), PutStep(t, task, who, again));
      if again {
        notFull.Resume(t);
      }
      sleeps := IsFull() && running;
      if sleeps {
        notFull.Wait(t);
        carrying := carrying[t := task];
        return;
      }
      if !running {
        return;
      }
      queue := queue + [task];
      accepted := accepted + [task];
      notEmpty.Notify(who);
    }

    /** No task comes back from an empty queue after `stop`. */
    method Take(t: Tid, who: Tid, again: bool) returns (sleeps: bool, task: seq<Item>)
      requires Valid() && Enabled(State(), TakeStep(t, who, again))
      modifies this, notFull, notEmpty
      ensures Valid() && State() == Apply(old(State()), TakeStep(t, who, again))
      ensures sleeps <==> old(queue) == [] && old(running)
      ensures |task| <= 1 && task + queue == old(queue) && taken == old(taken) + task
    {
      hide Inv;
      StepKeeps(State(), TakeStep(t, who, again));
      if again {
        notEmpty.Resume(t);
      }
      task := [];
      sleeps := |queue| == 0 && running;
      if sleeps {
        notEmpty.Wait(t);
      } else if |queue| != 0 {
        task := [queue[0]];
        queue := queue[1..];
        taken := taken + task;
        if maxQueueSize > 0 {
          notFull.Notify(who);
        }
      }
    }

    method Stop()
      requires Valid()
      modifies this, notFull, notEmpty
      ensures Valid() && State() == Apply(old(State()), MonitorQueues.Stop)
    {
      hide Inv;
      StepKeeps(State(), MonitorQueues.Stop);
      running := false;
      notEmpty.NotifyAll();
      notFull.NotifyAll();
    }
  }
}
