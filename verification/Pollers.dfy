/** The two demultiplexers' bookkeeping, as values
    (muduo/net/poller/PollPoller.cc, EPollPoller.cc). */
module Pollers {

  const NONE_EVENT := 0

  // -------------------------------------------------------------- PollPoller

  datatype PollFd = PollFd(fd: int, events: int, revents: int)

  /** `index` is kept in the channels, `events` is each channel's interest at its
      last update, and `bare` holds the descriptors whose only update since they
      were added had no events. */
  datatype PollState = PollState(
    pollfds: seq<PollFd>,
    index: map<int, int>,
    events: map<int, int>,
    bare: set<int>)

  const NO_POLL := PollState([], map[], map[], {})

  /** The descriptor behind a slot, ignored or not. */
  function FdOf(slot: PollFd): int {
    if slot.fd < 0 then -slot.fd - 1 else slot.fd
  }

  function PollUpdate(p: PollState, fd: int, events: int): PollState
    requires fd in p.index ==> 0 <= p.index[fd] < |p.pollfds|
  {
    if fd !in p.index then
      PollState(p.pollfds + [PollFd(fd, events, 0)],
                p.index[fd := |p.pollfds|],
                p.events[fd := events],
                if events == NONE_EVENT then p.bare + {fd} else p.bare - {fd})
    else
      PollState(p.pollfds[p.index[fd] := PollFd(if events == NONE_EVENT then -fd - 1 else fd, events, 0)],
                p.index,
                p.events[fd := events],
                p.bare - {fd})
  }

  /** Removal swaps with the last slot, whose channel learns its new place. */
  function PollRemove(p: PollState, fd: int): PollState
    requires fd in p.index && 0 <= p.index[fd] < |p.pollfds|
  {
    var idx, last := p.index[fd], |p.pollfds| - 1;
    if idx == last then
      PollState(p.pollfds[..last], p.index - {fd}, p.events - {fd}, p.bare - {fd})
    else
      var channelAtEnd := FdOf(p.pollfds[last]);
      PollState(p.pollfds[idx := p.pollfds[last]][..last],
                (p.index - {fd})[channelAtEnd := idx], p.events - {fd}, p.bare - {fd})
  }

  /** Slots and channels in exact bijection through `index`. */
  predicate Bijective(p: PollState) {
    && (forall fd :: fd in p.index ==> fd >= 0 && 0 <= p.index[fd] < |p.pollfds| && FdOf(p.pollfds[p.index[fd]]) == fd)
    && (forall i :: 0 <= i < |p.pollfds| ==> FdOf(p.pollfds[i]) in p.index && p.index[FdOf(p.pollfds[i])] == i)
  }

  /** A slot shows its channel's interest, its descriptor negated when ignored. */
  predicate Shown(p: PollState)
    requires Bijective(p)
  {
    && p.events.Keys == p.index.Keys
    && (forall fd :: fd in p.bare ==> fd in p.events && p.events[fd] == NONE_EVENT)
    && (forall fd :: fd in p.index ==>
          var slot := p.pollfds[p.index[fd]];
          slot.events == p.events[fd] &&
          slot.fd == if p.events[fd] == NONE_EVENT && fd !in p.bare then -fd - 1 else fd)
  }

  predicate PollInv(p: PollState) {
    Bijective(p) && Shown(p)
  }

  lemma PollUpdateKeeps(p: PollState, fd: int, events: int)
    requires PollInv(p) && fd >= 0
    ensures PollInv(PollUpdate(p, fd, events))
  {
    assert Bijective(PollUpdate(p, fd, events));
  }

  /** What the asserts of both `removeChannel`s demand: known, and no events. */
  predicate Removable(p: PollState, fd: int) {
    fd in p.events && p.events[fd] == NONE_EVENT
  }

  /** PollPoller's assert on the slot of a channel that is removed. */
  predicate SlotAssert(p: PollState, fd: int)
    requires fd in p.index && 0 <= p.index[fd] < |p.pollfds| && fd in p.events
  {
    p.pollfds[p.index[fd]].fd == -fd - 1 && p.pollfds[p.index[fd]].events == p.events[fd]
  }

  lemma SlotAssertHolds(p: PollState, fd: int)
    requires PollInv(p) && Removable(p, fd)
    ensures fd in p.index && 0 <= p.index[fd] < |p.pollfds|
    ensures SlotAssert(p, fd) <==> fd !in p.bare
  {
  }

  /** Where a slot is after the removal. */
  lemma RemovedSlots(p: PollState, fd: int)
    requires Bijective(p) && fd in p.index
    ensures var p' := PollRemove(p, fd);
            var idx, last := p.index[fd], |p.pollfds| - 1;
            && |p'.pollfds| == last
            && (forall i :: 0 <= i < last ==> p'.pollfds[i] == if i == idx then p.pollfds[last] else p.pollfds[i])
            && p'.index.Keys == p.index.Keys - {fd}
            && (forall g :: g in p'.index ==>
                  0 <= p'.index[g] < last && p'.pollfds[p'.index[g]] == p.pollfds[p.index[g]] &&
                  p'.index[g] == if g == FdOf(p.pollfds[last]) then idx else p.index[g])
  {
    var idx, last := p.index[fd], |p.pollfds| - 1;
    var end := FdOf(p.pollfds[last]);
    assert end in p.index && p.index[end] == last;
    assert forall g :: g in p.index && g != fd ==> p.index[g] != idx;
    assert forall g :: g in p.index && g != end ==> p.index[g] != last;
    assert idx != last ==> end != fd;
  }

  lemma PollRemoveKeeps(p: PollState, fd: int)
    requires PollInv(p) && fd in p.index
    ensures PollInv(PollRemove(p, fd))
  {
    hide PollRemove;
    RemovedSlots(p, fd);
    RemovedRest(p, fd);
    var p' := PollRemove(p, fd);
    forall i | 0 <= i < |p'.pollfds|
      ensures FdOf(p'.pollfds[i]) in p'.index && p'.index[FdOf(p'.pollfds[i])] == i
    {
      var idx, last := p.index[fd], |p.pollfds| - 1;
      var g := FdOf(p'.pollfds[i]);
      assert g == if i == idx then FdOf(p.pollfds[last]) else FdOf(p.pollfds[i]);
      assert g in p.index && p.index[g] == if i == idx then last else i;
      assert g != fd;
    }
    assert Bijective(p');
  }

  lemma RemovedRest(p: PollState, fd: int)
    requires fd in p.index && 0 <= p.index[fd] < |p.pollfds|
    ensures var p' := PollRemove(p, fd); p'.events == p.events - {fd} && p'.bare == p.bare - {fd}
  {
  }

  /** An update touches one slot: the channel's own, which shows no event yet. */
  lemma UpdateTouchesOne(p: PollState, fd: int, events: int)
    requires PollInv(p)
    ensures fd in p.index ==> 0 <= p.index[fd] < |p.pollfds|
    ensures var p' := PollUpdate(p, fd, events);
            && fd in p'.index
            && |p'.pollfds| == (if fd in p.index then |p.pollfds| else |p.pollfds| + 1)
            && p'.index[fd] == (if fd in p.index then p.index[fd] else |p.pollfds|)
            && p'.pollfds[p'.index[fd]].revents == 0
            && (forall i :: 0 <= i < |p.pollfds| && i != p'.index[fd] ==> p'.pollfds[i] == p.pollfds[i])
            && (forall g :: g in p.index ==> p'.index[g] == p.index[g])
  {
  }

  /** What the kernel is asked to watch: negative descriptors are skipped. */
  function PollWatches(p: PollState): map<int, int>
    requires Bijective(p)
  {
    map fd | fd in p.index && p.pollfds[p.index[fd]].fd >= 0 :: p.pollfds[p.index[fd]].events
  }

  // ------------------------------------------------------------- EPollPoller

  datatype CtlOp = Add | Mod | Del

  const K_NEW := -1
  const K_ADDED := 1
  const K_DELETED := 2

  /** `index` holds the channels in `channels_`, each `K_ADDED` or `K_DELETED`;
      others are `K_NEW`. `failed` says that some `epoll_ctl` was refused. */
  datatype EPollState = EPollState(
    index: map<int, int>,
    kernel: map<int, int>,
    events: map<int, int>,
    failed: bool)

  const NO_EPOLL := EPollState(map[], map[], map[], false)

  /** The kernel refuses to add twice, or to change or delete what is not there. */
  predicate CtlAllowed(kernel: map<int, int>, op: CtlOp, fd: int) {
    if op == Add then fd !in kernel else fd in kernel
  }

  function Ctl(e: EPollState, op: CtlOp, fd: int, events: int): EPollState {
    if !CtlAllowed(e.kernel, op, fd) then e.(failed := true)
    else e.(kernel := if op == Del then e.kernel - {fd} else e.kernel[fd := events])
  }

  /** The kernel's side: a second registration, and a change or removal of what is
      not registered, fail and leave the registrations as they are. */
  lemma KernelRefusesIff(e: EPollState, op: CtlOp, fd: int, events: int)
    requires !e.failed
    ensures Ctl(e, op, fd, events).failed <==> (op == Add <==> fd in e.kernel)
    ensures Ctl(e, op, fd, events).failed ==> Ctl(e, op, fd, events).kernel == e.kernel
    ensures !Ctl(e, op, fd, events).failed && op != Del ==> Ctl(e, op, fd, events).kernel == e.kernel[fd := events]
    ensures !Ctl(e, op, fd, events).failed && op == Del ==> Ctl(e, op, fd, events).kernel == e.kernel - {fd}
  {
  }

  function EPollUpdate(e: EPollState, fd: int, events: int): EPollState {
    var e' := e.(events := e.events[fd := events]);
    if fd !in e.index || e.index[fd] == K_DELETED then
      Ctl(e'.(index := e.index[fd := K_ADDED]), Add, fd, events)
    else if events == NONE_EVENT then
      Ctl(e', Del, fd, events).(index := e.index[fd := K_DELETED])
    else
      Ctl(e', Mod, fd, events)
  }

  function EPollRemove(e: EPollState, fd: int): EPollState
    requires fd in e.index
  {
    var e' := e.(events := e.events - {fd});
    (if e.index[fd] == K_ADDED then Ctl(e', Del, fd, NONE_EVENT) else e').(index := e.index - {fd})
  }

  ghost predicate EPollInv(e: EPollState) {
    && !e.failed
    && e.events.Keys == e.index.Keys
    && (forall fd :: fd in e.kernel <==> fd in e.index && e.index[fd] == K_ADDED)
    && (forall fd :: fd in e.kernel ==> e.kernel[fd] == e.events[fd])
    && (forall fd :: fd in e.index && e.index[fd] != K_ADDED ==> e.index[fd] == K_DELETED && e.events[fd] == NONE_EVENT)
  }

  lemma EPollUpdateKeeps(e: EPollState, fd: int, events: int)
    requires EPollInv(e)
    ensures EPollInv(EPollUpdate(e, fd, events))
  {
  }

  lemma EPollRemoveKeeps(e: EPollState, fd: int)
    requires EPollInv(e) && fd in e.index
    ensures EPollInv(EPollRemove(e, fd))
  {
  }

  datatype Op = Update(fd: int, events: int) | Remove(fd: int)

  /** EPollPoller by itself: any update, and the removal of a known channel
      without events. */
  predicate EPollEnabled(e: EPollState, op: Op) {
    op.Remove? ==> op.fd in e.index && op.fd in e.events && e.events[op.fd] == NONE_EVENT
  }

  function EPollStep(e: EPollState, op: Op): EPollState
    requires EPollEnabled(e, op)
  {
    match op
    case Update(fd, events) => EPollUpdate(e, fd, events)
    case Remove(fd) => EPollRemove(e, fd)
  }

  predicate EPollLegal(e: EPollState, ops: seq<Op>)
    decreases |ops|
  {
    ops == [] || (EPollEnabled(e, ops[0]) && EPollLegal(EPollStep(e, ops[0]), ops[1..]))
  }

  function EPollRun(e: EPollState, ops: seq<Op>): EPollState
    requires EPollLegal(e, ops)
    decreases |ops|
  {
    if ops == [] then e else EPollRun(EPollStep(e, ops[0]), ops[1..])
  }

  lemma {:induction false} EPollRunKeeps(e: EPollState, ops: seq<Op>)
    requires EPollInv(e) && EPollLegal(e, ops)
    ensures EPollInv(EPollRun(e, ops))
    decreases |ops|
  {
    hide EPollInv, EPollUpdate, EPollRemove;
    if ops != [] {
      match ops[0] {
        case Update(fd, events) => EPollUpdateKeeps(e, fd, events);
        case Remove(fd) => EPollRemoveKeeps(e, fd);
      }
      EPollRunKeeps(EPollStep(e, ops[0]), ops[1..]);
    }
  }

  /** No run makes an `epoll_ctl` that the kernel refuses, and exactly the
      channels with index `kAdded` are registered, with their current events. */
  lemma EPollNeverRefused(ops: seq<Op>)
    requires EPollLegal(NO_EPOLL, ops)
    ensures var e := EPollRun(NO_EPOLL, ops);
            && !e.failed
            && (forall fd :: fd in e.kernel <==> fd in e.index && e.index[fd] == K_ADDED)
            && (forall fd :: fd in e.kernel ==> fd in e.events && e.kernel[fd] == e.events[fd])
  {
    hide EPollRun, EPollLegal;
    EPollRunKeeps(NO_EPOLL, ops);
  }

  // -------------------------------------------------------- both, on one run

  datatype Pair = Pair(poll: PollState, epoll: EPollState)

  const NONE := Pair(NO_POLL, NO_EPOLL)

  ghost predicate PairInv(b: Pair) {
    PollInv(b.poll) && EPollInv(b.epoll) && b.poll.events == b.epoll.events
  }

  predicate Enabled(b: Pair, op: Op) {
    match op
    case Update(fd, _) => fd >= 0
    case Remove(fd) => Removable(b.poll, fd)
  }

  ghost function Step(b: Pair, op: Op): (b': Pair)
    requires PairInv(b) && Enabled(b, op)
  {
    match op
    case Update(fd, events) => Pair(PollUpdate(b.poll, fd, events), EPollUpdate(b.epoll, fd, events))
    case Remove(fd) => Pair(PollRemove(b.poll, fd), EPollRemove(b.epoll, fd))
  }

  lemma EventsAfter(p: PollState, e: EPollState, fd: int, events: int)
    requires fd in p.index ==> 0 <= p.index[fd] < |p.pollfds|
    ensures PollUpdate(p, fd, events).events == p.events[fd := events]
    ensures EPollUpdate(e, fd, events).events == e.events[fd := events]
    ensures fd in e.index ==> EPollRemove(e, fd).events == e.events - {fd}
  {
  }

  lemma KnownToBoth(b: Pair, fd: int)
    requires PairInv(b)
    ensures fd in b.poll.index <==> fd in b.epoll.index
    ensures fd in b.poll.index <==> fd in b.poll.events
    ensures fd in b.poll.index ==> 0 <= b.poll.index[fd] < |b.poll.pollfds|
  {
  }

  lemma StepKeeps(b: Pair, op: Op)
    requires PairInv(b) && Enabled(b, op)
    ensures PairInv(Step(b, op))
  {
    hide PollInv, EPollInv, PollUpdate, PollRemove, EPollUpdate, EPollRemove;
    KnownToBoth(b, op.fd);
    match op
    case Update(fd, events) =>
      PollUpdateKeeps(b.poll, fd, events);
      EPollUpdateKeeps(b.epoll, fd, events);
      EventsAfter(b.poll, b.epoll, fd, events);
    case Remove(fd) =>
      PollRemoveKeeps(b.poll, fd);
      EPollRemoveKeeps(b.epoll, fd);
      EventsAfter(b.poll, b.epoll, fd, 0);
      RemovedRest(b.poll, fd);
  }

  ghost predicate Legal(b: Pair, ops: seq<Op>)
    requires PairInv(b)
    decreases |ops|
  {
    ops == [] || (Enabled(b, ops[0]) && (StepKeeps(b, ops[0]); Legal(Step(b, ops[0]), ops[1..])))
  }

  /** Every `epoll_ctl` of every run is one the kernel allows, and a descriptor is
      registered exactly while its index is `kAdded`: `EPollInv`. */
  ghost function Run(b: Pair, ops: seq<Op>): (b': Pair)
    requires PairInv(b) && Legal(b, ops)
    ensures PairInv(b')
    decreases |ops|
  {
    if ops == [] then b
    else
      StepKeeps(b, ops[0]);
      Run(Step(b, ops[0]), ops[1..])
  }

  /** How a descriptor's updates ended: `empties` without events in a row, right
      from the start or after one with events. */
  datatype Trail = Absent | Trail(fromStart: bool, empties: nat)

  function TrailStep(t: Trail, fd: int, op: Op): Trail {
    if op.fd != fd then t
    else if op.Remove? then Absent
    else if op.events != NONE_EVENT then Trail(false, 0)
    else if t == Absent then Trail(true, 1)
    else t.(empties := t.empties + 1)
  }

  function TrailAfter(t: Trail, fd: int, ops: seq<Op>): Trail
    decreases |ops|
  {
    if ops == [] then t else TrailAfter(TrailStep(t, fd, ops[0]), fd, ops[1..])
  }

  predicate PollWatchesAfter(t: Trail) {
    t == Trail(false, 0) || t == Trail(true, 1)
  }

  predicate EPollWatchesAfter(t: Trail) {
    t.Trail? && t.empties % 2 == if t.fromStart then 1 else 0
  }

  /** The trail decides what each of the two does with a descriptor. */
  ghost predicate Follows(b: Pair, fd: int, t: Trail)
    requires PairInv(b)
  {
    && (t != Absent <==> fd in b.poll.index)
    && (t.Trail? ==> (t.empties > 0 <==> b.poll.events[fd] == NONE_EVENT) && (t.fromStart ==> t.empties > 0))
    && (t == Trail(true, 1) <==> fd in b.poll.bare)
    && (EPollWatchesAfter(t) <==> fd in b.epoll.index && b.epoll.index[fd] == K_ADDED)
  }

  lemma PollFollows(p: PollState, fd: int, op: Op)
    requires PollInv(p) && op.fd >= 0 && (op.Remove? ==> Removable(p, op.fd))
    ensures var p' := if op.Update? then PollUpdate(p, op.fd, op.events) else PollRemove(p, op.fd);
            && p'.index.Keys == (if op.Update? then p.index.Keys + {op.fd} else p.index.Keys - {op.fd})
            && p'.bare == (if op.Update? && op.events == NONE_EVENT && op.fd !in p.index
                           then p.bare + {op.fd} else p.bare - {op.fd})
  {
    if op.Remove? {
      RemovedSlots(p, op.fd);
    }
  }

  lemma EPollFollows(e: EPollState, op: Op)
    requires EPollInv(e) && (op.Remove? ==> op.fd in e.index)
    ensures var e' := if op.Update? then EPollUpdate(e, op.fd, op.events) else EPollRemove(e, op.fd);
            var added := op.fd in e.index && e.index[op.fd] == K_ADDED;
            e'.index == if op.Remove? then e.index - {op.fd}
                        else e.index[op.fd := if added && op.events == NONE_EVENT then K_DELETED else K_ADDED]
  {
  }

  lemma StepFollows(b: Pair, fd: int, t: Trail, op: Op)
    requires PairInv(b) && Enabled(b, op) && PairInv(Step(b, op)) && Follows(b, fd, t)
    ensures Follows(Step(b, op), fd, TrailStep(t, fd, op))
  {
    hide PollInv, EPollInv, PollUpdate, PollRemove, EPollUpdate, EPollRemove;
    KnownToBoth(b, op.fd);
    KnownToBoth(b, fd);
    KnownToBoth(Step(b, op), fd);
    OpFd(b, op);
    PollFollows(b.poll, fd, op);
    EPollFollows(b.epoll, op);
    EventsAfter(b.poll, b.epoll, op.fd, if op.Update? then op.events else 0);
    if op.Remove? {
      RemovedRest(b.poll, op.fd);
    }
  }

  lemma OpFd(b: Pair, op: Op)
    requires PairInv(b) && Enabled(b, op)
    ensures op.fd >= 0
  {
  }

  lemma {:induction false} RunFollows(b: Pair, fd: int, t: Trail, ops: seq<Op>)
    requires PairInv(b) && Legal(b, ops) && Follows(b, fd, t)
    ensures Follows(Run(b, ops), fd, TrailAfter(t, fd, ops))
    decreases |ops|
  {
    hide PairInv, Step, Enabled, Follows;
    if ops != [] {
      StepKeeps(b, ops[0]);
      StepFollows(b, fd, t, ops[0]);
      RunFollows(Step(b, ops[0]), fd, TrailStep(t, fd, ops[0]), ops[1..]);
    }
  }

  lemma WatchedBoth(b: Pair, fd: int, t: Trail)
    requires PairInv(b) && Follows(b, fd, t)
    ensures fd in PollWatches(b.poll) <==> PollWatchesAfter(t)
    ensures fd in b.epoll.kernel <==> EPollWatchesAfter(t)
    ensures fd in PollWatches(b.poll) && fd in b.epoll.kernel ==> PollWatches(b.poll)[fd] == b.epoll.kernel[fd]
  {
  }

  predicate TrailAgrees(t: Trail) {
    PollWatchesAfter(t) <==> EPollWatchesAfter(t)
  }

  ghost predicate SameTable(b: Pair)
    requires PairInv(b)
  {
    PollWatches(b.poll) == b.epoll.kernel
  }

  lemma NothingKnown()
    ensures PairInv(NONE) && forall fd :: Follows(NONE, fd, Absent)
  {
  }

  /** Both watch the same events of the same descriptors exactly when no trail of
      empty updates has left them apart: after one with events, none or an odd
      number of them; from the start, one or an even number. */
  lemma SameTableIff(ops: seq<Op>)
    requires PairInv(NONE) && Legal(NONE, ops)
    ensures SameTable(Run(NONE, ops)) <==> forall fd :: TrailAgrees(TrailAfter(Absent, fd, ops))
  {
    hide Bijective, Shown, EPollInv, PollWatchesAfter, EPollWatchesAfter, PollWatches, Run, Legal, TrailAfter;
    var b := Run(NONE, ops);
    if forall fd :: TrailAgrees(TrailAfter(Absent, fd, ops)) {
      forall fd
        ensures fd in PollWatches(b.poll) <==> fd in b.epoll.kernel
        ensures fd in PollWatches(b.poll) ==> PollWatches(b.poll)[fd] == b.epoll.kernel[fd]
      {
        WatchedAfterRun(ops, fd);
        assert TrailAgrees(TrailAfter(Absent, fd, ops));
      }
    } else {
      var fd :| !TrailAgrees(TrailAfter(Absent, fd, ops));
      WatchedAfterRun(ops, fd);
      assert fd in PollWatches(b.poll) <==> fd !in b.epoll.kernel;
    }
  }

  lemma WatchedAfterRun(ops: seq<Op>, fd: int)
    requires PairInv(NONE) && Legal(NONE, ops)
    ensures var b, t := Run(NONE, ops), TrailAfter(Absent, fd, ops);
            && (fd in PollWatches(b.poll) <==> PollWatchesAfter(t))
            && (fd in b.epoll.kernel <==> EPollWatchesAfter(t))
            && (fd in PollWatches(b.poll) && fd in b.epoll.kernel ==> PollWatches(b.poll)[fd] == b.epoll.kernel[fd])
  {
    NothingKnown();
    RunFollows(NONE, fd, Absent, ops);
    WatchedBoth(Run(NONE, ops), fd, TrailAfter(Absent, fd, ops));
  }

  /** The slot assert of `removeChannel` fails exactly for channels whose only
      update since they were added had no events, as `disableAll` on a channel
      that was never enabled makes. */
  lemma RemoveAssertIff(ops: seq<Op>, fd: int)
    requires PairInv(NONE) && Legal(NONE, ops) && Removable(Run(NONE, ops).poll, fd)
    ensures var p := Run(NONE, ops).poll;
            && fd in p.index && 0 <= p.index[fd] < |p.pollfds|
            && (SlotAssert(p, fd) <==> TrailAfter(Absent, fd, ops) != Trail(true, 1))
  {
    hide PollInv, EPollInv, Run, Legal, TrailAfter, SlotAssert;
    NothingKnown();
    RunFollows(NONE, fd, Absent, ops);
    SlotAssertHolds(Run(NONE, ops).poll, fd);
  }

  lemma RunCons(b: Pair, op: Op, ops: seq<Op>)
    requires PairInv(b) && Enabled(b, op)
    ensures PairInv(Step(b, op))
    ensures Legal(b, [op] + ops) <==> Legal(Step(b, op), ops)
    ensures Legal(b, [op] + ops) ==> Run(b, [op] + ops) == Run(Step(b, op), ops)
    ensures ops == [] ==> Legal(b, [op]) && Run(b, [op]) == Step(b, op)
  {
    hide PairInv, Step, Enabled;
    StepKeeps(b, op);
    assert ([op] + ops)[0] == op && ([op] + ops)[1..] == ops;
    assert ops == [] ==> [op] + ops == [op];
  }

  /** A channel that is disabled without having been enabled, and removed. */
  lemma BareRemovalFails()
    requires PairInv(NONE)
    ensures var ops := [Update(3, NONE_EVENT)];
            && Legal(NONE, ops)
            && var p := Run(NONE, ops).poll;
            && Removable(p, 3) && p.pollfds == [PollFd(3, NONE_EVENT, 0)] && p.index == map[3 := 0]
            && !SlotAssert(p, 3)
  {
    RunCons(NONE, Update(3, NONE_EVENT), []);
  }

  /** Enabled, disabled, and disabled once more: only EPollPoller watches it again. */
  lemma TablesDiffer()
    requires PairInv(NONE)
    ensures var ops := [Update(3, 1), Update(3, NONE_EVENT), Update(3, NONE_EVENT)];
            Legal(NONE, ops) && !SameTable(Run(NONE, ops))
  {
    hide PairInv, PollWatches, Run, Legal;
    var on, off := Update(3, 1), Update(3, NONE_EVENT);
    RunCons(NONE, on, [off, off]);
    RunCons(Step(NONE, on), off, [off]);
    RunCons(Step(Step(NONE, on), off), off, []);
    assert [on] + [off, off] == [on, off, off] && [off] + [off] == [off, off];
    var ops := [on, off, off];
    SameTableIff(ops);
    assert TrailAfter(Absent, 3, ops) == Trail(false, 2) by {
      assert ops[1..] == [off, off] && [off, off][1..] == [off] && [off][1..] == [];
      assert TrailAfter(Trail(false, 1), 3, [off]) == TrailAfter(Trail(false, 2), 3, []);
      assert TrailAfter(Trail(false, 0), 3, [off, off]) == TrailAfter(Trail(false, 1), 3, [off]);
    }
    assert !TrailAgrees(TrailAfter(Absent, 3, ops));
  }

  /** An update without events right after another one. */
  ghost predicate HasEmptyToEmpty(b: Pair, ops: seq<Op>)
    requires PairInv(b) && Legal(b, ops)
    decreases |ops|
  {
    ops != [] &&
    (|| (ops[0].Update? && ops[0].events == NONE_EVENT &&
         ops[0].fd in b.poll.events && b.poll.events[ops[0].fd] == NONE_EVENT)
     || (StepKeeps(b, ops[0]); HasEmptyToEmpty(Step(b, ops[0]), ops[1..])))
  }

  predicate IsShort(t: Trail) {
    t.Trail? ==> t.empties <= 1
  }

  lemma {:induction false} TrailStaysShort(b: Pair, fd: int, t: Trail, ops: seq<Op>)
    requires PairInv(b) && Legal(b, ops) && Follows(b, fd, t)
    requires !HasEmptyToEmpty(b, ops) && IsShort(t)
    ensures IsShort(TrailAfter(t, fd, ops))
    decreases |ops|
  {
    hide PollInv, EPollInv, Step, Enabled;
    if ops != [] {
      StepKeeps(b, ops[0]);
      StepFollows(b, fd, t, ops[0]);
      KnownToBoth(b, fd);
      TrailStaysShort(Step(b, ops[0]), fd, TrailStep(t, fd, ops[0]), ops[1..]);
    }
  }

  /** Without empty-to-empty updates the two are one table: the channels with
      events, and those added without any. */
  lemma OneTable(ops: seq<Op>)
    requires PairInv(NONE) && Legal(NONE, ops) && !HasEmptyToEmpty(NONE, ops)
    ensures SameTable(Run(NONE, ops))
    ensures var b := Run(NONE, ops);
            forall fd :: fd in b.epoll.kernel <==>
              fd in b.poll.events && (b.poll.events[fd] != NONE_EVENT || fd in b.poll.bare)
  {
    hide PairInv, SameTable, Run, Legal, TrailAfter, HasEmptyToEmpty, PollWatches;
    var b := Run(NONE, ops);
    forall fd
      ensures TrailAgrees(TrailAfter(Absent, fd, ops))
      ensures fd in b.epoll.kernel <==>
                fd in b.poll.events && (b.poll.events[fd] != NONE_EVENT || fd in b.poll.bare)
    {
      var t := TrailAfter(Absent, fd, ops);
      NothingKnown();
      TrailStaysShort(NONE, fd, Absent, ops);
      RunFollows(NONE, fd, Absent, ops);
      WatchedBoth(b, fd, t);
      KnownToBoth(b, fd);
    }
    SameTableIff(ops);
  }

  /** In every run PollPoller's slots and channels correspond through the index,
      and a slot shows its channel's current interest. */
  lemma SlotsMatchChannels(ops: seq<Op>)
    requires PairInv(NONE) && Legal(NONE, ops)
    ensures var p := Run(NONE, ops).poll; Bijective(p) && Shown(p)
  {
    hide Bijective, Shown, Run, Legal;
  }

  /** The common runs leave nothing out: what EPollPoller does by itself, it does
      beside PollPoller. */
  lemma {:induction false} CommonIsOwn(b: Pair, ops: seq<Op>)
    requires PairInv(b) && EPollLegal(b.epoll, ops) && forall op :: op in ops ==> op.fd >= 0
    ensures Legal(b, ops) && Run(b, ops).epoll == EPollRun(b.epoll, ops)
    decreases |ops|
  {
    if ops != [] {
      var op := ops[0];
      KnownToBoth(b, op.fd);
      assert op.fd >= 0;
      StepKeeps(b, op);
      hide PairInv;
      CommonIsOwn(Step(b, op), ops[1..]);
    }
  }

  // ------------------------------------------------------------ active slots

  /** The slots that `poll` has marked, in order. */
  function Ready(pollfds: seq<PollFd>): seq<PollFd> {
    if pollfds == [] then [] else IfReady(pollfds[0]) + Ready(pollfds[1..])
  }

  function IfReady(slot: PollFd): seq<PollFd> {
    if slot.revents > 0 then [slot] else []
  }

  /** What `poll` leaves behind: only descriptors it was given are marked. */
  predicate PolledSlots(pollfds: seq<PollFd>) {
    forall i :: 0 <= i < |pollfds| && pollfds[i].revents > 0 ==> pollfds[i].fd >= 0
  }

  lemma {:induction false} ReadyIsExact(pollfds: seq<PollFd>, slot: PollFd)
    ensures slot in Ready(pollfds) <==> slot in pollfds && slot.revents > 0
    decreases |pollfds|
  {
    if pollfds != [] {
      ReadyIsExact(pollfds[1..], slot);
    }
  }
}
