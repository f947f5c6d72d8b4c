/** The pollers as objects that share `Channel`s with their users
    (muduo/net/Channel.h, poller/PollPoller.cc, poller/EPollPoller.cc). */
module PollerClass {
  import opened Pollers

  class Channel {
    const fd: nat
    var events: int
    var revents: int
    var index: int

    constructor (fd: nat)
      ensures this.fd == fd && events == NONE_EVENT && index == K_NEW
    {
      this.fd := fd;
      events, revents, index := NONE_EVENT, 0, K_NEW;
    }

    predicate IsNoneEvent()
      reads this
    {
      events == NONE_EVENT
    }
  }

  /** Filed under their own descriptors, so no two are the same object. */
  ghost predicate FiledByFd(channels: map<int, Channel>) {
    forall fd :: fd in channels ==> channels[fd].fd == fd
  }

  ghost function Indexes(channels: map<int, Channel>): map<int, int>
    reads channels.Values
  {
    map fd | fd in channels :: channels[fd].index
  }

  lemma KeysOf(channels: map<int, Channel>)
    ensures Indexes(channels).Keys == channels.Keys
    ensures forall fd :: fd in channels ==> Indexes(channels)[fd] == channels[fd].index
  {
  }

  class PollPoller {
    var pollfds: seq<PollFd>
    var channels: map<int, Channel>
    ghost var table: map<int, int>
    ghost var bare: set<int>

    ghost function State(): PollState
      reads this, channels.Values
    {
      PollState(pollfds, Indexes(channels), table, bare)
    }

    ghost predicate Valid()
      reads this, channels.Values
    {
      FiledByFd(channels) && PollInv(State())
    }

    constructor ()
      ensures Valid() && State() == NO_POLL && channels == map[]
    {
      pollfds, channels, table, bare := [], map[], map[], {};
      new;
      assert State() == NO_POLL;
    }

    /** What the asserts say of a channel that is passed in. */
    predicate Knows(channel: Channel)
      reads this, channel
    {
      if channel.index < 0 then channel.fd !in channels
      else channel.fd in channels && channels[channel.fd] == channel
    }

    /** `set_index` on a channel of this poller. */
    method SetIndex(channel: Channel, i: int)
      requires FiledByFd(channels) && channel.fd in channels && channels[channel.fd] == channel
      modifies channel`index
      ensures channel.index == i
      ensures Indexes(channels) == old(Indexes(channels))[channel.fd := i]
    {
      channel.index := i;
      assert forall g :: g in channels && g != channel.fd ==> channels[g].index == old(channels[g].index);
    }

    /** A new slot at the end. */
    method AddSlot(channel: Channel)
      requires FiledByFd(channels) && channel.fd !in channels
      modifies this`pollfds, this`channels, channel`index
      ensures pollfds == old(pollfds) + [PollFd(channel.fd, channel.events, 0)]
      ensures channels == old(channels)[channel.fd := channel]
      ensures Indexes(channels) == old(Indexes(channels))[channel.fd := |old(pollfds)|]
    {
      var pfd := PollFd(channel.fd, channel.events, 0);
      pollfds := pollfds + [pfd];
      var idx := |pollfds| - 1;
      channels := channels[pfd.fd := channel];
      channel.index := idx;
      assert forall g :: g in channels && g != channel.fd ==> channels[g].index == old(channels[g].index);
    }

    /** The slot rewritten in place. */
    method ChangeSlot(channel: Channel)
      requires 0 <= channel.index < |pollfds|
      modifies this`pollfds
      ensures pollfds == old(pollfds)[channel.index :=
                           PollFd(if channel.events == NONE_EVENT then -(channel.fd as int) - 1 else channel.fd,
                                  channel.events, 0)]
    {
      var pfd := PollFd(channel.fd, channel.events, 0);
      if channel.IsNoneEvent() {
        pfd := pfd.(fd := -(channel.fd as int) - 1);
      }
      pollfds := pollfds[channel.index := pfd];
    }

    method UpdateChannel(channel: Channel)
      requires Valid() && Knows(channel)
      modifies this, channel`index
      ensures channel.fd in old(State()).index ==>
                0 <= old(State()).index[channel.fd] < |old(State()).pollfds|
      ensures Valid() && State() == PollUpdate(old(State()), channel.fd, channel.events)
      ensures channels == old(channels)[channel.fd := channel] && Knows(channel)
    {
      hide PollInv, Indexes;
      PollUpdateKeeps(State(), channel.fd, channel.events);
      InvBounds(State());
      KeysOf(channels);
      if channel.index < 0 {
        AddSlot(channel);
        bare := if channel.events == NONE_EVENT then bare + {channel.fd} else bare - {channel.fd};
      } else {
        ChangeSlot(channel);
        bare := bare - {channel.fd};
      }
      table := table[channel.fd := channel.events];
      assert channels[channel.fd] == channel;
      KeysOf(channels);
    }

    /** Erases the channel's slot, the last slot taking its place. */
    method DropSlot(idx: nat)
      requires FiledByFd(channels) && idx < |pollfds|
      requires idx != |pollfds| - 1 ==> FdOf(pollfds[|pollfds| - 1]) in channels
      modifies this`pollfds, channels.Values`index
      ensures var last := |old(pollfds)| - 1;
              if idx == last then
                pollfds == old(pollfds)[..last] && Indexes(channels) == old(Indexes(channels))
              else
                pollfds == old(pollfds)[idx := old(pollfds)[last]][..last] &&
                Indexes(channels) == old(Indexes(channels))[FdOf(old(pollfds)[last]) := idx]
    {
      ghost var was := pollfds;
      var last := |pollfds| - 1;
      if idx == last {
        pollfds := pollfds[..last];
      } else {
        var channelAtEnd := pollfds[last].fd;
        pollfds := pollfds[idx := pollfds[last]][last := pollfds[idx]];
        if channelAtEnd < 0 {
          channelAtEnd := -channelAtEnd - 1;
        }
        SetIndex(channels[channelAtEnd], idx);
        pollfds := pollfds[..last];
        assert pollfds == was[idx := was[last]][..last];
      }
    }

    /** The removed channel keeps its index, so it can never be updated again. */
    method RemoveChannel(channel: Channel)
      requires Valid() && channel.index >= 0 && Knows(channel) && channel.IsNoneEvent()
      modifies this, channels.Values
      ensures channel.fd in old(State()).index && 0 <= old(State()).index[channel.fd] < |old(State()).pollfds|
      ensures Valid() && State() == PollRemove(old(State()), channel.fd)
      ensures channels == old(channels) - {channel.fd}
      ensures channel.index == old(channel.index) && !Knows(channel)
    {
      hide PollInv;
      PollRemoveKeeps(State(), channel.fd);
      InvBounds(State());
      LastIsKnown(State(), channel.fd);
      var idx := channel.index;
      channels := channels - {channel.fd};
      assert Indexes(channels) == old(Indexes(channels)) - {channel.fd};
      assert forall g :: g in channels ==> channels[g].fd == g && channels[g] != channel;
      hide Indexes;
      DropSlot(idx);
      table, bare := table - {channel.fd}, bare - {channel.fd};
    }

    /** `numEvents` is what `poll` returned; the scan stops when it has seen so
        many marked slots. */
    method FillActiveChannels(numEvents: int) returns (activeChannels: seq<Channel>)
      requires Valid() && PolledSlots(pollfds) && numEvents == |Ready(pollfds)|
      modifies channels.Values`revents
      ensures |activeChannels| == |Ready(pollfds)|
      ensures forall k :: 0 <= k < |activeChannels| ==>
                var slot := Ready(pollfds)[k];
                slot.fd in channels && activeChannels[k] == channels[slot.fd] &&
                activeChannels[k].revents == slot.revents
    {
      hide PollInv, Ready;
      activeChannels := [];
      var left := numEvents;
      var i := 0;
      ReadyOfNone(pollfds);
      SlotsAreDistinct(State());
      while i < |pollfds| && left > 0
        invariant 0 <= i <= |pollfds| && left == |Ready(pollfds[i..])|
        invariant |activeChannels| == |Ready(pollfds[..i])|
        invariant forall k :: 0 <= k < |activeChannels| ==>
                    var slot := Ready(pollfds[..i])[k];
                    slot.fd in channels && activeChannels[k] == channels[slot.fd] &&
                    activeChannels[k].revents == slot.revents
        invariant Indexes(channels) == old(Indexes(channels))
      {
        ReadyStep(pollfds, i);
        if pollfds[i].revents > 0 {
          left := left - 1;
          SlotIsKnown(State(), i);
          NotSeenBefore(pollfds, i);
          var channel := channels[pollfds[i].fd];
          channel.revents := pollfds[i].revents;
          activeChannels := activeChannels + [channel];
        }
        i := i + 1;
      }
      ReadySplit(pollfds, i);
      assert i == |pollfds| ==> pollfds[i..] == [];
      ReadyOfNone(pollfds);
      assert Ready(pollfds[i..]) == [];
      assert Ready(pollfds[..i]) == Ready(pollfds);
    }
  }

  lemma ReadyOfNone(slots: seq<PollFd>)
    ensures Ready([]) == [] && slots[..0] == [] && slots[0..] == slots
  {
  }

  /** A marked slot's descriptor is not among those marked before it. */
  lemma NotSeenBefore(slots: seq<PollFd>, i: nat)
    requires i < |slots| && PolledSlots(slots) && slots[i].revents > 0
    requires forall j, k :: 0 <= j < k < |slots| && slots[j].fd >= 0 && slots[k].fd >= 0 ==> slots[j].fd != slots[k].fd
    ensures forall s :: s in Ready(slots[..i]) ==> s.fd != slots[i].fd
  {
    forall s | s in Ready(slots[..i])
      ensures s.fd != slots[i].fd
    {
      ReadyIsEarlier(slots, i, s);
    }
  }

  lemma InvBounds(p: PollState)
    requires PollInv(p)
    ensures forall fd :: fd in p.index ==> fd >= 0 && 0 <= p.index[fd] < |p.pollfds|
    ensures forall fd :: fd in p.events <==> fd in p.index
    ensures Bijective(p)
  {
  }

  /** The last slot is another channel's, unless it is the one to go. */
  lemma LastIsKnown(p: PollState, fd: int)
    requires PollInv(p) && fd in p.index
    ensures 0 <= p.index[fd] < |p.pollfds|
    ensures var last := |p.pollfds| - 1;
            p.index[fd] != last ==> FdOf(p.pollfds[last]) in p.index && FdOf(p.pollfds[last]) != fd
  {
  }

  lemma SlotIsKnown(p: PollState, i: nat)
    requires PollInv(p) && i < |p.pollfds| && p.pollfds[i].fd >= 0
    ensures p.pollfds[i].fd in p.index
  {
    assert FdOf(p.pollfds[i]) == p.pollfds[i].fd;
  }

  lemma SlotsAreDistinct(p: PollState)
    requires PollInv(p)
    ensures forall i, j :: 0 <= i < j < |p.pollfds| && p.pollfds[i].fd >= 0 && p.pollfds[j].fd >= 0 ==>
              p.pollfds[i].fd != p.pollfds[j].fd
  {
    forall i, j | 0 <= i < j < |p.pollfds| && p.pollfds[i].fd >= 0 && p.pollfds[j].fd >= 0
      ensures p.pollfds[i].fd != p.pollfds[j].fd
    {
      assert p.index[FdOf(p.pollfds[i])] == i && p.index[FdOf(p.pollfds[j])] == j;
    }
  }

  lemma {:induction false} ReadyAppend(a: seq<PollFd>, b: seq<PollFd>)
    ensures Ready(a + b) == Ready(a) + Ready(b)
    decreases |a|
  {
    hide IfReady;
    if a == [] {
      assert a + b == b;
    } else {
      ReadyAppend(a[1..], b);
      assert (a + b)[0] == a[0] && (a + b)[1..] == a[1..] + b;
      assert IfReady(a[0]) + (Ready(a[1..]) + Ready(b)) == IfReady(a[0]) + Ready(a[1..]) + Ready(b);
    }
  }

  lemma ReadySplit(slots: seq<PollFd>, i: nat)
    requires i <= |slots|
    ensures Ready(slots) == Ready(slots[..i]) + Ready(slots[i..])
  {
    hide Ready;
    ReadyAppend(slots[..i], slots[i..]);
    assert slots[..i] + slots[i..] == slots;
  }

  lemma ReadyStep(slots: seq<PollFd>, i: nat)
    requires i < |slots|
    ensures Ready(slots[i..]) == IfReady(slots[i]) + Ready(slots[i + 1..])
    ensures Ready(slots[..i + 1]) == Ready(slots[..i]) + IfReady(slots[i])
  {
    hide Ready, IfReady;
    var one, after := [slots[i]], slots[i + 1..];
    ReadyOne(slots[i]);
    ReadyAppend(slots[..i], one);
    assert slots[..i] + one == slots[..i + 1];
    ReadyAppend(one, after);
    assert one + after == slots[i..];
  }

  lemma ReadyOne(slot: PollFd)
    ensures Ready([slot]) == IfReady(slot)
  {
    assert [slot][1..] == [];
  }

  lemma ReadyIsEarlier(slots: seq<PollFd>, i: nat, slot: PollFd)
    requires i <= |slots| && PolledSlots(slots) && slot in Ready(slots[..i])
    ensures exists j :: 0 <= j < i && slots[j] == slot && slot.fd >= 0
  {
    ReadyIsExact(slots[..i], slot);
    var j :| 0 <= j < i && slots[..i][j] == slot;
    assert slots[j] == slot;
  }

  // ------------------------------------------------------------ EPollPoller

  class EPollPoller {
    var channels: map<int, Channel>
    // the kernel's registrations
    var kernel: map<int, int>
    ghost var table: map<int, int>
    ghost var failed: bool

    ghost function State(): EPollState
      reads this, channels.Values
    {
      EPollState(Indexes(channels), kernel, table, failed)
    }

    ghost predicate Valid()
      reads this, channels.Values
    {
      && FiledByFd(channels)
      && (forall fd :: fd in channels ==> channels[fd].index == K_ADDED || channels[fd].index == K_DELETED)
      && EPollInv(State())
    }

    constructor ()
      ensures Valid() && State() == NO_EPOLL && channels == map[]
    {
      channels, kernel, table, failed := map[], map[], map[], false;
      new;
      assert State() == NO_EPOLL;
    }

    predicate Knows(channel: Channel)
      reads this, channel
    {
      if channel.index == K_NEW then channel.fd !in channels
      else channel.fd in channels && channels[channel.fd] == channel
    }

    /** `set_index` on a channel of this poller. */
    method SetIndex(channel: Channel, i: int)
      requires FiledByFd(channels) && channel.fd in channels && channels[channel.fd] == channel
      modifies channel`index
      ensures channel.index == i
      ensures Indexes(channels) == old(Indexes(channels))[channel.fd := i]
    {
      channel.index := i;
      assert forall g :: g in channels && g != channel.fd ==> channels[g].index == old(channels[g].index);
    }

    method File(channel: Channel)
      modifies this`channels
      ensures channels == old(channels)[channel.fd := channel]
      ensures Indexes(channels) == old(Indexes(channels))[channel.fd := channel.index]
    {
      channels := channels[channel.fd := channel];
    }

    /** `epoll_ctl`, which may refuse. */
    method Update(operation: CtlOp, channel: Channel)
      modifies this`kernel, this`failed
      ensures State() == Ctl(old(State()), operation, channel.fd, channel.events)
    {
      var fd := channel.fd;
      if !CtlAllowed(kernel, operation, fd) {
        failed := true;
      } else if operation == Del {
        kernel := kernel - {fd};
      } else {
        kernel := kernel[fd := channel.events];
      }
    }

    method UpdateChannel(channel: Channel)
      requires Valid() && Knows(channel)
      modifies this, channel`index
      ensures Valid() && State() == EPollUpdate(old(State()), channel.fd, channel.events)
      ensures channels == old(channels)[channel.fd := channel] && Knows(channel)
    {
      hide EPollInv, Ctl, Indexes;
      EPollUpdateKeeps(State(), channel.fd, channel.events);
      KeysOf(channels);
      table := table[channel.fd := channel.events];
      var index := channel.index;
      if index == K_NEW || index == K_DELETED {
        if index == K_NEW {
          File(channel);
        }
        SetIndex(channel, K_ADDED);
        assert Indexes(channels) == old(Indexes(channels))[channel.fd := K_ADDED];
        Update(Add, channel);
      } else if channel.IsNoneEvent() {
        Update(Del, channel);
        SetIndex(channel, K_DELETED);
      } else {
        Update(Mod, channel);
      }
      KeysOf(channels);
    }

    method RemoveChannel(channel: Channel)
      requires Valid() && channel.index != K_NEW && Knows(channel) && channel.IsNoneEvent()
      modifies this, channel`index
      ensures channel.fd in old(State()).index
      ensures Valid() && State() == EPollRemove(old(State()), channel.fd)
      ensures channels == old(channels) - {channel.fd} && channel.index == K_NEW && Knows(channel)
    {
      hide EPollInv;
      EPollRemoveKeeps(State(), channel.fd);
      var index := channel.index;
      channels := channels - {channel.fd};
      table := table - {channel.fd};
      assert Indexes(channels) == old(Indexes(channels)) - {channel.fd};
      if index == K_ADDED {
        Update(Del, channel);
      }
      channel.index := K_NEW;
      assert forall g :: g in channels ==> channels[g].index == old(channels[g].index);
      assert Indexes(channels) == old(Indexes(channels)) - {channel.fd};
    }
  }
}
