/**
 * The bookkeeping of myserver/common/epoll_poller.cpp: which channels the poller knows, and
 * which descriptors the kernel watches for it.
 */
module EpollPoller {
  const NEW := -1
  const ADDED := 1
  const DELETED := 2

  /** EPOLLIN | EPOLLPRI, and EPOLLOUT. */
  const READ_EVENT: bv32 := 3
  const WRITE_EVENT: bv32 := 4

  class Channel {
    const fd: int
    var events: bv32
    var index: int

    constructor (fd: int)
      ensures this.fd == fd && events == 0 && index == NEW
    {
      this.fd, events, index := fd, 0, NEW;
    }
  }

  datatype Operation = Add | Mod | Del

  /** What the kernel watches a descriptor for, and the channel it reports. */
  datatype Watch = Watch(events: bv32, channel: Channel)

  class EpollPoller {
    /** m_channels */
    var channels: map<int, Channel>
    /** The interest set of the epoll instance, and whether a call of epoll_ctl has failed. */
    var kernel: map<int, Watch>
    var failed: bool
    /** The channels of the loop. */
    ghost var all: set<Channel>

    /** What the poller knows of one channel. */
    ghost predicate Tracks(c: Channel)
      reads this, c
    {
      && (c.index == NEW || c.index == ADDED || c.index == DELETED)
      && (c.index == ADDED <==> c.fd in kernel)
      && (c.index != NEW <==> c.fd in channels)
      && (c.fd in channels ==> channels[c.fd] == c)
      && (c.fd in kernel ==> kernel[c.fd].channel == c)
    }

    /** The kernel watches the channel for what it is interested in. */
    ghost predicate InStep(c: Channel)
      reads this, c
    {
      c.fd in kernel ==> kernel[c.fd].events == c.events
    }

    ghost predicate Distinct()
      reads this
    {
      forall c, d :: c in all && d in all && c.fd == d.fd ==> c == d
    }

    ghost predicate Valid()
      reads this, all
    {
      && Distinct() && !failed
      && (forall c :: c in all ==> Tracks(c))
      && (forall fd :: fd in channels ==> channels[fd] in all && channels[fd].fd == fd)
      && (forall fd :: fd in kernel ==> kernel[fd].channel in all && kernel[fd].channel.fd == fd)
    }

    constructor ()
      ensures Valid() && all == {} && channels == map[] && kernel == map[]
    {
      channels, kernel, failed, all := map[], map[], false, {};
    }

    /** epoll_ctl: adding a descriptor that is watched fails, and so does changing or deleting one that is not. */
    method Update(op: Operation, c: Channel)
      modifies this`kernel, this`failed
      ensures var ok := (op.Add? <==> c.fd !in old(kernel));
              && failed == (old(failed) || !ok)
              && kernel == (if !ok then old(kernel)
                            else if op.Del? then old(kernel) - {c.fd}
                            else old(kernel)[c.fd := Watch(c.events, c)])
    {
      match op
      case Add => if c.fd in kernel { failed := true; } else { kernel := kernel[c.fd := Watch(c.events, c)]; }
      case Mod => if c.fd in kernel { kernel := kernel[c.fd := Watch(c.events, c)]; } else { failed := true; }
      case Del => if c.fd in kernel { kernel := kernel - {c.fd}; } else { failed := true; }
    }

    /**
     * updateChannel: no epoll_ctl fails; the channel is watched for its events afterwards, unless
     * it was watched before and has none any more.
     */
    method UpdateChannel(c: Channel)
      requires Valid() && c in all
      modifies this`channels, this`kernel, this`failed, c`index
      ensures Valid() && InStep(c)
      ensures c.index == if old(c.index) == ADDED && c.events == 0 then DELETED else ADDED
      ensures forall d :: d in all && d != c && old(InStep(d)) ==> InStep(d)
    {
      assert Tracks(c);
      var index := c.index;
      if index == NEW || index == DELETED {
        if index == NEW { channels := channels[c.fd := c]; }
        c.index := ADDED;
        Update(Add, c);
      } else if c.events == 0 {
        Update(Del, c);
        c.index := DELETED;
      } else {
        Update(Mod, c);
      }
      forall d | d in all ensures Tracks(d) && (d != c && old(InStep(d)) ==> InStep(d)) {
        assert old(Tracks(d));
        assert d != c ==> d.fd != c.fd;
      }
    }

    /** removeChannel: afterwards neither the poller nor the kernel knows the channel. */
    method RemoveChannel(c: Channel)
      requires Valid() && c in all
      modifies this`channels, this`kernel, this`failed, c`index
      ensures Valid() && c.index == NEW && c.fd !in kernel && c.fd !in channels
      ensures forall d :: d in all && d != c && old(InStep(d)) ==> InStep(d)
    {
      assert Tracks(c);
      channels := channels - {c.fd};
      var index := c.index;
      if index == ADDED { Update(Del, c); }
      c.index := NEW;
      forall d | d in all ensures Tracks(d) && (d != c && old(InStep(d)) ==> InStep(d)) {
        assert old(Tracks(d));
        assert d != c ==> d.fd != c.fd;
      }
    }

    /** hasChannel of myserver/common/poller.cpp */
    method HasChannel(c: Channel) returns (has: bool)
      requires Valid() && c in all
      ensures has == (c.index != NEW)
    {
      assert Tracks(c);
      has := c.fd in channels && channels[c.fd] == c;
    }

    ghost predicate AllInStep()
      reads this, all
    {
      forall c :: c in all ==> InStep(c)
    }

    /** A new channel of the loop; no other has its descriptor. */
    method Register(fd: int) returns (c: Channel)
      requires Valid() && AllInStep() && forall d :: d in all ==> d.fd != fd
      modifies this`all
      ensures Valid() && AllInStep() && fresh(c) && all == old(all) + {c}
      ensures c.fd == fd && c.index == NEW && c.events == 0
    {
      c := new Channel(fd);
      assert fd !in channels && fd !in kernel;
      all := all + {c};
      forall d | d in all ensures Tracks(d) && InStep(d) {
        if d != c { assert old(Tracks(d)) && old(InStep(d)); }
      }
    }

    /**
     * enableRead, disableRead, enableWrite, disableWrite and disableAll: the events change, then the
     * poller is told.
     */
    method ChangeEvents(c: Channel, on: bv32, keep: bv32)
      requires Valid() && AllInStep() && c in all
      modifies this`channels, this`kernel, this`failed, c
      ensures Valid() && AllInStep() && c.events == (old(c.events) | on) & keep
      ensures c.index == if old(c.index) == ADDED && c.events == 0 then DELETED else ADDED
    {
      c.events := (c.events | on) & keep;
      forall d | d in all ensures Tracks(d) && (d != c ==> InStep(d)) {
        assert old(Tracks(d)) && old(InStep(d));
      }
      UpdateChannel(c);
    }

    /**
     * Over any sequence of such changes and of removals, descriptors being distinct, the kernel
     * watches exactly the channels that are ADDED, each for its events, and no epoll_ctl fails.
     */
    method Replay(calls: seq<(Channel, bv32, bv32, bool)>)
      requires Valid() && AllInStep() && forall i :: 0 <= i < |calls| ==> calls[i].0 in all
      modifies this`channels, this`kernel, this`failed, all
      ensures Valid() && AllInStep() && !failed
      ensures forall c :: c in all ==>
                (c.fd in kernel <==> c.index == ADDED) && (c.fd in kernel ==> kernel[c.fd] == Watch(c.events, c))
      ensures forall c :: c in all ==>
                (c.fd in channels <==> c.index != NEW) && (c.fd in channels ==> channels[c.fd] == c)
    {
      for i := 0 to |calls|
        invariant Valid() && AllInStep()
      {
        var (c, on, keep, remove) := calls[i];
        if remove {
          RemoveChannel(c);
          assert InStep(c);
        } else {
          ChangeEvents(c, on, keep);
        }
      }
      forall c | c in all
        ensures (c.fd in kernel <==> c.index == ADDED) && (c.fd in kernel ==> kernel[c.fd] == Watch(c.events, c))
        ensures (c.fd in channels <==> c.index != NEW) && (c.fd in channels ==> channels[c.fd] == c)
      {
        assert Tracks(c) && InStep(c);
      }
    }

    /** disableAll on a channel that it has already taken out of the kernel puts it back, without events. */
    method DisableAllTwice(c: Channel)
      requires Valid() && AllInStep() && c in all && c.index == ADDED
      modifies this`channels, this`kernel, this`failed, c
      ensures Valid() && c.index == ADDED && c.fd in kernel && kernel[c.fd] == Watch(0, c)
    {
      ChangeEvents(c, 0, 0);
      assert Tracks(c) && c.fd !in kernel;
      ChangeEvents(c, 0, 0);
      assert Tracks(c) && InStep(c);
    }
  }
}
