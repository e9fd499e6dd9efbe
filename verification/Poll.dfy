/** The poll backend: a dense array for poll(2) and the index of each fd in it. */
module Poll {
  import opened Watchers
  import ArrayGrowth

  const POLLIN: Mask := {0}
  const POLLOUT: Mask := {2}
  const SIZEOF_POLLFD := 8
  const SIZEOF_INT := 4

  datatype PollFd = PollFd(fd: nat, events: Mask)

  /** The poll(2) events that stand for an event mask. */
  function PollBits(mask: Mask): Mask {
    (if EV_READ <= mask then POLLIN else {}) + (if EV_WRITE <= mask then POLLOUT else {})
  }

  // The mask of fd in a map that leaves out empty masks.
  function MaskOf(masks: map<nat, Mask>, fd: nat): Mask {
    if fd in masks then masks[fd] else {}
  }

  function WithMask(masks: map<nat, Mask>, fd: nat, mask: Mask): (r: map<nat, Mask>)
    ensures forall f: nat :: MaskOf(r, f) == if f == fd then mask else MaskOf(masks, f)
  {
    if mask == {} then masks - {fd} else masks[fd := mask]
  }

  class PollBackend {
    var polls: array<PollFd>
    var pollcnt: nat
    var pollidxs: array<int>
    ghost var masks: map<nat, Mask>  // what the backend was asked to watch

    // polls[..pollcnt] lists exactly the fds with a mask, each once ...
    ghost predicate ListsMasks()
      reads this, polls, pollidxs
    {
      && pollcnt <= polls.Length
      && (forall i {:trigger polls[i]} :: 0 <= i < pollcnt ==>
            && polls[i].fd in masks
            && polls[i].events == PollBits(masks[polls[i].fd])
            && polls[i].fd < pollidxs.Length && pollidxs[polls[i].fd] == i)
    }

    // ... and pollidxs is its inverse.
    ghost predicate IndexesPolls()
      reads this, polls, pollidxs
    {
      && pollcnt <= polls.Length
      && (forall fd {:trigger fd in masks} :: fd in masks ==> masks[fd] != {} && fd < pollidxs.Length)
      && (forall fd {:trigger pollidxs[fd]} :: 0 <= fd < pollidxs.Length ==>
            if fd in masks then 0 <= pollidxs[fd] < pollcnt && polls[pollidxs[fd]].fd == fd
            else pollidxs[fd] < 0)
    }

    ghost predicate Valid()
      reads this, polls, pollidxs
    {
      ListsMasks() && IndexesPolls()
    }

    constructor ()
      ensures Valid() && masks == map[]
      ensures fresh(polls) && fresh(pollidxs)
    {
      polls := new PollFd[0];
      pollidxs := new int[0];
      pollcnt := 0;
      masks := map[];
    }

    method GrowIdxs(needed: nat)
      requires Valid()
      modifies `pollidxs
      ensures Valid() && needed <= pollidxs.Length
      ensures pollidxs == old(pollidxs) || fresh(pollidxs)
    {
      if needed > pollidxs.Length {
        var size := ArrayGrowth.NextSize(SIZEOF_INT, pollidxs.Length, needed);
        var before := pollidxs;
        pollidxs := new int[size](i reads before => if 0 <= i < before.Length then before[i] else -1);
      }
    }

    // Room for one more pollfd, which is left uninitialised.
    method GrowPolls()
      requires Valid()
      modifies `polls
      ensures Valid() && pollcnt < polls.Length
      ensures polls == old(polls) || fresh(polls)
    {
      if pollcnt + 1 > polls.Length {
        var size := ArrayGrowth.NextSize(SIZEOF_POLLFD, polls.Length, pollcnt + 1);
        var before := polls;
        polls := new PollFd[size](i reads before => if 0 <= i < before.Length then before[i] else PollFd(0, {}));
      }
    }

    // A new pollfd at the end.
    method Allocate(fd: nat, nev: Mask) returns (idx: nat)
      requires Valid() && fd !in masks && fd < pollidxs.Length && nev != {}
      modifies `polls, `pollcnt, `masks, polls, pollidxs
      ensures Valid() && masks == old(masks)[fd := nev]
      ensures pollidxs[fd] == idx
      ensures polls == old(polls) || fresh(polls)
    {
      GrowPolls();
      idx := pollcnt;
      pollidxs[fd] := idx;
      pollcnt := pollcnt + 1;
      polls[idx] := PollFd(fd, PollBits(nev));
      masks := masks[fd := nev];
    }

    // The pollfd of fd goes; the last one moves into its place.
    method Remove(fd: nat)
      requires Valid() && fd in masks
      modifies `pollcnt, `masks, polls, pollidxs
      ensures Valid() && masks == old(masks) - {fd}
    {
      var idx := pollidxs[fd];
      pollidxs[fd] := -1;
      pollcnt := pollcnt - 1;
      if idx < pollcnt {
        polls[idx] := polls[pollcnt];
        pollidxs[polls[idx].fd] := idx;
      }
      masks := masks - {fd};
    }

    /** poll_modify, called with the mask that fd has. */
    method Modify(fd: nat, oev: Mask, nev: Mask)
      requires Valid() && oev == MaskOf(masks, fd)
      modifies this, polls, pollidxs
      ensures Valid() && masks == old(WithMask(masks, fd, nev))
      ensures polls == old(polls) || fresh(polls)
      ensures pollidxs == old(pollidxs) || fresh(pollidxs)
    {
      if oev == nev {
        return;
      }
      GrowIdxs(fd + 1);
      var idx := pollidxs[fd];
      if idx < 0 {
        idx := Allocate(fd, nev);
      }
      if nev != {} {
        polls[idx] := PollFd(fd, PollBits(nev));
        masks := masks[fd := nev];
      } else {
        Remove(fd);
      }
    }
  }
}
