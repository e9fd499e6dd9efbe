/** The io watchers of each fd and the deferred list of fds whose kernel state has to be
    brought in line with them. */
module FdChanges {
  import opened Watchers
  import opened Pending
  import opened Poll
  import ArrayGrowth

  const EV_ANFD_REIFY: Mask := {0}
  const SIZEOF_ANFD := 16

  /** ev_io; ev_io_set leaves EV__IOFDSET in `events` until the watcher is started.  `base`
      is what the pending stacks know of the watcher. */
  class IoWatcher {
    const base: Watcher
    const fd: nat
    var events: Mask
    var active: int

    constructor (base: Watcher, fd: nat, events: Mask)
      ensures this.base == base && this.fd == fd && this.events == events + EV__IOFDSET && active == 0
    {
      this.base := base;
      this.fd := fd;
      this.events := events + EV__IOFDSET;
      active := 0;
    }
  }

  datatype Anfd = Anfd(head: seq<IoWatcher>, events: Mask, reify: Mask)

  const NO_ANFD := Anfd([], {}, {})

  // A call of fd_change that a backend makes from within backend_modify.
  datatype Change = Change(fd: nat, flags: Mask)

  /** The union of the masks of the watchers in a list. */
  function Union(ws: seq<IoWatcher>): Mask
    reads ws`events
  {
    if ws == [] then {} else ws[0].events + Union(ws[1..])
  }

  class FdLoop {
    var anfds: array<Anfd>
    var fdchanges: seq<nat>
    const backend: PollBackend
    const queues: PendingQueues
    ghost const registry: set<IoWatcher>  // the io watchers of this loop

    // `pending` lists exactly the fds with a reify flag, each once.
    ghost predicate Lists(pending: seq<nat>)
      reads `anfds, anfds
    {
      && (forall i, j :: 0 <= i < j < |pending| ==> pending[i] != pending[j])
      && (forall fd {:trigger fd in pending} :: fd in pending ==> fd < anfds.Length && anfds[fd].reify != {})
      && (forall fd {:trigger anfds[fd]} :: 0 <= fd < anfds.Length && anfds[fd].reify != {} ==> fd in pending)
    }

    // fds without a reify flag have recorded what their watchers ask for.
    ghost predicate Synced()
      reads `anfds, anfds, registry`events
      requires Attached()
    {
      forall fd {:trigger anfds[fd]} :: 0 <= fd < anfds.Length ==> SyncedAt(anfds[fd])
    }

    ghost predicate SyncedAt(anfd: Anfd)
      reads anfd.head`events
    {
      anfd.reify == {} ==> anfd.events == Union(anfd.head)
    }

    // The backend has the recorded mask of every fd.
    ghost predicate Registered()
      reads `anfds, anfds, backend
    {
      && (forall fd {:trigger anfds[fd]} :: 0 <= fd < anfds.Length ==> MaskOf(backend.masks, fd) == anfds[fd].events)
      && (forall fd {:trigger fd in backend.masks} :: fd in backend.masks ==> fd < anfds.Length)
    }

    // A watcher is in the list of its own fd, once, exactly while it is active.
    ghost predicate Attached()
      reads `anfds, anfds
    {
      && (forall fd {:trigger anfds[fd]} :: 0 <= fd < anfds.Length ==> AttachedTo(anfds[fd].head, fd))
    }

    ghost predicate AttachedTo(ws: seq<IoWatcher>, fd: nat) {
      && (forall w :: w in ws ==> w in registry && w.fd == fd)
      && (forall i, j :: 0 <= i < j < |ws| ==> ws[i] != ws[j])
    }

    ghost predicate Activity()
      reads `anfds, anfds, registry`active
    {
      forall w {:trigger w in registry} :: w in registry ==>
        (w.active != 0 <==> w.fd < anfds.Length && w in anfds[w.fd].head)
    }

    // What holds between any two calls, with the fds of `pending` still to be reified.
    ghost predicate Consistent(pending: seq<nat>)
      reads `anfds, anfds, backend, backend.polls, backend.pollidxs, registry
    {
      && backend.Valid()
      && Lists(pending) && Registered()
      && Attached() && Activity() && Synced()
    }

    ghost predicate Valid()
      reads this, anfds, backend, backend.polls, backend.pollidxs, registry
    {
      Consistent(fdchanges)
    }

    constructor (backend: PollBackend, queues: PendingQueues, ghost registry: set<IoWatcher>)
      requires backend.Valid() && backend.masks == map[]
      requires forall w :: w in registry ==> w.active == 0
      ensures Valid() && this.backend == backend && this.queues == queues && this.registry == registry
      ensures fdchanges == []
    {
      anfds := new Anfd[0];
      fdchanges := [];
      this.backend := backend;
      this.queues := queues;
      this.registry := registry;
    }

    /** fd_change: the flags are added, and an fd that had none is put on the list.  `first`
        says how much of the list fd_reify has already dealt with. */
    method FdChange(fd: nat, flags: Mask, ghost first: nat)
      requires first <= |fdchanges| && Lists(fdchanges[first..])
      requires fd < anfds.Length && flags != {}
      modifies `fdchanges, anfds
      ensures fdchanges == old(if anfds[fd].reify == {} then fdchanges + [fd] else fdchanges)
      ensures forall f {:trigger anfds[f]} :: 0 <= f < anfds.Length ==>
        anfds[f] == old(if f == fd then anfds[fd].(reify := anfds[fd].reify + flags) else anfds[f])
      ensures Lists(fdchanges[first..])
    {
      var reify := anfds[fd].reify;
      assert reify == {} ==> fd !in fdchanges[first..];
      anfds[fd] := anfds[fd].(reify := reify + flags);
      if reify == {} {
        fdchanges := fdchanges + [fd];
        assert fdchanges[first..] == old(fdchanges[first..]) + [fd];
      }
    }

    // The same call, when the state is consistent but for the fds on the list.
    method Reenter(calls: seq<Change>, ghost first: nat)
      requires first <= |fdchanges| && Consistent(fdchanges[first..])
      requires forall c :: c in calls ==> c.fd < anfds.Length && c.flags != {}
      modifies `fdchanges, anfds
      ensures old(fdchanges) <= fdchanges
      ensures Consistent(fdchanges[first..])
      ensures forall fd {:trigger anfds[fd]} :: 0 <= fd < anfds.Length ==> anfds[fd].head == old(anfds[fd].head)
      ensures calls == [] ==> fdchanges == old(fdchanges)
    {
      for i := 0 to |calls|
        invariant old(fdchanges) <= fdchanges && Consistent(fdchanges[first..])
        invariant forall fd {:trigger anfds[fd]} :: 0 <= fd < anfds.Length ==> anfds[fd].head == old(anfds[fd].head)
        invariant i == 0 ==> fdchanges == old(fdchanges)
      {
        FdChange(calls[i].fd, calls[i].flags, first);
      }
    }

    // The union that fd_reify computes.
    method UnionOf(ws: seq<IoWatcher>) returns (events: Mask)
      ensures events == Union(ws)
    {
      events := {};
      for i := 0 to |ws|
        invariant events + Union(ws[i..]) == Union(ws)
      {
        events := events + ws[i].events;
      }
    }

    /** One round of fd_reify: fd gets the mask its watchers ask for, and so does the backend. */
    method ReifyFd(fd: nat, ghost rest: seq<nat>) returns (modified: bool)
      requires Consistent([fd] + rest)
      modifies anfds, backend, backend.polls, backend.pollidxs
      ensures Consistent(rest)
      ensures forall f {:trigger anfds[f]} :: 0 <= f < anfds.Length ==> anfds[f].head == old(anfds[f].head)
      ensures backend.polls == old(backend.polls) || fresh(backend.polls)
      ensures backend.pollidxs == old(backend.pollidxs) || fresh(backend.pollidxs)
    {
      var o_events, events;
      o_events, events, modified := Record(fd, rest);
      if modified {
        backend.Modify(fd, o_events, events);
      }
    }

    // The union is recorded; the backend has yet to hear of it.
    method Record(fd: nat, ghost rest: seq<nat>) returns (o_events: Mask, events: Mask, modified: bool)
      requires Consistent([fd] + rest)
      modifies anfds
      ensures backend.Valid() && Lists(rest) && Attached() && Activity() && Synced() && fd < anfds.Length
      ensures anfds[fd].events == events && MaskOf(backend.masks, fd) == o_events && (!modified ==> o_events == events)
      ensures forall f {:trigger anfds[f]} :: 0 <= f < anfds.Length && f != fd ==> MaskOf(backend.masks, f) == anfds[f].events
      ensures forall f {:trigger f in backend.masks} :: f in backend.masks ==> f < anfds.Length
      ensures forall f {:trigger anfds[f]} :: 0 <= f < anfds.Length ==> anfds[f].head == old(anfds[f].head)
    {
      OthersListed(fd, rest);
      o_events := anfds[fd].events;
      var o_reify := anfds[fd].reify;
      events := UnionOf(anfds[fd].head);
      anfds[fd] := anfds[fd].(events := events, reify := {});
      if o_events != events {
        o_reify := EV__IOFDSET;
      }
      modified := EV__IOFDSET <= o_reify;
    }

    lemma OthersListed(fd: nat, rest: seq<nat>)
      requires Lists([fd] + rest)
      ensures fd < anfds.Length && fd !in rest
      ensures forall i, j :: 0 <= i < j < |rest| ==> rest[i] != rest[j]
      ensures forall f {:trigger f in rest} :: f in rest ==> f < anfds.Length && anfds[f].reify != {}
      ensures forall f {:trigger anfds[f]} :: 0 <= f < anfds.Length && anfds[f].reify != {} ==> f == fd || f in rest
    {
      assert fd in [fd] + rest;
      assert forall i :: 0 <= i < |rest| ==> ([fd] + rest)[i + 1] == rest[i];
      forall i | 0 <= i < |rest| ensures rest[i] != fd {
        assert ([fd] + rest)[0] != ([fd] + rest)[i + 1];
      }
      assert forall f {:trigger f in rest} :: f in rest ==> f in [fd] + rest;
    }

    /** fd_reify.  backend_modify may re-enter fd_change: its i-th call makes the calls
        reentry[i].  Afterwards the list holds exactly the fds that were changed meanwhile;
        if there are none, every fd's recorded mask is the union of its watchers' masks, and the
        backend has it. */
    method FdReify(reentry: seq<seq<Change>>)
      requires Valid()
      requires forall calls, c :: calls in reentry && c in calls ==> c.fd < anfds.Length && c.flags != {}
      modifies `fdchanges, anfds, backend, backend.polls, backend.pollidxs
      ensures Valid()
      ensures forall fd {:trigger anfds[fd]} :: 0 <= fd < anfds.Length ==> anfds[fd].head == old(anfds[fd].head)
      ensures reentry == [] ==>
        fdchanges == [] &&
        forall fd {:trigger anfds[fd]} :: 0 <= fd < anfds.Length ==>
          anfds[fd].events == Union(anfds[fd].head) && MaskOf(backend.masks, fd) == Union(anfds[fd].head)
    {
      var changecnt := |fdchanges|;
      var modifies' := 0;
      var i := 0;
      while i < changecnt
        invariant 0 <= i <= changecnt <= |fdchanges|
        invariant Consistent(fdchanges[i..])
        invariant forall fd {:trigger anfds[fd]} :: 0 <= fd < anfds.Length ==> anfds[fd].head == old(anfds[fd].head)
        invariant backend.polls == old(backend.polls) || fresh(backend.polls)
        invariant backend.pollidxs == old(backend.pollidxs) || fresh(backend.pollidxs)
        invariant reentry == [] ==> |fdchanges| == changecnt
      {
        assert fdchanges[i..] == [fdchanges[i]] + fdchanges[i + 1..];
        var modified := ReifyFd(fdchanges[i], fdchanges[i + 1..]);
        i := i + 1;
        if modified && modifies' < |reentry| {
          Reenter(reentry[modifies'], i);
          modifies' := modifies' + 1;
        }
      }
      fdchanges := fdchanges[changecnt..];
    }

    // array_needsize for anfds, with array_needsize_zerofill.
    method GrowAnfds(needed: nat)
      requires Valid()
      modifies `anfds
      ensures Valid() && needed <= anfds.Length
      ensures anfds == old(anfds) || fresh(anfds)
      ensures old(anfds.Length) <= anfds.Length
      ensures forall fd {:trigger anfds[fd]} :: 0 <= fd < anfds.Length ==>
        anfds[fd].head == if fd < old(anfds.Length) then old(anfds)[fd].head else []
    {
      if needed > anfds.Length {
        var size := ArrayGrowth.NextSize(SIZEOF_ANFD, anfds.Length, needed);
        var before := anfds;
        anfds := new Anfd[size](i reads before => if 0 <= i < before.Length then before[i] else NO_ANFD);
        assert forall fd :: 0 <= fd < anfds.Length ==> anfds[fd] == if fd < before.Length then before[fd] else NO_ANFD;
      }
    }

    /** ev_io_start: the watcher goes to the front of the list of its fd, which is then to
        be reified. */
    method IoStart(w: IoWatcher)
      requires Valid() && w in registry
      requires w.events <= EV_READ + EV_WRITE + EV__IOFDSET
      modifies `anfds, `fdchanges, anfds, w
      ensures Valid() && w.active != 0 && w.fd < anfds.Length
      ensures forall fd {:trigger anfds[fd]} :: 0 <= fd < anfds.Length ==>
        anfds[fd].head ==
          (if fd == w.fd && old(w.active) == 0 then [w] else []) +
          (if fd < old(anfds.Length) then old(anfds[..])[fd].head else [])
      ensures old(w.active) == 0 ==> w.fd in fdchanges && w.events == old(w.events) - EV__IOFDSET
    {
      if w.active != 0 {
        return;
      }
      GrowAnfds(w.fd + 1);
      Attach(w);
      ClearFdSet(w);
    }

    // The watcher enters the list of its fd ...
    method Attach(w: IoWatcher)
      requires Valid() && w in registry && w.active == 0 && w.fd < anfds.Length
      modifies `fdchanges, anfds, w`active
      ensures Valid() && w.active != 0 && w.fd in fdchanges
      ensures forall fd {:trigger anfds[fd]} :: 0 <= fd < anfds.Length ==>
        anfds[fd].head == (if fd == w.fd then [w] else []) + old(anfds[fd].head)
    {
      var fd := w.fd;
      assert AttachedTo(anfds[fd].head, fd);
      w.active := 1;
      anfds[fd] := anfds[fd].(head := [w] + anfds[fd].head);
      FdChange(fd, w.events * EV__IOFDSET + EV_ANFD_REIFY, 0);
    }

    // ... and loses EV__IOFDSET, while the fd still has to be reified.
    method ClearFdSet(w: IoWatcher)
      requires Valid() && w in registry && w.fd in fdchanges
      modifies w`events
      ensures Valid() && w.events == old(w.events) - EV__IOFDSET
    {
      w.events := w.events - EV__IOFDSET;
      forall fd | 0 <= fd < anfds.Length && anfds[fd].reify == {}
        ensures anfds[fd].events == Union(anfds[fd].head)
      {
        assert AttachedTo(anfds[fd].head, fd) && fd != w.fd;
        assert w !in anfds[fd].head;
        assert Union(anfds[fd].head) == old(Union(anfds[fd].head));
      }
    }

    /** ev_io_stop: the watcher is pending no more, and leaves the list of its fd, which is
        then to be reified. */
    method IoStop(w: IoWatcher)
      requires Valid() && w in registry && queues.Valid() && w.base in queues.registry
      modifies `fdchanges, anfds, w`active, queues`trace, queues`pendings, w.base`pending
      ensures Valid() && w.active == 0
      ensures forall fd {:trigger anfds[fd]} :: 0 <= fd < anfds.Length ==>
        w !in anfds[fd].head && IsWithout(anfds[fd].head, old(anfds[fd].head), w)
      ensures old(w.active) != 0 ==> w.fd in fdchanges
      ensures queues.Valid() && w.base.pending == 0
      ensures old(w.base.pending) != 0 ==> queues.trace == old(queues.trace) + [Cleared(w.base)]
      ensures old(w.base.pending) == 0 ==> queues.trace == old(queues.trace) && queues.pendings == old(queues.pendings)
    {
      queues.ClearPending(w.base);
      StopActive(w);
    }

    // ev_io_stop without the pending slot.
    method StopActive(w: IoWatcher)
      requires Valid() && w in registry
      modifies `fdchanges, anfds, w`active
      ensures Valid() && w.active == 0
      ensures forall fd {:trigger anfds[fd]} :: 0 <= fd < anfds.Length ==>
        w !in anfds[fd].head && IsWithout(anfds[fd].head, old(anfds[fd].head), w)
      ensures old(w.active) != 0 ==> w.fd in fdchanges
    {
      if w.active == 0 {
        assert forall fd {:trigger anfds[fd]} :: 0 <= fd < anfds.Length ==> AttachedTo(anfds[fd].head, fd);
        return;
      }
      Detach(w);
    }

    // The watcher leaves the list of its fd.
    method Detach(w: IoWatcher)
      requires Valid() && w in registry && w.active != 0
      modifies `fdchanges, anfds, w`active
      ensures Valid() && w.active == 0 && w.fd in fdchanges
      ensures forall fd {:trigger anfds[fd]} :: 0 <= fd < anfds.Length ==>
        w !in anfds[fd].head && IsWithout(anfds[fd].head, old(anfds[fd].head), w)
    {
      Unlink(w);
      FdChange(w.fd, EV_ANFD_REIFY, 0);
    }

    // The fd may be out of step with its list.
    method Unlink(w: IoWatcher)
      requires Valid() && w in registry && w.active != 0
      modifies anfds, w`active
      ensures backend.Valid() && Lists(fdchanges) && Registered() && Attached() && Activity()
      ensures w.active == 0 && w.fd < anfds.Length
      ensures forall fd {:trigger anfds[fd]} :: 0 <= fd < anfds.Length && fd != w.fd ==> SyncedAt(anfds[fd])
      ensures forall fd {:trigger anfds[fd]} :: 0 <= fd < anfds.Length ==>
        w !in anfds[fd].head && IsWithout(anfds[fd].head, old(anfds[fd].head), w)
    {
      var fd := w.fd;
      var head := WlistDel(anfds[fd].head, w);
      assert AttachedTo(anfds[fd].head, fd);
      anfds[fd] := anfds[fd].(head := head);
      w.active := 0;
    }
  }

  // ws' is ws without its first w.
  ghost predicate IsWithout(ws': seq<IoWatcher>, ws: seq<IoWatcher>, w: IoWatcher) {
    if w in ws then exists i :: 0 <= i < |ws| && ws[i] == w && w !in ws[..i] && ws' == ws[..i] + ws[i + 1..]
    else ws' == ws
  }

  /** wlist_del. */
  method WlistDel(ws: seq<IoWatcher>, w: IoWatcher) returns (ws': seq<IoWatcher>)
    ensures IsWithout(ws', ws, w)
  {
    var i := 0;
    while i < |ws|
      invariant 0 <= i <= |ws| && w !in ws[..i]
    {
      if ws[i] == w {
        return ws[..i] + ws[i + 1..];
      }
      i := i + 1;
    }
    assert ws == ws[..i];
    return ws;
  }
}
