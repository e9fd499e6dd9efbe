/** ev_timer watchers: starting, stopping and re-arming them, and timers_reify, which
    makes the overdue ones pending. */
module Timers {
  import opened Watchers
  import opened Heap4
  import opened Pending
  import ArrayGrowth

  const SIZEOF_ANHE := 16

  function Max(a: real, b: real): real {
    if a < b then b else a
  }

  // The events of feed_reverse_done: the watchers are fed last to first.
  ghost function Feeds(ws: seq<Watcher>): seq<Event> {
    seq(|ws|, i requires 0 <= i < |ws| => Fed(ws[|ws| - 1 - i], EV_TIMER))
  }

  // Only stops of some of ws have happened since.
  ghost predicate OnlyStops(before: seq<Event>, after: seq<Event>, ws: seq<Watcher>) {
    before <= after && forall i :: |before| <= i < |after| ==> after[i].Cleared? && after[i].w in ws
  }

  // Only stops of some of ws, and then the feeds of all of them, last to first.
  ghost predicate StopsThenFeeds(before: seq<Event>, after: seq<Event>, ws: seq<Watcher>) {
    && |ws| <= |after|
    && var mid := after[..|after| - |ws|];
       OnlyStops(before, mid, ws) && after == mid + Feeds(ws)
  }

  lemma StopsChain(a: seq<Event>, b: seq<Event>, c: seq<Event>, ws: seq<Watcher>, ws': seq<Watcher>)
    requires OnlyStops(a, b, ws) && OnlyStops(b, c, ws') && ws <= ws'
    ensures OnlyStops(a, c, ws')
  {
    assert forall i :: |a| <= i < |b| ==> c[i] == b[i];
    assert forall w :: w in ws ==> w in ws';
  }

  lemma StopsAndFeeds(before: seq<Event>, mid: seq<Event>, ws: seq<Watcher>)
    requires OnlyStops(before, mid, ws)
    ensures StopsThenFeeds(before, mid + Feeds(ws), ws)
  {
    assert (mid + Feeds(ws))[..|mid|] == mid;
  }

  ghost predicate Distinct(ws: seq<Watcher>) {
    forall i, j :: 0 <= i < j < |ws| ==> ws[i] != ws[j]
  }

  // The stacks after feeding watchers that are not pending, last to first.
  ghost function Stacked(stacks: seq<seq<Anpending>>, ws: seq<Watcher>): (r: seq<seq<Anpending>>)
    requires |stacks| == NUMPRI
    ensures |r| == NUMPRI
    decreases |ws|
  {
    if ws == [] then stacks else
      var w := ws[|ws| - 1];
      Stacked(stacks[w.priority := stacks[w.priority] + [Anpending(w, EV_TIMER)]], ws[..|ws| - 1])
  }

  // A call of ev_timer_start, ev_timer_stop or ev_timer_again, or the time going on.
  datatype Call = Start(w: Watcher) | Stop(w: Watcher) | Again(w: Watcher) | Elapse(now: real)

  // The timers that run after the calls.
  ghost function StartedBy(before: set<Watcher>, calls: seq<Call>, repeating: set<Watcher>): set<Watcher> {
    if calls == [] then before
    else
      StartedAfter(StartedBy(before, calls[..|calls| - 1], repeating), calls[|calls| - 1], repeating)
  }

  function StartedAfter(started: set<Watcher>, call: Call, repeating: set<Watcher>): set<Watcher> {
    match call
    case Start(w) => started + {w}
    case Stop(w) => started - {w}
    case Again(w) => if w in repeating then started + {w} else started - {w}
    case Elapse(_) => started
  }

  class TimerLoop {
    var timers: array<Anhe>
    var timercnt: nat
    var mn_now: real
    var rfeeds: seq<Watcher>
    const queues: PendingQueues
    ghost var started: set<Watcher>

    // verify_heap, and: exactly the started watchers are active.
    ghost predicate TimersOk()
      reads `timers, `timercnt, `started, timers
      reads queues.registry`active, queues.registry`at, queues.registry`repeat
    {
      && started <= queues.registry
      && ValidHeap(timers, timercnt, started)
      && (forall w {:trigger w in queues.registry} :: w in queues.registry ==>
            (w.active != 0 <==> w in started) && w.repeat >= 0.0)
    }

    ghost predicate Valid()
      reads `timers, `timercnt, `started, timers, queues, queues.registry, queues.pending_w`pending
    {
      queues.Valid() && TimersOk()
    }

    constructor (queues: PendingQueues)
      requires queues.Valid()
      requires forall w :: w in queues.registry ==> w.active == 0 && w.repeat >= 0.0
      ensures Valid() && this.queues == queues && started == {} && rfeeds == []
    {
      timers := new Anhe[HEAP0](_ => Anhe(0.0, queues.pending_w));
      timercnt := 0;
      mn_now := 0.0;
      rfeeds := [];
      this.queues := queues;
      started := {};
    }

    // array_needsize for the timer array; `he` stands for uninitialised slots.
    method GrowTimers(needed: int, he: Anhe)
      requires TimersOk()
      modifies `timers
      ensures TimersOk() && needed <= timers.Length
      ensures timers == old(timers) || fresh(timers)
    {
      if needed > timers.Length {
        var size := ArrayGrowth.NextSize(SIZEOF_ANHE, timers.Length, needed);
        var before := timers;
        timers := new Anhe[size](i reads before => if 0 <= i < before.Length then before[i] else he);
        SameHeap(before, timers, timercnt, started);
      }
    }

    /** ev_timer_start: the relative time in `at` becomes a deadline. */
    method TimerStart(w: Watcher)
      requires Valid() && w in queues.registry
      modifies `timers, `timercnt, `started, timers, queues.registry`active, w`at
      ensures Valid()
      ensures started == old(started) + {w}
      ensures w.at == old(if w in started then w.at else w.at + mn_now)
      ensures timers == old(timers) || fresh(timers)
    {
      if w.active != 0 {
        return;
      }
      StartInactive(w);
    }

    method StartInactive(w: Watcher)
      requires TimersOk() && w in queues.registry && w !in started
      modifies `timers, `timercnt, `started, timers, queues.registry`active, w`at
      ensures TimersOk() && started == old(started) + {w}
      ensures w.at == old(w.at) + mn_now
      ensures timers == old(timers) || fresh(timers)
    {
      w.at := w.at + mn_now;
      AddLast(w);
    }

    // A watcher with its deadline set enters the heap.
    method AddLast(w: Watcher)
      requires TimersOk() && w in queues.registry && w !in started
      modifies `timers, `timercnt, `started, timers, queues.registry`active
      ensures TimersOk() && started == old(started) + {w}
      ensures timers == old(timers) || fresh(timers)
    {
      GrowTimers(timercnt + HEAP0 + 1, Anhe(w.at, w));
      Insert(timers, timercnt, w, started);
      timercnt := timercnt + 1;
      started := started + {w};
    }

    /** ev_timer_stop: what was left of a running timer stays in `at`. */
    method TimerStop(w: Watcher)
      requires Valid() && w in queues.registry
      modifies `timercnt, `started, timers, queues.registry`active, w`at, queues`pendings, queues`trace, w`pending
      ensures Valid() && w.pending == 0
      ensures started == old(started) - {w}
      ensures w.at == old(if w in started then w.at - mn_now else w.at)
      ensures old(w.pending) != 0 ==> queues.trace == old(queues.trace) + [Cleared(w)]
      ensures old(w.pending) == 0 ==> queues.trace == old(queues.trace) && queues.pendings == old(queues.pendings)
    {
      queues.ClearPending(w);
      StopActive(w);
    }

    // ev_timer_stop without the pending slot.
    method StopActive(w: Watcher)
      requires TimersOk() && w in queues.registry
      modifies `timercnt, `started, timers, queues.registry`active, w`at
      ensures TimersOk() && started == old(started) - {w}
      ensures w.at == old(if w in started then w.at - mn_now else w.at)
    {
      if w.active == 0 {
        return;
      }
      TakeOut(w);
      w.at := w.at - mn_now;
    }

    method TakeOut(w: Watcher)
      requires TimersOk() && w in started
      modifies `timercnt, `started, timers, queues.registry`active
      ensures TimersOk() && started == old(started) - {w}
    {
      timercnt := timercnt - 1;
      Remove(timers, timercnt, w, started);
      started := started - {w};
      w.active := 0;
    }

    /** ev_timer_again: whatever the timer did before, afterwards it runs exactly if it
        repeats, and then fires one period from now. */
    method TimerAgain(w: Watcher)
      requires Valid() && w in queues.registry
      modifies `timers, `timercnt, `started, timers, queues.registry`active, w`at, queues`pendings, queues`trace, w`pending
      ensures Valid() && w.pending == 0
      ensures started == if w.repeat != 0.0 then old(started) + {w} else old(started) - {w}
      ensures w.repeat != 0.0 ==> w.at == mn_now + w.repeat
      ensures w.repeat == 0.0 ==> w.at == old(if w in started then w.at - mn_now else w.at)
      ensures old(w.pending) != 0 ==> queues.trace == old(queues.trace) + [Cleared(w)]
      ensures old(w.pending) == 0 ==> queues.trace == old(queues.trace)
      ensures timers == old(timers) || fresh(timers)
    {
      queues.ClearPending(w);
      Rearm(w);
    }

    // The rest of ev_timer_again; nothing is left for ev_timer_stop to clear.
    method Rearm(w: Watcher)
      requires TimersOk() && w in queues.registry
      modifies `timers, `timercnt, `started, timers, queues.registry`active, w`at
      ensures TimersOk()
      ensures started == if w.repeat != 0.0 then old(started) + {w} else old(started) - {w}
      ensures w.repeat != 0.0 ==> w.at == mn_now + w.repeat
      ensures w.repeat == 0.0 ==> w.at == old(if w in started then w.at - mn_now else w.at)
      ensures timers == old(timers) || fresh(timers)
    {
      if w.active != 0 {
        if w.repeat != 0.0 {
          ReKey(timers, timercnt, w, mn_now + w.repeat, started);
        } else {
          StopActive(w);
        }
      } else if w.repeat != 0.0 {
        w.at := w.repeat;
        StartInactive(w);
      }
    }

    /** Any sequence of calls, at any times: the heap stays in order and holds exactly the
        timers that were started and not stopped since, each at its own slot. */
    method Run(calls: seq<Call>)
      requires Valid() && forall i :: 0 <= i < |calls| && !calls[i].Elapse? ==> calls[i].w in queues.registry
      modifies `timers, `timercnt, `started, `mn_now, timers, queues.registry`active, queues.registry`at
      modifies queues`pendings, queues`trace, queues.registry`pending
      ensures Valid() && started == StartedBy(old(started), calls, Repeating())
    {
      for i := 0 to |calls|
        invariant Valid() && started == StartedBy(old(started), calls[..i], Repeating())
        invariant timers == old(timers) || fresh(timers)
      {
        assert calls[..i + 1][..i] == calls[..i];
        RunCall(calls[i]);
      }
      assert calls[..|calls|] == calls;
    }

    method RunCall(call: Call)
      requires Valid() && (!call.Elapse? ==> call.w in queues.registry)
      modifies `timers, `timercnt, `started, `mn_now, timers, queues.registry`active, queues.registry`at
      modifies queues`pendings, queues`trace, queues.registry`pending
      ensures Valid() && started == StartedAfter(old(started), call, Repeating())
      ensures timers == old(timers) || fresh(timers)
    {
      match call {
        case Start(w) => TimerStart(w);
        case Stop(w) => TimerStop(w);
        case Again(w) => TimerAgain(w);
        case Elapse(now) => mn_now := now;
      }
    }

    ghost function Repeating(): set<Watcher>
      reads queues.registry`repeat
    {
      set w | w in queues.registry && w.repeat != 0.0
    }

    /** One round of timers_reify: the root, which is overdue and the earliest of all, is
        rescheduled if it repeats and stopped if not. */
    method ReifyRoot() returns (w: Watcher)
      requires Valid() && timercnt > 0 && timers[HEAP0].at < mn_now
      modifies `timercnt, `started, `rfeeds, timers, queues.registry`active, timers[HEAP0].w`at
      modifies queues`pendings, queues`trace, timers[HEAP0].w`pending
      ensures Valid()
      ensures w == old(timers[HEAP0].w) && w in old(started) && old(w.at) < mn_now
      ensures forall v :: v in old(started) ==> old(w.at) <= old(v.at)
      ensures rfeeds == old(rfeeds) + [w]
      ensures w.repeat != 0.0 ==> started == old(started) && w.at == Max(old(w.at) + w.repeat, mn_now)
      ensures w.repeat == 0.0 ==> started == old(started) - {w}
      ensures old(w.pending) == 0 ==>
                w.pending == 0 && queues.trace == old(queues.trace) && queues.pendings == old(queues.pendings)
      ensures queues.trace == old(queues.trace) || queues.trace == old(queues.trace) + [Cleared(w)]
    {
      w := timers[HEAP0].w;
      EarliestStarted();
      if w.repeat != 0.0 {
        Reschedule(w);
      } else {
        TimerStop(w);
      }
      rfeeds := rfeeds + [w];
    }

    lemma EarliestStarted()
      requires TimersOk() && timercnt > 0
      ensures var w := timers[HEAP0].w;
              && w in started && timers[HEAP0].at == w.at
              && forall v :: v in started ==> w.at <= v.at
    {
      var w := timers[HEAP0].w;
      assert timers[w.active] == Anhe(w.at, w);
      forall v | v in started ensures w.at <= v.at {
        RootIsEarliest(timers[..], timercnt, v.active);
        assert timers[v.active] == Anhe(v.at, v);
      }
    }

    // The next deadline of the repeating timer w at the root; missed periods are skipped.
    method Reschedule(w: Watcher)
      requires TimersOk() && timercnt > 0 && timers[HEAP0].w == w && w in started
      modifies timers, queues.registry`active, w`at
      ensures TimersOk() && w.at == Max(old(w.at) + w.repeat, mn_now)
    {
      OrderedIsOrderedAround(timers[..], timercnt, HEAP0);
      w.at := w.at + w.repeat;
      if w.at < mn_now {
        w.at := mn_now;
      }
      timers[HEAP0] := Anhe(w.at, w);
      DownHeap(timers, timercnt, HEAP0, started);
    }

    ghost function Deadlines(): (at: map<Watcher, real>)
      reads queues.registry`at
      ensures at.Keys == queues.registry
    {
      map v | v in queues.registry :: v.at
    }

    // How far timers_reify is: `fed`, the first of the started timers s0 by their deadlines
    // at0, have been handled, and the others are as they were.
    ghost predicate Reified(fed: seq<Watcher>, s0: set<Watcher>, at0: map<Watcher, real>)
      requires s0 <= queues.registry && at0.Keys == queues.registry
      reads `started, `mn_now, queues.registry`at, queues.registry`repeat
    {
      && (forall i :: 0 <= i < |fed| ==> fed[i] in s0 && at0[fed[i]] < mn_now)
      && Distinct(fed)
      && (forall i, j :: 0 <= i < j < |fed| ==> at0[fed[i]] <= at0[fed[j]])
      && (forall v {:trigger v in queues.registry} :: v in queues.registry ==>
            if v in fed then
              (v in started <==> v.repeat != 0.0) && (v in started ==> v.at == Max(at0[v] + v.repeat, mn_now))
            else
              (v in started <==> v in s0) && v.at == at0[v])
      && (forall v {:trigger v in s0} :: v in s0 && v !in fed ==>
            forall i :: 0 <= i < |fed| ==> at0[fed[i]] <= at0[v])
    }

    // One round of the loop keeps Reified.
    method ReifyNext(ghost s0: set<Watcher>, ghost at0: map<Watcher, real>)
      requires Valid() && timercnt > 0 && timers[HEAP0].at < mn_now
      requires s0 <= queues.registry && at0.Keys == queues.registry && Reified(rfeeds, s0, at0)
      modifies `timercnt, `started, `rfeeds, timers, queues.registry`active, queues.registry`at
      modifies queues`pendings, queues`trace, queues.registry`pending
      ensures Valid() && Reified(rfeeds, s0, at0)
      ensures |rfeeds| == |old(rfeeds)| + 1 && old(rfeeds) <= rfeeds
      ensures old(NonePending()) ==> NonePending() && queues.trace == old(queues.trace) && queues.pendings == old(queues.pendings)
      ensures OnlyStops(old(queues.trace), queues.trace, rfeeds)
    {
      ghost var w := ReifyOne(s0, at0);
    }

    method ReifyOne(ghost s0: set<Watcher>, ghost at0: map<Watcher, real>) returns (ghost w: Watcher)
      requires Valid() && timercnt > 0 && timers[HEAP0].at < mn_now
      requires s0 <= queues.registry && at0.Keys == queues.registry && Reified(rfeeds, s0, at0)
      modifies `timercnt, `started, `rfeeds, timers, queues.registry`active, queues.registry`at
      modifies queues`pendings, queues`trace, queues.registry`pending
      ensures Valid() && Reified(rfeeds, s0, at0) && rfeeds == old(rfeeds) + [w]
      ensures old(NonePending()) ==> NonePending() && queues.trace == old(queues.trace) && queues.pendings == old(queues.pendings)
      ensures queues.trace == old(queues.trace) || queues.trace == old(queues.trace) + [Cleared(w)]
    {
      EarliestStarted();
      w := ReifyRoot();
      assert w !in old(rfeeds);
    }

    ghost predicate NonePending()
      reads queues, queues.registry`pending
    {
      forall v {:trigger v in queues.registry} :: v in queues.registry ==> v.pending == 0
    }

    ghost predicate NotPending(ws: seq<Watcher>)
      reads ws`pending
    {
      forall i :: 0 <= i < |ws| ==> ws[i].pending == 0
    }

    // One round of feed_reverse_done.
    method FeedLast()
      requires queues.Valid() && rfeeds != []
      requires forall i :: 0 <= i < |rfeeds| ==> rfeeds[i] in queues.registry
      modifies `rfeeds, queues, queues.registry`pending
      ensures queues.Valid() && rfeeds == old(rfeeds)[..|old(rfeeds)| - 1]
      ensures queues.trace + Feeds(rfeeds) == old(queues.trace + Feeds(rfeeds))
      ensures old(NotPending(rfeeds) && Distinct(rfeeds)) ==>
                NotPending(rfeeds) && Stacked(queues.pendings, rfeeds) == old(Stacked(queues.pendings, rfeeds))
    {
      var w := rfeeds[|rfeeds| - 1];
      FeedsLast(rfeeds);
      rfeeds := rfeeds[..|rfeeds| - 1];
      queues.FeedEvent(w, EV_TIMER);
    }

    /** feed_reverse_done. */
    method FeedReverseDone()
      requires Valid() && rfeeds != []
      requires forall i :: 0 <= i < |rfeeds| ==> rfeeds[i] in queues.registry
      modifies `rfeeds, queues, queues.registry`pending
      ensures Valid() && rfeeds == []
      ensures queues.trace == old(queues.trace) + Feeds(old(rfeeds))
      ensures old(NonePending() && Distinct(rfeeds)) ==>
                queues.pendings == Stacked(old(queues.pendings), old(rfeeds))
    {
      ghost var events := queues.trace + Feeds(rfeeds);
      ghost var stacks := Stacked(queues.pendings, rfeeds);
      while true
        invariant Valid() && rfeeds != [] && rfeeds <= old(rfeeds)
        invariant queues.trace + Feeds(rfeeds) == events
        invariant old(NonePending() && Distinct(rfeeds)) ==>
          NotPending(rfeeds) && Stacked(queues.pendings, rfeeds) == stacks
        decreases |rfeeds|
      {
        FeedLast();
        if rfeeds == [] {
          break;
        }
      }
      assert Feeds([]) == [];
    }

    /** timers_reify: exactly the timers overdue at mn_now are fed, each once, later
        deadlines first; those that repeat are rescheduled, the others stopped, and none is
        overdue any more. */
    method TimersReify() returns (ghost fed: seq<Watcher>)
      requires Valid() && rfeeds == []
      modifies `timercnt, `started, `rfeeds, timers, queues.registry`active, queues.registry`at
      modifies queues, queues.registry`pending
      ensures Valid() && rfeeds == []
      ensures NothingOverdue()
      ensures Reified(fed, old(started), old(Deadlines()))
      ensures forall v {:trigger v in old(started)} :: v in old(started) ==> (v in fed <==> old(v.at) < mn_now)
      ensures StopsThenFeeds(old(queues.trace), queues.trace, fed)
      ensures old(NonePending()) ==>
                && queues.trace == old(queues.trace) + Feeds(fed)
                && queues.pendings == Stacked(old(queues.pendings), fed)
    {
      if timercnt > 0 && timers[HEAP0].at < mn_now {
        fed := ReifyOverdue();
      } else {
        fed := [];
        NoneOverdue();
        assert queues.trace == queues.trace[..|queues.trace|] + Feeds(fed);
      }
    }

    // timers_reify when the root is overdue.
    method ReifyOverdue() returns (ghost fed: seq<Watcher>)
      requires Valid() && rfeeds == [] && timercnt > 0 && timers[HEAP0].at < mn_now
      modifies `timercnt, `started, `rfeeds, timers, queues.registry`active, queues.registry`at
      modifies queues, queues.registry`pending
      ensures Valid() && rfeeds == []
      ensures NothingOverdue()
      ensures Reified(fed, old(started), old(Deadlines()))
      ensures forall v {:trigger v in old(started)} :: v in old(started) ==> (v in fed <==> old(v.at) < mn_now)
      ensures StopsThenFeeds(old(queues.trace), queues.trace, fed)
      ensures old(NonePending()) ==>
                && queues.trace == old(queues.trace) + Feeds(fed)
                && queues.pendings == Stacked(old(queues.pendings), fed)
    {
      ghost var at0, s0 := Deadlines(), started;
      ReifyAll(s0, at0);
      ghost var mid := queues.trace;
      fed := FeedAll(s0, at0);
      StopsAndFeeds(old(queues.trace), mid, fed);
    }

    // Feeding changes nothing else.
    method FeedAll(ghost s0: set<Watcher>, ghost at0: map<Watcher, real>) returns (ghost fed: seq<Watcher>)
      requires Valid() && s0 <= queues.registry && at0.Keys == queues.registry && Reified(rfeeds, s0, at0) && rfeeds != []
      requires NothingOverdue()
      modifies `rfeeds, queues, queues.registry`pending
      ensures Valid() && rfeeds == [] && fed == old(rfeeds)
      ensures NothingOverdue() && Reified(fed, s0, at0)
      ensures queues.trace == old(queues.trace) + Feeds(fed)
      ensures old(NonePending()) ==> queues.pendings == Stacked(old(queues.pendings), fed)
    {
      fed := rfeeds;
      FeedReverseDone();
    }

    lemma FedAreOverdue(fed: seq<Watcher>, s0: set<Watcher>, at0: map<Watcher, real>)
      requires s0 <= queues.registry && at0.Keys == queues.registry && Reified(fed, s0, at0) && NothingOverdue()
      ensures forall v {:trigger v in s0} :: v in s0 ==> (v in fed <==> at0[v] < mn_now)
    {
      forall v | v in s0 && v !in fed ensures at0[v] >= mn_now {
        assert v in queues.registry && v in started;
      }
    }

    // The loop of timers_reify.
    method ReifyAll(ghost s0: set<Watcher>, ghost at0: map<Watcher, real>)
      requires Valid() && rfeeds == [] && timercnt > 0 && timers[HEAP0].at < mn_now
      requires s0 == started && at0 == Deadlines()
      modifies `timercnt, `started, `rfeeds, timers, queues.registry`active, queues.registry`at
      modifies queues`pendings, queues`trace, queues.registry`pending
      ensures Valid() && Reified(rfeeds, s0, at0) && rfeeds != []
      ensures NothingOverdue()
      ensures forall v {:trigger v in s0} :: v in s0 ==> (v in rfeeds <==> at0[v] < mn_now)
      ensures old(NonePending()) ==>
                NonePending() && queues.trace == old(queues.trace) && queues.pendings == old(queues.pendings)
      ensures OnlyStops(old(queues.trace), queues.trace, rfeeds)
    {
      while timercnt > 0 && timers[HEAP0].at < mn_now
        invariant Valid() && Reified(rfeeds, s0, at0)
        invariant OnlyStops(old(queues.trace), queues.trace, rfeeds)
        invariant rfeeds == [] ==> timercnt > 0 && timers[HEAP0].at < mn_now
        invariant old(NonePending()) ==>
          NonePending() && queues.trace == old(queues.trace) && queues.pendings == old(queues.pendings)
        decreases |s0| - |rfeeds|
      {
        ghost var trace, fed := queues.trace, rfeeds;
        ReifyNext(s0, at0);
        StopsChain(old(queues.trace), trace, queues.trace, fed, rfeeds);
        FedAtMost(rfeeds, s0, at0);
      }
      NoneOverdue();
      FedAreOverdue(rfeeds, s0, at0);
    }

    /** timers_reify followed by ev_invoke_pending, with nothing pending before and callbacks
        that leave the queues alone: exactly the overdue timers run, each once, and among
        timers of equal priority the earlier deadline runs first. */
    method RunTimers() returns (ghost ran: seq<Event>)
      requires Valid() && rfeeds == [] && queues.EmptyAbove(-1)
      modifies `timercnt, `started, `rfeeds, timers, queues.registry`active, queues.registry`at
      modifies queues, queues.registry`pending, queues.pending_w`pending
      ensures Valid() && NothingOverdue() && queues.EmptyAbove(-1)
      ensures exists fed :: queues.trace == old(queues.trace) + Feeds(fed) + ran
      ensures InDeadlineOrder(ran, old(Deadlines()))
      ensures forall i, j :: 0 <= i < j < |ran| ==> ran[i].w != ran[j].w
      ensures Targets(ran) == old(Overdue())
    {
      ghost var trace0, stacks0, at0, dummy := queues.trace, queues.pendings, Deadlines(), queues.pending_w;
      queues.Quiet();
      ghost var fed := TimersReify();
      ran := DrainOrder(queues.pendings, NUMPRI, dummy);
      var _ := queues.InvokePending([], 0);
      RunOrder(trace0, fed, stacks0, at0, dummy);
      assert forall v :: v in fed <==> v in old(Overdue());
    }

    ghost function Overdue(): set<Watcher>
      reads `started, `mn_now, started`at
    {
      set v | v in started && v.at < mn_now
    }

    // Distinct started watchers are at most all of them.
    lemma FedAtMost(fed: seq<Watcher>, s0: set<Watcher>, at0: map<Watcher, real>)
      requires s0 <= queues.registry && at0.Keys == queues.registry && Reified(fed, s0, at0)
      ensures |fed| <= |s0|
    {
      CardinalityOfDistinct(fed, s0);
    }

    ghost predicate NothingOverdue()
      reads `started, `mn_now, started`at
    {
      forall v {:trigger v in started} :: v in started ==> v.at >= mn_now
    }

    lemma NoneOverdue()
      requires TimersOk() && (timercnt == 0 || timers[HEAP0].at >= mn_now)
      ensures NothingOverdue()
    {
      if timercnt > 0 {
        EarliestStarted();
      }
    }
  }

  // Every slot holds a watcher of its stack's priority, later deadlines below.
  ghost predicate Descending(stacks: seq<seq<Anpending>>, at: map<Watcher, real>, dummy: Watcher) {
    && |stacks| == NUMPRI
    && (forall p, i :: 0 <= p < NUMPRI && 0 <= i < |stacks[p]| ==>
          stacks[p][i].w.priority == p && stacks[p][i].w != dummy && stacks[p][i].w in at)
    && (forall p, i, j :: 0 <= p < NUMPRI && 0 <= i < j < |stacks[p]| ==>
          at[stacks[p][i].w] >= at[stacks[p][j].w])
  }

  // No slot has an earlier deadline than w.
  ghost predicate AllAfter(stacks: seq<seq<Anpending>>, at: map<Watcher, real>, w: Watcher)
    requires w in at
  {
    forall p, i :: 0 <= p < |stacks| && 0 <= i < |stacks[p]| ==>
      stacks[p][i].w in at && at[stacks[p][i].w] >= at[w]
  }

  // Feeding earlier and earlier watchers keeps the stacks descending.
  lemma {:induction false} StackedDescending(stacks: seq<seq<Anpending>>, ws: seq<Watcher>, at: map<Watcher, real>, dummy: Watcher)
    requires Descending(stacks, at, dummy)
    requires forall i :: 0 <= i < |ws| ==> ws[i] in at && ws[i] != dummy && AllAfter(stacks, at, ws[i])
    requires forall i, j :: 0 <= i < j < |ws| ==> at[ws[i]] <= at[ws[j]]
    ensures Descending(Stacked(stacks, ws), at, dummy)
    decreases |ws|
  {
    if ws != [] {
      var w := ws[|ws| - 1];
      var stacks' := stacks[w.priority := stacks[w.priority] + [Anpending(w, EV_TIMER)]];
      assert AllAfter(stacks, at, w);
      forall i | 0 <= i < |ws| - 1 ensures AllAfter(stacks', at, ws[i]) {
        assert AllAfter(stacks, at, ws[i]);
      }
      StackedDescending(stacks', ws[..|ws| - 1], at, dummy);
    }
  }

  // Deliveries only, and those of equal priority by non-decreasing deadline.
  ghost predicate InDeadlineOrder(ran: seq<Event>, at: map<Watcher, real>) {
    && (forall i :: 0 <= i < |ran| ==> ran[i].Invoked? && ran[i].w in at)
    && (forall i, j :: 0 <= i < j < |ran| && ran[i].w.priority == ran[j].w.priority ==>
          at[ran[i].w] <= at[ran[j].w])
  }

  // The deliveries of the n lowest stacks, none before the top of its stack.
  ghost predicate FromStacks(ran: seq<Event>, stacks: seq<seq<Anpending>>, n: nat, at: map<Watcher, real>, dummy: Watcher)
    requires Descending(stacks, at, dummy) && n <= NUMPRI
  {
    forall i :: 0 <= i < |ran| ==>
      && ran[i].w.priority < n
      && ran[i].w in at
      && stacks[ran[i].w.priority] != []
      && at[Top(stacks[ran[i].w.priority]).w] <= at[ran[i].w]
  }

  function Top(stack: seq<Anpending>): Anpending
    requires stack != []
  {
    stack[|stack| - 1]
  }

  lemma PopDescending(stacks: seq<seq<Anpending>>, p: nat, at: map<Watcher, real>, dummy: Watcher)
    requires Descending(stacks, at, dummy) && p < NUMPRI && stacks[p] != []
    ensures var stacks' := stacks[p := stacks[p][..|stacks[p]| - 1]];
            && Descending(stacks', at, dummy)
            && (stacks'[p] != [] ==> at[Top(stacks[p]).w] <= at[Top(stacks'[p]).w])
  {
  }

  // A delivery from the top of the highest stack goes before all others.
  lemma DeadlineOrderCons(stacks: seq<seq<Anpending>>, n: nat, ran: seq<Event>, at: map<Watcher, real>, dummy: Watcher)
    requires Descending(stacks, at, dummy) && 0 < n <= NUMPRI && stacks[n - 1] != []
    requires var stacks' := stacks[n - 1 := stacks[n - 1][..|stacks[n - 1]| - 1]];
             Descending(stacks', at, dummy) && FromStacks(ran, stacks', n, at, dummy)
    requires InDeadlineOrder(ran, at)
    ensures var top := Top(stacks[n - 1]);
            var ran' := [Invoked(top.w, top.events)] + ran;
            InDeadlineOrder(ran', at) && FromStacks(ran', stacks, n, at, dummy)
  {
    PopDescending(stacks, n - 1, at, dummy);
    var top := Top(stacks[n - 1]);
    var stacks' := stacks[n - 1 := stacks[n - 1][..|stacks[n - 1]| - 1]];
    forall i | 0 <= i < |ran|
      ensures stacks[ran[i].w.priority] != [] && at[Top(stacks[ran[i].w.priority]).w] <= at[ran[i].w]
    {
      var p := ran[i].w.priority;
      assert at[Top(stacks'[p]).w] <= at[ran[i].w];
    }
    assert top.w.priority == n - 1;
  }

  lemma {:induction false} DrainInDeadlineOrder(stacks: seq<seq<Anpending>>, n: nat, at: map<Watcher, real>, dummy: Watcher)
    requires Descending(stacks, at, dummy) && n <= NUMPRI
    ensures InDeadlineOrder(DrainOrder(stacks, n, dummy), at)
    ensures FromStacks(DrainOrder(stacks, n, dummy), stacks, n, at, dummy)
    decreases n, if n == 0 then 0 else |stacks[n - 1]|
  {
    if n > 0 {
      if stacks[n - 1] == [] {
        DrainInDeadlineOrder(stacks, n - 1, at, dummy);
      } else {
        var rest := stacks[n - 1 := stacks[n - 1][..|stacks[n - 1]| - 1]];
        PopDescending(stacks, n - 1, at, dummy);
        DrainInDeadlineOrder(rest, n, at, dummy);
        DeadlineOrderCons(stacks, n, DrainOrder(rest, n, dummy), at, dummy);
      }
    }
  }

  // What is fed and then delivered, with nothing else happening, is delivered once each.
  lemma RanOnce(pre: seq<Event>, ran: seq<Event>)
    requires Legal(pre + ran)
    requires forall i :: 0 <= i < |ran| ==> ran[i].Invoked?
    ensures forall i, j :: 0 <= i < j < |ran| ==> ran[i].w != ran[j].w
  {
    var all := pre + ran;
    forall i, j | 0 <= i < j < |ran| ensures ran[i].w != ran[j].w {
      assert forall k :: 0 <= k < |ran| ==> all[|pre| + k] == ran[k];
      forall k | |pre| + i < k < |pre| + j ensures !all[k].Fed? {
        assert all[k] == ran[k - |pre|];
      }
      if ran[i].w == ran[j].w {
        NothingOwedUntilFed(all, |pre| + i, |pre| + j);
      }
    }
  }

  lemma FedIsDelivered(trace: seq<Event>, fed: seq<Watcher>, ran: seq<Event>, f: nat)
    requires Legal(trace + Feeds(fed) + ran) && Owed(trace + Feeds(fed) + ran) == map[]
    requires f < |fed|
    ensures exists i :: 0 <= i < |ran| && ran[i].w == fed[f]
  {
    var pre, all := trace + Feeds(fed), trace + Feeds(fed) + ran;
    var i := |trace| + |fed| - 1 - f;
    FeedsAreFed(trace, fed, ran, i);
    DeliveredOnce(all, i);
    var j :| i < j < |all| && SettledBy(all, i, j);
    FeedsAreFed(trace, fed, ran, j);
    assert j >= |pre|;
    assert all[j] == ran[j - |pre|];
  }

  lemma FeedsAreFed(trace: seq<Event>, fed: seq<Watcher>, ran: seq<Event>, k: nat)
    requires |trace| <= k < |trace| + |fed| + |ran|
    ensures k < |trace| + |fed| ==>
              (trace + Feeds(fed) + ran)[k] == Fed(fed[|trace| + |fed| - 1 - k], EV_TIMER)
  {
    if k < |trace| + |fed| {
      assert (trace + Feeds(fed) + ran)[k] == (trace + Feeds(fed))[k] == Feeds(fed)[k - |trace|];
    }
  }

  // Only what was fed is delivered.
  lemma DeliveredWasFed(trace: seq<Event>, fed: seq<Watcher>, ran: seq<Event>, i: nat)
    requires Owed(trace) == map[] && Legal(trace + Feeds(fed) + ran)
    requires forall k :: 0 <= k < |ran| ==> ran[k].Invoked?
    requires i < |ran|
    ensures ran[i].w in fed
  {
    var pre, all := trace + Feeds(fed), trace + Feeds(fed) + ran;
    assert all[|pre| + i] == ran[i] && LegalAt(all, |pre| + i);
    assert all[..|pre| + i] == pre + ran[..i];
    OwedByFeeds(trace, fed);
    OwedShrinks(pre, ran[..i]);
  }

  lemma RanExactly(trace: seq<Event>, fed: seq<Watcher>, ran: seq<Event>)
    requires Owed(trace) == map[]
    requires Legal(trace + Feeds(fed) + ran) && Owed(trace + Feeds(fed) + ran) == map[]
    requires forall i :: 0 <= i < |ran| ==> ran[i].Invoked?
    ensures Targets(ran) == (set w | w in fed)
  {
    forall w | w in fed ensures w in Targets(ran) {
      var f :| 0 <= f < |fed| && fed[f] == w;
      FedIsDelivered(trace, fed, ran, f);
    }
    forall i | 0 <= i < |ran| ensures ran[i].w in fed {
      DeliveredWasFed(trace, fed, ran, i);
    }
  }

  lemma RunOrder(trace: seq<Event>, fed: seq<Watcher>, stacks: seq<seq<Anpending>>, at: map<Watcher, real>, dummy: Watcher)
    requires stacks == seq(NUMPRI, _ => []) && Owed(trace) == map[]
    requires forall i :: 0 <= i < |fed| ==> fed[i] in at && fed[i] != dummy
    requires forall i, j :: 0 <= i < j < |fed| ==> at[fed[i]] <= at[fed[j]]
    requires var all := trace + Feeds(fed) + DrainOrder(Stacked(stacks, fed), NUMPRI, dummy);
             Legal(all) && Owed(all) == map[]
    ensures var ran := DrainOrder(Stacked(stacks, fed), NUMPRI, dummy);
            && InDeadlineOrder(ran, at)
            && (forall i, j :: 0 <= i < j < |ran| ==> ran[i].w != ran[j].w)
            && Targets(ran) == (set w | w in fed)
  {
    var ran := DrainOrder(Stacked(stacks, fed), NUMPRI, dummy);
    StackedDescending(stacks, fed, at, dummy);
    DrainInDeadlineOrder(Stacked(stacks, fed), NUMPRI, at, dummy);
    RanOnce(trace + Feeds(fed), ran);
    RanExactly(trace, fed, ran);
  }

  ghost function Targets(ran: seq<Event>): set<Watcher> {
    set i | 0 <= i < |ran| :: ran[i].w
  }

  // Deliveries do not add to what is owed.
  lemma {:induction false} OwedShrinks(trace: seq<Event>, ran: seq<Event>)
    requires forall i :: 0 <= i < |ran| ==> ran[i].Invoked?
    ensures Owed(trace + ran).Keys <= Owed(trace).Keys
  {
    if ran == [] {
      assert trace + ran == trace;
    } else {
      assert trace + ran == (trace + ran[..|ran| - 1]) + [ran[|ran| - 1]];
      OwedExtended(trace + ran[..|ran| - 1], ran[|ran| - 1]);
      OwedShrinks(trace, ran[..|ran| - 1]);
    }
  }

  lemma {:induction false} OwedByFeeds(trace: seq<Event>, fed: seq<Watcher>)
    requires Owed(trace) == map[]
    ensures Owed(trace + Feeds(fed)).Keys <= (set w | w in fed)
    decreases |fed|
  {
    if fed == [] {
      assert trace + Feeds(fed) == trace;
    } else {
      assert trace + Feeds(fed) == (trace + Feeds(fed[1..])) + [Fed(fed[0], EV_TIMER)];
      OwedExtended(trace + Feeds(fed[1..]), Fed(fed[0], EV_TIMER));
      OwedByFeeds(trace, fed[1..]);
    }
  }

  lemma FeedsLast(ws: seq<Watcher>)
    requires ws != []
    ensures Feeds(ws) == [Fed(ws[|ws| - 1], EV_TIMER)] + Feeds(ws[..|ws| - 1])
  {
  }

  lemma {:induction false} CardinalityOfDistinct(ws: seq<Watcher>, s: set<Watcher>)
    requires Distinct(ws)
    requires forall i :: 0 <= i < |ws| ==> ws[i] in s
    ensures |ws| <= |s|
  {
    if ws != [] {
      CardinalityOfDistinct(ws[..|ws| - 1], s - {ws[|ws| - 1]});
    }
  }
}
