/** Pending events: one stack per priority, fed by ev_feed_event and drained by
    ev_invoke_pending while callbacks feed, stop and drain again. */
module Pending {
  import opened Watchers

  datatype Anpending = Anpending(w: Watcher, events: Mask)

  // ---------- What the queues mean ----------

  // What happened to the pending events of the loop, in order.
  datatype Event =
    | Fed(w: Watcher, revents: Mask)      // ev_feed_event
    | Cleared(w: Watcher)                 // clear_pending on a pending watcher
    | Invoked(w: Watcher, events: Mask)   // its callback ran with these events

  ghost function OwedAfter(owed: map<Watcher, Mask>, e: Event): map<Watcher, Mask> {
    match e
    case Fed(w, revents) => owed[w := if w in owed then owed[w] + revents else revents]
    case Cleared(w) => owed - {w}
    case Invoked(w, _) => owed - {w}
  }

  /** The events that have been fed and neither delivered nor cleared. */
  ghost function Owed(trace: seq<Event>): map<Watcher, Mask> {
    if trace == [] then map[] else OwedAfter(Owed(trace[..|trace| - 1]), trace[|trace| - 1])
  }

  /** The i-th event, if a delivery, delivers all that its watcher is owed, and no watcher
      of higher priority is owed anything then. */
  ghost predicate LegalAt(trace: seq<Event>, i: nat)
    requires i < |trace|
  {
    trace[i].Invoked? ==>
      var owed := Owed(trace[..i]);
      && trace[i].w in owed
      && trace[i].events == owed[trace[i].w]
      && forall v :: v in owed ==> v.priority <= trace[i].w.priority
  }

  ghost predicate Legal(trace: seq<Event>) {
    forall i :: 0 <= i < |trace| ==> LegalAt(trace, i)
  }

  lemma OwedExtended(trace: seq<Event>, e: Event)
    ensures Owed(trace + [e]) == OwedAfter(Owed(trace), e)
  {
    assert (trace + [e])[..|trace|] == trace;
  }

  lemma LegalExtended(trace: seq<Event>, e: Event)
    requires Legal(trace) && LegalAt(trace + [e], |trace|)
    ensures Legal(trace + [e])
  {
    forall i | 0 <= i < |trace + [e]| ensures LegalAt(trace + [e], i) {
      if i < |trace| {
        assert (trace + [e])[..i] == trace[..i];
        assert LegalAt(trace, i);
      }
    }
  }

  // Event e ends what watcher w is owed.
  ghost predicate Settles(e: Event, w: Watcher) {
    (e.Invoked? || e.Cleared?) && e.w == w
  }

  /** Until it is settled, an event that was fed stays part of what is owed. */
  lemma {:induction false} OwedUntilSettled(trace: seq<Event>, i: nat, j: nat)
    requires i < j <= |trace| && trace[i].Fed?
    requires forall k :: i < k < j ==> !Settles(trace[k], trace[i].w)
    ensures trace[i].w in Owed(trace[..j])
    ensures trace[i].revents <= Owed(trace[..j])[trace[i].w]
  {
    assert trace[..j][..j - 1] == trace[..j - 1];
    if j - 1 > i {
      OwedUntilSettled(trace, i, j - 1);
    }
  }

  // The j-th event is the first to settle the i-th, and delivers it if it is a delivery.
  ghost predicate SettledBy(trace: seq<Event>, i: nat, j: nat)
    requires i < j < |trace| && trace[i].Fed?
  {
    && Settles(trace[j], trace[i].w)
    && (forall k :: i < k < j ==> !Settles(trace[k], trace[i].w))
    && (trace[j].Invoked? ==> trace[i].revents <= trace[j].events)
  }

  /** In a legal trace that ends with nothing owed, every fed event is settled; the first
      event to settle it is a stop or a delivery whose mask contains it. */
  lemma {:induction false} DeliveredOnce(trace: seq<Event>, i: nat)
    requires Legal(trace) && Owed(trace) == map[]
    requires i < |trace| && trace[i].Fed?
    ensures exists j :: i < j < |trace| && SettledBy(trace, i, j)
  {
    var j := i + 1;
    while j < |trace| && !Settles(trace[j], trace[i].w)
      invariant i < j <= |trace|
      invariant forall k :: i < k < j ==> !Settles(trace[k], trace[i].w)
    {
      j := j + 1;
    }
    OwedUntilSettled(trace, i, j);
    assert trace[..|trace|] == trace;
    assert j < |trace|;
    assert LegalAt(trace, j);
    assert SettledBy(trace, i, j);
  }

  /** After it was settled, and until it is fed again, a watcher is owed nothing, so that in
      a legal trace it is not invoked. */
  lemma {:induction false} NothingOwedUntilFed(trace: seq<Event>, i: nat, j: nat)
    requires i < j <= |trace| && (trace[i].Invoked? || trace[i].Cleared?)
    requires forall k :: i < k < j ==> trace[k].w == trace[i].w ==> !trace[k].Fed?
    ensures trace[i].w !in Owed(trace[..j])
    ensures Legal(trace) && j < |trace| && trace[j].w == trace[i].w ==> !trace[j].Invoked?
  {
    assert trace[..j][..j - 1] == trace[..j - 1];
    if j - 1 > i {
      NothingOwedUntilFed(trace, i, j - 1);
    }
    assert Legal(trace) && j < |trace| ==> LegalAt(trace, j);
  }

  // ---------- The queues ----------

  /** What a callback does to the queues. */
  datatype Action =
    | Feed(target: Watcher, revents: Mask)  // ev_feed_event
    | Clear(target: Watcher)                // clear_pending, as every ev_*_stop does
    | Drain                                 // ev_invoke_pending, called from within the callback

  // The order in which passive callbacks run: from the top of the highest stack down.
  ghost function DrainOrder(stacks: seq<seq<Anpending>>, n: nat, dummy: Watcher): seq<Event>
    requires n <= |stacks|
    decreases n, if n == 0 then 0 else |stacks[n - 1]|
  {
    if n == 0 then []
    else if stacks[n - 1] == [] then DrainOrder(stacks, n - 1, dummy)
    else
      var stack := stacks[n - 1];
      var top := stack[|stack| - 1];
      (if top.w == dummy then [] else [Invoked(top.w, top.events)])
      + DrainOrder(stacks[n - 1 := stack[..|stack| - 1]], n, dummy)
  }

  lemma DrainOrderTop(trace: seq<Event>, stacks: seq<seq<Anpending>>, p: nat, dummy: Watcher)
    requires p < |stacks| && stacks[p] != []
    ensures var top := stacks[p][|stacks[p]| - 1];
            var rest := DrainOrder(stacks[p := stacks[p][..|stacks[p]| - 1]], p + 1, dummy);
            trace + DrainOrder(stacks, p + 1, dummy) ==
            (if top.w == dummy then trace else trace + [Invoked(top.w, top.events)]) + rest
  {
    var top := stacks[p][|stacks[p]| - 1];
    var rest := DrainOrder(stacks[p := stacks[p][..|stacks[p]| - 1]], p + 1, dummy);
    var head: seq<Event> := if top.w == dummy then [] else [Invoked(top.w, top.events)];
    assert DrainOrder(stacks, p + 1, dummy) == head + rest;
    assert trace + (head + rest) == (trace + head) + rest;
    assert trace + [] == trace;
  }

  function TotalPending(stacks: seq<seq<Anpending>>): nat {
    if stacks == [] then 0 else |stacks[0]| + TotalPending(stacks[1..])
  }

  lemma {:induction false} TotalUpdate(stacks: seq<seq<Anpending>>, p: nat, stack: seq<Anpending>)
    requires p < |stacks|
    ensures TotalPending(stacks[p := stack]) == TotalPending(stacks) - |stacks[p]| + |stack|
  {
    if p == 0 {
      assert stacks[p := stack][1..] == stacks[1..];
    } else {
      assert stacks[p := stack][1..] == stacks[1..][p - 1 := stack];
      TotalUpdate(stacks[1..], p - 1, stack);
    }
  }

  // The stack of one priority: every slot is cleared or holds a watcher of that priority
  // which points back at it, and (verify_watcher) every pending watcher of that priority
  // has a slot there, with the events it is owed.
  ghost predicate StackOk(stack: seq<Anpending>, pri: int, dummy: Watcher, registry: set<Watcher>,
                          owed: map<Watcher, Mask>)
    reads registry`pending
  {
    && (forall i {:trigger stack[i].w} :: 0 <= i < |stack| && stack[i].w != dummy ==>
          stack[i].w in registry && stack[i].w.priority == pri && stack[i].w.pending == i + 1)
    && (forall w {:trigger w in registry} :: w in registry && w.priority == pri ==>
          && (w in owed <==> w.pending != 0)
          && (w.pending != 0 ==> w.pending <= |stack| && stack[w.pending - 1] == Anpending(w, owed[w])))
  }

  class PendingQueues {
    var pendings: seq<seq<Anpending>>  // pendings[pri] has pendingcnt[pri] slots
    var pendingpri: int
    const pending_w: Watcher           // stands in for a cleared watcher
    ghost const registry: set<Watcher> // the watchers of this loop
    ghost var trace: seq<Event>

    ghost predicate Holds(owed: map<Watcher, Mask>)
      reads this, registry`pending, pending_w`pending
    {
      && |pendings| == NUMPRI
      && pending_w !in registry && pending_w.pending == 0
      && owed.Keys <= registry
      && (forall pri :: 0 <= pri < NUMPRI ==> StackOk(pendings[pri], pri, pending_w, registry, owed))
    }

    /** The queues hold exactly what is owed, and every delivery so far was legal. */
    ghost predicate Valid()
      reads this, registry`pending, pending_w`pending
    {
      Holds(Owed(trace)) && Legal(trace)
    }

    constructor (ghost registry: set<Watcher>)
      requires forall w :: w in registry ==> w.pending == 0
      ensures Valid() && this.registry == registry && trace == []
      ensures fresh(pending_w)
      ensures pendings == seq(NUMPRI, _ => [])
    {
      pendings := seq(NUMPRI, _ => []);
      pendingpri := 0;
      pending_w := new Watcher(0, 0.0, 0.0);
      this.registry := registry;
      trace := [];
    }

    // A new slot on top of the stack.
    method Push(w: Watcher, revents: Mask, ghost owed: map<Watcher, Mask>)
      requires Holds(owed) && w in registry && w.pending == 0
      modifies `pendings, w`pending
      ensures Holds(owed[w := revents]) && w.pending != 0
      ensures pendings == old(pendings[w.priority := pendings[w.priority] + [Anpending(w, revents)]])
    {
      w.pending := |pendings[w.priority]| + 1;
      pendings := pendings[w.priority := pendings[w.priority] + [Anpending(w, revents)]];
      forall q | 0 <= q < NUMPRI ensures StackOk(pendings[q], q, pending_w, registry, owed[w := revents]) {
        assert old(StackOk(pendings[q], q, pending_w, registry, owed));
      }
    }

    // New events for the slot of w.
    method Rewrite(w: Watcher, events: Mask, ghost owed: map<Watcher, Mask>, ghost owed': map<Watcher, Mask>)
      requires Holds(owed) && w in registry && w in owed
      requires owed' == owed[w := events]
      modifies `pendings
      ensures Holds(owed')
      ensures forall q :: 0 <= q < NUMPRI ==> |pendings[q]| == |old(pendings)[q]|
    {
      var pri, i := w.priority, w.pending - 1;
      assert StackOk(pendings[pri], pri, pending_w, registry, owed);
      pendings := pendings[pri := pendings[pri][i := Anpending(w, events)]];
      forall q | 0 <= q < NUMPRI ensures StackOk(pendings[q], q, pending_w, registry, owed') {
        assert old(StackOk(pendings[q], q, pending_w, registry, owed));
      }
    }

    // The dummy watcher takes over the slot of w.
    method Blank(w: Watcher, ghost owed: map<Watcher, Mask>)
      requires Holds(owed) && w in registry && w.pending != 0
      modifies `pendings, w`pending
      ensures Holds(owed - {w}) && w.pending == 0
      ensures forall q :: 0 <= q < NUMPRI ==> |pendings[q]| == |old(pendings)[q]|
    {
      var pri, i := w.priority, w.pending - 1;
      assert StackOk(pendings[pri], pri, pending_w, registry, owed);
      pendings := pendings[pri := pendings[pri][i := Anpending(pending_w, pendings[pri][i].events)]];
      w.pending := 0;
      forall q | 0 <= q < NUMPRI ensures StackOk(pendings[q], q, pending_w, registry, owed - {w}) {
        assert old(StackOk(pendings[q], q, pending_w, registry, owed));
        if q != pri {
          assert pendings[q] == old(pendings[q]);
          forall v | v in registry && v.priority == q
            ensures (v in owed <==> v in owed - {w}) && v.pending == old(v.pending)
          {
          }
        }
      }
    }

    // The top slot of a stack goes; its watcher is no longer pending.
    method Pop(pri: int, ghost owed: map<Watcher, Mask>) returns (p: Anpending)
      requires Holds(owed) && 0 <= pri < NUMPRI && pendings[pri] != []
      modifies `pendings, pendings[pri][|pendings[pri]| - 1].w`pending
      ensures Holds(owed - {p.w})
      ensures p == old(pendings[pri][|pendings[pri]| - 1])
      ensures pendings == old(pendings[pri := pendings[pri][..|pendings[pri]| - 1]])
      ensures p.w == pending_w || (p.w in owed && p.w.priority == pri && p.events == owed[p.w])
    {
      assert StackOk(pendings[pri], pri, pending_w, registry, owed);
      p := pendings[pri][|pendings[pri]| - 1];
      pendings := pendings[pri := pendings[pri][..|pendings[pri]| - 1]];
      p.w.pending := 0;
      forall q | 0 <= q < NUMPRI ensures StackOk(pendings[q], q, pending_w, registry, owed - {p.w}) {
        assert old(StackOk(pendings[q], q, pending_w, registry, owed));
        if q != pri {
          assert pendings[q] == old(pendings[q]);
          forall v | v in registry && v.priority == q
            ensures (v in owed <==> v in owed - {p.w}) && v.pending == old(v.pending)
          {
          }
        }
      }
    }

    /** ev_feed_event: a watcher that is not pending takes a new slot on top of its stack,
        one that is pending has the events added to its slot. */
    method FeedEvent(w: Watcher, revents: Mask)
      requires Valid() && w in registry
      modifies this, w`pending
      ensures Valid() && w.pending != 0
      ensures trace == old(trace) + [Fed(w, revents)]
      ensures pendingpri == NUMPRI - 1
      ensures old(w.pending) == 0 ==>
                pendings == old(pendings[w.priority := pendings[w.priority] + [Anpending(w, revents)]])
    {
      assert StackOk(pendings[w.priority], w.priority, pending_w, registry, Owed(trace));
      LegalExtended(trace, Fed(w, revents));
      OwedExtended(trace, Fed(w, revents));
      if w.pending != 0 {
        FeedMore(w, revents);
      } else {
        Push(w, revents, Owed(trace));
        trace := trace + [Fed(w, revents)];
      }
      pendingpri := NUMPRI - 1;
    }

    method FeedMore(w: Watcher, revents: Mask)
      requires Valid() && w in registry && w in Owed(trace) && Legal(trace + [Fed(w, revents)])
      modifies `trace, `pendings
      ensures Valid()
      ensures trace == old(trace) + [Fed(w, revents)]
    {
      ghost var owed := Owed(trace);
      assert StackOk(pendings[w.priority], w.priority, pending_w, registry, owed);
      var events := pendings[w.priority][w.pending - 1].events + revents;
      OwedExtended(trace, Fed(w, revents));
      Rewrite(w, events, owed, OwedAfter(owed, Fed(w, revents)));
      trace := trace + [Fed(w, revents)];
    }

    /** clear_pending: the slot stays, with the dummy watcher in it. */
    method ClearPending(w: Watcher)
      requires Valid() && w in registry
      modifies `trace, `pendings, w`pending
      ensures Valid() && w.pending == 0
      ensures forall q :: 0 <= q < NUMPRI ==> |pendings[q]| == |old(pendings)[q]|
      ensures old(w.pending) != 0 ==> trace == old(trace) + [Cleared(w)]
      ensures old(w.pending) == 0 ==> trace == old(trace) && pendings == old(pendings)
    {
      if w.pending != 0 {
        OwedExtended(trace, Cleared(w));
        LegalExtended(trace, Cleared(w));
        Cancel(w, Owed(trace));
      }
    }

    method Cancel(w: Watcher, ghost owed: map<Watcher, Mask>)
      requires Holds(owed) && w in registry && w.pending != 0
      requires Legal(trace + [Cleared(w)]) && Owed(trace + [Cleared(w)]) == owed - {w}
      modifies `trace, `pendings, w`pending
      ensures Valid() && w.pending == 0 && trace == old(trace) + [Cleared(w)]
      ensures forall q :: 0 <= q < NUMPRI ==> |pendings[q]| == |old(pendings)[q]|
    {
      Blank(w, owed);
      trace := trace + [Cleared(w)];
    }

    ghost predicate ScriptOk(script: seq<seq<Action>>) {
      forall i, j :: 0 <= i < |script| && 0 <= j < |script[i]| && !script[i][j].Drain? ==>
        script[i][j].target in registry
    }

    ghost predicate EmptyAbove(pri: int)
      reads this
    {
      |pendings| == NUMPRI && forall q :: 0 <= q < NUMPRI && pri < q ==> pendings[q] == []
    }

    /** The k-th callback to run does script[k]. */
    method RunCallback(script: seq<seq<Action>>, k: nat) returns (k': nat)
      requires Valid() && ScriptOk(script) && k < |script|
      requires 0 <= pendingpri < NUMPRI && EmptyAbove(pendingpri)
      modifies this, registry`pending, pending_w`pending
      ensures Valid() && k < k' <= |script|
      ensures 0 <= pendingpri < NUMPRI && EmptyAbove(pendingpri)
      ensures old(trace) <= trace
      decreases |script| - k, 0
    {
      k' := k + 1;
      for j := 0 to |script[k]|
        invariant Valid() && k < k' <= |script|
        invariant 0 <= pendingpri < NUMPRI && EmptyAbove(pendingpri)
        invariant old(trace) <= trace
      {
        match script[k][j] {
          case Feed(w, revents) => FeedEvent(w, revents);
          case Clear(w) => ClearPending(w);
          case Drain => k' := InvokePending(script, k');
        }
      }
    }

    /** ev_invoke_pending, with callbacks that do what `script` says from its k-th entry on
        and nothing after its end; k' is the next entry.  Every delivery is legal (Valid), all
        queues end up empty, and passive callbacks run from the top of the highest stack down. */
    method InvokePending(script: seq<seq<Action>>, k: nat) returns (k': nat)
      requires Valid() && ScriptOk(script) && k <= |script|
      modifies this, registry`pending, pending_w`pending
      ensures Valid() && k <= k' <= |script|
      ensures pendingpri == 0 && EmptyAbove(-1)
      ensures Owed(trace) == map[]
      ensures old(trace) <= trace
      ensures k == |script| ==> trace == old(trace) + DrainOrder(old(pendings), NUMPRI, pending_w)
      decreases |script| - k, 3
    {
      k' := k;
      ghost var goal := trace + DrainOrder(pendings, NUMPRI, pending_w);
      pendingpri := NUMPRI;
      while true
        invariant Valid() && k <= k' <= |script|
        invariant 0 < pendingpri <= NUMPRI && EmptyAbove(pendingpri - 1)
        invariant old(trace) <= trace
        invariant k == |script| ==> trace + DrainOrder(pendings, pendingpri, pending_w) == goal
        decreases |script| - k', TotalPending(pendings), pendingpri
      {
        pendingpri := pendingpri - 1;
        k' := DrainLevel(script, k');
        if pendingpri == 0 {
          break;
        }
      }
      Quiet();
      assert DrainOrder(pendings, 0, pending_w) == [];
    }

    // The inner loop of ev_invoke_pending; callbacks may raise pendingpri meanwhile.
    method DrainLevel(script: seq<seq<Action>>, k: nat) returns (k': nat)
      requires Valid() && ScriptOk(script) && k <= |script|
      requires 0 <= pendingpri < NUMPRI && EmptyAbove(pendingpri)
      modifies this, registry`pending, pending_w`pending
      ensures Valid() && k <= k' <= |script|
      ensures 0 <= pendingpri < NUMPRI && EmptyAbove(pendingpri - 1)
      ensures old(trace) <= trace
      ensures k < k' || TotalPending(pendings) < old(TotalPending(pendings)) ||
              (TotalPending(pendings) == old(TotalPending(pendings)) && pendingpri == old(pendingpri))
      ensures k == |script| ==>
        trace + DrainOrder(pendings, pendingpri, pending_w) == old(trace + DrainOrder(pendings, pendingpri + 1, pending_w))
      decreases |script| - k, 2
    {
      k' := k;
      ghost var goal := trace + DrainOrder(pendings, pendingpri + 1, pending_w);
      while pendings[pendingpri] != []
        invariant Valid() && k <= k' <= |script|
        invariant 0 <= pendingpri < NUMPRI && EmptyAbove(pendingpri)
        invariant old(trace) <= trace
        invariant k == |script| ==> trace + DrainOrder(pendings, pendingpri + 1, pending_w) == goal
        invariant k < k' || TotalPending(pendings) < old(TotalPending(pendings)) ||
                  (TotalPending(pendings) == old(TotalPending(pendings)) && pendingpri == old(pendingpri))
        decreases |script| - k', TotalPending(pendings)
      {
        k' := InvokeTop(script, k');
      }
    }

    // Only watchers of non-empty queues are owed anything.
    lemma OwedBelow(pri: int)
      requires Valid() && EmptyAbove(pri)
      ensures forall v :: v in Owed(trace) ==> v.priority <= pri
    {
      forall v | v in Owed(trace) ensures v.priority <= pri {
        assert v in registry;
        assert StackOk(pendings[v.priority], v.priority, pending_w, registry, Owed(trace));
      }
    }

    // The inner loop up to the callback: the top slot is popped and counts as delivered.
    method PopTop()
      requires Valid()
      requires 0 <= pendingpri < NUMPRI && EmptyAbove(pendingpri) && pendings[pendingpri] != []
      modifies `pendings, `trace, registry`pending, pending_w`pending
      ensures Valid() && EmptyAbove(pendingpri)
      ensures pendings == old(pendings[pendingpri := pendings[pendingpri][..|pendings[pendingpri]| - 1]])
      ensures old(trace) <= trace
      ensures trace + DrainOrder(pendings, pendingpri + 1, pending_w) == old(trace + DrainOrder(pendings, pendingpri + 1, pending_w))
    {
      ghost var owed := Owed(trace);
      OwedBelow(pendingpri);
      DrainOrderTop(trace, pendings, pendingpri, pending_w);
      var p := Pop(pendingpri, owed);
      if p.w == pending_w {
        assert owed - {p.w} == owed;
      } else {
        OwedExtended(trace, Invoked(p.w, p.events));
        assert (trace + [Invoked(p.w, p.events)])[..|trace|] == trace;
        LegalExtended(trace, Invoked(p.w, p.events));
        trace := trace + [Invoked(p.w, p.events)];
      }
    }

    method TakeTop()
      requires Valid()
      requires 0 <= pendingpri < NUMPRI && EmptyAbove(pendingpri) && pendings[pendingpri] != []
      modifies `pendings, `trace, registry`pending, pending_w`pending
      ensures Valid() && EmptyAbove(pendingpri) && old(trace) <= trace
      ensures TotalPending(pendings) < old(TotalPending(pendings))
      ensures trace + DrainOrder(pendings, pendingpri + 1, pending_w) == old(trace + DrainOrder(pendings, pendingpri + 1, pending_w))
    {
      TotalUpdate(pendings, pendingpri, pendings[pendingpri][..|pendings[pendingpri]| - 1]);
      PopTop();
    }

    // With empty queues no watcher is pending.
    lemma Quiet()
      requires Valid() && EmptyAbove(-1)
      ensures Owed(trace) == map[]
      ensures forall w {:trigger w in registry} :: w in registry ==> w.pending == 0
    {
      OwedBelow(-1);
      forall w | w in registry ensures w.pending == 0 {
        assert StackOk(pendings[w.priority], w.priority, pending_w, registry, Owed(trace));
      }
    }

    // One round of the inner loop.
    method InvokeTop(script: seq<seq<Action>>, k: nat) returns (k': nat)
      requires Valid() && ScriptOk(script) && k <= |script|
      requires 0 <= pendingpri < NUMPRI && EmptyAbove(pendingpri) && pendings[pendingpri] != []
      modifies this, registry`pending, pending_w`pending
      ensures Valid() && k <= k' <= |script|
      ensures 0 <= pendingpri < NUMPRI && EmptyAbove(pendingpri)
      ensures old(trace) <= trace
      ensures k == k' ==> pendingpri == old(pendingpri)
      ensures k == k' ==> TotalPending(pendings) < old(TotalPending(pendings))
      ensures k == |script| ==>
        trace + DrainOrder(pendings, pendingpri + 1, pending_w) == old(trace + DrainOrder(pendings, pendingpri + 1, pending_w))
      decreases |script| - k, 1
    {
      k' := k;
      var stack := pendings[pendingpri];
      var isDummy := stack[|stack| - 1].w == pending_w;
      TakeTop();
      if isDummy || k == |script| {
        return;
      }
      k' := RunCallback(script, k);
    }
  }
}
