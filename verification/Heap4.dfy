/** The 4-ary min-heap of timers: upheap, downheap, adjustheap and reheap, which keep a
    back-pointer in every watcher they move. */
module Heap4 {
  import opened Watchers

  const DHEAP := 4
  const HEAP0 := 3  // DHEAP - 1

  /** HPARENT: every node but the root has its parent strictly before it, and the children
      of p are the four slots starting at FirstChild(p).  For the root the C quotient -1 / 4
      truncates to 0, so that the root is its own parent. */
  function HParent(k: int): (p: int)
    requires HEAP0 <= k
    ensures k == HEAP0 ==> p == HEAP0
    ensures HEAP0 < k ==> HEAP0 <= p < k
    ensures HEAP0 < k ==> FirstChild(p) <= k < FirstChild(p) + DHEAP
  {
    (if k < HEAP0 + 1 then 0 else (k - HEAP0 - 1) / 4) + HEAP0
  }

  function FirstChild(k: int): int {
    4 * (k - HEAP0) + HEAP0 + 1
  }

  // The heap condition of verify_heap for the n elements of h.
  ghost predicate Ordered(h: seq<Anhe>, n: nat)
    requires n + HEAP0 <= |h|
  {
    forall i {:trigger HParent(i)} :: HEAP0 < i < n + HEAP0 ==> h[HParent(i)].at <= h[i].at
  }

  // The heap condition with the entry at slot k ignored: its parent bounds its children.
  ghost predicate OrderedAround(h: seq<Anhe>, n: nat, k: int)
    requires n + HEAP0 <= |h|
  {
    && (forall i {:trigger HParent(i)} :: HEAP0 < i < n + HEAP0 && i != k && HParent(i) != k ==> h[HParent(i)].at <= h[i].at)
    && (forall i {:trigger HParent(i)} :: HEAP0 < i < n + HEAP0 && HParent(i) == k && HEAP0 < k ==> h[HParent(k)].at <= h[i].at)
  }

  // No child of slot k is below `at`.
  ghost predicate BelowChildren(at: real, h: seq<Anhe>, n: nat, k: int)
    requires n + HEAP0 <= |h|
  {
    forall i {:trigger HParent(i)} :: HEAP0 < i < n + HEAP0 && HParent(i) == k ==> at <= h[i].at
  }

  // The parent of slot k is not above `at`.
  ghost predicate AboveParent(at: real, h: seq<Anhe>, k: int)
    requires HEAP0 <= k < |h|
  {
    HEAP0 < k ==> h[HParent(k)].at <= at
  }

  // The active-index and cache checks of verify_heap: the heap holds exactly the watchers
  // `ws`, each once, each knowing its slot and each with its deadline cached there.
  ghost predicate Indexed(heap: array<Anhe>, n: nat, ws: set<Watcher>)
    reads heap, ws`active, ws`at
  {
    && n + HEAP0 <= heap.Length
    && (forall i {:trigger heap[i].w} :: HEAP0 <= i < n + HEAP0 ==> heap[i].w in ws && heap[i].w.active == i)
    && (forall w {:trigger w in ws} :: w in ws ==> HEAP0 <= w.active < n + HEAP0 && heap[w.active] == Anhe(w.at, w))
  }

  // The same with x out of the heap and slot k vacant.
  ghost predicate IndexedAround(heap: array<Anhe>, n: nat, k: int, x: Watcher, ws: set<Watcher>)
    reads heap, ws`active, ws`at
  {
    && n + HEAP0 <= heap.Length
    && (forall i {:trigger heap[i].w} :: HEAP0 <= i < n + HEAP0 && i != k ==>
          heap[i].w in ws && heap[i].w != x && heap[i].w.active == i)
    && (forall w {:trigger w in ws} :: w in ws && w != x ==>
          HEAP0 <= w.active < n + HEAP0 && w.active != k && heap[w.active] == Anhe(w.at, w))
  }

  /** Everything verify_heap asserts. */
  ghost predicate ValidHeap(heap: array<Anhe>, n: nat, ws: set<Watcher>)
    reads heap, ws`active, ws`at
  {
    Indexed(heap, n, ws) && Ordered(heap[..], n)
  }

  // A copy of a valid heap is a valid heap.
  lemma SameHeap(heap: array<Anhe>, heap': array<Anhe>, n: nat, ws: set<Watcher>)
    requires ValidHeap(heap, n, ws)
    requires heap.Length <= heap'.Length
    requires forall i :: 0 <= i < heap.Length ==> heap'[i] == heap[i]
    ensures ValidHeap(heap', n, ws)
  {
  }

  /** In an ordered heap the root is the earliest deadline. */
  lemma {:induction false} RootIsEarliest(h: seq<Anhe>, n: nat, i: int)
    requires n + HEAP0 <= |h| && Ordered(h, n)
    requires HEAP0 <= i < n + HEAP0
    ensures h[HEAP0].at <= h[i].at
    decreases i
  {
    if i != HEAP0 {
      RootIsEarliest(h, n, HParent(i));
    }
  }

  // One step of either loop: slot `from` moves to the vacant slot `to`.
  method Move(heap: array<Anhe>, from: int, to: int, ghost n: nat, ghost x: Watcher, ghost ws: set<Watcher>)
    requires HEAP0 <= from < n + HEAP0 && HEAP0 <= to < n + HEAP0 && from != to
    requires IndexedAround(heap, n, to, x, ws)
    modifies heap, ws`active
    ensures heap[..] == old(heap[..][to := heap[from]])
    ensures IndexedAround(heap, n, from, x, ws)
  {
    heap[to] := heap[from];
    heap[to].w.active := to;
  }

  // The end of either loop: x enters the vacant slot.
  method Settle(heap: array<Anhe>, he: Anhe, k: int, ghost n: nat, ghost ws: set<Watcher>)
    requires HEAP0 <= k < n + HEAP0
    requires he.w in ws && he.at == he.w.at
    requires IndexedAround(heap, n, k, he.w, ws)
    modifies heap, ws`active
    ensures heap[..] == old(heap[..][k := he])
    ensures Indexed(heap, n, ws)
  {
    heap[k] := he;
    he.w.active := k;
  }

  // Moving the parent down into the vacant slot k leaves the parent's slot vacant.
  lemma ShiftDown(h: seq<Anhe>, n: nat, k: int, at: real)
    requires n + HEAP0 <= |h| && HEAP0 < k < n + HEAP0
    requires OrderedAround(h, n, k) && BelowChildren(at, h, n, k)
    requires at < h[HParent(k)].at
    ensures var p := HParent(k); var h' := h[k := h[p]];
            OrderedAround(h', n, p) && BelowChildren(at, h', n, p)
  {
    var p := HParent(k);
    var h' := h[k := h[p]];
    forall i | HEAP0 < i < n + HEAP0
      ensures i != p && HParent(i) != p ==> h'[HParent(i)].at <= h'[i].at
      ensures HParent(i) == p && HEAP0 < p ==> h'[HParent(p)].at <= h'[i].at
      ensures HParent(i) == p ==> at <= h'[i].at
    {
      assert i != k && HParent(i) != k ==> h[HParent(i)].at <= h[i].at;
    }
  }

  lemma PlaceOrdered(h: seq<Anhe>, n: nat, k: int, he: Anhe)
    requires n + HEAP0 <= |h| && HEAP0 <= k < n + HEAP0
    requires OrderedAround(h, n, k) && BelowChildren(he.at, h, n, k) && AboveParent(he.at, h, k)
    ensures Ordered(h[k := he], n)
  {
  }

  /** Move the entry of slot k0 towards the root. */
  method UpHeap(heap: array<Anhe>, k0: int, ghost n: nat, ghost ws: set<Watcher>)
    requires HEAP0 <= k0 < n + HEAP0 <= heap.Length
    requires heap[k0].w in ws && heap[k0].at == heap[k0].w.at
    requires IndexedAround(heap, n, k0, heap[k0].w, ws)
    requires OrderedAround(heap[..], n, k0) && BelowChildren(heap[k0].at, heap[..], n, k0)
    modifies heap, ws`active
    ensures ValidHeap(heap, n, ws)
    ensures heap[k0 + 1..] == old(heap[k0 + 1..])
  {
    var k := k0;
    var he := heap[k];
    while true
      invariant HEAP0 <= k <= k0
      invariant heap[k0 + 1..] == old(heap[k0 + 1..])
      invariant IndexedAround(heap, n, k, he.w, ws)
      invariant OrderedAround(heap[..], n, k) && BelowChildren(he.at, heap[..], n, k)
      decreases k
    {
      var p := HParent(k);
      if p == k || heap[p].at <= he.at {
        break;
      }
      ShiftDown(heap[..], n, k, he.at);
      Move(heap, p, k, n, he.w, ws);
      k := p;
    }
    PlaceOrdered(heap[..], n, k, he);
    Settle(heap, he, k, n, ws);
  }

  // Moving the least child m up into the vacant slot k leaves m vacant.
  lemma ShiftUp(h: seq<Anhe>, n: nat, k: int, m: int, at: real)
    requires n + HEAP0 <= |h| && HEAP0 <= k < n + HEAP0
    requires HEAP0 < m < n + HEAP0 && HParent(m) == k
    requires OrderedAround(h, n, k)
    requires BelowChildren(h[m].at, h, n, k) && h[m].at < at
    ensures var h' := h[k := h[m]]; OrderedAround(h', n, m) && AboveParent(at, h', m)
  {
    var h' := h[k := h[m]];
    forall i | HEAP0 < i < n + HEAP0
      ensures i != m && HParent(i) != m ==> h'[HParent(i)].at <= h'[i].at
      ensures HParent(i) == m ==> h'[HParent(m)].at <= h'[i].at
    {
      assert i != k && HParent(i) != k ==> h[HParent(i)].at <= h[i].at;
    }
  }

  // The least of the children of slot k, by the unrolled comparisons of downheap.
  method MinChild(heap: array<Anhe>, n: nat, k: int) returns (minpos: int)
    requires n + HEAP0 <= heap.Length
    requires HEAP0 <= k && FirstChild(k) < n + HEAP0
    ensures HEAP0 < minpos < n + HEAP0 && HParent(minpos) == k
    ensures BelowChildren(heap[minpos].at, heap[..], n, k)
  {
    var pos, e := FirstChild(k), n + HEAP0;
    minpos := pos;
    if pos + DHEAP - 1 < e {
      if heap[minpos].at > heap[pos + 1].at { minpos := pos + 1; }
      if heap[minpos].at > heap[pos + 2].at { minpos := pos + 2; }
      if heap[minpos].at > heap[pos + 3].at { minpos := pos + 3; }
    } else {
      if pos + 1 < e && heap[minpos].at > heap[pos + 1].at { minpos := pos + 1; }
      if pos + 2 < e && heap[minpos].at > heap[pos + 2].at { minpos := pos + 2; }
      // ev.c tests pos[3] here too, which is never within the heap
    }
  }

  /** Move the entry of slot k0 away from the root. */
  method DownHeap(heap: array<Anhe>, n: nat, k0: int, ghost ws: set<Watcher>)
    requires HEAP0 <= k0 < n + HEAP0 <= heap.Length
    requires heap[k0].w in ws && heap[k0].at == heap[k0].w.at
    requires IndexedAround(heap, n, k0, heap[k0].w, ws)
    requires OrderedAround(heap[..], n, k0) && AboveParent(heap[k0].at, heap[..], k0)
    modifies heap, ws`active
    ensures ValidHeap(heap, n, ws)
  {
    var k := k0;
    var he := heap[k];
    while true
      invariant HEAP0 <= k < n + HEAP0
      invariant IndexedAround(heap, n, k, he.w, ws)
      invariant OrderedAround(heap[..], n, k) && AboveParent(he.at, heap[..], k)
      decreases n + HEAP0 - k
    {
      if FirstChild(k) >= n + HEAP0 {
        break;
      }
      var minpos := MinChild(heap, n, k);
      if he.at <= heap[minpos].at {
        break;
      }
      ShiftUp(heap[..], n, k, minpos, he.at);
      Move(heap, minpos, k, n, he.w, ws);
      k := minpos;
    }
    PlaceOrdered(heap[..], n, k, he);
    Settle(heap, he, k, n, ws);
  }

  /** Put the entry of slot k, whose key may have changed in either direction, where it belongs. */
  method AdjustHeap(heap: array<Anhe>, n: nat, k: int, ghost ws: set<Watcher>)
    requires HEAP0 <= k < n + HEAP0 <= heap.Length
    requires heap[k].w in ws && heap[k].at == heap[k].w.at
    requires IndexedAround(heap, n, k, heap[k].w, ws)
    requires OrderedAround(heap[..], n, k)
    modifies heap, ws`active
    ensures ValidHeap(heap, n, ws)
  {
    if k > HEAP0 && heap[k].at <= heap[HParent(k)].at {
      UpHeap(heap, k, n, ws);
    } else {
      DownHeap(heap, n, k, ws);
    }
  }

  // The watchers in the first i slots.
  ghost function Front(ws: set<Watcher>, i: nat): set<Watcher>
    reads ws`active
  {
    set w | w in ws && w.active < i + HEAP0
  }

  lemma FrontIndexed(heap: array<Anhe>, n: nat, i: nat, ws: set<Watcher>)
    requires i <= n && Indexed(heap, n, ws)
    ensures Indexed(heap, i, Front(ws, i))
  {
  }

  // One round of reheap: the entry of slot i + HEAP0 joins the i-element heap before it.
  method ReHeapStep(heap: array<Anhe>, n: nat, i: nat, ghost ws: set<Watcher>)
    requires i < n && Indexed(heap, n, ws) && Ordered(heap[..], i)
    modifies heap, ws`active
    ensures Indexed(heap, n, ws) && Ordered(heap[..], i + 1)
  {
    ghost var front := Front(ws, i + 1);
    FrontIndexed(heap, n, i + 1, ws);
    UpHeap(heap, i + HEAP0, i + 1, front);
    forall j | i + 1 + HEAP0 <= j < n + HEAP0
      ensures heap[j] == old(heap[j]) && heap[j].w in ws && heap[j].w.active == j
    {
      assert heap[j] == heap[i + HEAP0 + 1..][j - (i + HEAP0 + 1)];
    }
    forall w | w in ws
      ensures HEAP0 <= w.active < n + HEAP0 && heap[w.active] == Anhe(w.at, w)
    {
      assert w !in front ==> w.active == old(w.active);
    }
  }

  /** Rebuild the heap after every key may have changed. */
  method ReHeap(heap: array<Anhe>, n: nat, ghost ws: set<Watcher>)
    requires Indexed(heap, n, ws)
    modifies heap, ws`active
    ensures ValidHeap(heap, n, ws)
  {
    var i := 0;
    while i < n
      invariant 0 <= i <= n
      invariant Indexed(heap, n, ws) && Ordered(heap[..], i)
    {
      ReHeapStep(heap, n, i, ws);
      i := i + 1;
    }
  }

  // Slot n + HEAP0 takes a watcher that is not in the heap.
  method Append(heap: array<Anhe>, n: nat, w: Watcher, ghost ws: set<Watcher>)
    requires ValidHeap(heap, n, ws) && w !in ws && n + HEAP0 < heap.Length
    modifies heap, w`active
    ensures heap[n + HEAP0] == Anhe(w.at, w)
    ensures IndexedAround(heap, n + 1, n + HEAP0, w, ws + {w})
    ensures OrderedAround(heap[..], n + 1, n + HEAP0)
    ensures BelowChildren(w.at, heap[..], n + 1, n + HEAP0)
  {
    w.active := n + HEAP0;
    heap[w.active] := Anhe(w.at, w);
  }

  /** The heap part of ev_timer_start and ev_periodic_start. */
  method Insert(heap: array<Anhe>, n: nat, w: Watcher, ghost ws: set<Watcher>)
    requires ValidHeap(heap, n, ws) && w !in ws && n + HEAP0 < heap.Length
    modifies heap, ws`active, w`active
    ensures ValidHeap(heap, n + 1, ws + {w})
  {
    ghost var ws' := ws + {w};
    Append(heap, n, w, ws);
    UpHeap(heap, n + HEAP0, n + 1, ws');
  }

  // The last entry fills the slot k of the watcher that leaves.
  lemma OrderedAfterRemoval(h: seq<Anhe>, n: nat, k: int)
    requires n + 1 + HEAP0 <= |h| && Ordered(h, n + 1)
    requires HEAP0 <= k < n + HEAP0
    ensures OrderedAround(h[k := h[n + HEAP0]], n, k)
  {
    forall i | HEAP0 < i < n + HEAP0 && HParent(i) == k && HEAP0 < k
      ensures h[HParent(k)].at <= h[i].at
    {
      assert h[HParent(k)].at <= h[k].at <= h[i].at;
    }
  }

  method FillGap(heap: array<Anhe>, n: nat, w: Watcher, ghost ws: set<Watcher>)
    requires ValidHeap(heap, n + 1, ws) && w in ws && w.active < n + HEAP0
    modifies heap
    ensures heap[w.active].w in ws - {w} && heap[w.active].at == heap[w.active].w.at
    ensures IndexedAround(heap, n, w.active, heap[w.active].w, ws - {w})
    ensures OrderedAround(heap[..], n, w.active)
  {
    OrderedAfterRemoval(heap[..], n, w.active);
    heap[w.active] := heap[n + HEAP0];
  }

  /** The heap part of ev_timer_stop and ev_periodic_stop; n counts the remaining elements. */
  method Remove(heap: array<Anhe>, n: nat, w: Watcher, ghost ws: set<Watcher>)
    requires ValidHeap(heap, n + 1, ws) && w in ws
    modifies heap, (ws - {w})`active
    ensures ValidHeap(heap, n, ws - {w})
  {
    var active := w.active;
    ghost var ws' := ws - {w};
    if active < n + HEAP0 {
      FillGap(heap, n, w, ws);
      AdjustHeap(heap, n, active, ws');
    } else {
      assert ValidHeap(heap, n, ws');
    }
  }

  /** Move the entry of slot k of a valid heap after its deadline was changed. */
  method ReKey(heap: array<Anhe>, n: nat, w: Watcher, at: real, ghost ws: set<Watcher>)
    requires ValidHeap(heap, n, ws) && w in ws
    modifies heap, ws`active, w`at
    ensures ValidHeap(heap, n, ws) && w.at == at
  {
    assert OrderedAround(heap[..], n, w.active) by {
      OrderedIsOrderedAround(heap[..], n, w.active);
    }
    w.at := at;
    heap[w.active] := Anhe(w.at, w);
    AdjustHeap(heap, n, w.active, ws);
  }

  lemma OrderedIsOrderedAround(h: seq<Anhe>, n: nat, k: int)
    requires n + HEAP0 <= |h| && Ordered(h, n) && HEAP0 <= k < n + HEAP0
    ensures OrderedAround(h, n, k)
  {
    forall i | HEAP0 < i < n + HEAP0 && HParent(i) == k && HEAP0 < k
      ensures h[HParent(k)].at <= h[i].at
    {
      assert h[HParent(k)].at <= h[k].at <= h[i].at;
    }
  }
}
