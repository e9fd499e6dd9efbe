/** ev_periodic watchers: the next absolute deadline, and the rebuilding of their heap
    after the wall clock has jumped.  Times are exact reals. */
module Periodics {
  import opened Watchers
  import opened Heap4

  const MIN_INTERVAL: real := 1.0 / 8192.0   // 2^-13

  // t is offset + k * interval for some integer k.
  ghost predicate OnGrid(t: real, offset: real, interval: real) {
    exists k: int :: t == GridPoint(offset, interval, k)
  }

  ghost function GridPoint(offset: real, interval: real, k: int): real {
    offset + k as real * interval
  }

  lemma GridStep(offset: real, interval: real, k: int)
    ensures GridPoint(offset, interval, k + 1) == GridPoint(offset, interval, k) + interval
  {
    assert (k + 1) as real == k as real + 1.0;
  }

  // The first guess of periodic_recalc: the last point of a grid of at least MIN_INTERVAL
  // that is not after now.
  function FirstGuess(offset: real, interval: real, now: real): (t: real)
    requires interval > 0.0
    ensures t <= now < t + (if interval > MIN_INTERVAL then interval else MIN_INTERVAL)
    ensures interval >= MIN_INTERVAL ==> OnGrid(t, offset, interval)
  {
    var step := if interval > MIN_INTERVAL then interval else MIN_INTERVAL;
    var k := ((now - offset) / step).Floor;
    QuotientBounds(now - offset, step);
    assert offset + k as real * step == GridPoint(offset, step, k);
    offset + k as real * step
  }

  lemma QuotientBounds(x: real, d: real)
    requires d > 0.0
    ensures var k := (x / d).Floor; k as real * d <= x < k as real * d + d
  {
    var q := x / d;
    var k := q.Floor as real;
    var below, above := Times(q - k, d), Times(k + 1.0 - q, d);
    TimesMinus(q, k, d);
    TimesMinus(k + 1.0, q, d);
    TimesMinus(k + 1.0, k, d);
    QuotientTimes(x, d);
  }

  // The product, kept as a term of its own in the steps below.
  ghost function Times(a: real, d: real): (r: real)
    ensures a >= 0.0 && d > 0.0 ==> r >= 0.0
    ensures a > 0.0 && d > 0.0 ==> r > 0.0
  {
    a * d
  }

  lemma TimesMinus(a: real, b: real, d: real)
    ensures Times(a - b, d) == Times(a, d) - Times(b, d)
  {
  }

  lemma QuotientTimes(x: real, d: real)
    requires d != 0.0
    ensures Times(x / d, d) == x
  {
  }

  lemma MulMonotone(a: real, b: real, d: real)
    requires a <= b && d > 0.0
    ensures a * d <= b * d
    ensures a < b ==> a * d < b * d
  {
    TimesMinus(b, a, d);
  }

  lemma GridMonotone(offset: real, interval: real, k: int, k': int)
    requires interval > 0.0 && k <= k'
    ensures GridPoint(offset, interval, k) <= GridPoint(offset, interval, k')
  {
    MulMonotone(k as real, k' as real, interval);
  }

  lemma GridShift(t: real, offset: real, interval: real)
    ensures OnGrid(t + interval, offset, interval) <==> OnGrid(t, offset, interval)
  {
    if OnGrid(t, offset, interval) {
      var k: int :| t == GridPoint(offset, interval, k);
      GridStep(offset, interval, k);
      assert t + interval == GridPoint(offset, interval, k + 1);
    }
    if OnGrid(t + interval, offset, interval) {
      var k: int :| t + interval == GridPoint(offset, interval, k);
      GridStep(offset, interval, k - 1);
      assert t == GridPoint(offset, interval, k - 1);
    }
  }

  // t is the first point of the grid after now.
  ghost predicate FirstAfter(t: real, offset: real, interval: real, now: real) {
    && OnGrid(t, offset, interval)
    && now < t
    && forall k: int :: now < GridPoint(offset, interval, k) ==> t <= GridPoint(offset, interval, k)
  }

  /** A time after now that is at most one interval away is the first grid point after now
      as soon as it is on the grid at all. */
  lemma OnGridIsFirst(t: real, offset: real, interval: real, now: real)
    requires interval > 0.0 && now < t <= now + interval
    ensures FirstAfter(t, offset, interval, now) <==> OnGrid(t, offset, interval)
  {
    if OnGrid(t, offset, interval) {
      var k0: int :| t == GridPoint(offset, interval, k0);
      forall k: int | now < GridPoint(offset, interval, k)
        ensures t <= GridPoint(offset, interval, k)
      {
        if k < k0 {
          GridStep(offset, interval, k0 - 1);
          GridMonotone(offset, interval, k, k0 - 1);
        } else {
          GridMonotone(offset, interval, k0, k);
        }
      }
    }
  }

  // How many steps of d from t pass now.
  lemma StepsNeeded(t: real, now: real, d: real) returns (n: nat)
    requires d > 0.0 && t <= now
    ensures now < t + n as real * d
  {
    QuotientBounds(now - t, d);
    var k := ((now - t) / d).Floor;
    if k < 0 {
      MulMonotone((k + 1) as real, 0.0, d);
    }
    n := k + 1;
    assert n as real * d == k as real * d + d;
  }

  // What periodic_recalc promises of the new deadline.
  ghost predicate Recalculated(at: real, offset: real, interval: real, now: real)
    requires interval > 0.0
  {
    && now < at <= now + interval
    && (FirstAfter(at, offset, interval, now) <==> OnGrid(FirstGuess(offset, interval, now), offset, interval))
  }

  /** periodic_recalc: the deadline moves to after now by at most one interval.  It is the
      first grid point after now exactly if the first guess is on the grid, which SafeInterval
      characterises by the interval alone. */
  method PeriodicRecalc(w: Watcher, now: real)
    requires w.interval > 0.0
    modifies w`at
    ensures Recalculated(w.at, w.offset, w.interval, now)
  {
    var at := FirstGuess(w.offset, w.interval, now);
    ghost var guess := at;
    ghost var n := StepsNeeded(at, now, w.interval);
    while at <= now
      invariant now < at + n as real * w.interval
      invariant at <= now + w.interval
      invariant OnGrid(at, w.offset, w.interval) <==> OnGrid(guess, w.offset, w.interval)
      decreases n
    {
      var nat' := at + w.interval;
      GridShift(at, w.offset, w.interval);
      assert (n - 1) as real * w.interval == n as real * w.interval - w.interval;
      if nat' == at {  // never with exact addition
        at := now;
        break;
      }
      at := nat';
      n := n - 1;
    }
    OnGridIsFirst(at, w.offset, w.interval, now);
    w.at := at;
  }

  /** An interval is safe, whatever the time, exactly if it is at least MIN_INTERVAL or
      divides it. */
  lemma SafeInterval(offset: real, interval: real)
    requires interval > 0.0
    ensures (forall now :: OnGrid(FirstGuess(offset, interval, now), offset, interval)) <==>
            interval >= MIN_INTERVAL || exists j: int :: MIN_INTERVAL == GridPoint(0.0, interval, j)
  {
    if interval < MIN_INTERVAL {
      if j: int :| MIN_INTERVAL == GridPoint(0.0, interval, j) {
        forall now ensures OnGrid(FirstGuess(offset, interval, now), offset, interval) {
          DivisorKeepsGrid(offset, interval, now, j);
        }
      } else {
        GuessAtMinInterval(offset, interval);
        assert !OnGrid(FirstGuess(offset, interval, offset + MIN_INTERVAL), offset, interval);
      }
    }
  }

  lemma DivisorKeepsGrid(offset: real, interval: real, now: real, j: int)
    requires 0.0 < interval < MIN_INTERVAL == GridPoint(0.0, interval, j)
    ensures OnGrid(FirstGuess(offset, interval, now), offset, interval)
  {
    var k := ((now - offset) / MIN_INTERVAL).Floor;
    TimesAssociative(k, j, interval);
    assert FirstGuess(offset, interval, now) == GridPoint(offset, interval, k * j);
  }

  lemma TimesAssociative(k: int, j: int, d: real)
    ensures k as real * (j as real * d) == (k * j) as real * d
  {
    assert (k * j) as real == k as real * j as real;
  }

  lemma GuessAtMinInterval(offset: real, interval: real)
    requires 0.0 < interval < MIN_INTERVAL && forall j: int :: MIN_INTERVAL != GridPoint(0.0, interval, j)
    ensures !OnGrid(FirstGuess(offset, interval, offset + MIN_INTERVAL), offset, interval)
  {
    assert (offset + MIN_INTERVAL - offset) / MIN_INTERVAL == 1.0;
    assert FirstGuess(offset, interval, offset + MIN_INTERVAL) == offset + MIN_INTERVAL;
    forall j: int ensures offset + MIN_INTERVAL != GridPoint(offset, interval, j) {
      assert MIN_INTERVAL != GridPoint(0.0, interval, j);
    }
  }

  /** Below MIN_INTERVAL the grid can be missed: with an interval of 3/4 MIN_INTERVAL and
      now = MIN_INTERVAL the deadline after the first guess is 7/4 MIN_INTERVAL, while
      3/2 MIN_INTERVAL is a grid point after now. */
  lemma ShortIntervalMissesGrid()
    ensures var interval := 0.75 * MIN_INTERVAL;
            var now := MIN_INTERVAL;
            && FirstGuess(0.0, interval, now) == MIN_INTERVAL
            && !OnGrid(FirstGuess(0.0, interval, now), 0.0, interval)
            && now < GridPoint(0.0, interval, 2) < FirstGuess(0.0, interval, now) + interval
  {
    var interval := 0.75 * MIN_INTERVAL;
    var now := MIN_INTERVAL;
    var k := (now / MIN_INTERVAL).Floor;
    assert now / MIN_INTERVAL == 1.0;
    forall j: int ensures now != GridPoint(0.0, interval, j) {
      assert GridPoint(0.0, interval, j) == (3 * j) as real * (MIN_INTERVAL / 4.0);
      assert 3 * j != 4;
    }
  }

  // Where a periodic watcher is due next; `custom` holds what the reschedule callbacks of the
  // watchers that have one return.
  ghost predicate Due(at: real, w: Watcher, before: real, now: real, custom: map<Watcher, real>)
    reads w`interval, w`offset
  {
    if w in custom then at == custom[w]
    else if w.interval > 0.0 then Recalculated(at, w.offset, w.interval, now)
    else at == before
  }

  /** periodics_reschedule: every deadline is recalculated in place, and reheap then restores
      the heap of the same watchers. */
  method PeriodicsReschedule(heap: array<Anhe>, n: nat, now: real, custom: map<Watcher, real>, ghost ws: set<Watcher>)
    requires ValidHeap(heap, n, ws)
    requires forall w :: w in ws ==> w.interval >= 0.0
    modifies heap, ws`active, ws`at
    ensures ValidHeap(heap, n, ws)
    ensures forall w :: w in ws ==> Due(w.at, w, old(w.at), now, custom)
  {
    for i := HEAP0 to n + HEAP0
      invariant Indexed(heap, n, ws)
      invariant forall w {:trigger w in ws} :: w in ws ==>
        w.active == old(w.active) &&
        if w.active < i then Due(w.at, w, old(w.at), now, custom) else w.at == old(w.at)
    {
      var w := heap[i].w;
      if w in custom {
        w.at := custom[w];
      } else if w.interval != 0.0 {
        PeriodicRecalc(w, now);
      }
      heap[i] := Anhe(w.at, w);
    }
    ReHeap(heap, n, ws);
  }
}
