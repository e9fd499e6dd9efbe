/** Pinging in rounds: who is pinged while no selected connection can be written to. */
module PingRounds {

  datatype Sets<T(==)> = Sets(unpinged: set<T>, pinged: set<T>)

  /** One ping: of a connection that can be pinged and has not been in this round, a new round
      beginning when there is none. */
  predicate PingStep<T(==)>(s: Sets<T>, able: set<T>, chosen: T, s': Sets<T>) {
    && chosen in able
    && if able * s.unpinged != {} then
         chosen in s.unpinged && s' == Sets(s.unpinged - {chosen}, s.pinged + {chosen})
       else
         s' == Sets(s.unpinged + s.pinged - {chosen}, {chosen})
  }

  // Consecutive pings with the same connections.
  ghost predicate Pings<T>(states: seq<Sets<T>>, able: set<T>, chosen: seq<T>) {
    && |states| == |chosen| + 1
    && (forall i {:trigger chosen[i]} :: 0 <= i < |chosen| ==> PingStep(states[i], able, chosen[i], states[i + 1]))
  }

  predicate Split<T(==)>(s: Sets<T>, able: set<T>) {
    s.unpinged !! s.pinged && able <= s.unpinged + s.pinged
  }

  /** How many pings it takes at most until c is pinged. */
  function Turn<T(==)>(s: Sets<T>, able: set<T>, c: T): nat {
    |able * s.unpinged| + if c in s.unpinged then 0 else |able|
  }

  lemma TurnBound<T>(s: Sets<T>, able: set<T>, c: T)
    requires Split(s, able) && c in able
    ensures 0 < Turn(s, able, c) <= 2 * |able| - 1
  {
    var left := able * s.unpinged;
    if c in s.unpinged {
      assert c in left;
      Subset(left, able);
    } else {
      Subset(left, able - {c});
      Subset({c}, able);
    }
  }

  lemma {:induction false} Subset<T>(a: set<T>, b: set<T>)
    requires a <= b
    ensures |a| <= |b|
  {
    if a != {} {
      var x :| x in a;
      Subset(a - {x}, b - {x});
    }
  }

  /** Every ping of another connection brings c closer. */
  lemma TurnComes<T>(s: Sets<T>, able: set<T>, chosen: T, s': Sets<T>, c: T)
    requires Split(s, able) && PingStep(s, able, chosen, s') && c in able && c != chosen
    ensures Split(s', able) && Turn(s', able, c) == Turn(s, able, c) - 1
  {
    if able * s.unpinged != {} {
      assert able * s'.unpinged == able * s.unpinged - {chosen};
    } else {
      assert c !in s.unpinged by {
        assert c in s.unpinged ==> c in able * s.unpinged;
      }
      assert able * s'.unpinged == able - {chosen};
    }
  }

  lemma {:induction false} TurnAfter<T>(states: seq<Sets<T>>, able: set<T>, chosen: seq<T>, c: T, k: nat)
    requires Pings(states, able, chosen) && Split(states[0], able) && c in able && c !in chosen && k <= |chosen|
    ensures Split(states[k], able) && Turn(states[k], able, c) == Turn(states[0], able, c) - k
  {
    if k > 0 {
      TurnAfter(states, able, chosen, c, k - 1);
      TurnComes(states[k - 1], able, chosen[k - 1], states[k], c);
    }
  }

  /** Fairness: of n connections that can be pinged, any 2n - 1 consecutive pings reach each. */
  lemma EveryoneIsPinged<T>(states: seq<Sets<T>>, able: set<T>, chosen: seq<T>, c: T)
    requires Pings(states, able, chosen) && Split(states[0], able) && c in able
    requires |chosen| >= 2 * |able| - 1
    ensures c in chosen
  {
    if c !in chosen {
      var k := 2 * |able| - 1;
      TurnBound(states[0], able, c);
      TurnAfter(states, able, chosen, c, k);
      TurnBound(states[k], able, c);
    }
  }

  // ---------- With a running clock ----------

  /** One ping at time now, of a connection that has waited longest among those that may be
      chosen. */
  predicate TimedStep<T(==)>(s: Sets<T>, last: map<T, int>, able: set<T>, chosen: T, now: int, s': Sets<T>, last': map<T, int>) {
    && PingStep(s, able, chosen, s')
    && (forall d :: d in able ==> d in last)
    && (forall d :: d in able && (d in s.unpinged || able * s.unpinged == {}) ==> last[chosen] <= last[d])
    && last' == last[chosen := now]
  }

  /** Who has waited longest, in a round begun anew if need be, is a step of the rounds. */
  lemma LongestIsStep<T>(s: Sets<T>, last: map<T, int>, able: set<T>, chosen: T, now: int, round: Sets<T>)
    requires Split(s, able) && (forall d :: d in able ==> d in last)
    requires round == if able * s.unpinged == {} then Sets(s.unpinged + s.pinged, {}) else s
    requires chosen in able * round.unpinged && forall d :: d in able * round.unpinged ==> last[chosen] <= last[d]
    ensures TimedStep(s, last, able, chosen, now, Sets(round.unpinged - {chosen}, round.pinged + {chosen}), last[chosen := now])
  {
    assert forall d :: d in able && (d in s.unpinged || able * s.unpinged == {}) ==> d in able * round.unpinged;
  }

  // Consecutive pings, whatever the clock does.
  ghost predicate TimedSteps<T>(states: seq<Sets<T>>, lasts: seq<map<T, int>>, able: set<T>, chosen: seq<T>, times: seq<int>) {
    && |states| == |lasts| == |chosen| + 1 && |times| == |chosen|
    && (forall d :: d in able ==> d in lasts[0])
    && (forall i {:trigger chosen[i]} :: 0 <= i < |chosen| ==>
          TimedStep(states[i], lasts[i], able, chosen[i], times[i], states[i + 1], lasts[i + 1]))
  }

  // Each ping is later than all before it.
  ghost predicate Later<T>(lasts: seq<map<T, int>>, able: set<T>, times: seq<int>)
    requires |times| <= |lasts|
  {
    forall i, d {:trigger lasts[i], d in able} :: 0 <= i < |times| && d in able ==> d in lasts[i] && lasts[i][d] < times[i]
  }

  ghost predicate TimedPings<T>(states: seq<Sets<T>>, lasts: seq<map<T, int>>, able: set<T>, chosen: seq<T>, times: seq<int>) {
    TimedSteps(states, lasts, able, chosen, times) && Later(lasts, able, times)
  }

  lemma TimedStepsSnoc<T>(states: seq<Sets<T>>, lasts: seq<map<T, int>>, able: set<T>, chosen: seq<T>, times: seq<int>,
                          s: Sets<T>, last: map<T, int>, c: T, now: int)
    requires TimedSteps(states, lasts, able, chosen, times)
    requires TimedStep(states[|chosen|], lasts[|chosen|], able, c, now, s, last)
    ensures TimedSteps(states + [s], lasts + [last], able, chosen + [c], times + [now])
  {
    var n := |chosen|;
    forall i | 0 <= i < n + 1
      ensures TimedStep((states + [s])[i], (lasts + [last])[i], able, (chosen + [c])[i], (times + [now])[i],
                        (states + [s])[i + 1], (lasts + [last])[i + 1])
    {
      if i < n {
        assert (chosen + [c])[i] == chosen[i];
      }
    }
  }

  lemma LaterSnoc<T>(lasts: seq<map<T, int>>, able: set<T>, times: seq<int>, last: map<T, int>, now: int)
    requires |lasts| == |times| + 1 && Later(lasts, able, times)
    requires forall d :: d in able ==> d in lasts[|times|] && lasts[|times|][d] < now
    ensures Later(lasts + [last], able, times + [now])
  {
  }

  /** The 2n - 1 bound does not need the clock. */
  lemma EveryoneIsPingedAtLast<T>(states: seq<Sets<T>>, lasts: seq<map<T, int>>, able: set<T>, chosen: seq<T>, times: seq<int>, c: T)
    requires TimedSteps(states, lasts, able, chosen, times) && Split(states[0], able) && c in able
    requires |chosen| >= 2 * |able| - 1
    ensures c in chosen
  {
    EveryoneIsPinged(states, able, chosen, c);
  }

  // Those of able in group that have waited at least as long as c.
  ghost function Ahead<T>(last: map<T, int>, able: set<T>, group: set<T>, c: T): set<T>
    requires c in able && forall d :: d in able ==> d in last
  {
    set d | d in able && d in group && last[d] <= last[c]
  }

  /** How many pings it takes until c is pinged. */
  ghost function Place<T>(s: Sets<T>, last: map<T, int>, able: set<T>, c: T): nat
    requires c in able && forall d :: d in able ==> d in last
  {
    if c in s.unpinged then |Ahead(last, able, s.unpinged, c)|
    else |able * s.unpinged| + |Ahead(last, able, s.pinged, c)|
  }

  lemma PlaceBound<T>(s: Sets<T>, last: map<T, int>, able: set<T>, c: T)
    requires Split(s, able) && c in able && forall d :: d in able ==> d in last
    ensures 0 < Place(s, last, able, c) <= |able|
  {
    if c in s.unpinged {
      var ahead := Ahead(last, able, s.unpinged, c);
      Subset({c}, ahead);
      Subset(ahead, able);
    } else {
      var left, ahead := able * s.unpinged, Ahead(last, able, s.pinged, c);
      Subset({c}, ahead);
      assert left !! ahead;
      Subset(left + ahead, able);
    }
  }

  lemma PlaceComes<T>(s: Sets<T>, last: map<T, int>, able: set<T>, chosen: T, now: int, s': Sets<T>, last': map<T, int>, c: T)
    requires Split(s, able) && TimedStep(s, last, able, chosen, now, s', last') && c in able && c != chosen
    requires forall d :: d in able ==> last[d] < now
    ensures Split(s', able) && (forall d :: d in able ==> d in last')
    ensures Place(s', last', able, c) == Place(s, last, able, c) - 1
  {
    TurnComes(s, able, chosen, s', c);
    if able * s.unpinged == {} {
      assert c !in s.unpinged by {
        assert c in s.unpinged ==> c in able * s.unpinged;
      }
      assert Ahead(last', able, s'.unpinged, c) == Ahead(last, able, s.pinged, c) - {chosen};
    } else if c in s.unpinged {
      assert Ahead(last', able, s'.unpinged, c) == Ahead(last, able, s.unpinged, c) - {chosen};
    } else {
      assert able * s'.unpinged == able * s.unpinged - {chosen};
      assert Ahead(last', able, s'.pinged, c) == Ahead(last, able, s.pinged, c);
    }
  }

  lemma {:induction false} PlaceAfter<T>(states: seq<Sets<T>>, lasts: seq<map<T, int>>, able: set<T>, chosen: seq<T>,
                                         times: seq<int>, c: T, k: nat)
    requires TimedPings(states, lasts, able, chosen, times) && Split(states[0], able)
    requires c in able && c !in chosen && k <= |chosen|
    ensures Split(states[k], able) && forall d :: d in able ==> d in lasts[k]
    ensures Place(states[k], lasts[k], able, c) == Place(states[0], lasts[0], able, c) - k
  {
    if k > 0 {
      PlaceAfter(states, lasts, able, chosen, times, c, k - 1);
      PlaceComes(states[k - 1], lasts[k - 1], able, chosen[k - 1], times[k - 1], states[k], lasts[k], c);
    }
  }

  /** With a clock that moves on between pings, any n consecutive pings reach all n. */
  lemma RoundRobin<T>(states: seq<Sets<T>>, lasts: seq<map<T, int>>, able: set<T>, chosen: seq<T>, times: seq<int>, c: T)
    requires TimedPings(states, lasts, able, chosen, times) && Split(states[0], able) && c in able
    requires |chosen| >= |able|
    ensures c in chosen
  {
    if c !in chosen {
      PlaceBound(states[0], lasts[0], able, c);
      PlaceAfter(states, lasts, able, chosen, times, c, |able|);
      PlaceBound(states[|able|], lasts[|able|], able, c);
    }
  }
}
