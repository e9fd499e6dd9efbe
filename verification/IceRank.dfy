/** How ICE connections are ranked and which one is selected: the order behind
    IceController::sort_and_switch_connection and the priority of a candidate pair. */
module IceRank {
  import opened Basics

  // ---------- Pair priority ----------

  function Min(a: int, b: int): int {
    if a < b then a else b
  }

  function Max(a: int, b: int): int {
    if a > b then a else b
  }

  /** The formula of section 5.7.2 of RFC 5245. */
  function RfcPriority(g: U32, d: U32): nat {
    0x1_0000_0000 * Min(g, d) + 2 * Max(g, d) + if g > d then 1 else 0
  }

  /** IceConnection::priority, where the doubling is done in 32 bits. */
  function Priority(g: U32, d: U32): nat {
    0x1_0000_0000 * Min(g, d) + 2 * Max(g, d) % 0x1_0000_0000 + if g > d then 1 else 0
  }

  /** The two agree exactly if both candidate priorities are below 2^31. */
  lemma PriorityIsRfc(g: U32, d: U32)
    ensures Priority(g, d) == RfcPriority(g, d) <==> g < 0x8000_0000 && d < 0x8000_0000
  {
    var double := 2 * Max(g, d);
    if double < 0x1_0000_0000 {
      assert double % 0x1_0000_0000 == double;
    } else {
      assert double % 0x1_0000_0000 < double;
    }
  }

  /** The priority of a local candidate: the type preference of a host, the precedence of its
      address and its component, in separate bits. */
  function LocalPriority(precedence: nat, component: nat): (g: U32)
    requires precedence <= 60 && 1 <= component <= 2
    ensures 0 < g < 0x8000_0000
  {
    126 * 0x100_0000 + 0x100 * precedence + (256 - component)
  }

  /** The peer chooses the other priority.  Of two pairs with the same local candidate RFC 5245
      prefers the one with the larger remote priority; here it is preferred exactly unless only
      the larger one is 2^31 or more, and by no more than the smaller one, which is at least the
      local one. */
  lemma PriorityReversed(g: U32, d: U32, e: U32)
    requires g < 0x8000_0000 && d < e
    ensures RfcPriority(g, d) < RfcPriority(g, e)
    ensures Priority(g, d) < Priority(g, e) <==> !(g <= d < 0x8000_0000 <= e && e - 0x8000_0000 <= d)
    ensures Priority(g, d) > Priority(g, e) <==> g <= d < 0x8000_0000 <= e && e - 0x8000_0000 < d
  {
    Doubled(Max(g, d));
    Doubled(Max(g, e));
  }

  lemma Doubled(m: U32)
    ensures 2 * m % 0x1_0000_0000 == if m < 0x8000_0000 then 2 * m else 2 * m - 0x1_0000_0000
  {
    if m >= 0x8000_0000 {
      assert 2 * m == 0x1_0000_0000 + (2 * m - 0x1_0000_0000);
    }
  }

  /** As with any local candidate, when one peer takes its priority and another 2^31. */
  lemma PriorityWraps(precedence: nat, component: nat)
    requires precedence <= 60 && 1 <= component <= 2
    ensures var g := LocalPriority(precedence, component);
            RfcPriority(g, g) < RfcPriority(g, 0x8000_0000) && Priority(g, g) > Priority(g, 0x8000_0000)
  {
    var g := LocalPriority(precedence, component);
    PriorityReversed(g, g, 0x8000_0000);
  }

  /** Below it pairs are ordered by the smaller priority, then the larger one, then by whether
      the controlling side's is larger. */
  lemma PriorityOrder(g1: U32, d1: U32, g2: U32, d2: U32)
    requires Max(g1, d1) < 0x8000_0000 && Max(g2, d2) < 0x8000_0000
    ensures Priority(g1, d1) < Priority(g2, d2) <==>
            || Min(g1, d1) < Min(g2, d2)
            || (Min(g1, d1) == Min(g2, d2) && Max(g1, d1) < Max(g2, d2))
            || (Min(g1, d1) == Min(g2, d2) && Max(g1, d1) == Max(g2, d2) && g1 <= d1 && g2 > d2)
  {
    PriorityIsRfc(g1, d1);
    PriorityIsRfc(g2, d2);
  }

  // ---------- The order of connections ----------

  const WRITABLE := 0
  const WRITE_UNRELIABLE := 1
  const WRITE_INIT := 2
  const WRITE_TIMEOUT := 3

  // What the order looks at.
  datatype Rank = Rank(writeState: nat, receiving: bool, priority: nat, rtt: int)

  /** IceController::_compare_connections: 1 if a is better, -1 if b is. */
  function Compare(a: Rank, b: Rank): int {
    if a.writeState == WRITABLE && b.writeState != WRITABLE then 1
    else if a.writeState != WRITABLE && b.writeState == WRITABLE then -1
    else if a.writeState < b.writeState then 1
    else if a.writeState > b.writeState then -1
    else if a.receiving && !b.receiving then 1
    else if !a.receiving && b.receiving then -1
    else if a.priority > b.priority then 1
    else if a.priority < b.priority then -1
    else 0
  }

  /** The predicate handed to the sort. */
  predicate Before(a: Rank, b: Rank) {
    if Compare(a, b) != 0 then Compare(a, b) > 0 else a.rtt < b.rtt
  }

  predicate Same(a: Rank, b: Rank) {
    !Before(a, b) && !Before(b, a)
  }

  /** Write state first, then receiving, then the higher priority, then the shorter round trip. */
  lemma BeforeIsLexicographic(a: Rank, b: Rank)
    ensures Before(a, b) <==>
            || a.writeState < b.writeState
            || (a.writeState == b.writeState && a.receiving && !b.receiving)
            || (a.writeState == b.writeState && a.receiving == b.receiving && a.priority > b.priority)
            || (a.writeState == b.writeState && a.receiving == b.receiving && a.priority == b.priority && a.rtt < b.rtt)
    ensures Same(a, b) <==> a == b
  {
  }

  /** It is a strict weak order, as a sort needs. */
  lemma StrictWeakOrder(a: Rank, b: Rank, c: Rank)
    ensures !Before(a, a) && !(Before(a, b) && Before(b, a))
    ensures Before(a, b) && Before(b, c) ==> Before(a, c)
    ensures Same(a, b) && Same(b, c) ==> Same(a, c)
  {
    BeforeIsLexicographic(a, b);
    BeforeIsLexicographic(b, c);
    BeforeIsLexicographic(a, c);
  }

  // ---------- Stable sorting ----------

  predicate Ranked<T(==)>(s: seq<T>, rank: map<T, Rank>) {
    forall y :: y in s ==> y in rank
  }

  // x goes before the first that is not better.
  function InsertSorted<T(==)>(x: T, s: seq<T>, rank: map<T, Rank>): (r: seq<T>)
    requires x in rank && Ranked(s, rank)
    ensures multiset(r) == multiset{x} + multiset(s)
    ensures Ranked(r, rank)
  {
    if s == [] || !Before(rank[s[0]], rank[x]) then [x] + s
    else
      assert s == [s[0]] + s[1..];
      [s[0]] + InsertSorted(x, s[1..], rank)
  }

  /** What a stable sort gives. */
  function StableSort<T(==)>(s: seq<T>, rank: map<T, Rank>): (r: seq<T>)
    requires Ranked(s, rank)
    ensures multiset(r) == multiset(s)
    ensures Ranked(r, rank)
  {
    if s == [] then []
    else
      assert s == [s[0]] + s[1..];
      InsertSorted(s[0], StableSort(s[1..], rank), rank)
  }

  // The j-th does not go before the i-th.
  predicate InPlace<T(==)>(s: seq<T>, rank: map<T, Rank>, i: nat, j: nat)
    requires Ranked(s, rank) && i < |s| && j < |s|
  {
    !Before(rank[s[j]], rank[s[i]])
  }

  predicate Sorted<T(==)>(s: seq<T>, rank: map<T, Rank>)
    requires Ranked(s, rank)
  {
    forall i, j {:trigger InPlace(s, rank, i, j)} :: 0 <= i < j < |s| ==> InPlace(s, rank, i, j)
  }

  // None of s is better than x.
  predicate NoneBefore<T(==)>(s: seq<T>, x: T, rank: map<T, Rank>)
    requires x in rank && Ranked(s, rank)
  {
    forall y :: y in s ==> !Before(rank[y], rank[x])
  }

  lemma NotBeforeChains(a: Rank, b: Rank, c: Rank)
    requires !Before(b, a) && !Before(c, b)
    ensures !Before(c, a)
  {
    BeforeIsLexicographic(b, a);
    BeforeIsLexicographic(c, b);
    BeforeIsLexicographic(c, a);
  }

  lemma FirstIsBest<T>(s: seq<T>, rank: map<T, Rank>)
    requires Ranked(s, rank) && Sorted(s, rank) && s != []
    ensures NoneBefore(s, s[0], rank)
  {
    forall y | y in s ensures !Before(rank[y], rank[s[0]]) {
      var i :| 0 <= i < |s| && s[i] == y;
      if i == 0 {
        StrictWeakOrder(rank[y], rank[y], rank[y]);
      } else {
        assert InPlace(s, rank, 0, i);
      }
    }
  }

  lemma SortedTail<T>(s: seq<T>, rank: map<T, Rank>)
    requires Ranked(s, rank) && Sorted(s, rank) && s != []
    ensures Sorted(s[1..], rank)
  {
    forall i, j | 0 <= i < j < |s[1..]| ensures InPlace(s[1..], rank, i, j) {
      assert InPlace(s, rank, i + 1, j + 1);
    }
  }

  lemma SortedCons<T>(x: T, s: seq<T>, rank: map<T, Rank>)
    requires x in rank && Ranked(s, rank) && Sorted(s, rank) && NoneBefore(s, x, rank)
    ensures Sorted([x] + s, rank)
  {
    forall i, j | 0 <= i < j < |[x] + s| ensures InPlace([x] + s, rank, i, j) {
      if i > 0 {
        assert InPlace(s, rank, i - 1, j - 1);
      }
    }
  }

  lemma {:induction false} InsertSortedSorts<T>(x: T, s: seq<T>, rank: map<T, Rank>)
    requires x in rank && Ranked(s, rank) && Sorted(s, rank)
    ensures Sorted(InsertSorted(x, s, rank), rank)
  {
    if s == [] {
      return;
    }
    FirstIsBest(s, rank);
    SortedTail(s, rank);
    if !Before(rank[s[0]], rank[x]) {
      forall y | y in s ensures !Before(rank[y], rank[x]) {
        NotBeforeChains(rank[x], rank[s[0]], rank[y]);
      }
      SortedCons(x, s, rank);
    } else {
      var rest := InsertSorted(x, s[1..], rank);
      InsertSortedSorts(x, s[1..], rank);
      forall y | y in rest ensures !Before(rank[y], rank[s[0]]) {
        assert y in multiset(rest);
        BeforeIsLexicographic(rank[s[0]], rank[x]);
      }
      SortedCons(s[0], rest, rank);
    }
  }

  lemma {:induction false} StableSortSorts<T>(s: seq<T>, rank: map<T, Rank>)
    requires Ranked(s, rank)
    ensures Sorted(StableSort(s, rank), rank)
  {
    if s != [] {
      StableSortSorts(s[1..], rank);
      InsertSortedSorts(s[0], StableSort(s[1..], rank), rank);
    }
  }

  // Those of s that rank as k does, in order.
  function Class<T(==)>(s: seq<T>, rank: map<T, Rank>, k: Rank): seq<T>
    requires Ranked(s, rank)
  {
    if s == [] then [] else (if rank[s[0]] == k then [s[0]] else []) + Class(s[1..], rank, k)
  }

  lemma ClassCons<T>(x: T, s: seq<T>, rank: map<T, Rank>, k: Rank)
    requires x in rank && Ranked(s, rank)
    ensures Class([x] + s, rank, k) == (if rank[x] == k then [x] else []) + Class(s, rank, k)
  {
    assert ([x] + s)[1..] == s;
  }

  lemma {:induction false} InsertSortedStable<T>(x: T, s: seq<T>, rank: map<T, Rank>, k: Rank)
    requires x in rank && Ranked(s, rank)
    ensures Class(InsertSorted(x, s, rank), rank, k) == Class([x] + s, rank, k)
  {
    ClassCons(x, s, rank, k);
    if s != [] && Before(rank[s[0]], rank[x]) {
      var rest := InsertSorted(x, s[1..], rank);
      InsertSortedStable(x, s[1..], rank, k);
      ClassCons(s[0], rest, rank, k);
      ClassCons(x, s[1..], rank, k);
      StrictWeakOrder(rank[x], rank[x], rank[x]);
    }
  }

  /** Sorting keeps the order of connections that rank the same. */
  lemma {:induction false} StableSortStable<T>(s: seq<T>, rank: map<T, Rank>, k: Rank)
    requires Ranked(s, rank)
    ensures Class(StableSort(s, rank), rank, k) == Class(s, rank, k)
  {
    if s != [] {
      var rest := StableSort(s[1..], rank);
      StableSortStable(s[1..], rank, k);
      InsertSortedStable(s[0], rest, rank, k);
      ClassCons(s[0], rest, rank, k);
      ClassCons(s[0], s[1..], rank, k);
      assert [s[0]] + s[1..] == s;
    }
  }

  lemma {:induction false} ClassOf<T>(s: seq<T>, rank: map<T, Rank>, k: Rank)
    requires Ranked(s, rank)
    ensures Class(s, rank, k) != [] <==> exists y :: y in s && rank[y] == k
  {
    if s != [] {
      ClassOf(s[1..], rank, k);
      assert forall y {:trigger y in s} :: y in s ==> y == s[0] || y in s[1..];
    }
  }

  lemma SomeClass<T>(s: seq<T>, rank: map<T, Rank>)
    requires Ranked(s, rank) && s != []
    ensures exists k :: Class(s, rank, k) != []
  {
    assert Class(s, rank, rank[s[0]]) != [];
  }

  /** A stable sort has only one possible result: a sorted list with the same classes. */
  lemma {:induction false} StableSortUnique<T>(s: seq<T>, t: seq<T>, rank: map<T, Rank>)
    requires Ranked(s, rank) && Ranked(t, rank) && Sorted(s, rank) && Sorted(t, rank)
    requires forall k :: Class(s, rank, k) == Class(t, rank, k)
    ensures s == t
  {
    if s == [] {
      if t != [] {
        SomeClass(t, rank);
      }
    } else {
      var k := rank[s[0]];
      assert Class(s, rank, k) == Class(t, rank, k);
      ClassOf(t, rank, k);
      ClassOf(s, rank, rank[t[0]]);
      assert Class(t, rank, rank[t[0]]) == Class(s, rank, rank[t[0]]);
      SameFirstRank(s, t, rank);
      assert s[0] == Class(s, rank, k)[0] == Class(t, rank, k)[0] == t[0];
      forall k' ensures Class(s[1..], rank, k') == Class(t[1..], rank, k') {
        ClassTail(s, t, rank, k');
      }
      SortedTail(s, rank);
      SortedTail(t, rank);
      StableSortUnique(s[1..], t[1..], rank);
    }
  }

  lemma ClassTail<T>(s: seq<T>, t: seq<T>, rank: map<T, Rank>, k: Rank)
    requires Ranked(s, rank) && Ranked(t, rank) && s != [] && t != [] && s[0] == t[0]
    requires Class(s, rank, k) == Class(t, rank, k)
    ensures Class(s[1..], rank, k) == Class(t[1..], rank, k)
  {
    var first := if rank[s[0]] == k then [s[0]] else [];
    var a, b := Class(s[1..], rank, k), Class(t[1..], rank, k);
    assert a == (first + a)[|first|..] == (first + b)[|first|..] == b;
  }

  lemma SameFirstRank<T>(s: seq<T>, t: seq<T>, rank: map<T, Rank>)
    requires Ranked(s, rank) && Ranked(t, rank) && Sorted(s, rank) && Sorted(t, rank) && s != [] && t != []
    requires (exists y :: y in t && rank[y] == rank[s[0]]) && (exists y :: y in s && rank[y] == rank[t[0]])
    ensures rank[s[0]] == rank[t[0]]
  {
    FirstIsBest(s, rank);
    FirstIsBest(t, rank);
    BeforeIsLexicographic(rank[s[0]], rank[t[0]]);
    BeforeIsLexicographic(rank[t[0]], rank[s[0]]);
    StrictWeakOrder(rank[s[0]], rank[s[0]], rank[s[0]]);
  }

  // Only the ranks of the elements matter.
  lemma SortedAlso<T>(s: seq<T>, rank: map<T, Rank>, rank': map<T, Rank>)
    requires Ranked(s, rank) && Ranked(s, rank') && Sorted(s, rank)
    requires forall x :: x in s ==> rank[x] == rank'[x]
    ensures Sorted(s, rank')
  {
    forall i, j | 0 <= i < j < |s| ensures InPlace(s, rank', i, j) {
      assert InPlace(s, rank, i, j);
    }
  }

  lemma {:induction false} InsertSortedAlso<T>(x: T, s: seq<T>, rank: map<T, Rank>, rank': map<T, Rank>)
    requires x in rank && Ranked(s, rank) && x in rank' && Ranked(s, rank')
    requires rank[x] == rank'[x] && forall y :: y in s ==> rank[y] == rank'[y]
    ensures InsertSorted(x, s, rank) == InsertSorted(x, s, rank')
  {
    if s != [] {
      InsertSortedAlso(x, s[1..], rank, rank');
    }
  }

  lemma {:induction false} StableSortAlso<T>(s: seq<T>, rank: map<T, Rank>, rank': map<T, Rank>)
    requires Ranked(s, rank) && Ranked(s, rank')
    requires forall y :: y in s ==> rank[y] == rank'[y]
    ensures StableSort(s, rank) == StableSort(s, rank')
  {
    if s != [] {
      StableSortAlso(s[1..], rank, rank');
      assert forall y :: y in StableSort(s[1..], rank) ==> y in multiset(s[1..]);
      InsertSortedAlso(s[0], StableSort(s[1..], rank), rank, rank');
    }
  }

  /** Sorting twice is sorting once. */
  lemma SortedStays<T>(s: seq<T>, rank: map<T, Rank>)
    requires Ranked(s, rank)
    ensures StableSort(StableSort(s, rank), rank) == StableSort(s, rank)
  {
    var r := StableSort(s, rank);
    StableSortSorts(s, rank);
    StableSortSorts(r, rank);
    forall k ensures Class(StableSort(r, rank), rank, k) == Class(r, rank, k) {
      StableSortStable(r, rank, k);
    }
    StableSortUnique(StableSort(r, rank), r, rank);
  }

  // ---------- Switching ----------

  const MIN_IMPROVEMENT := 10

  predicate ReadyToSend(r: Rank) {
    r.writeState == WRITABLE || r.writeState == WRITE_UNRELIABLE
  }

  /** What sort_and_switch_connection returns, given the sorted connections. */
  function Switch<T(==)>(sorted: seq<T>, rank: map<T, Rank>, selected: Option<T>): (r: Option<T>)
    requires Ranked(sorted, rank) && (selected.Some? ==> selected.value in rank)
  {
    if sorted == [] || !ReadyToSend(rank[sorted[0]]) || selected == Some(sorted[0]) then None
    else if selected.None? then Some(sorted[0])
    else if rank[sorted[0]].rtt <= rank[selected.value].rtt - MIN_IMPROVEMENT then Some(sorted[0])
    else None
  }

  lemma TopIsBest<T>(conns: seq<T>, rank: map<T, Rank>)
    requires Ranked(conns, rank) && conns != []
    ensures var sorted := StableSort(conns, rank);
            sorted != [] && sorted[0] in conns && NoneBefore(conns, sorted[0], rank)
  {
    var sorted := StableSort(conns, rank);
    StableSortSorts(conns, rank);
    assert |sorted| == |multiset(sorted)| == |multiset(conns)| == |conns|;
    assert sorted[0] in multiset(sorted);
    FirstIsBest(sorted, rank);
    forall y | y in conns ensures !Before(rank[y], rank[sorted[0]]) {
      assert y in multiset(sorted);
    }
  }

  /** A connection is switched to only if none is better, it can be sent on, and it is at
      least 10 ms faster than the selected one, if there is one. */
  lemma SwitchImproves<T>(conns: seq<T>, rank: map<T, Rank>, selected: Option<T>)
    requires Ranked(conns, rank) && (selected.Some? ==> selected.value in rank)
    ensures var r := Switch(StableSort(conns, rank), rank, selected);
            r.Some? ==>
              && r.value in conns && NoneBefore(conns, r.value, rank) && ReadyToSend(rank[r.value])
              && r != selected
              && (selected.Some? ==> rank[r.value].rtt <= rank[selected.value].rtt - MIN_IMPROVEMENT)
  {
    if conns != [] {
      TopIsBest(conns, rank);
    }
  }

  /** Asked again after its answer was followed, with nothing changed, it has none. */
  lemma SwitchSettles<T>(conns: seq<T>, rank: map<T, Rank>, selected: Option<T>)
    requires Ranked(conns, rank) && (selected.Some? ==> selected.value in rank)
    ensures var sorted := StableSort(conns, rank);
            var r := Switch(sorted, rank, selected);
            Switch(StableSort(sorted, rank), rank, if r.Some? then r else selected) == None
  {
    SortedStays(conns, rank);
  }

  /** The round trip alone decides against a switch: whatever the other connections, one that
      timed out stays selected, while some connection can be sent on, exactly if the best is
      not MIN_IMPROVEMENT faster. */
  lemma TimedOutStaysSelected<T>(conns: seq<T>, rank: map<T, Rank>, dead: T, alive: T)
    requires Ranked(conns, rank) && dead in rank && rank[dead].writeState == WRITE_TIMEOUT
    requires alive in conns && ReadyToSend(rank[alive])
    ensures var sorted := StableSort(conns, rank);
            && sorted != []
            && (Switch(sorted, rank, Some(dead)) == None <==>
                rank[sorted[0]].rtt > rank[dead].rtt - MIN_IMPROVEMENT)
  {
    TopIsBest(conns, rank);
    BeforeIsLexicographic(rank[alive], rank[StableSort(conns, rank)[0]]);
  }

  /** Such as one that is 9 ms slower than a connection that can be written to. */
  lemma TimedOutBesideWritable<T>(dead: T, alive: T)
    requires dead != alive
    ensures var rank := map[dead := Rank(WRITE_TIMEOUT, false, 1, 100), alive := Rank(WRITABLE, true, 1, 91)];
            var sorted := StableSort([dead, alive], rank);
            sorted[0] == alive && Switch(sorted, rank, Some(dead)) == None
  {
    var rank := map[dead := Rank(WRITE_TIMEOUT, false, 1, 100), alive := Rank(WRITABLE, true, 1, 91)];
    TopIsBest([dead, alive], rank);
    assert Before(rank[alive], rank[dead]);
    assert alive in [dead, alive];
  }
}
