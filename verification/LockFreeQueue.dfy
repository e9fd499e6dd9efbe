/** The queue between one producing and one consuming thread: produce and consume as
    interleaved single accesses to shared memory, with nodes that are freed and whose addresses
    are used again. */
module LockFreeQueue {
  import opened Basics

  type Addr = nat

  datatype Node<T> = Node(value: T, next: Option<Addr>)

  // Where the producer is in produce.
  datatype Producer =
    | Waiting
    | Link(node: Addr)      // about to store node in last->next
    | Publish               // about to advance last
    | CountUp               // about to increment the size
    | Trim                  // about to compare divider with first
    | Unlink                // they differed; about to advance first
    | Free(node: Addr)      // about to delete node

  // Where the consumer is in consume.
  datatype Consumer<T> =
    | Resting
    | Compare               // about to compare divider with last
    | LoadNext              // they differed; about to read divider->next
    | LoadValue(node: Addr) // about to read node's value
    | Advance(result: T)    // about to advance divider
    | CountDown             // about to decrement the size

  datatype State<T> = State(
    heap: map<Addr, Node<T>>,
    first: Addr,
    divider: Addr,
    last: Addr,
    size: int,
    producer: Producer,
    consumer: Consumer<T>,
    produced: seq<T>,   // history: what last has advanced over
    consumed: seq<T>)   // history: the results of what divider has advanced over

  ghost predicate Init<T(!new)>(s: State<T>) {
    && s.heap.Keys == {s.first} && s.heap[s.first].next == None
    && s.first == s.divider == s.last
    && s.size == 0 && s.producer == Waiting && s.consumer == Resting
    && s.produced == s.consumed == []
  }

  // ---------- The steps ----------

  datatype Step<T> =
    | Produce(t: T, node: Addr)  // produce(t) is called and gets memory at node
    | ProducerStep
    | Consume                    // consume is called
    | ConsumerStep

  /** The address is of a live node whose next pointer is not null. */
  predicate HasNext<T>(s: State<T>, a: Addr) {
    a in s.heap && s.heap[a].next.Some?
  }

  /** One step; None is an access to memory that is not allocated, or through null. */
  function ProducerNext<T>(s: State<T>): Option<State<T>>
    requires s.producer != Waiting
  {
    match s.producer
    case Link(node) =>
      if s.last !in s.heap then None
      else Some(s.(heap := s.heap[s.last := s.heap[s.last].(next := Some(node))], producer := Publish))
    case Publish =>
      if !HasNext(s, s.last) || s.heap[s.last].next.value !in s.heap then None
      else
        var last := s.heap[s.last].next.value;
        Some(s.(last := last, producer := CountUp, produced := s.produced + [s.heap[last].value]))
    case CountUp => Some(s.(size := s.size + 1, producer := Trim))
    case Trim => Some(s.(producer := if s.divider != s.first then Unlink else Waiting))
    case Unlink =>
      if !HasNext(s, s.first) then None
      else Some(s.(first := s.heap[s.first].next.value, producer := Free(s.first)))
    case Free(node) =>
      if node !in s.heap then None
      else Some(s.(heap := map a | a in s.heap && a != node :: s.heap[a], producer := Trim))
  }

  function ConsumerNext<T>(s: State<T>): Option<State<T>>
    requires s.consumer != Resting
  {
    match s.consumer
    case Compare => Some(s.(consumer := if s.divider != s.last then LoadNext else Resting))
    case LoadNext =>
      if !HasNext(s, s.divider) then None
      else Some(s.(consumer := LoadValue(s.heap[s.divider].next.value)))
    case LoadValue(node) =>
      if node !in s.heap then None
      else Some(s.(consumer := Advance(s.heap[node].value)))
    case Advance(result) =>
      if !HasNext(s, s.divider) then None
      else Some(s.(divider := s.heap[s.divider].next.value, consumer := CountDown, consumed := s.consumed + [result]))
    case CountDown => Some(s.(size := s.size - 1, consumer := Resting))
  }

  // A thread makes one call at a time, and memory is given out only if it is free.
  predicate Enabled<T>(s: State<T>, step: Step<T>) {
    match step
    case Produce(_, node) => s.producer == Waiting && node !in s.heap
    case ProducerStep => s.producer != Waiting
    case Consume => s.consumer == Resting
    case ConsumerStep => s.consumer != Resting
  }

  function Next<T>(s: State<T>, step: Step<T>): Option<State<T>>
    requires Enabled(s, step)
  {
    match step
    case Produce(t, node) => Some(s.(heap := s.heap[node := Node(t, None)], producer := Link(node)))
    case ProducerStep => ProducerNext(s)
    case Consume => Some(s.(consumer := Compare))
    case ConsumerStep => ConsumerNext(s)
  }

  // ---------- The invariant ----------

  // All the nodes there ever were, in order; those from position f on are still linked, and
  // pos finds them.  Their addresses may have been those of earlier nodes.
  datatype Chain = Chain(nodes: seq<Addr>, pos: map<Addr, nat>, f: nat)

  predicate Linked(c: Chain, a: Addr) {
    a in c.pos && c.f <= c.pos[a] < |c.nodes| && c.nodes[c.pos[a]] == a
  }

  // The nodes from position f on are allocated, and where pos says.
  ghost predicate Located<T>(heap: map<Addr, Node<T>>, nodes: seq<Addr>, pos: map<Addr, nat>, f: nat) {
    forall i {:trigger nodes[i] in heap} {:trigger pos[nodes[i]]} :: f <= i < |nodes| ==>
      nodes[i] in heap && nodes[i] in pos && pos[nodes[i]] == i
  }

  // Each of them points to the next.
  ghost predicate Chained<T>(heap: map<Addr, Node<T>>, nodes: seq<Addr>, f: nat) {
    forall i {:trigger heap[nodes[i]]} :: f <= i < |nodes| ==>
      nodes[i] in heap && heap[nodes[i]].next == if i + 1 < |nodes| then Some(nodes[i + 1]) else None
  }

  // Those after the first hold what was produced.
  ghost predicate Holding<T>(heap: map<Addr, Node<T>>, nodes: seq<Addr>, f: nat, produced: seq<T>) {
    forall i {:trigger heap[nodes[i]]} :: f < i <= |produced| && i < |nodes| ==>
      nodes[i] in heap && heap[nodes[i]].value == produced[i - 1]
  }

  // first, divider and last are the nodes at positions f, d and l.
  ghost predicate Order<T>(heap: map<Addr, Node<T>>, first: Addr, divider: Addr, last: Addr, produced: seq<T>,
                           d: nat, c: Chain) {
    && c.f <= d <= |produced| < |c.nodes|
    && c.nodes[c.f] == first && c.nodes[d] == divider && c.nodes[|produced|] == last
    && Located(heap, c.nodes, c.pos, c.f) && Chained(heap, c.nodes, c.f) && Holding(heap, c.nodes, c.f, produced)
  }

  predicate Owns(p: Producer, a: Addr) {
    (p.Link? || p.Free?) && p.node == a
  }

  // What is allocated is linked, or is the producer's node: not yet linked, or unlinked and
  // not yet freed.
  ghost predicate Allocated<T>(heap: map<Addr, Node<T>>, p: Producer, c: Chain) {
    && (p.Link? ==> p.node in heap && heap[p.node].next == None)
    && (forall a {:trigger a in heap} :: a in heap <==> Linked(c, a) || Owns(p, a))
    && (p.Link? || p.Free? ==> !Linked(c, p.node))
  }

  predicate ProducerOk(p: Producer, l: nat, d: nat, c: Chain) {
    && |c.nodes| == (if p == Publish then l + 2 else l + 1)
    && (p == Unlink ==> c.f < d)
  }

  predicate ConsumerOk<T(==)>(q: Consumer<T>, produced: seq<T>, d: nat, c: Chain) {
    match q
    case LoadNext => d < |produced|
    case LoadValue(node) => d < |produced| && d + 1 < |c.nodes| && node == c.nodes[d + 1]
    case Advance(result) => d < |produced| && result == produced[d]
    case _ => true
  }

  ghost predicate Counts<T>(s: State<T>) {
    s.size == |s.produced| - |s.consumed| - (if s.producer == CountUp then 1 else 0) +
              (if s.consumer == CountDown then 1 else 0)
  }

  ghost predicate Inv<T>(s: State<T>, c: Chain) {
    var d := |s.consumed|;
    && Order(s.heap, s.first, s.divider, s.last, s.produced, d, c)
    && Allocated(s.heap, s.producer, c)
    && ProducerOk(s.producer, |s.produced|, d, c) && ConsumerOk(s.consumer, s.produced, d, c)
    && s.consumed == s.produced[..d] && Counts(s)
  }

  lemma InitInv<T(!new)>(s: State<T>)
    requires Init(s)
    ensures Inv(s, Chain([s.first], map[s.first := 0], 0))
  {
  }

  // ---------- Every step keeps the invariant ----------

  // What the producer's next step does to the chain.
  function ChainNext<T>(s: State<T>, c: Chain): Chain {
    match s.producer
    case Link(node) => Chain(c.nodes + [node], c.pos[node := |c.nodes|], c.f)
    case Unlink => Chain(c.nodes, c.pos, c.f + 1)
    case _ => c
  }

  lemma ProduceInv<T>(s: State<T>, t: T, node: Addr, c: Chain)
    requires Inv(s, c) && Enabled(s, Produce(t, node))
    ensures Inv(Next(s, Produce(t, node)).value, c)
  {
    var s' := Next(s, Produce(t, node)).value;
    AllLinked(s.heap, s.first, s.divider, s.last, s.produced, |s.consumed|, c);
    assert Order(s'.heap, s.first, s.divider, s.last, s.produced, |s.consumed|, c);
    assert Allocated(s'.heap, s'.producer, c);
  }

  lemma AllLinked<T>(heap: map<Addr, Node<T>>, first: Addr, divider: Addr, last: Addr, produced: seq<T>, d: nat, c: Chain)
    requires Order(heap, first, divider, last, produced, d, c)
    ensures forall i {:trigger c.nodes[i]} :: c.f <= i < |c.nodes| ==> c.nodes[i] in heap && Linked(c, c.nodes[i])
  {
    forall i {:trigger c.nodes[i]} | c.f <= i < |c.nodes| ensures c.nodes[i] in heap && Linked(c, c.nodes[i]) {
      assert c.nodes[i] in heap;
    }
  }

  lemma SameOnlyThere<T>(heap: map<Addr, Node<T>>, first: Addr, divider: Addr, last: Addr, produced: seq<T>, d: nat, c: Chain)
    requires Order(heap, first, divider, last, produced, d, c)
    ensures first == divider <==> c.f == d
    ensures divider == last <==> d == |produced|
  {
    assert first in heap && c.nodes[d] in heap && c.nodes[|produced|] in heap;
    assert c.pos[c.nodes[c.f]] == c.f && c.pos[c.nodes[d]] == d && c.pos[c.nodes[|produced|]] == |produced|;
  }

  // Linking and unlinking change what is linked by one node.
  lemma LinkedNode(c: Chain, node: Addr)
    requires c.f <= |c.nodes| && !Linked(c, node)
    ensures var c' := Chain(c.nodes + [node], c.pos[node := |c.nodes|], c.f);
            forall a {:trigger Linked(c', a)} :: Linked(c', a) <==> Linked(c, a) || a == node
  {
  }

  lemma UnlinkedNode(c: Chain)
    requires c.f < |c.nodes| && c.nodes[c.f] in c.pos && c.pos[c.nodes[c.f]] == c.f
    ensures forall a {:trigger Linked(Chain(c.nodes, c.pos, c.f + 1), a)} ::
      Linked(Chain(c.nodes, c.pos, c.f + 1), a) <==> Linked(c, a) && a != c.nodes[c.f]
  {
  }

  lemma LinkOrder<T>(heap: map<Addr, Node<T>>, first: Addr, divider: Addr, last: Addr, produced: seq<T>, d: nat,
                     c: Chain, node: Addr)
    requires Order(heap, first, divider, last, produced, d, c) && |c.nodes| == |produced| + 1
    requires node in heap && heap[node].next == None && !Linked(c, node)
    ensures Order(heap[last := heap[last].(next := Some(node))], first, divider, last, produced, d,
                  Chain(c.nodes + [node], c.pos[node := |c.nodes|], c.f))
  {
    assert forall i {:trigger c.nodes[i]} :: c.f <= i < |c.nodes| ==> c.nodes[i] != node;
  }

  lemma PublishOrder<T>(heap: map<Addr, Node<T>>, first: Addr, divider: Addr, last: Addr, produced: seq<T>, d: nat, c: Chain)
    requires Order(heap, first, divider, last, produced, d, c) && |c.nodes| == |produced| + 2
    ensures var next := c.nodes[|produced| + 1];
            && heap[last].next == Some(next) && next in heap
            && Order(heap, first, divider, next, produced + [heap[next].value], d, c)
  {
    assert heap[c.nodes[|produced|]].next == Some(c.nodes[|produced| + 1]);
  }

  lemma WithoutFirst<T>(heap: map<Addr, Node<T>>, nodes: seq<Addr>, pos: map<Addr, nat>, f: nat, produced: seq<T>)
    requires f + 1 < |nodes|
    requires Located(heap, nodes, pos, f) && Chained(heap, nodes, f) && Holding(heap, nodes, f, produced)
    ensures nodes[f] in heap && heap[nodes[f]].next == Some(nodes[f + 1])
    ensures Located(heap, nodes, pos, f + 1) && Chained(heap, nodes, f + 1) && Holding(heap, nodes, f + 1, produced)
  {
    assert nodes[f] in heap;
    assert heap[nodes[f]].next == Some(nodes[f + 1]);
  }

  lemma UnlinkOrder<T>(heap: map<Addr, Node<T>>, first: Addr, divider: Addr, last: Addr, produced: seq<T>, d: nat, c: Chain)
    requires Order(heap, first, divider, last, produced, d, c) && c.f < d
    ensures heap[first].next == Some(c.nodes[c.f + 1])
    ensures Order(heap, c.nodes[c.f + 1], divider, last, produced, d, Chain(c.nodes, c.pos, c.f + 1))
  {
    WithoutFirst(heap, c.nodes, c.pos, c.f, produced);
  }

  lemma LinkInv<T>(s: State<T>, c: Chain)
    requires Inv(s, c) && s.producer.Link?
    ensures ProducerNext(s).Some? && Inv(ProducerNext(s).value, ChainNext(s, c))
  {
    var node := s.producer.node;
    LinkOrder(s.heap, s.first, s.divider, s.last, s.produced, |s.consumed|, c, node);
    LinkedNode(c, node);
    assert Allocated(ProducerNext(s).value.heap, Publish, ChainNext(s, c));
  }

  lemma PublishInv<T>(s: State<T>, c: Chain)
    requires Inv(s, c) && s.producer == Publish
    ensures ProducerNext(s).Some? && Inv(ProducerNext(s).value, c)
  {
    PublishOrder(s.heap, s.first, s.divider, s.last, s.produced, |s.consumed|, c);
    assert ProducerNext(s).value.produced[..|s.consumed|] == s.produced[..|s.consumed|];
  }

  lemma UnlinkAllocated<T>(heap: map<Addr, Node<T>>, c: Chain)
    requires Allocated(heap, Unlink, c)
    requires c.f < |c.nodes| && c.nodes[c.f] in c.pos && c.pos[c.nodes[c.f]] == c.f
    ensures Allocated(heap, Free(c.nodes[c.f]), Chain(c.nodes, c.pos, c.f + 1))
  {
    UnlinkedNode(c);
  }

  lemma UnlinkInv<T>(s: State<T>, c: Chain)
    requires Inv(s, c) && s.producer == Unlink
    ensures ProducerNext(s).Some? && Inv(ProducerNext(s).value, ChainNext(s, c))
  {
    UnlinkOrder(s.heap, s.first, s.divider, s.last, s.produced, |s.consumed|, c);
    var s' := s.(first := c.nodes[c.f + 1], producer := Free(s.first));
    assert ProducerNext(s) == Some(s');
    assert c.nodes[c.f] == s.first && c.nodes[c.f] in c.pos && c.pos[c.nodes[c.f]] == c.f;
    UnlinkAllocated(s.heap, c);
    assert ConsumerOk(s.consumer, s.produced, |s.consumed|, Chain(c.nodes, c.pos, c.f + 1));
  }

  // A node that is not linked can be freed.
  lemma FreeOrder<T>(heap: map<Addr, Node<T>>, first: Addr, divider: Addr, last: Addr, produced: seq<T>, d: nat,
                     c: Chain, node: Addr)
    requires Order(heap, first, divider, last, produced, d, c) && !Linked(c, node)
    ensures Order(map a | a in heap && a != node :: heap[a], first, divider, last, produced, d, c)
  {
    AllLinked(heap, first, divider, last, produced, d, c);
  }

  lemma FreeInv<T>(s: State<T>, c: Chain)
    requires Inv(s, c) && s.producer.Free?
    ensures ProducerNext(s).Some? && Inv(ProducerNext(s).value, c)
  {
    var node := s.producer.node;
    FreeOrder(s.heap, s.first, s.divider, s.last, s.produced, |s.consumed|, c, node);
    var heap := map a | a in s.heap && a != node :: s.heap[a];
    assert Allocated(heap, Trim, c);
    assert ProducerNext(s) == Some(s.(heap := heap, producer := Trim));
  }

  lemma AdvanceOrder<T>(heap: map<Addr, Node<T>>, first: Addr, divider: Addr, last: Addr, produced: seq<T>, d: nat, c: Chain)
    requires Order(heap, first, divider, last, produced, d, c) && d < |produced|
    ensures var next := c.nodes[d + 1];
            && heap[divider].next == Some(next) && next in heap && heap[next].value == produced[d]
            && Order(heap, first, next, last, produced, d + 1, c)
  {
    assert heap[c.nodes[d]].next == Some(c.nodes[d + 1]);
  }

  lemma ProducerNextInv<T>(s: State<T>, c: Chain)
    requires Inv(s, c) && s.producer != Waiting
    ensures ProducerNext(s).Some? && Inv(ProducerNext(s).value, ChainNext(s, c))
  {
    match s.producer {
      case Link(_) => LinkInv(s, c);
      case Publish => PublishInv(s, c);
      case Unlink => UnlinkInv(s, c);
      case Free(_) => FreeInv(s, c);
      case _ =>
    }
  }

  lemma ConsumerNextInv<T>(s: State<T>, c: Chain)
    requires Inv(s, c) && s.consumer != Resting
    ensures ConsumerNext(s).Some? && Inv(ConsumerNext(s).value, c)
  {
    var d := |s.consumed|;
    if d < |s.produced| {
      AdvanceOrder(s.heap, s.first, s.divider, s.last, s.produced, d, c);
      assert s.produced[..d + 1] == s.produced[..d] + [s.produced[d]];
    }
  }

  /** No step of either thread, in any reachable state, touches freed memory or follows a null
      pointer, and each keeps the invariant. */
  lemma NextInv<T>(s: State<T>, step: Step<T>, c: Chain) returns (c': Chain)
    requires Inv(s, c) && Enabled(s, step)
    ensures Next(s, step).Some? && Inv(Next(s, step).value, c')
  {
    c' := c;
    match step {
      case Produce(t, node) =>
        ProduceInv(s, t, node, c);
      case ProducerStep =>
        ProducerNextInv(s, c);
        c' := ChainNext(s, c);
      case Consume =>
      case ConsumerStep =>
        ConsumerNextInv(s, c);
    }
  }

  // ---------- Whole runs ----------

  /** The state after the steps; None if one of them is not possible or faults. */
  function Run<T>(s: State<T>, steps: seq<Step<T>>): Option<State<T>> {
    if steps == [] then Some(s)
    else
      var before := Run(s, steps[..|steps| - 1]);
      var step := steps[|steps| - 1];
      if before.None? || !Enabled(before.value, step) then None else Next(before.value, step)
  }

  // Each step is one its thread can make at that point.
  predicate Schedule<T>(s: State<T>, steps: seq<Step<T>>) {
    if steps == [] then true
    else
      var before := Run(s, steps[..|steps| - 1]);
      Schedule(s, steps[..|steps| - 1]) && (before.Some? ==> Enabled(before.value, steps[|steps| - 1]))
  }

  lemma {:induction false} RunInv<T(!new)>(s: State<T>, steps: seq<Step<T>>) returns (c: Chain)
    requires Init(s) && Schedule(s, steps)
    ensures Run(s, steps).Some? && Inv(Run(s, steps).value, c)
  {
    if steps == [] {
      InitInv(s);
      c := Chain([s.first], map[s.first := 0], 0);
    } else {
      c := RunInv(s, steps[..|steps| - 1]);
      c := NextInv(Run(s, steps[..|steps| - 1]).value, steps[|steps| - 1], c);
    }
  }

  // ---------- What the queue holds ----------

  // The values of the n nodes after a, as long as there are that many, and where they end.
  function Follow<T>(heap: map<Addr, Node<T>>, a: Addr, n: nat): Option<(seq<T>, Addr)> {
    if n == 0 then Some(([], a))
    else
      var before := Follow(heap, a, n - 1);
      if before.None? || before.value.1 !in heap || heap[before.value.1].next.None? then None
      else
        var next := heap[before.value.1].next.value;
        if next !in heap then None else Some((before.value.0 + [heap[next].value], next))
  }

  // From divider on the links lead through the values that wait, to last.
  lemma {:induction false} FollowOrder<T>(heap: map<Addr, Node<T>>, first: Addr, divider: Addr, last: Addr,
                                          produced: seq<T>, d: nat, c: Chain, n: nat)
    requires Order(heap, first, divider, last, produced, d, c) && d + n <= |produced|
    ensures Follow(heap, divider, n) == Some((produced[d..d + n], c.nodes[d + n]))
  {
    if n == 0 {
      assert produced[d..d + n] == [];
    } else {
      var k := d + n - 1;
      FollowOrder(heap, first, divider, last, produced, d, c, n - 1);
      assert Follow(heap, divider, n - 1) == Some((produced[d..k], c.nodes[k]));
      assert heap[c.nodes[k]].next == Some(c.nodes[k + 1]);
      assert heap[c.nodes[k + 1]].value == produced[k];
      assert produced[d..d + n] == produced[d..k] + [produced[k]];
    }
  }

  // The arguments of the calls of produce.
  function Calls<T>(steps: seq<Step<T>>): seq<T> {
    if steps == [] then []
    else
      var last := steps[|steps| - 1];
      Calls(steps[..|steps| - 1]) + if last.Produce? then [last.t] else []
  }

  // The value of a call that has not yet advanced last.
  function InFlight<T>(s: State<T>): seq<T> {
    match s.producer
    case Link(node) => if node in s.heap then [s.heap[node].value] else []
    case Publish =>
      if HasNext(s, s.last) && s.heap[s.last].next.value in s.heap then [s.heap[s.heap[s.last].next.value].value] else []
    case _ => []
  }

  lemma NextInFlight<T>(s: State<T>, step: Step<T>, c: Chain)
    requires Inv(s, c) && Enabled(s, step) && Next(s, step).Some?
    ensures var s' := Next(s, step).value;
            s'.produced + InFlight(s') == s.produced + InFlight(s) + if step.Produce? then [step.t] else []
  {
    if step == ProducerStep && s.producer.Link? {
      assert s.producer.node in s.heap;
    } else if step == ProducerStep && s.producer == Publish {
      PublishOrder(s.heap, s.first, s.divider, s.last, s.produced, |s.consumed|, c);
    }
  }

  lemma {:induction false} RunCalls<T(!new)>(s: State<T>, steps: seq<Step<T>>)
    requires Init(s) && Schedule(s, steps) && Run(s, steps).Some?
    ensures var e := Run(s, steps).value; e.produced + InFlight(e) == Calls(steps)
  {
    if steps != [] {
      var before := steps[..|steps| - 1];
      var c := RunInv(s, before);
      RunCalls(s, before);
      NextInFlight(Run(s, before).value, steps[|steps| - 1], c);
    }
  }

  // What was consumed is the first of what was produced, and the links lead from divider
  // through exactly the rest, to last.
  ghost predicate Holds<T>(e: State<T>) {
    && e.consumed <= e.produced
    && (e.divider == e.last <==> e.consumed == e.produced)
    && Follow(e.heap, e.divider, |e.produced| - |e.consumed|) == Some((e.produced[|e.consumed|..], e.last))
  }

  lemma InvHolds<T>(e: State<T>, c: Chain)
    requires Inv(e, c)
    ensures Holds(e)
  {
    var d, n := |e.consumed|, |e.produced| - |e.consumed|;
    SameOnlyThere(e.heap, e.first, e.divider, e.last, e.produced, d, c);
    FollowOrder(e.heap, e.first, e.divider, e.last, e.produced, d, c, n);
    assert e.produced[d..d + n] == e.produced[d..];
  }

  /** In every interleaving: no access to freed memory; what was published are the arguments of
      produce in order, but for one call under way; the results of consume are a prefix of
      that; and the links lead from divider through exactly the values not yet consumed, to
      last. */
  lemma QueueIsSafe<T(!new)>(s: State<T>, steps: seq<Step<T>>)
    requires Init(s) && Schedule(s, steps)
    ensures Run(s, steps).Some?
    ensures var e := Run(s, steps).value;
            e.produced + InFlight(e) == Calls(steps) && Holds(e)
  {
    var c := RunInv(s, steps);
    RunCalls(s, steps);
    InvHolds(Run(s, steps).value, c);
  }

  /** The size is never more than one off; it is right exactly if the producer is about to count
      up just when the consumer is about to count down, and negative exactly if a value was
      consumed, and nothing is left, before the producer counted it. */
  lemma SizeIsExact<T(!new)>(s: State<T>, steps: seq<Step<T>>)
    requires Init(s) && Schedule(s, steps)
    ensures Run(s, steps).Some?
    ensures var e := Run(s, steps).value;
            var waiting := |e.produced| - |e.consumed|;
            && waiting - 1 <= e.size <= waiting + 1
            && (e.size == waiting <==> (e.producer == CountUp <==> e.consumer == CountDown))
            && (e.size < 0 <==> e.producer == CountUp && e.consumer != CountDown && e.consumed == e.produced)
  {
    var c := RunInv(s, steps);
  }

  // ---------- Memory ----------

  function Elements(nodes: seq<Addr>): set<Addr> {
    set a | a in nodes
  }

  // The nodes at positions i and above are distinct.
  lemma {:induction false} CountLinked(c: Chain, i: nat)
    requires c.f <= i <= |c.nodes|
    requires forall j {:trigger c.nodes[j]} :: c.f <= j < |c.nodes| ==> c.nodes[j] in c.pos && c.pos[c.nodes[j]] == j
    ensures |Elements(c.nodes[i..])| == |c.nodes| - i
    decreases |c.nodes| - i
  {
    if i < |c.nodes| {
      var here, rest := c.nodes[i], c.nodes[i + 1..];
      assert c.nodes[i..] == [here] + rest;
      assert Elements(c.nodes[i..]) == {here} + Elements(rest);
      assert here !in rest;
      CountLinked(c, i + 1);
    }
  }

  /** When produce finds divider equal to first, which is when it returns, one node more is
      allocated than values are waiting: every node consume is done with has been freed. */
  lemma ProduceFreesAll<T(!new)>(s: State<T>, steps: seq<Step<T>>)
    requires Init(s) && Schedule(s, steps) && Run(s, steps).Some?
    requires Run(s, steps).value.producer == Trim && Run(s, steps).value.divider == Run(s, steps).value.first
    ensures var e := Run(s, steps).value; |e.heap| == |e.produced| - |e.consumed| + 1
  {
    var e := Run(s, steps).value;
    var c := RunInv(s, steps);
    SameOnlyThere(e.heap, e.first, e.divider, e.last, e.produced, |e.consumed|, c);
    AllLinked(e.heap, e.first, e.divider, e.last, e.produced, |e.consumed|, c);
    assert e.heap.Keys == Elements(c.nodes[c.f..]);
    CountLinked(c, c.f);
  }

  // ---------- The size can be negative ----------

  lemma RunOneMore<T>(s: State<T>, steps: seq<Step<T>>, step: Step<T>)
    requires Schedule(s, steps) && Run(s, steps).Some? && Enabled(Run(s, steps).value, step)
    ensures Schedule(s, steps + [step]) && Run(s, steps + [step]) == Next(Run(s, steps).value, step)
  {
    assert (steps + [step])[..|steps|] == steps;
  }

  /** A value can be consumed before the producer has counted it. */
  lemma SizeCanBeNegative<T(!new)>(s: State<T>, t: T, node: Addr) returns (steps: seq<Step<T>>)
    requires Init(s) && node !in s.heap
    ensures Schedule(s, steps) && Run(s, steps).Some? && Run(s, steps).value.size == -1
  {
    var plan := [Produce(t, node), ProducerStep, ProducerStep,
                 Consume, ConsumerStep, ConsumerStep, ConsumerStep, ConsumerStep, ConsumerStep];
    steps := [];
    for i := 0 to |plan|
      invariant Schedule(s, steps) && Run(s, steps).Some?
      invariant var e := Run(s, steps).value;
                && (e.first, e.size) == (s.first, if i == 9 then -1 else 0)
                && e.divider == (if i < 8 then s.first else node)
                && e.last == (if i < 3 then s.first else node)
                && e.producer == (if i == 0 then Waiting else if i == 1 then Link(node) else if i == 2 then Publish else CountUp)
                && e.consumer == (if i < 4 || i == 9 then Resting else if i == 4 then Compare else if i == 5 then LoadNext
                                  else if i == 6 then LoadValue(node) else if i == 7 then Advance(t) else CountDown)
                && (if i == 0 then node !in e.heap else node in e.heap && e.heap[node] == Node(t, None))
                && s.first in e.heap && (i > 1 ==> e.heap[s.first].next == Some(node))
    {
      RunOneMore(s, steps, plan[i]);
      steps := steps + [plan[i]];
    }
  }
}
