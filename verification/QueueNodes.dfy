/** LockFreeQueue as one thread sees it, over its linked nodes.  Freed nodes are those that
    leave `nodes`. */
module QueueNodes {
  import opened Basics

  class Node<T> {
    const value: T
    var next: Node?<T>

    constructor (value: T)
      ensures this.value == value && next == null
    {
      this.value, next := value, null;
    }
  }

  function Values<T>(nodes: seq<Node<T>>): (values: seq<T>)
    ensures |values| == |nodes|
  {
    seq(|nodes|, i requires 0 <= i < |nodes| => nodes[i].value)
  }

  class LockFreeQueue<T> {
    var first: Node<T>
    var divider: Node<T>
    var last: Node<T>
    var size: int
    ghost var nodes: seq<Node<T>>  // from first to last
    ghost var d: nat               // where divider is

    ghost predicate Valid()
      reads this, nodes
    {
      && d < |nodes|
      && nodes[0] == first && nodes[d] == divider && nodes[|nodes| - 1] == last
      && (forall i, j :: 0 <= i < j < |nodes| ==> nodes[i] != nodes[j])
      && (forall i {:trigger nodes[i].next} :: 0 <= i < |nodes| - 1 ==> nodes[i].next == nodes[i + 1])
      && last.next == null
      && size == |Contents()|
    }

    /** The values that wait: those of the nodes after divider. */
    ghost function Contents(): (values: seq<T>)
      requires d < |nodes|
      reads this
      ensures |values| == |nodes| - 1 - d
    {
      Values(nodes[d + 1..])
    }

    constructor (nothing: T)
      ensures Valid() && Contents() == [] && fresh(nodes)
    {
      var node := new Node(nothing);
      first, divider, last, size := node, node, node, 0;
      nodes, d := [node], 0;
    }

    /** Appends t and frees the nodes consume is done with. */
    method Produce(t: T)
      requires Valid()
      modifies this, last
      ensures Valid() && Contents() == old(Contents()) + [t]
      ensures first == divider && d == 0
      ensures forall n :: n in nodes ==> n in old(nodes) || fresh(n)
    {
      Append(t);
      while divider != first
        invariant Valid() && Contents() == old(Contents()) + [t]
        invariant forall n :: n in nodes ==> n in old(nodes) || fresh(n)
        decreases d
      {
        assert nodes[0].next == nodes[1];
        first := first.next;
        assert nodes[d + 1..] == nodes[1..][d..];
        nodes, d := nodes[1..], d - 1;
      }
    }

    method Append(t: T)
      requires Valid()
      modifies this`last, this`size, this`nodes, last
      ensures Valid() && Contents() == old(Contents()) + [t]
      ensures forall n :: n in nodes ==> n in old(nodes) || fresh(n)
    {
      var node := new Node(t);
      last.next := node;
      last := node;
      size := size + 1;
      nodes := nodes + [node];
      assert nodes[d + 1..] == old(nodes[d + 1..]) + [node];
      assert Contents() == old(Contents()) + [t];
    }

    /** Takes the value that has waited longest, if there is one. */
    method Consume() returns (result: Option<T>)
      requires Valid()
      modifies this`divider, this`size, this`d
      ensures Valid() && nodes == old(nodes)
      ensures result == if old(Contents()) == [] then None else Some(old(Contents())[0])
      ensures Contents() == if old(Contents()) == [] then [] else old(Contents())[1..]
    {
      if divider == last {
        return None;
      }
      assert Contents()[1..] == Values(nodes[d + 2..]);
      assert nodes[d].next == nodes[d + 1];
      result := Some(divider.next.value);
      divider := divider.next;
      d := d + 1;
      size := size - 1;
    }

    method Empty() returns (empty: bool)
      requires Valid()
      ensures empty == (Contents() == [])
    {
      empty := size == 0;
    }
  }
}
