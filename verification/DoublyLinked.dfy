/** Intrusive doubly linked nodes, and what it means for them to form a list. */
module DoublyLinked {

  class Node<T> {
    const data: T
    var prev: Node?<T>
    var next: Node?<T>

    constructor (data: T)
      ensures this.data == data && prev == null && next == null
    {
      this.data := data;
      prev, next := null, null;
    }
  }

  /** The node at index `i`, or null outside the list. */
  function NodeAt<T>(nodes: seq<Node<T>>, i: int): Node?<T> {
    if 0 <= i < |nodes| then nodes[i] else null
  }

  predicate Distinct<T>(nodes: seq<Node<T>>) {
    forall i, j :: 0 <= i < j < |nodes| ==> nodes[i] != nodes[j]
  }

  /** `prev` and `next` are mutually inverse along the list, which visits each node once. */
  ghost predicate Linked<T>(nodes: seq<Node<T>>)
    reads nodes
  {
    && Distinct(nodes)
    && (forall i {:trigger nodes[i].next} :: 0 <= i < |nodes| ==> nodes[i].next == NodeAt(nodes, i + 1))
    && (forall i {:trigger nodes[i].prev} :: 0 <= i < |nodes| ==> nodes[i].prev == NodeAt(nodes, i - 1))
  }

  /** What the nodes hold, in list order. */
  function DataOf<T>(nodes: seq<Node<T>>): (r: seq<T>)
    ensures |r| == |nodes|
    ensures forall i :: 0 <= i < |nodes| ==> r[i] == nodes[i].data
  {
    seq(|nodes|, (i: nat) requires i < |nodes| => nodes[i].data)
  }

  function Without<T>(nodes: seq<Node<T>>, i: nat): (r: seq<Node<T>>)
    requires i < |nodes|
    ensures |r| == |nodes| - 1
    ensures forall k :: 0 <= k < |r| ==> r[k] == if k < i then nodes[k] else nodes[k + 1]
    ensures Distinct(nodes) ==> Distinct(r) && nodes[i] !in r
  {
    nodes[..i] + nodes[i + 1..]
  }

  function With<T>(nodes: seq<Node<T>>, i: nat, item: Node<T>): (r: seq<Node<T>>)
    requires i <= |nodes|
    ensures |r| == |nodes| + 1
    ensures forall k :: 0 <= k < |r| ==> r[k] == if k < i then nodes[k] else if k == i then item else nodes[k - 1]
    ensures Distinct(nodes) && item !in nodes ==> Distinct(r)
  {
    nodes[..i] + [item] + nodes[i..]
  }

  /** Link the neighbours of `item`, the node at index `i`, to each other. */
  method Unhook<T>(item: Node<T>, ghost nodes: seq<Node<T>>, ghost i: nat)
    requires Linked(nodes) && i < |nodes| && nodes[i] == item
    modifies nodes
    ensures Linked(Without(nodes, i))
    ensures item.prev == NodeAt(nodes, i - 1) && item.next == NodeAt(nodes, i + 1)
  {
    assert item.next == NodeAt(nodes, i + 1) && item.prev == NodeAt(nodes, i - 1);
    if item.prev != null {
      item.prev.next := item.next;
    }
    if item.next != null {
      item.next.prev := item.prev;
    }
    ghost var rest := Without(nodes, i);
    forall k | 0 <= k < |rest|
      ensures rest[k].next == NodeAt(rest, k + 1) && rest[k].prev == NodeAt(rest, k - 1)
    {
    }
  }

  /** Link `item` in front of `node`, the node at index `i`; `first` when it became the head. */
  method HookBefore<T>(item: Node<T>, node: Node<T>, ghost nodes: seq<Node<T>>, ghost i: nat) returns (first: bool)
    requires Linked(nodes) && item !in nodes && i < |nodes| && nodes[i] == node
    modifies nodes, item
    ensures Linked(With(nodes, i, item))
    ensures first <==> i == 0
  {
    assert node.prev == NodeAt(nodes, i - 1);
    first := node.prev == null;
    item.next := node;
    item.prev := node.prev;
    if node.prev != null {
      node.prev.next := item;
    }
    node.prev := item;
    ghost var r := With(nodes, i, item);
    forall k | 0 <= k < |r|
      ensures r[k].next == NodeAt(r, k + 1)
    {
    }
    forall k | 0 <= k < |r|
      ensures r[k].prev == NodeAt(r, k - 1)
    {
    }
  }
}
