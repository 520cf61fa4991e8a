/** The intrusive doubly linked task list and its two macros, on the heap. */
module TaskList {

  import opened DoublyLinked

  /** A task object; `data` is its identity.  Its creator zeroes both links. */
  type TaskNode = Node<nat>

  class List {
    var head: Node?<nat>
    ghost var nodes: seq<TaskNode>

    ghost predicate Valid()
      reads this, nodes
    {
      head == NodeAt(nodes, 0) && Linked(nodes)
    }

    /** The identities of the queued tasks, head first. */
    ghost function Ids(): seq<nat>
      reads this
    {
      DataOf(nodes)
    }

    constructor ()
      ensures Valid() && nodes == []
    {
      head, nodes := null, [];
    }

    /** INSERT_LIST.  It does not write `item.prev`: the result is a list exactly when that was null. */
    method Insert(item: TaskNode)
      requires Valid() && item !in nodes
      modifies this, item, nodes
      ensures nodes == [item] + old(nodes)
      ensures Valid() <==> old(item.prev) == null
    {
      item.next := head;
      if head != null {
        head.prev := item;
      }
      head := item;
      nodes := [item] + nodes;
      assert nodes[0].prev == item.prev;
    }

    /** DELETE_LIST, for an item anywhere in the list. */
    method Delete(item: TaskNode, ghost i: nat)
      requires Valid() && i < |nodes| && nodes[i] == item
      modifies this, nodes
      ensures Valid() && nodes == Without(old(nodes), i)
      ensures item.prev == null && item.next == null && item !in nodes
    {
      Unhook(item, nodes, i);
      if item == head {
        head := item.next;
      }
      item.prev, item.next := null, null;
      nodes := Without(nodes, i);
    }

    /** `list = NULL`: the nodes themselves are left as they are. */
    method Clear()
      modifies this
      ensures Valid() && nodes == []
    {
      head, nodes := null, [];
    }
  }
}
