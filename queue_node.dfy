/** The node of the two sentinel-node queues (code_list_6/list6.5.cpp and
    code_list_6/list6.7-6.10/threadsafe_queue.h): an optional payload
    (`std::shared_ptr<T>`, null on the dummy tail) and the link to the next
    node.  `unique_ptr` ownership of `next` becomes membership of the node in
    the queue's chain. */
module QueueNode {
  import opened Wrappers

  class Node<T> {
    var data: Option<T>
    var next: Node?<T>

    /** `std::make_unique<node>()`: no data, no successor. */
    constructor ()
      ensures data == None && next == null
    {
      data := None;
      next := null;
    }
  }

  /** The invariant written out at code_list_6/list6.5.cpp:59-66, over the
      chain `nodes` from `head` (first) to `tail` (last) and the payloads
      `contents` it holds: every node before the tail holds a payload and
      links to the following node, the tail holds no payload and no
      successor, and no node occurs twice.  `head == tail` is then exactly
      `contents == []`. */
  ghost predicate Chain<T>(nodes: seq<Node<T>>, contents: seq<T>)
    reads nodes
  {
    && |nodes| == |contents| + 1
    && (forall i :: 0 <= i < |contents| ==> nodes[i].data == Some(contents[i]) && nodes[i].next == nodes[i + 1])
    && nodes[|contents|].data == None && nodes[|contents|].next == null
    && (forall i, j :: 0 <= i < j < |nodes| ==> nodes[i] != nodes[j])
  }

  /** In a chain, the head is the tail exactly when the queue is empty. */
  lemma HeadIsTailIffEmpty<T>(nodes: seq<Node<T>>, contents: seq<T>)
    requires Chain(nodes, contents)
    ensures nodes[0] == nodes[|nodes| - 1] <==> contents == []
  {
    if contents != [] {
      assert nodes[0] != nodes[|contents|];
    }
  }
}
