/** The fine-grained queue of code_list_6/list6.5.cpp: a chain of nodes from
    `head` to a payload-free dummy `tail`.  `push` fills the dummy and appends
    a fresh one; `pop_head` detaches the front node.  The two mutexes are left
    out and each public call is one atomic step. */
module FineGrainedQueue {
  import opened Wrappers
  import opened QueueNode

  class ThreadsafeQueue<T> {
    var head: Node<T>
    var tail: Node<T>

    /** The abstract FIFO, front first. */
    ghost var Contents: seq<T>
    /** The chain from `head` to `tail`, both included. */
    ghost var Nodes: seq<Node<T>>
    ghost var Repr: set<object>

    ghost predicate Valid()
      reads this, Repr
    {
      && this in Repr
      && (forall i :: 0 <= i < |Nodes| ==> Nodes[i] in Repr)
      && Chain(Nodes, Contents)
      && head == Nodes[0] && tail == Nodes[|Nodes| - 1]
    }

    /** The constructor: one dummy node that is both `head` and `tail`. */
    constructor ()
      ensures Valid() && fresh(Repr)
      ensures Contents == [] && head == tail
    {
      var dummy := new Node();
      head, tail := dummy, dummy;
      Nodes := [dummy];
      Contents := [];
      Repr := {this, dummy};
    }

    /** `pop_head`: null on an empty queue (`head == tail`), with nothing
        changed; otherwise the old head node, whose payload is the front
        value, and `head` moves to its successor, which is moved out of the
        detached node (its `next` becomes null). */
    method PopHead() returns (oldHead: Node?<T>)
      requires Valid()
      modifies this, head
      ensures Valid() && Repr <= old(Repr)
      ensures old(Contents) == [] ==> oldHead == null && Contents == old(Contents) && head == old(head)
      ensures old(Contents) != [] ==>
        && oldHead == old(head) && oldHead.data == Some(old(Contents)[0])
        && head == old(head.next) && Contents == old(Contents)[1..]
        && oldHead.next == null
      ensures tail == old(tail)
    {
      HeadIsTailIffEmpty(Nodes, Contents);
      if head == tail {
        return null;
      }
      oldHead := head;
      assert oldHead.next == Nodes[1];
      head := oldHead.next;
      oldHead.next := null;
      Nodes := Nodes[1..];
      Contents := Contents[1..];
      Repr := Repr - {oldHead};
    }

    /** `try_pop`: the payload of the detached head node, or an empty pointer
        when the queue was empty (which is then unchanged). */
    method TryPop() returns (res: Option<T>)
      requires Valid()
      modifies this, head
      ensures Valid() && Repr <= old(Repr)
      ensures old(Contents) == [] ==> res == None && Contents == old(Contents)
      ensures old(Contents) != [] ==> res == Some(old(Contents)[0]) && Contents == old(Contents)[1..]
    {
      var oldHead := PopHead();
      res := if oldHead != null then oldHead.data else None;
    }

    /** `push`: the old dummy tail receives the payload and links to a freshly
        allocated dummy, which becomes `tail`. */
    method Push(newVal: T)
      requires Valid()
      modifies Repr
      ensures Valid() && fresh(Repr - old(Repr))
      ensures Contents == old(Contents) + [newVal]
      ensures head == old(head) && fresh(tail)
      ensures old(tail).data == Some(newVal) && old(tail).next == tail
    {
      var p := new Node();
      tail.data := Some(newVal);
      tail.next := p;
      tail := p;
      Nodes := Nodes + [p];
      Contents := Contents + [newVal];
      Repr := Repr + {p};
    }
  }

  /** FIFO order: values pushed one after another into a fresh queue come out
      of `try_pop` in the same order, and one more `try_pop` finds the queue
      empty. */
  method PushAllThenPopAll<T>(xs: seq<T>) returns (ys: seq<T>, emptyAfter: bool)
    ensures ys == xs && emptyAfter
  {
    var q := new ThreadsafeQueue<T>();
    var i := 0;
    while i < |xs|
      invariant 0 <= i <= |xs| && q.Valid() && fresh(q.Repr) && q.Contents == xs[..i]
    {
      q.Push(xs[i]);
      i := i + 1;
      assert xs[..i] == xs[..i - 1] + [xs[i - 1]];
    }
    ys := [];
    while i > 0
      invariant 0 <= i <= |xs| && q.Valid() && fresh(q.Repr)
      invariant ys == xs[..|xs| - i] && q.Contents == xs[|xs| - i..]
    {
      var r := q.TryPop();
      ys := ys + [r.value];
      i := i - 1;
      assert xs[..|xs| - i] == xs[..|xs| - i - 1] + [xs[|xs| - i - 1]];
    }
    var last := q.TryPop();
    emptyAfter := last == None;
  }
}
