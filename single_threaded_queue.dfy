/** The single-threaded queue of code_list_6/list6.4.cpp: an owning `head`
    pointer and a plain `tail` pointer into the same chain, both null when the
    queue is empty.

    Two lines of `push` are modelled by their evident intent: the node is
    allocated with `std::make_shared<T>` where a node (`make_unique<node>`) is
    meant, and an empty queue's head is set with `==` where `=` is meant.
    `PushAsWritten` keeps the second defect so that its effect can be
    stated. */
module SingleThreadedQueue {
  import opened Wrappers

  class Node<T> {
    var data: T
    var next: Node?<T>

    constructor (data: T)
      ensures this.data == data && next == null
    {
      this.data := data;
      next := null;
    }
  }

  class Queue<T> {
    var head: Node?<T>
    var tail: Node?<T>

    /** The abstract FIFO, front first. */
    ghost var Contents: seq<T>
    /** The chain from `head` to `tail`, both included. */
    ghost var Nodes: seq<Node<T>>
    ghost var Repr: set<object>

    /** Empty: both pointers null.  Otherwise `head` is the first node and
        `tail` the last, whose `next` is null; each node links to the one
        after it, holds the matching payload, and no node occurs twice. */
    ghost predicate Valid()
      reads this, Repr
    {
      && this in Repr
      && (forall i :: 0 <= i < |Nodes| ==> Nodes[i] in Repr)
      && |Nodes| == |Contents|
      && (Nodes == [] ==> head == null && tail == null)
      && (Nodes != [] ==> head == Nodes[0] && tail == Nodes[|Nodes| - 1] && tail.next == null)
      && (forall i :: 0 <= i < |Nodes| ==> Nodes[i].data == Contents[i])
      && (forall i :: 0 <= i < |Nodes| - 1 ==> Nodes[i].next == Nodes[i + 1])
      && (forall i, j :: 0 <= i < j < |Nodes| ==> Nodes[i] != Nodes[j])
    }

    constructor ()
      ensures Valid() && fresh(Repr)
      ensures Contents == [] && head == null && tail == null
    {
      head, tail := null, null;
      Contents, Nodes := [], [];
      Repr := {this};
    }

    /** `try_pop`: an empty pointer when `head` is null; otherwise the head's
        payload, with `head` advanced to its successor and `tail` reset to null
        when that was the last node, so that `head` is null exactly when
        `tail` is. */
    method TryPop() returns (res: Option<T>)
      requires Valid()
      modifies this
      ensures Valid() && Repr <= old(Repr)
      ensures (head == null) <==> (tail == null)
      ensures old(Contents) == [] ==> res == None && Contents == old(Contents)
      ensures old(Contents) != [] ==>
        && res == Some(old(Contents)[0]) && Contents == old(Contents)[1..]
        && head == old(head.next)
    {
      if head == null {
        return None;
      }
      res := Some(head.data);
      var oldHead := head;
      head := oldHead.next;
      if head == null {
        tail := null;
      }
      Nodes := Nodes[1..];
      Contents := Contents[1..];
      Repr := Repr - {oldHead};
    }

    /** `push` as intended: a new last node, linked after `tail` when there is
        one and installed as `head` otherwise; `tail` then points to it. */
    method Push(newVal: T)
      requires Valid()
      modifies Repr
      ensures Valid() && fresh(Repr - old(Repr))
      ensures Contents == old(Contents) + [newVal]
      ensures fresh(tail) && tail.data == newVal
      ensures old(tail) != null ==> head == old(head) && old(tail).next == tail
      ensures old(tail) == null ==> head == tail
    {
      var p := new Node(newVal);
      if tail != null {
        tail.next := p;
      } else {
        head := p;
      }
      tail := p;
      Nodes := Nodes + [p];
      Contents := Contents + [newVal];
      Repr := Repr + {p};
    }

    /** `push` as written at list6.4.cpp:49: on an empty queue `head == p`
        only compares, so `head` stays null while `tail` is set to the new
        node, and the head-null-iff-tail-null invariant is broken.  In the
        program `p` still owns that node and frees it when `push` returns,
        so `tail` dangles and a later `push` writes through freed memory;
        the model keeps the node alive and states only the pointer values. */
    method PushAsWritten(newVal: T)
      requires Valid()
      modifies Repr
      ensures fresh(tail) && tail.data == newVal && head == old(head)
      ensures old(tail) == null ==> head == null && tail != null
      ensures old(tail) != null ==> old(tail).next == tail
    {
      var p := new Node(newVal);
      if tail != null {
        tail.next := p;
      }
      tail := p;
    }
  }

  /** Counterexample to the written `push`: after one push into a fresh queue
      `head` is still null, so the next `try_pop` (which tests only `head`)
      would report the queue empty although a value was pushed. */
  method FirstPushIsLost() returns (headIsNull: bool, tailIsNull: bool)
    ensures headIsNull && !tailIsNull
  {
    var q := new Queue<int>();
    q.PushAsWritten(1);
    headIsNull := q.head == null;
    tailIsNull := q.tail == null;
  }

  /** FIFO order with the intended `push`: values pushed one after another
      into a fresh queue come out of `try_pop` in the same order, and one more
      `try_pop` finds the queue empty. */
  method PushAllThenPopAll<T>(xs: seq<T>) returns (ys: seq<T>, emptyAfter: bool)
    ensures ys == xs && emptyAfter
  {
    var q := new Queue<T>();
    var i := 0;
    while i < |xs|
      invariant 0 <= i <= |xs| && q.Valid() && fresh(q.Repr) && q.Contents == xs[..i]
    {
      q.Push(xs[i]);
      i := i + 1;
      assert xs[..i] == xs[..i - 1] + [xs[i - 1]];
    }
    ys := [];
    while i > 0
      invariant 0 <= i <= |xs| && q.Valid() && fresh(q.Repr)
      invariant ys == xs[..|xs| - i] && q.Contents == xs[|xs| - i..]
    {
      var r := q.TryPop();
      ys := ys + [r.value];
      i := i - 1;
      assert xs[..|xs| - i] == xs[..|xs| - i - 1] + [xs[|xs| - i - 1]];
    }
    var last := q.TryPop();
    emptyAfter := last == None;
  }
}
