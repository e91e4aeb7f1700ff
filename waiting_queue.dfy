/** The waiting sentinel-node queue of code_list_6/list6.7-6.10
    (threadsafe_queue.h with `push` in threadsafe_queue.cpp): the chain of
    code_list_6/list6.5.cpp plus blocking pops and `empty()`.  The head and
    tail mutexes and the condition variable are left out; each public call is
    one atomic step, and a wait for data becomes the precondition that the
    queue is non-empty.

    Where the header is ill-typed it is modelled by its evident intent:
    `try_pop_head()` is declared to return `std::shared_ptr<T>` and
    `try_pop_head(T&)` to return `bool`, yet both return the detached node,
    and `try_pop` consumes that node; here both return the node (or null). */
module WaitingQueue {
  import opened Wrappers
  import opened QueueNode

  class ThreadsafeQueue<T> {
    var head: Node<T>
    var tail: Node<T>

    /** The abstract FIFO, front first. */
    ghost var Contents: seq<T>
    /** The chain from `head` to `tail`, both included. */
    ghost var Nodes: seq<Node<T>>
    ghost var Repr: set<object>

    ghost predicate Valid()
      reads this, Repr
    {
      && this in Repr
      && (forall i :: 0 <= i < |Nodes| ==> Nodes[i] in Repr)
      && Chain(Nodes, Contents)
      && head == Nodes[0] && tail == Nodes[|Nodes| - 1]
    }

    /** The constructor: one dummy node that is both `head` and `tail`. */
    constructor ()
      ensures Valid() && fresh(Repr)
      ensures Contents == [] && head == tail
    {
      var dummy := new Node();
      head, tail := dummy, dummy;
      Nodes := [dummy];
      Contents := [];
      Repr := {this, dummy};
    }

    /** `pop_head`: detach the head node (its callers have seen
        `head != tail`) and move `head` to its successor, which is moved out
        of the detached node (its `next` becomes null). */
    method PopHead() returns (oldHead: Node<T>)
      requires Valid() && Contents != []
      modifies this, head
      ensures Valid() && Repr <= old(Repr) && tail == old(tail)
      ensures oldHead == old(head) && head == old(head.next) && oldHead.next == null
      ensures oldHead.data == Some(old(Contents)[0]) && Contents == old(Contents)[1..]
    {
      oldHead := head;
      assert oldHead.next == Nodes[1];
      head := oldHead.next;
      oldHead.next := null;
      Nodes := Nodes[1..];
      Contents := Contents[1..];
      Repr := Repr - {oldHead};
    }

    /** `wait_pop_head()`: after the wait for `head != tail`, `pop_head`. */
    method WaitPopHead() returns (oldHead: Node<T>)
      requires Valid() && Contents != []
      modifies this, head
      ensures Valid() && Repr <= old(Repr)
      ensures oldHead == old(head) && oldHead.data == Some(old(Contents)[0]) && oldHead.next == null
      ensures Contents == old(Contents)[1..]
    {
      oldHead := PopHead();
    }

    /** `wait_pop_head(T&)`: after the wait, move the head payload into `val`
        and only then detach the head node. */
    method WaitPopHeadInto() returns (val: T, oldHead: Node<T>)
      requires Valid() && Contents != []
      modifies this, head
      ensures Valid() && Repr <= old(Repr)
      ensures val == old(Contents)[0] && oldHead == old(head) && oldHead.next == null
      ensures Contents == old(Contents)[1..]
    {
      val := head.data.value;
      oldHead := PopHead();
    }

    /** `try_pop_head()`: null when `head == tail` (nothing changed), otherwise
        `pop_head`. */
    method TryPopHead() returns (oldHead: Node?<T>)
      requires Valid()
      modifies this, head
      ensures Valid() && Repr <= old(Repr)
      ensures old(Contents) == [] ==> oldHead == null && Contents == old(Contents) && head == old(head)
      ensures old(Contents) != [] ==>
        && oldHead == old(head) && oldHead.data == Some(old(Contents)[0]) && oldHead.next == null
        && Contents == old(Contents)[1..]
    {
      HeadIsTailIffEmpty(Nodes, Contents);
      if head == tail {
        return null;
      }
      oldHead := PopHead();
    }

    /** `try_pop_head(T&)`: null when `head == tail` (nothing changed, `val`
        included); otherwise the head payload moved into `val`, then
        `pop_head`. */
    method TryPopHeadInto(val: T) returns (val': T, oldHead: Node?<T>)
      requires Valid()
      modifies this, head
      ensures Valid() && Repr <= old(Repr)
      ensures old(Contents) == [] ==> oldHead == null && val' == val && Contents == old(Contents)
      ensures old(Contents) != [] ==>
        && oldHead == old(head) && oldHead.next == null && val' == old(Contents)[0]
        && Contents == old(Contents)[1..]
    {
      HeadIsTailIffEmpty(Nodes, Contents);
      if head == tail {
        return val, null;
      }
      val' := head.data.value;
      oldHead := PopHead();
    }

    /** `try_pop()`: the payload of the detached node, or an empty pointer on
        an empty queue, which is then unchanged. */
    method TryPop() returns (res: Option<T>)
      requires Valid()
      modifies this, head
      ensures Valid() && Repr <= old(Repr)
      ensures old(Contents) == [] ==> res == None && Contents == old(Contents)
      ensures old(Contents) != [] ==> res == Some(old(Contents)[0]) && Contents == old(Contents)[1..]
    {
      var oldHead := TryPopHead();
      res := if oldHead != null then oldHead.data else None;
    }

    /** `try_pop(T&)`: true exactly when a node was detached, with its payload
        in `val`; false leaves `val` and the queue as they were. */
    method TryPopInto(val: T) returns (ok: bool, val': T)
      requires Valid()
      modifies this, head
      ensures Valid() && Repr <= old(Repr)
      ensures ok <==> old(Contents) != []
      ensures !ok ==> val' == val && Contents == old(Contents)
      ensures ok ==> val' == old(Contents)[0] && Contents == old(Contents)[1..]
    {
      var oldHead;
      val', oldHead := TryPopHeadInto(val);
      ok := oldHead != null;
    }

    /** `wait_and_pop()`: once the queue is non-empty, the front payload. */
    method WaitAndPop() returns (res: T)
      requires Valid() && Contents != []
      modifies this, head
      ensures Valid() && Repr <= old(Repr)
      ensures res == old(Contents)[0] && Contents == old(Contents)[1..]
    {
      var oldHead := WaitPopHead();
      res := oldHead.data.value;
    }

    /** `wait_and_pop(T&)`: once the queue is non-empty, the front payload
        through `val`. */
    method WaitAndPopInto() returns (val: T)
      requires Valid() && Contents != []
      modifies this, head
      ensures Valid() && Repr <= old(Repr)
      ensures val == old(Contents)[0] && Contents == old(Contents)[1..]
    {
      var oldHead;
      val, oldHead := WaitPopHeadInto();
    }

    /** `push` (threadsafe_queue.cpp): the old dummy tail receives the payload
        and links to a freshly allocated dummy, which becomes `tail`. */
    method Push(newVal: T)
      requires Valid()
      modifies Repr
      ensures Valid() && fresh(Repr - old(Repr))
      ensures Contents == old(Contents) + [newVal]
      ensures head == old(head) && head != tail
      ensures fresh(tail) && tail.data == None && tail.next == null
      ensures old(tail).data == Some(newVal) && old(tail).next == tail
    {
      var p := new Node();
      tail.data := Some(newVal);
      var newTail := p;
      tail.next := p;
      tail := newTail;
      Nodes := Nodes + [p];
      Contents := Contents + [newVal];
      Repr := Repr + {p};
      HeadIsTailIffEmpty(Nodes, Contents);
    }

    /** `empty()`: exactly `head == tail`, which holds exactly when the queue
        holds no payload. */
    method Empty() returns (e: bool)
      requires Valid()
      ensures e <==> head == tail
      ensures e <==> Contents == []
    {
      HeadIsTailIffEmpty(Nodes, Contents);
      e := head == tail;
    }
  }

  /** FIFO order: values pushed one after another into a fresh queue come out
      of `wait_and_pop` in the same order; the queue reports empty when fresh and
      again once drained. */
  method PushAllThenPopAll<T>(xs: seq<T>) returns (ys: seq<T>, emptyBefore: bool, emptyAfter: bool)
    ensures ys == xs && emptyBefore && emptyAfter
  {
    var q := new ThreadsafeQueue<T>();
    emptyBefore := q.Empty();
    var i := 0;
    while i < |xs|
      invariant 0 <= i <= |xs| && q.Valid() && fresh(q.Repr) && q.Contents == xs[..i]
    {
      q.Push(xs[i]);
      i := i + 1;
      assert xs[..i] == xs[..i - 1] + [xs[i - 1]];
    }
    ys := [];
    while i > 0
      invariant 0 <= i <= |xs| && q.Valid() && fresh(q.Repr)
      invariant ys == xs[..|xs| - i] && q.Contents == xs[|xs| - i..]
    {
      var r := q.WaitAndPop();
      ys := ys + [r];
      i := i - 1;
      assert xs[..|xs| - i] == xs[..|xs| - i - 1] + [xs[|xs| - i - 1]];
    }
    emptyAfter := q.Empty();
  }
}
