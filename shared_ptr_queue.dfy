/** The whole-lock queue of code_list_6/list6.3.cpp, which stores
    `std::shared_ptr<T>` instead of values: `push` allocates the shared payload
    before taking the lock, `try_pop()` hands out the very pointer it stored,
    and the other pops move the pointed-to value out.  Each public call is one
    atomic step; the wait on the condition variable becomes the precondition
    that the queue is non-empty. */
module SharedPtrQueue {

  /** A heap-allocated payload shared by reference (`std::make_shared<T>`). */
  class Shared<T> {
    const value: T

    constructor (value: T)
      ensures this.value == value
    {
      this.value := value;
    }
  }

  /** The values the stored pointers point to, front first. */
  function Values<T>(ptrs: seq<Shared<T>>): (vs: seq<T>)
    ensures |vs| == |ptrs|
    ensures forall i :: 0 <= i < |ptrs| ==> vs[i] == ptrs[i].value
  {
    if ptrs == [] then [] else [ptrs[0].value] + Values(ptrs[1..])
  }

  class ThreadsafeQueue<T> {
    /** `data_queue`: the stored pointers, front first. */
    var items: seq<Shared<T>>

    constructor ()
      ensures items == []
    {
      items := [];
    }

    /** `push`: allocate the payload, then append the pointer at the back. */
    method Push(newVal: T)
      modifies this
      ensures |items| == |old(items)| + 1 && items[..|old(items)|] == old(items)
      ensures fresh(items[|old(items)|])
      ensures Values(items) == Values(old(items)) + [newVal]
    {
      var data := new Shared(newVal);
      items := items + [data];
    }

    /** `wait_and_pop(T&)`: once the queue is non-empty, move the front
        payload out through `val` and pop its pointer. */
    method WaitAndPopInto() returns (val: T)
      requires items != []
      modifies this
      ensures val == old(items)[0].value && items == old(items)[1..]
    {
      val := items[0].value;
      items := items[1..];
    }

    /** `wait_and_pop()`: once the queue is non-empty, return a freshly
        allocated copy of the front payload and pop its pointer. */
    method WaitAndPop() returns (res: Shared<T>)
      requires items != []
      modifies this
      ensures fresh(res) && res.value == old(items)[0].value
      ensures items == old(items)[1..]
    {
      res := new Shared(items[0].value);
      items := items[1..];
    }

    /** `try_pop(T&)`: false and nothing changed (not even `val`) on an empty
        queue; otherwise the front payload through `val`, popped, and true. */
    method TryPopInto(val: T) returns (ok: bool, val': T)
      modifies this
      ensures ok <==> old(items) != []
      ensures !ok ==> val' == val && items == old(items)
      ensures ok ==> val' == old(items)[0].value && items == old(items)[1..]
    {
      if items == [] {
        return false, val;
      }
      val' := items[0].value;
      items := items[1..];
      ok := true;
    }

    /** `try_pop()`: null on an empty queue, otherwise the stored front
        pointer itself (no copy), popped. */
    method TryPop() returns (res: Shared?<T>)
      modifies this
      ensures old(items) == [] ==> res == null && items == old(items)
      ensures old(items) != [] ==> res == old(items)[0] && items == old(items)[1..]
    {
      if items == [] {
        return null;
      }
      res := items[0];
      items := items[1..];
    }

    /** `empty()`: a read-only emptiness test. */
    method Empty() returns (e: bool)
      ensures e <==> items == []
    {
      e := items == [];
    }
  }

  /** FIFO order: values pushed one after another into a fresh queue come out
      of `try_pop` in the same order, and the queue is empty afterwards. */
  method PushAllThenPopAll<T>(xs: seq<T>) returns (ys: seq<T>, emptyAfter: bool)
    ensures ys == xs && emptyAfter
  {
    var q := new ThreadsafeQueue<T>();
    var i := 0;
    while i < |xs|
      invariant 0 <= i <= |xs| && Values(q.items) == xs[..i]
    {
      q.Push(xs[i]);
      i := i + 1;
      assert xs[..i] == xs[..i - 1] + [xs[i - 1]];
    }
    ys := [];
    while i > 0
      invariant 0 <= i <= |xs|
      invariant ys == xs[..|xs| - i] && Values(q.items) == xs[|xs| - i..]
    {
      ghost var before := q.items;
      var r := q.TryPop();
      ys := ys + [r.value];
      i := i - 1;
      assert Values(before)[1..] == Values(q.items);
      assert xs[..|xs| - i] == xs[..|xs| - i - 1] + [xs[|xs| - i - 1]];
    }
    emptyAfter := q.Empty();
  }
}
