/** The whole-lock queue of code_list_6/list6.2.cpp: a `std::queue<T>`
    guarded by one mutex and a condition variable.  Each public call is one
    atomic step; the wait on the condition variable becomes the precondition
    that the queue is non-empty.  A returned `std::shared_ptr<T>` is an
    `Option<T>` (null is `None`). */
module ValueQueue {
  import opened Wrappers

  class ThreadsafeQueue<T> {
    /** `data_queue`, front first. */
    var items: seq<T>

    constructor ()
      ensures items == []
    {
      items := [];
    }

    /** `push`: append at the back. */
    method Push(newVal: T)
      modifies this
      ensures items == old(items) + [newVal]
    {
      items := items + [newVal];
    }

    /** `wait_and_pop(T&)`: once the queue is non-empty, move the front value
        out through `val` and pop it. */
    method WaitAndPopInto() returns (val: T)
      requires items != []
      modifies this
      ensures val == old(items)[0] && items == old(items)[1..]
    {
      val := items[0];
      items := items[1..];
    }

    /** `wait_and_pop()`: once the queue is non-empty, return a copy of the
        front value and pop it. */
    method WaitAndPop() returns (res: Option<T>)
      requires items != []
      modifies this
      ensures res == Some(old(items)[0]) && items == old(items)[1..]
    {
      res := Some(items[0]);
      items := items[1..];
    }

    /** `try_pop(T&)`: false and nothing changed (not even `val`) on an empty
        queue; otherwise the front value through `val`, popped, and true. */
    method TryPopInto(val: T) returns (ok: bool, val': T)
      modifies this
      ensures ok <==> old(items) != []
      ensures !ok ==> val' == val && items == old(items)
      ensures ok ==> val' == old(items)[0] && items == old(items)[1..]
    {
      if items == [] {
        return false, val;
      }
      val' := items[0];
      items := items[1..];
      ok := true;
    }

    /** `try_pop()`: an empty pointer on an empty queue, otherwise a copy of
        the front value, popped. */
    method TryPop() returns (res: Option<T>)
      modifies this
      ensures old(items) == [] ==> res == None && items == old(items)
      ensures old(items) != [] ==> res == Some(old(items)[0]) && items == old(items)[1..]
    {
      if items == [] {
        return None;
      }
      res := Some(items[0]);
      items := items[1..];
    }

    /** `empty()`: a read-only emptiness test. */
    method Empty() returns (e: bool)
      ensures e <==> items == []
    {
      e := items == [];
    }
  }

  /** FIFO order: values pushed one after another into a fresh queue come out
      of `try_pop` in the same order, and the queue is empty afterwards. */
  method PushAllThenPopAll<T>(xs: seq<T>) returns (ys: seq<T>, emptyAfter: bool)
    ensures ys == xs && emptyAfter
  {
    var q := new ThreadsafeQueue<T>();
    var i := 0;
    while i < |xs|
      invariant 0 <= i <= |xs| && q.items == xs[..i]
    {
      q.Push(xs[i]);
      i := i + 1;
      assert xs[..i] == xs[..i - 1] + [xs[i - 1]];
    }
    ys := [];
    while i > 0
      invariant 0 <= i <= |xs|
      invariant ys == xs[..|xs| - i] && q.items == xs[|xs| - i..]
    {
      var r := q.TryPop();
      ys := ys + [r.value];
      i := i - 1;
      assert xs[..|xs| - i] == xs[..|xs| - i - 1] + [xs[|xs| - i - 1]];
    }
    emptyAfter := q.Empty();
  }
}
