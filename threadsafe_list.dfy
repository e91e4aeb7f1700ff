/** The lock-coupled singly linked list of
    code_list_6/list6.11-list6.13/threadsafe_list.h: a permanent, payload-free
    sentinel `head` followed by the payload nodes.  The per-node mutexes and
    the hand-over-hand locking are left out; each public call is one atomic
    step.  A payload (`std::shared_ptr<T>`) is held as a value. */
module ThreadsafeList {
  import opened Wrappers
  import opened SeqSearch

  class Node<T> {
    /** Null only on the sentinel. */
    var data: Option<T>
    var next: Node?<T>

    /** `node()`: the sentinel, no payload and no successor. */
    constructor Sentinel()
      ensures data == None && next == null
    {
      data := None;
      next := null;
    }

    /** `node(val)`: a payload node not yet linked. */
    constructor (val: T)
      ensures data == Some(val) && next == null
    {
      data := Some(val);
      next := null;
    }
  }

  /** `s` with every element satisfying `p` taken out, the rest in order. */
  function Without<T>(s: seq<T>, p: T -> bool): (r: seq<T>)
    ensures |r| <= |s|
  {
    if s == [] then []
    else Without(s[..|s| - 1], p) + (if p(s[|s| - 1]) then [] else [s[|s| - 1]])
  }

  /** Taking matches out distributes over concatenation, so the survivors
      keep their relative order. */
  lemma {:induction false} WithoutConcat<T>(a: seq<T>, b: seq<T>, p: T -> bool)
    ensures Without(a + b, p) == Without(a, p) + Without(b, p)
  {
    if b != [] {
      var b' := b[..|b| - 1];
      assert (a + b)[..|a + b| - 1] == a + b';
      WithoutConcat(a, b', p);
    } else {
      assert a + b == a;
    }
  }

  /** No survivor satisfies `p`. */
  lemma {:induction false} WithoutNoMatch<T>(s: seq<T>, p: T -> bool)
    ensures forall x :: x in Without(s, p) ==> !p(x)
  {
    if s != [] {
      WithoutNoMatch(s[..|s| - 1], p);
    }
  }

  /** Exactly the elements that do not satisfy `p` survive, each as often as
      it occurred. */
  lemma {:induction false} WithoutCount<T>(s: seq<T>, p: T -> bool, x: T)
    ensures multiset(Without(s, p))[x] == if p(x) then 0 else multiset(s)[x]
  {
    if s != [] {
      var s' := s[..|s| - 1];
      WithoutCount(s', p, x);
      assert s == s' + [s[|s| - 1]];
    }
  }

  /** Extending the examined prefix by one element adds that element to the
      survivors exactly when it does not match. */
  lemma WithoutStep<T>(s: seq<T>, j: nat, p: T -> bool)
    requires j < |s|
    ensures Without(s[..j + 1], p) == Without(s[..j], p) + (if p(s[j]) then [] else [s[j]])
  {
    assert s[..j + 1][..j] == s[..j];
  }

  /** The bookkeeping of one `remove_if` step: when `contents` is the
      survivors of the first `j` elements of `s` followed by the rest of `s`,
      its element `i` is `s[j]`, and dropping it (when it matches) or keeping
      it (when it does not) gives the same shape for `j + 1`. */
  lemma RemoveIfStep<T>(s: seq<T>, j: nat, p: T -> bool, contents: seq<T>, i: nat)
    requires j < |s| && contents == Without(s[..j], p) + s[j..] && |contents| + j == i + |s|
    ensures i < |contents| && contents[i] == s[j]
    ensures p(s[j]) ==> contents[..i] + contents[i + 1..] == Without(s[..j + 1], p) + s[j + 1..]
    ensures !p(s[j]) ==> contents == Without(s[..j + 1], p) + s[j + 1..]
  {
    var kept := Without(s[..j], p);
    assert s[j..] == [s[j]] + s[j + 1..];
    WithoutStep(s, j, p);
    if p(s[j]) {
      assert contents[..i] == kept && contents[i + 1..] == s[j + 1..];
    } else {
      assert kept + [s[j]] + s[j + 1..] == kept + s[j..];
    }
  }

  /** When the whole of `s` has been examined, what is left is exactly its
      survivors, none of which satisfies `p`. */
  lemma RemoveIfDone<T>(s: seq<T>, p: T -> bool, contents: seq<T>)
    requires contents == Without(s[..|s|], p) + s[|s|..]
    ensures contents == Without(s, p)
    ensures forall k :: 0 <= k < |contents| ==> !p(contents[k])
  {
    assert s[..|s|] == s;
    WithoutNoMatch(s, p);
  }

  /** When every element matches, nothing survives. */
  lemma {:induction false} WithoutAll<T>(s: seq<T>, p: T -> bool)
    requires forall x :: p(x)
    ensures Without(s, p) == []
  {
    if s != [] {
      WithoutAll(s[..|s| - 1], p);
    }
  }

  class List<T> {
    /** The sentinel; never replaced and never removed. */
    const head: Node<T>

    /** The payloads, first after the sentinel first. */
    ghost var Contents: seq<T>
    /** The chain of nodes from the sentinel (index 0) to the last node;
        node `k + 1` holds payload `k`. */
    ghost var Chain: seq<Node<T>>
    ghost var Repr: set<object>

    /** The chain starts at the payload-free sentinel and ends in a null
        link; each node links to the following one, each node after the
        sentinel holds its payload, and no node occurs twice. */
    ghost predicate Valid()
      reads this, Repr
    {
      && this in Repr
      && (forall k :: 0 <= k < |Chain| ==> Chain[k] in Repr)
      && |Chain| == |Contents| + 1
      && Chain[0] == head && head.data == None
      && (forall k {:trigger Chain[k].next} :: 0 <= k < |Contents| ==> Chain[k].next == Chain[k + 1])
      && Chain[|Contents|].next == null
      && (forall k :: 1 <= k < |Chain| ==> Chain[k].data == Some(Contents[k - 1]))
      && (forall k, m :: 0 <= k < m < |Chain| ==> Chain[k] != Chain[m])
    }

    constructor ()
      ensures Valid() && fresh(Repr) && Contents == []
    {
      var sentinel := new Node.Sentinel();
      head := sentinel;
      Contents, Chain := [], [sentinel];
      Repr := {this, sentinel};
    }

    /** `push_front`: the new node is spliced in right after the sentinel, so
        its payload comes first and the previous payloads follow unchanged. */
    method PushFront(val: T)
      requires Valid()
      modifies Repr
      ensures Valid() && fresh(Repr - old(Repr))
      ensures Contents == [val] + old(Contents)
    {
      var newNode := new Node(val);
      newNode.next := head.next;
      head.next := newNode;
      Chain := [head, newNode] + Chain[1..];
      Contents := [val] + Contents;
      Repr := Repr + {newNode};
    }

    /** `for_each`: `f` is applied to each payload exactly once, from the
        first node to the last and never to the sentinel.  `f` may update the
        payload it is given (it takes it by reference), which is modelled as
        the payload being replaced by `f`'s result; `visited` is the sequence
        of payloads handed to `f`, in order. */
    method ForEach(f: T -> T) returns (visited: seq<T>)
      requires Valid()
      modifies Repr
      ensures Valid() && Repr == old(Repr) && Chain == old(Chain)
      ensures visited == old(Contents)
      ensures |Contents| == |old(Contents)|
      ensures forall k :: 0 <= k < |Contents| ==> Contents[k] == f(old(Contents)[k])
    {
      var current := head;
      ghost var i := 0;
      visited := [];
      while current.next != null
        invariant Valid() && Repr == old(Repr) && Chain == old(Chain)
        invariant 0 <= i < |Chain| && current == Chain[i]
        invariant i < |Contents| ==> current.next == Chain[i + 1]
        invariant visited == old(Contents)[..i]
        invariant |Contents| == |old(Contents)|
        invariant forall k :: 0 <= k < i ==> Contents[k] == f(old(Contents)[k])
        invariant forall k :: i <= k < |Contents| ==> Contents[k] == old(Contents)[k]
        decreases |Chain| - i
      {
        var next := current.next;
        assert i < |Contents| && next == Chain[i + 1];
        visited := visited + [next.data.value];
        next.data := Some(f(next.data.value));
        Contents := Contents[i := f(Contents[i])];
        current := next;
        i := i + 1;
      }
      assert i == |Contents|;
    }

    /** `find_first_if`: the payload of the first node satisfying `p`, or an
        empty pointer when none does. */
    method FindFirstIf(p: T -> bool) returns (res: Option<T>)
      requires Valid()
      ensures res.None? <==> forall k :: 0 <= k < |Contents| ==> !p(Contents[k])
      ensures res.Some? ==> p(res.value)
      ensures res.Some? ==> res.value == Contents[FindIf(Contents, p)]
    {
      var current := head;
      ghost var i := 0;
      while current.next != null
        invariant Valid()
        invariant 0 <= i < |Chain| && current == Chain[i]
        invariant i < |Contents| ==> current.next == Chain[i + 1]
        invariant forall k :: 0 <= k < i ==> !p(Contents[k])
        decreases |Chain| - i
      {
        var next := current.next;
        assert i < |Contents| && next == Chain[i + 1];
        if p(next.data.value) {
          return next.data;
        }
        current := next;
        i := i + 1;
      }
      assert i == |Contents|;
      return None;
    }

    /** `remove_if`: one pass that unlinks every node whose payload satisfies
        `p`.  After an unlink the same `current` is examined again, so runs of
        matching nodes are all removed; only `current.next` is rewritten and
        the sentinel stays.  The survivors keep their order. */
    method RemoveIf(p: T -> bool)
      requires Valid()
      modifies Repr
      ensures Valid() && Repr <= old(Repr)
      ensures Contents == Without(old(Contents), p)
      ensures forall k :: 0 <= k < |Contents| ==> !p(Contents[k])
    {
      ghost var s0 := Contents;
      var current := head;
      ghost var i := 0;
      ghost var j := 0;
      while current.next != null
        invariant Valid() && Repr <= old(Repr)
        invariant 0 <= i < |Chain| && current == Chain[i]
        invariant i < |Contents| ==> current.next == Chain[i + 1]
        invariant 0 <= j <= |s0|
        invariant Contents == Without(s0[..j], p) + s0[j..]
        invariant |Contents| + j == i + |s0|
        decreases |Chain| - i
      {
        var next := current.next;
        RemoveIfStep(s0, j, p, Contents, i);
        if p(next.data.value) {
          Unlink(current, i);
        } else {
          current := next;
          i := i + 1;
        }
        j := j + 1;
      }
      assert i == |Contents|;
      RemoveIfDone(s0, p, Contents);
    }

    /** One step of `remove_if`: `current`, the node at position `i` of the
        chain, is linked past its successor, which leaves the list. */
    method Unlink(current: Node<T>, ghost i: nat)
      requires Valid() && i < |Contents| && current == Chain[i]
      modifies Repr
      ensures Valid() && Repr == old(Repr) - {old(Chain[i + 1])}
      ensures Chain == old(Chain[..i + 1] + Chain[i + 2..])
      ensures Contents == old(Contents[..i] + Contents[i + 1..])
    {
      var next := current.next;
      ghost var chain0 := Chain;
      current.next := next.next;
      Chain := Chain[..i + 1] + Chain[i + 2..];
      Contents := Contents[..i] + Contents[i + 1..];
      Repr := Repr - {next};
      assert forall k :: 0 <= k < |Chain| ==> Chain[k] == if k <= i then chain0[k] else chain0[k + 1];
    }

    /** The destructor: `remove_if` with an always-true predicate (the header
        gives that predicate a `node` parameter where the payload type is
        meant) leaves no payload node. */
    method Drain()
      requires Valid()
      modifies Repr
      ensures Valid() && Contents == [] && head.next == null
    {
      var always := (x: T) => true;
      RemoveIf(always);
      WithoutAll(old(Contents), always);
    }
  }

  /** `push_front` of 1, 2 and 3 followed by `for_each` visits 3, 2, 1. */
  method PushFrontVisitOrder() returns (visited: seq<int>)
    ensures visited == [3, 2, 1]
  {
    var l := new List<int>();
    l.PushFront(1);
    l.PushFront(2);
    l.PushFront(3);
    visited := l.ForEach(x => x);
  }
}
