/** The waiter queue of the pool: a deque that hands out a handle for every
    element it links, so that a pending element can be removed from any
    position through its handle.  The linked nodes are modelled as a
    sequence of (handle, value) pairs in list order, head first; a handle
    is a number the deque never reuses. */
module LinkedDeques {
  import opened Errors

  /** A linked element: its handle and the value it holds. */
  datatype Node<T> = Node(id: nat, value: T)

  /** No handle occurs twice. */
  ghost predicate DistinctIds<T>(s: seq<Node<T>>)
  {
    forall i, j :: 0 <= i < j < |s| ==> s[i].id != s[j].id
  }

  /** Whether a handle is currently linked. */
  predicate Linked<T>(s: seq<Node<T>>, id: nat)
  {
    exists i :: 0 <= i < |s| && s[i].id == id
  }

  /** The position of the node with handle `id`, if it is linked. */
  function IndexOf<T>(s: seq<Node<T>>, id: nat): (r: Option<nat>)
    ensures r.Some? ==> r.value < |s| && s[r.value].id == id
    ensures r.Some? ==> forall j :: 0 <= j < r.value ==> s[j].id != id
    ensures r.None? <==> !Linked(s, id)
  {
    if s == [] then None
    else if s[0].id == id then Some(0)
    else match IndexOf(s[1..], id)
      case None => None
      case Some(k) => Some(k + 1)
  }

  /** `s` with the node at position `k` unlinked. */
  function RemoveAt<T>(s: seq<Node<T>>, k: nat): seq<Node<T>>
    requires k < |s|
  {
    s[..k] + s[k + 1..]
  }

  /** Unlinking keeps every other node, in the same relative order. */
  lemma {:induction false} RemoveAtKeepsOrder<T>(s: seq<Node<T>>, k: nat)
    requires k < |s|
    ensures |RemoveAt(s, k)| == |s| - 1
    ensures forall i :: 0 <= i < k ==> RemoveAt(s, k)[i] == s[i]
    ensures forall i :: k <= i < |s| - 1 ==> RemoveAt(s, k)[i] == s[i + 1]
  {
  }

  /** With distinct handles, unlinking the node of `id` leaves `id` unlinked
      and every other handle linked as before. */
  lemma {:induction false} RemoveUnlinksExactly<T>(s: seq<Node<T>>, k: nat, other: nat)
    requires DistinctIds(s) && k < |s|
    ensures DistinctIds(RemoveAt(s, k))
    ensures !Linked(RemoveAt(s, k), s[k].id)
    ensures other != s[k].id ==> (Linked(RemoveAt(s, k), other) <==> Linked(s, other))
  {
    var r := RemoveAt(s, k);
    RemoveAtKeepsOrder(s, k);
    forall i | 0 <= i < |r| ensures r[i].id != s[k].id {
      if i < k { assert r[i] == s[i]; } else { assert r[i] == s[i + 1]; }
    }
    if other != s[k].id && Linked(s, other) {
      var i :| 0 <= i < |s| && s[i].id == other;
      if i < k { assert r[i].id == other; } else { assert r[i - 1].id == other; }
    }
  }

  /** A handle that has been polled is no longer linked, so removing it
      afterwards finds nothing: a cancel after fulfilment returns false. */
  lemma {:induction false} PolledHandleIsGone<T>(s: seq<Node<T>>)
    requires DistinctIds(s) && s != []
    ensures IndexOf(s[1..], s[0].id).None?
    ensures IndexOf(s[..|s| - 1], s[|s| - 1].id).None?
  {
    RemoveUnlinksExactly(s, 0, 0);
    assert RemoveAt(s, 0) == s[1..];
    RemoveUnlinksExactly(s, |s| - 1, 0);
    assert RemoveAt(s, |s| - 1) == s[..|s| - 1];
  }

  /** LinkedDeque: the pool's waiter queue. */
  class LinkedDeque<T> {
    /** The linked nodes, head first. */
    var nodes: seq<Node<T>>
    /** The next handle to hand out. */
    var nextId: nat

    ghost predicate Valid()
      reads this
    {
      DistinctIds(nodes) && forall i :: 0 <= i < |nodes| ==> nodes[i].id < nextId
    }

    constructor ()
      ensures Valid() && nodes == []
    {
      nodes := [];
      nextId := 0;
    }

    /** size(): the number of linked elements; it is zero exactly when no
        handle is linked. */
    function Size(): (n: nat)
      reads this
      ensures n == |nodes|
      ensures n == 0 <==> forall id :: !Linked(nodes, id)
    {
      assert nodes != [] ==> Linked(nodes, nodes[0].id);
      |nodes|
    }

    /** Adds `item` at the head and returns its handle. */
    method AddFirstNode(item: T) returns (h: nat)
      requires Valid()
      modifies this
      ensures Valid()
      ensures !Linked(old(nodes), h)
      ensures nodes == [Node(h, item)] + old(nodes)
      ensures Size() == old(Size()) + 1
    {
      h := nextId;
      nodes := [Node(h, item)] + nodes;
      nextId := nextId + 1;
    }

    /** Adds `item` at the tail and returns its handle. */
    method AddLastNode(item: T) returns (h: nat)
      requires Valid()
      modifies this
      ensures Valid()
      ensures !Linked(old(nodes), h)
      ensures nodes == old(nodes) + [Node(h, item)]
      ensures Size() == old(Size()) + 1
    {
      h := nextId;
      nodes := nodes + [Node(h, item)];
      nextId := nextId + 1;
    }

    /** Adds `item` immediately before the node with handle `before` and
        returns the new handle; fails, changing nothing, when `before` is
        not linked in this deque. */
    method AddBeforeNode(before: nat, item: T) returns (r: Result<nat, Throwable>)
      requires Valid()
      modifies this
      ensures Valid()
      ensures r.Failure? <==> !Linked(old(nodes), before)
      ensures r.Failure? ==> r.error == IllegalArgument && nodes == old(nodes)
      ensures r.Success? ==>
        var k := IndexOf(old(nodes), before).value;
        !Linked(old(nodes), r.value) &&
        nodes == old(nodes)[..k] + [Node(r.value, item)] + old(nodes)[k..]
    {
      match IndexOf(nodes, before)
      case None =>
        r := Failure(IllegalArgument);
      case Some(k) =>
        var h := nextId;
        nodes := nodes[..k] + [Node(h, item)] + nodes[k..];
        nextId := nextId + 1;
        r := Success(h);
    }

    /** Unlinks the node with handle `h` and returns its value, or returns
        None and changes nothing when `h` is no longer linked. */
    method RemoveNode(h: nat) returns (v: Option<T>)
      requires Valid()
      modifies this
      ensures Valid()
      ensures v.None? <==> !Linked(old(nodes), h)
      ensures v.None? ==> nodes == old(nodes)
      ensures v.Some? ==>
        var k := IndexOf(old(nodes), h).value;
        v.value == old(nodes)[k].value && nodes == RemoveAt(old(nodes), k)
      ensures !Linked(nodes, h)
    {
      match IndexOf(nodes, h)
      case None =>
        v := None;
      case Some(k) =>
        RemoveUnlinksExactly(nodes, k, h);
        v := Some(nodes[k].value);
        nodes := RemoveAt(nodes, k);
    }

    /** Removes and returns the head, or None when empty. */
    method PollFirst() returns (v: Option<Node<T>>)
      requires Valid()
      modifies this
      ensures Valid()
      ensures v.None? <==> old(nodes) == []
      ensures v.None? ==> nodes == old(nodes)
      ensures v.Some? ==> v.value == old(nodes)[0] && nodes == old(nodes)[1..]
      ensures v.Some? ==> !Linked(nodes, v.value.id) && Size() == old(Size()) - 1
    {
      if nodes == [] {
        v := None;
      } else {
        PolledHandleIsGone(nodes);
        v := Some(nodes[0]);
        nodes := nodes[1..];
      }
    }

    /** Removes and returns the tail, or None when empty. */
    method PollLast() returns (v: Option<Node<T>>)
      requires Valid()
      modifies this
      ensures Valid()
      ensures v.None? <==> old(nodes) == []
      ensures v.None? ==> nodes == old(nodes)
      ensures v.Some? ==> v.value == old(nodes)[|old(nodes)| - 1] && nodes == old(nodes)[..|old(nodes)| - 1]
      ensures v.Some? ==> !Linked(nodes, v.value.id) && Size() == old(Size()) - 1
    {
      if nodes == [] {
        v := None;
      } else {
        PolledHandleIsGone(nodes);
        v := Some(nodes[|nodes| - 1]);
        nodes := nodes[..|nodes| - 1];
      }
    }
  }
}
