/**
 * The singly linked list of linked_list.c. The chain from `head` is
 * modelled by the sequence of node values; a node is identified by its
 * position in that sequence.
 */
module LinkedList {

  import opened Common

  datatype ListError = ListOk | ListEmpty | ListNotFound

  /** Reference definitions, one recursive step per node. */

  /** The list with the first node holding `x` unlinked. */
  function RemoveFirst(s: seq<int>, x: int): seq<int>
  {
    if s == [] then []
    else if s[0] == x then s[1..]
    else [s[0]] + RemoveFirst(s[1..], x)
  }

  /** The list with `v` linked in right after the first node holding `t`. */
  function InsertAfterFirst(s: seq<int>, t: int, v: int): seq<int>
  {
    if s == [] then []
    else if s[0] == t then [s[0], v] + s[1..]
    else [s[0]] + InsertAfterFirst(s[1..], t, v)
  }

  /** The list with `v` linked in right before the first node holding `t`. */
  function InsertBeforeFirst(s: seq<int>, t: int, v: int): seq<int>
  {
    if s == [] then []
    else if s[0] == t then [v] + s
    else [s[0]] + InsertBeforeFirst(s[1..], t, v)
  }

  /** `i` is the position of the first occurrence of `x` in `s`. */
  ghost predicate FirstAt(s: seq<int>, x: int, i: int)
  {
    0 <= i < |s| && s[i] == x && forall j :: 0 <= j < i ==> s[j] != x
  }

  /** At the first occurrence `i` of `x`, removing unlinks position `i`. */
  lemma {:induction false} RemoveAtFirst(s: seq<int>, x: int, i: int)
    requires FirstAt(s, x, i)
    ensures RemoveFirst(s, x) == s[..i] + s[i + 1..]
  {
    if i > 0 {
      RemoveAtFirst(s[1..], x, i - 1);
      assert s[..i] == [s[0]] + s[1..][..i - 1];
    }
  }

  /** At the first occurrence `i` of `t`, inserting after links `v` in at `i + 1`. */
  lemma {:induction false} InsertAfterAtFirst(s: seq<int>, t: int, v: int, i: int)
    requires FirstAt(s, t, i)
    ensures InsertAfterFirst(s, t, v) == s[..i + 1] + [v] + s[i + 1..]
  {
    if i > 0 {
      InsertAfterAtFirst(s[1..], t, v, i - 1);
      assert s[..i + 1] == [s[0]] + s[1..][..i];
    } else {
      assert s[..1] == [s[0]];
    }
  }

  /** At the first occurrence `i` of `t`, inserting before links `v` in at `i`. */
  lemma {:induction false} InsertBeforeAtFirst(s: seq<int>, t: int, v: int, i: int)
    requires FirstAt(s, t, i)
    ensures InsertBeforeFirst(s, t, v) == s[..i] + [v] + s[i..]
  {
    if i > 0 {
      InsertBeforeAtFirst(s[1..], t, v, i - 1);
      assert s[..i] == [s[0]] + s[1..][..i - 1];
    }
  }

  /** Without an occurrence, none of the edits changes the list. */
  lemma {:induction false} EditsWithoutOccurrence(s: seq<int>, x: int, v: int)
    requires x !in s
    ensures RemoveFirst(s, x) == s && InsertAfterFirst(s, x, v) == s
    ensures InsertBeforeFirst(s, x, v) == s
  {
    if s != [] {
      EditsWithoutOccurrence(s[1..], x, v);
      assert s == [s[0]] + s[1..];
    }
  }

  /** Removing deletes exactly one occurrence of `x` and nothing else. */
  lemma {:induction false} RemoveFirstMultiset(s: seq<int>, x: int)
    requires x in s
    ensures multiset(RemoveFirst(s, x)) == multiset(s) - multiset{x}
    ensures |RemoveFirst(s, x)| == |s| - 1
  {
    assert s == [s[0]] + s[1..];
    if s[0] != x {
      RemoveFirstMultiset(s[1..], x);
    }
  }

  /** Inserting after an occurrence adds exactly one `v`. */
  lemma {:induction false} InsertAfterMultiset(s: seq<int>, t: int, v: int)
    requires t in s
    ensures multiset(InsertAfterFirst(s, t, v)) == multiset(s) + multiset{v}
  {
    assert s == [s[0]] + s[1..];
    if s[0] != t {
      InsertAfterMultiset(s[1..], t, v);
    }
  }

  /** Inserting before an occurrence adds exactly one `v`. */
  lemma {:induction false} InsertBeforeMultiset(s: seq<int>, t: int, v: int)
    requires t in s
    ensures multiset(InsertBeforeFirst(s, t, v)) == multiset(s) + multiset{v}
  {
    assert s == [s[0]] + s[1..];
    if s[0] != t {
      InsertBeforeMultiset(s[1..], t, v);
    }
  }

  class List {
    /** Node values from `head` on. */
    var nodes: seq<int>

    /** listInit: head = NULL. */
    constructor ()
      ensures nodes == []
    {
      nodes := [];
    }

    /** listIsEmpty: head == NULL. */
    predicate IsEmpty()
      reads this
      ensures IsEmpty() <==> |nodes| == 0
    {
      nodes == []
    }

    /** listInsertFront: the new node becomes the head. */
    method InsertFront(value: int) returns (err: ListError)
      modifies this
      ensures err == ListOk && nodes == [value] + old(nodes)
    {
      nodes := [value] + nodes;
      err := ListOk;
    }

    /**
     * listFindElement: walk from the head; the first node holding `value`,
     * with LIST_OK, or no node and LIST_NOT_FOUND.
     */
    method FindElement(value: int) returns (node: Option<nat>, err: ListError)
      ensures err == (if value in nodes then ListOk else ListNotFound)
      ensures err == ListOk <==> node.Some?
      ensures node.Some? ==> FirstAt(nodes, value, node.value)
    {
      var current := 0;
      while current < |nodes|
        invariant 0 <= current <= |nodes|
        invariant forall j :: 0 <= j < current ==> nodes[j] != value
      {
        if nodes[current] == value {
          return Some(current), ListOk;
        }
        current := current + 1;
      }
      return None, ListNotFound;
    }

    /** listContains: true iff some node holds `value`. */
    method Contains(value: int) returns (found: bool, err: ListError)
      ensures found <==> value in nodes
      ensures err == (if found then ListOk else ListNotFound)
    {
      var current := 0;
      while current < |nodes|
        invariant 0 <= current <= |nodes|
        invariant value !in nodes[..current]
      {
        if nodes[current] == value {
          return true, ListOk;
        }
        current := current + 1;
        assert nodes[..current] == nodes[..current - 1] + [nodes[current - 1]];
      }
      assert nodes[..current] == nodes;
      return false, ListNotFound;
    }

    /** listInsertAfter: LIST_NOT_FOUND (no change) when `target` is absent. */
    method InsertAfter(target: int, value: int) returns (err: ListError)
      modifies this
      ensures err == (if target in old(nodes) then ListOk else ListNotFound)
      ensures nodes == InsertAfterFirst(old(nodes), target, value)
    {
      var targetNode;
      targetNode, err := FindElement(target);
      if err != ListOk {
        EditsWithoutOccurrence(nodes, target, value);
        return;
      }
      var i := targetNode.value;
      InsertAfterAtFirst(nodes, target, value, i);
      nodes := nodes[..i + 1] + [value] + nodes[i + 1..];
    }

    /**
     * listInsertBefore: LIST_EMPTY on an empty list; a head holding `target`
     * gets a new head; otherwise walk while the next node does not hold
     * `target`, and LIST_NOT_FOUND when the walk runs off the end.
     */
    method InsertBefore(target: int, value: int) returns (err: ListError)
      modifies this
      ensures err == (if old(nodes) == [] then ListEmpty
                      else if target in old(nodes) then ListOk else ListNotFound)
      ensures nodes == InsertBeforeFirst(old(nodes), target, value)
    {
      if nodes == [] {
        return ListEmpty;
      }
      if nodes[0] == target {
        err := InsertFront(value);
        return;
      }
      var current := 0;
      while current + 1 < |nodes| && nodes[current + 1] != target
        invariant 0 <= current < |nodes|
        invariant forall j :: 0 <= j <= current ==> nodes[j] != target
      {
        current := current + 1;
      }
      if current + 1 >= |nodes| {
        EditsWithoutOccurrence(nodes, target, value);
        return ListNotFound;
      }
      InsertBeforeAtFirst(nodes, target, value, current + 1);
      nodes := nodes[..current + 1] + [value] + nodes[current + 1..];
      err := ListOk;
    }

    /**
     * listRemoveElement: LIST_EMPTY on an empty list; otherwise walk with a
     * `prev` tracker to the first node holding `value` and unlink it, or
     * LIST_NOT_FOUND.
     */
    method RemoveElement(value: int) returns (err: ListError)
      modifies this
      ensures err == (if old(nodes) == [] then ListEmpty
                      else if value in old(nodes) then ListOk else ListNotFound)
      ensures nodes == RemoveFirst(old(nodes), value)
    {
      if nodes == [] {
        return ListEmpty;
      }
      var current := 0;
      var prev: Option<nat> := None;
      while current < |nodes| && nodes[current] != value
        invariant 0 <= current <= |nodes|
        invariant prev == (if current == 0 then None else Some(current - 1))
        invariant forall j :: 0 <= j < current ==> nodes[j] != value
      {
        prev := Some(current);
        current := current + 1;
      }
      if current == |nodes| {
        EditsWithoutOccurrence(nodes, value, 0);
        return ListNotFound;
      }
      RemoveAtFirst(nodes, value, current);
      if prev.Some? {
        nodes := nodes[..prev.value + 1] + nodes[current + 1..];
      } else {
        nodes := nodes[1..];
      }
      err := ListOk;
    }

    /** listClear: all nodes released, head = NULL. */
    method Clear() returns (err: ListError)
      modifies this
      ensures err == ListOk && nodes == []
    {
      nodes := [];
      err := ListOk;
    }
  }

  /**
   * testLinkedList: insert 10 at the front, 20 after 10, 5 before 10; find 20;
   * remove 10; clear; then insert 40 and 30 at the front.
   */
  method ListTest() returns (afterInserts: seq<int>, afterRemove: seq<int>, cleared: bool)
    ensures afterInserts == [5, 10, 20]
    ensures afterRemove == [5, 20]
    ensures cleared
  {
    var list := new List();
    var err := list.InsertFront(10);
    assert list.nodes == [10];
    err := list.InsertAfter(10, 20);
    assert err == ListOk && list.nodes == [10, 20];
    err := list.InsertBefore(10, 5);
    assert err == ListOk && list.nodes == [5, 10, 20];
    afterInserts := list.nodes;
    var foundNode;
    foundNode, err := list.FindElement(20);
    assert err == ListOk && list.nodes[foundNode.value] == 20;
    err := list.RemoveElement(10);
    assert err == ListOk;
    assert list.nodes == [5] + RemoveFirst([10, 20], 10);
    afterRemove := list.nodes;
    err := list.Clear();
    cleared := list.IsEmpty();
    err := list.InsertFront(30);
    err := list.InsertFront(40);
    assert err == ListOk;
  }
}
