/**
 * The list with a cursor of asd_lab_5.c: a singly linked chain from `head`
 * and a `current` node pointer. The chain is the sequence of its values and
 * `current` is the position of the node it points to (None for NULL).
 */
module CursorList {

  import opened Common

  datatype ListError = ListOk | ListEmpty | ListNotFound | ListNullPointer

  class List {
    var nodes: seq<int>
    var current: Option<nat>

    ghost predicate Valid()
      reads this
    {
      current.Some? ==> current.value < |nodes|
    }

    /** initList: head = current = NULL. */
    constructor ()
      ensures Valid() && nodes == [] && current == None
    {
      nodes, current := [], None;
    }

    /** isEmptyList: head == NULL. */
    predicate IsEmpty()
      reads this
      ensures IsEmpty() <==> |nodes| == 0
    {
      nodes == []
    }

    /** putNode: the new node is linked after the last one (or becomes the head). */
    method PutNode(data: int) returns (err: ListError)
      requires Valid()
      modifies this
      ensures Valid() && err == ListOk
      ensures nodes == old(nodes) + [data] && current == old(current)
    {
      nodes := nodes + [data];
      err := ListOk;
    }

    /** getNode: LIST_EMPTY when current is NULL, otherwise the current node's data. */
    method GetNode(prev: int) returns (err: ListError, data: int)
      requires Valid()
      ensures err == (if current.None? then ListEmpty else ListOk)
      ensures err == ListEmpty ==> data == prev
      ensures err == ListOk ==> data == nodes[current.value]
    {
      if current.None? {
        return ListEmpty, prev;
      }
      return ListOk, nodes[current.value];
    }

    /** count: walk the chain counting nodes. */
    method Count() returns (n: int)
      ensures n == |nodes|
    {
      n := 0;
      var temp := 0;
      while temp < |nodes|
        invariant 0 <= temp <= |nodes| && n == temp
      {
        n := n + 1;
        temp := temp + 1;
      }
    }

    /** beginPtr: the head node, NULL for an empty list. */
    function BeginPtr(): (p: Option<nat>)
      reads this
      ensures p.None? <==> nodes == []
      ensures p.Some? ==> p.value == 0
    {
      if nodes == [] then None else Some(0)
    }

    /** endPtr: walk to the node whose next is NULL; NULL for an empty list. */
    method EndPtr() returns (p: Option<nat>)
      ensures p.None? <==> nodes == []
      ensures p.Some? ==> p.value == |nodes| - 1
    {
      if nodes == [] {
        return None;
      }
      var temp := 0;
      while temp + 1 < |nodes|
        invariant 0 <= temp < |nodes|
      {
        temp := temp + 1;
      }
      return Some(temp);
    }

    /** movePtr: LIST_NULL_POINTER when current is NULL, otherwise current moves to the next node. */
    method MovePtr() returns (err: ListError)
      requires Valid()
      modifies this
      ensures Valid() && nodes == old(nodes)
      ensures err == (if old(current).None? then ListNullPointer else ListOk)
      ensures err == ListNullPointer ==> current == old(current)
      ensures err == ListOk ==>
        current == (if old(current).value + 1 < |nodes| then Some(old(current).value + 1) else None)
    {
      if current.None? {
        return ListNullPointer;
      }
      current := if current.value + 1 < |nodes| then Some(current.value + 1) else None;
      err := ListOk;
    }

    /**
     * moveTo: current starts at the head and steps `index` times, stopping at
     * NULL; LIST_NOT_FOUND when it ends up NULL.
     */
    method MoveTo(index: int) returns (err: ListError)
      requires Valid()
      modifies this
      ensures Valid() && nodes == old(nodes)
      ensures var k := if index < 0 then 0 else index;
        if k < |nodes| then current == Some(k) && err == ListOk
        else current == None && err == ListNotFound
    {
      current := BeginPtr();
      var i := 0;
      while i < index && current.Some?
        invariant 0 <= i && (index >= 0 ==> i <= index) && (index < 0 ==> i == 0)
        invariant Valid() && nodes == old(nodes)
        invariant current.Some? ==> current.value == i
        invariant current.None? ==> i >= |nodes|
      {
        current := if current.value + 1 < |nodes| then Some(current.value + 1) else None;
        i := i + 1;
      }
      if current.None? {
        return ListNotFound;
      }
      err := ListOk;
    }

    /** copyList: a fresh list built by putNode-ing every value in order. */
    method CopyList() returns (copy: List)
      requires Valid()
      ensures fresh(copy) && copy.Valid()
      ensures copy.nodes == nodes && copy.current == None
    {
      copy := new List();
      var temp := 0;
      while temp < |nodes|
        invariant 0 <= temp <= |nodes|
        invariant copy.Valid() && copy.nodes == nodes[..temp] && copy.current == None
      {
        var err := copy.PutNode(nodes[temp]);
        temp := temp + 1;
      }
      assert nodes[..temp] == nodes;
    }
  }
}
