/**
 * The doubly linked list of doubly_linked_list.c with `head`, `tail` and a
 * `size` counter. The node chain is modelled by the sequence of its values,
 * head first; `size` is kept as a separate field.
 */
module DoublyLinkedList {

  datatype ListError = ListOk | ListEmpty

  class List {
    /** Node values from `head` to `tail`. */
    var nodes: seq<int>
    var size: int

    ghost predicate Valid()
      reads this
    {
      size == |nodes|
    }

    /** doublyLinkedListInit: head = tail = NULL, size = 0. */
    constructor ()
      ensures Valid() && nodes == [] && size == 0
    {
      nodes, size := [], 0;
    }

    /** doublyLinkedListIsEmpty: head == NULL. */
    predicate IsEmpty()
      reads this
      ensures IsEmpty() <==> |nodes| == 0
    {
      nodes == []
    }

    /** doublyLinkedListSize: the size field, equal to the number of nodes. */
    function Size(): (n: int)
      reads this
      requires Valid()
      ensures n == |nodes| && n >= 0
    {
      size
    }

    /** doublyLinkedListPushFront: prepend and count. */
    method PushFront(value: int) returns (err: ListError)
      requires Valid()
      modifies this
      ensures Valid() && err == ListOk
      ensures nodes == [value] + old(nodes) && size == old(size) + 1
    {
      nodes, size := [value] + nodes, size + 1;
      err := ListOk;
    }

    /** doublyLinkedListPushBack: append and count. */
    method PushBack(value: int) returns (err: ListError)
      requires Valid()
      modifies this
      ensures Valid() && err == ListOk
      ensures nodes == old(nodes) + [value] && size == old(size) + 1
    {
      nodes, size := nodes + [value], size + 1;
      err := ListOk;
    }

    /** doublyLinkedListPopFront: EMPTY when head is NULL, otherwise the head value is removed. */
    method PopFront(prev: int) returns (err: ListError, value: int)
      requires Valid()
      modifies this
      ensures Valid()
      ensures err == (if old(nodes) == [] then ListEmpty else ListOk)
      ensures err == ListEmpty ==> value == prev && nodes == old(nodes)
      ensures err == ListOk ==> value == old(nodes)[0] && nodes == old(nodes)[1..]
      ensures err == ListOk ==> size == old(size) - 1
    {
      if nodes == [] {
        return ListEmpty, prev;
      }
      value := nodes[0];
      nodes, size := nodes[1..], size - 1;
      err := ListOk;
    }

    /** doublyLinkedListPopBack: EMPTY when tail is NULL, otherwise the tail value is removed. */
    method PopBack(prev: int) returns (err: ListError, value: int)
      requires Valid()
      modifies this
      ensures Valid()
      ensures err == (if old(nodes) == [] then ListEmpty else ListOk)
      ensures err == ListEmpty ==> value == prev && nodes == old(nodes)
      ensures err == ListOk ==> value == old(nodes)[|old(nodes)| - 1]
      ensures err == ListOk ==> nodes == old(nodes)[..|old(nodes)| - 1] && size == old(size) - 1
    {
      if nodes == [] {
        return ListEmpty, prev;
      }
      value := nodes[|nodes| - 1];
      nodes, size := nodes[..|nodes| - 1], size - 1;
      err := ListOk;
    }

    /** doublyLinkedListClear: every node released, head = tail = NULL, size = 0. */
    method Clear() returns (err: ListError)
      requires Valid()
      modifies this
      ensures Valid() && err == ListOk && nodes == [] && size == 0 && IsEmpty()
    {
      nodes, size := [], 0;
      err := ListOk;
    }
  }

  /**
   * testDoublyLinkedList: push 10 at the front, 20 at the back and 5 at the
   * front; popFront gives 5 and popBack gives 20; after clear the list is empty.
   */
  method ListTest() returns (front: int, back: int, emptyAfterClear: bool)
    ensures front == 5 && back == 20 && emptyAfterClear
  {
    var list := new List();
    var err := list.PushFront(10);
    err := list.PushBack(20);
    err := list.PushFront(5);
    assert list.nodes == [5, 10, 20];
    err, front := list.PopFront(0);
    assert err == ListOk;
    err, back := list.PopBack(front);
    assert err == ListOk;
    err := list.Clear();
    emptyAfterClear := list.IsEmpty();
  }
}
