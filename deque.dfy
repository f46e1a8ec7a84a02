/**
 * The doubly linked deque of dequeue.c with `front` and `back` pointers and
 * no size field. The node chain is modelled by the sequence of its values,
 * front first.
 */
module Deque {

  datatype DequeError = DequeSuccess | DequeEmpty

  class Deque {
    /** Node values from `front` to `back`. */
    var nodes: seq<int>

    /** dequeInit: front = back = NULL. */
    constructor ()
      ensures nodes == []
    {
      nodes := [];
    }

    /** dequeIsEmpty: front == NULL. */
    predicate IsEmpty()
      reads this
      ensures IsEmpty() <==> |nodes| == 0
    {
      nodes == []
    }

    /** dequePushFront: the new node becomes `front` (and `back` of an empty deque). */
    method PushFront(value: int) returns (err: DequeError)
      modifies this
      ensures err == DequeSuccess && nodes == [value] + old(nodes)
    {
      nodes := [value] + nodes;
      err := DequeSuccess;
    }

    /** dequePushBack: the new node becomes `back` (and `front` of an empty deque). */
    method PushBack(value: int) returns (err: DequeError)
      modifies this
      ensures err == DequeSuccess && nodes == old(nodes) + [value]
    {
      nodes := nodes + [value];
      err := DequeSuccess;
    }

    /** dequePopFront: DEQUE_EMPTY leaves `*value` alone; otherwise the front node goes. */
    method PopFront(prev: int) returns (err: DequeError, value: int)
      modifies this
      ensures err == (if old(nodes) == [] then DequeEmpty else DequeSuccess)
      ensures err == DequeEmpty ==> value == prev && nodes == old(nodes)
      ensures err == DequeSuccess ==> value == old(nodes)[0] && nodes == old(nodes)[1..]
    {
      if nodes == [] {
        return DequeEmpty, prev;
      }
      value := nodes[0];
      nodes := nodes[1..];
      err := DequeSuccess;
    }

    /** dequePopBack: DEQUE_EMPTY leaves `*value` alone; otherwise the back node goes. */
    method PopBack(prev: int) returns (err: DequeError, value: int)
      modifies this
      ensures err == (if old(nodes) == [] then DequeEmpty else DequeSuccess)
      ensures err == DequeEmpty ==> value == prev && nodes == old(nodes)
      ensures err == DequeSuccess ==> value == old(nodes)[|old(nodes)| - 1]
      ensures err == DequeSuccess ==> nodes == old(nodes)[..|old(nodes)| - 1]
    {
      if nodes == [] {
        return DequeEmpty, prev;
      }
      value := nodes[|nodes| - 1];
      nodes := nodes[..|nodes| - 1];
      err := DequeSuccess;
    }

    /** dequeClear: pop from the front until a pop reports DEQUE_EMPTY. */
    method Clear()
      modifies this
      ensures nodes == [] && IsEmpty()
    {
      var tempValue := 0;
      var err := DequeSuccess;
      while err == DequeSuccess
        invariant err == DequeEmpty ==> nodes == []
        decreases |nodes| + (if err == DequeSuccess then 1 else 0)
      {
        err, tempValue := PopFront(tempValue);
      }
    }
  }

  /**
   * testDeque: push 10, 20 at the back and pop 20, 10 from the back; push 30,
   * 40 at the front and pop 40, 30 from the front; the deque is then empty.
   */
  method DequeTest() returns (popped: seq<int>, emptyAtEnd: bool)
    ensures popped == [20, 10, 40, 30]
    ensures emptyAtEnd
  {
    var deque := new Deque();
    var err := deque.PushBack(10);
    err := deque.PushBack(20);
    var a, b, c, d;
    err, a := deque.PopBack(0);
    assert err == DequeSuccess && a == 20;
    err, b := deque.PopBack(a);
    assert err == DequeSuccess && b == 10;
    err := deque.PushFront(30);
    err := deque.PushFront(40);
    err, c := deque.PopFront(b);
    assert err == DequeSuccess && c == 40;
    err, d := deque.PopFront(c);
    assert err == DequeSuccess && d == 30;
    emptyAtEnd := deque.IsEmpty();
    deque.Clear();
    popped := [a, b, c, d];
  }
}
