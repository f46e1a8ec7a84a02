/**
 * The linked queue of data_structures/queue.c with `front`, `last` and a
 * `size` counter. The node chain from `front` to `last` is modelled by the
 * sequence of its values; `size` is kept as a separate field.
 */
module LinkedQueue {

  import opened Common

  datatype QueueError = QueueOk | QueueEmpty

  class Queue {
    /** Node values from `front` to `last`. */
    var nodes: seq<int>
    var size: int

    ghost predicate Valid()
      reads this
    {
      size == |nodes|
    }

    /** The node `front` points to (None for NULL). */
    function Front(): (f: Option<int>)
      reads this
      ensures f.None? <==> nodes == []
      ensures f.Some? ==> f.value == nodes[0]
    {
      if nodes == [] then None else Some(nodes[0])
    }

    /** The node `last` points to (None for NULL); NULL exactly when `front` is. */
    function Last(): (l: Option<int>)
      reads this
      ensures l.None? <==> Front().None?
      ensures l.Some? ==> l.value == nodes[|nodes| - 1]
    {
      if nodes == [] then None else Some(nodes[|nodes| - 1])
    }

    /** queueInit: front = last = NULL, size = 0. */
    constructor ()
      ensures Valid() && nodes == [] && size == 0
    {
      nodes, size := [], 0;
    }

    /** queueIsEmpty: front == NULL. */
    predicate IsEmpty()
      reads this
      ensures IsEmpty() <==> Front().None?
    {
      nodes == []
    }

    /** queueSize: the size field, which equals the number of nodes. */
    function Size(): (n: int)
      reads this
      requires Valid()
      ensures n == |nodes| && n >= 0
    {
      size
    }

    /** queueEnqueue: a new last node; `front` is set too when the queue was empty. */
    method Enqueue(value: int) returns (err: QueueError)
      requires Valid()
      modifies this
      ensures Valid() && err == QueueOk
      ensures nodes == old(nodes) + [value] && size == old(size) + 1
      ensures Last() == Some(value)
      ensures old(nodes) == [] ==> Front() == Some(value)
    {
      nodes := nodes + [value];
      size := size + 1;
      err := QueueOk;
    }

    /** queueDequeue: QUEUE_EMPTY when empty, otherwise the front node is removed and its value returned. */
    method Dequeue(prev: int) returns (err: QueueError, value: int)
      requires Valid()
      modifies this
      ensures Valid()
      ensures err == (if old(nodes) == [] then QueueEmpty else QueueOk)
      ensures err == QueueEmpty ==> value == prev && nodes == old(nodes) && size == old(size)
      ensures err == QueueOk ==> value == old(nodes)[0] && nodes == old(nodes)[1..]
      ensures err == QueueOk ==> size == old(size) - 1
      ensures err == QueueOk && old(size) == 1 ==> Front().None? && Last().None?
    {
      if nodes == [] {
        return QueueEmpty, prev;
      }
      value := nodes[0];
      nodes := nodes[1..];
      size := size - 1;
      err := QueueOk;
    }

    /** queuePeekFront: the first value, nothing changed. */
    method PeekFront(prev: int) returns (err: QueueError, value: int)
      requires Valid()
      ensures err == (if nodes == [] then QueueEmpty else QueueOk)
      ensures err == QueueEmpty ==> value == prev
      ensures err == QueueOk ==> value == nodes[0]
    {
      if nodes == [] {
        return QueueEmpty, prev;
      }
      return QueueOk, nodes[0];
    }

    /** queuePeekLast: the last value, nothing changed. */
    method PeekLast(prev: int) returns (err: QueueError, value: int)
      requires Valid()
      ensures err == (if nodes == [] then QueueEmpty else QueueOk)
      ensures err == QueueEmpty ==> value == prev
      ensures err == QueueOk ==> value == nodes[|nodes| - 1]
    {
      if nodes == [] {
        return QueueEmpty, prev;
      }
      return QueueOk, nodes[|nodes| - 1];
    }

    /** queueClear: all nodes released, front = last = NULL, size = 0. */
    method Clear() returns (err: QueueError)
      requires Valid()
      modifies this
      ensures Valid() && err == QueueOk
      ensures nodes == [] && size == 0 && IsEmpty()
    {
      nodes, size := [], 0;
      err := QueueOk;
    }
  }

  /**
   * testQueue: enqueue 10 and 20, peek 10 at the front and 20 at the back,
   * dequeue 10 then 20, see the queue empty, enqueue 30 and clear.
   */
  method QueueTest() returns (dequeued: seq<int>, emptyAfterClear: bool)
    ensures dequeued == [10, 20]
    ensures emptyAfterClear
  {
    var queue := new Queue();
    var err := queue.Enqueue(10);
    err := queue.Enqueue(20);
    var value;
    err, value := queue.PeekFront(0);
    assert err == QueueOk && value == 10;
    err, value := queue.PeekLast(value);
    assert err == QueueOk && value == 20;
    var first, second;
    err, first := queue.Dequeue(value);
    assert err == QueueOk && first == 10;
    err, second := queue.Dequeue(first);
    assert err == QueueOk && second == 20;
    assert queue.IsEmpty();
    err := queue.Enqueue(30);
    err := queue.Clear();
    dequeued := [first, second];
    emptyAfterClear := queue.IsEmpty() && queue.Size() == 0;
  }
}
