/**
 * The sorted-list priority queue of data_structures/priority_queue.c: a
 * singly linked chain from `front`, kept in non-increasing priority order,
 * and a `size` counter. The chain is the sequence of its (data, priority) nodes.
 */
module PriorityQueue {

  datatype Node = Node(data: int, priority: int)

  datatype QueueError = QueueOk | QueueEmpty

  /** Priorities never increase from the front to the back. */
  ghost predicate Sorted(s: seq<Node>)
  {
    forall i, j :: 0 <= i < j < |s| ==> s[i].priority >= s[j].priority
  }

  /**
   * Reference definition of the splice: the new node goes in front of the
   * first node whose priority is smaller than its own.
   */
  function Insert(s: seq<Node>, n: Node): seq<Node>
  {
    if s == [] || s[0].priority < n.priority then [n] + s
    else [s[0]] + Insert(s[1..], n)
  }

  /**
   * With `k` leading nodes of priority >= n's and no such node at `k`, the
   * splice puts `n` exactly at position `k`.
   */
  lemma {:induction false} InsertAt(s: seq<Node>, n: Node, k: nat)
    requires k <= |s|
    requires forall j :: 0 <= j < k ==> s[j].priority >= n.priority
    requires k < |s| ==> s[k].priority < n.priority
    ensures Insert(s, n) == s[..k] + [n] + s[k..]
  {
    if k > 0 {
      InsertAt(s[1..], n, k - 1);
      assert s[..k] == [s[0]] + s[1..][..k - 1];
    }
  }

  /** The splice adds exactly the new node. */
  lemma {:induction false} InsertMultiset(s: seq<Node>, n: Node)
    ensures multiset(Insert(s, n)) == multiset(s) + multiset{n}
  {
    if s != [] && s[0].priority >= n.priority {
      InsertMultiset(s[1..], n);
      assert s == [s[0]] + s[1..];
    }
  }

  /** A bound on every priority of the queue and of the new node bounds the result. */
  lemma {:induction false} InsertBounded(s: seq<Node>, n: Node, bound: int)
    requires forall j :: 0 <= j < |s| ==> s[j].priority <= bound
    requires n.priority <= bound
    ensures forall j :: 0 <= j < |Insert(s, n)| ==> Insert(s, n)[j].priority <= bound
  {
    if s != [] && s[0].priority >= n.priority {
      InsertBounded(s[1..], n, bound);
    }
  }

  /** Enqueue keeps the queue sorted. */
  lemma {:induction false} InsertSorted(s: seq<Node>, n: Node)
    requires Sorted(s)
    ensures Sorted(Insert(s, n))
  {
    if s != [] && s[0].priority >= n.priority {
      InsertSorted(s[1..], n);
      var r := Insert(s[1..], n);
      InsertBounded(s[1..], n, s[0].priority);
      assert Insert(s, n) == [s[0]] + r;
      forall i, j | 0 <= i < j < |[s[0]] + r|
        ensures ([s[0]] + r)[i].priority >= ([s[0]] + r)[j].priority
      {
        if i > 0 {
          assert ([s[0]] + r)[i] == r[i - 1];
        }
        assert ([s[0]] + r)[j] == r[j - 1];
      }
    }
  }

  /**
   * FIFO among equal priorities: every node before the new one has priority
   * >= its own and every node after it has a smaller one.
   */
  lemma {:induction false} InsertStable(s: seq<Node>, n: Node)
    requires Sorted(s)
    ensures exists k :: (0 <= k <= |s| && Insert(s, n) == s[..k] + [n] + s[k..]
      && (forall j :: 0 <= j < k ==> s[j].priority >= n.priority)
      && (forall j :: k <= j < |s| ==> s[j].priority < n.priority))
  {
    var k := 0;
    while k < |s| && s[k].priority >= n.priority
      invariant 0 <= k <= |s|
      invariant forall j :: 0 <= j < k ==> s[j].priority >= n.priority
    {
      k := k + 1;
    }
    InsertAt(s, n, k);
  }

  /** In a sorted queue the front node has the highest priority. */
  lemma FrontIsMax(s: seq<Node>)
    requires Sorted(s) && s != []
    ensures forall j :: 0 <= j < |s| ==> s[0].priority >= s[j].priority
  {
  }

  class PriorityQueue {
    var nodes: seq<Node>
    var size: int

    ghost predicate Valid()
      reads this
    {
      Sorted(nodes) && size == |nodes|
    }

    /** priorityQueueInit: front = NULL, size = 0. */
    constructor ()
      ensures Valid() && nodes == [] && size == 0
    {
      nodes, size := [], 0;
    }

    /** priorityQueueIsEmpty: front == NULL. */
    predicate IsEmpty()
      reads this
      ensures IsEmpty() <==> |nodes| == 0
    {
      nodes == []
    }

    /** priorityQueueSize: the size field, equal to the node count. */
    function Size(): (n: int)
      reads this
      requires Valid()
      ensures n == |nodes|
    {
      size
    }

    /**
     * priorityQueueEnqueue: prepend when the queue is empty or the front has
     * a lower priority; otherwise walk while the next node's priority is >=
     * the new one and splice it in there.
     */
    method Enqueue(value: int, priority: int) returns (err: QueueError)
      requires Valid()
      modifies this
      ensures Valid() && err == QueueOk
      ensures nodes == Insert(old(nodes), Node(value, priority)) && size == old(size) + 1
      ensures multiset(nodes) == multiset(old(nodes)) + multiset{Node(value, priority)}
    {
      var newNode := Node(value, priority);
      InsertSorted(nodes, newNode);
      InsertMultiset(nodes, newNode);
      if nodes == [] || nodes[0].priority < priority {
        nodes := [newNode] + nodes;
      } else {
        var current := 0;
        while current + 1 < |nodes| && nodes[current + 1].priority >= priority
          invariant 0 <= current < |nodes|
          invariant forall j :: 0 <= j <= current ==> nodes[j].priority >= priority
        {
          current := current + 1;
        }
        InsertAt(nodes, newNode, current + 1);
        nodes := nodes[..current + 1] + [newNode] + nodes[current + 1..];
      }
      size := size + 1;
      err := QueueOk;
    }

    /** priorityQueueDequeue: PRIORITY_QUEUE_EMPTY, or remove and return the front (highest priority). */
    method Dequeue(prev: int) returns (err: QueueError, value: int)
      requires Valid()
      modifies this
      ensures Valid()
      ensures err == (if old(nodes) == [] then QueueEmpty else QueueOk)
      ensures err == QueueEmpty ==> value == prev && nodes == old(nodes)
      ensures err == QueueOk ==> value == old(nodes)[0].data && nodes == old(nodes)[1..]
      ensures err == QueueOk ==> size == old(size) - 1
      ensures err == QueueOk ==> forall n :: n in old(nodes) ==> n.priority <= old(nodes)[0].priority
    {
      if nodes == [] {
        return QueueEmpty, prev;
      }
      FrontIsMax(nodes);
      value := nodes[0].data;
      nodes, size := nodes[1..], size - 1;
      err := QueueOk;
    }

    /** priorityQueuePeek: the front value, nothing removed. */
    method Peek(prev: int) returns (err: QueueError, value: int)
      requires Valid()
      ensures err == (if nodes == [] then QueueEmpty else QueueOk)
      ensures err == QueueEmpty ==> value == prev
      ensures err == QueueOk ==> value == nodes[0].data
      ensures err == QueueOk ==> forall n :: n in nodes ==> n.priority <= nodes[0].priority
    {
      if nodes == [] {
        return QueueEmpty, prev;
      }
      FrontIsMax(nodes);
      return QueueOk, nodes[0].data;
    }

    /** priorityQueueClear: all nodes released, front = NULL, size = 0. */
    method Clear() returns (err: QueueError)
      requires Valid()
      modifies this
      ensures Valid() && err == QueueOk && nodes == [] && size == 0
    {
      nodes, size := [], 0;
      err := QueueOk;
    }
  }

  /**
   * testPriorityQueue: enqueue (10, 1), (20, 3), (15, 2); dequeue gives 20,
   * peek then gives 15; clear empties the queue.
   */
  method PriorityQueueTest() returns (dequeued: int, peeked: int, emptyAfterClear: bool)
    ensures dequeued == 20 && peeked == 15 && emptyAfterClear
  {
    var queue := new PriorityQueue();
    var err := queue.Enqueue(10, 1);
    err := queue.Enqueue(20, 3);
    err := queue.Enqueue(15, 2);
    assert queue.nodes == [Node(20, 3), Node(15, 2), Node(10, 1)];
    err, dequeued := queue.Dequeue(0);
    err, peeked := queue.Peek(dequeued);
    err := queue.Clear();
    emptyAfterClear := queue.IsEmpty();
  }
}
