/**
 * The circular-array queue of asd_lab_6_queue.c: `data[MAX]`, the indices of
 * the first and of the last element, both advanced modulo MAX, and `size`.
 */
module RingQueue {

  const MAX: int := 100

  datatype QueueError = QueueOk | QueueOverflow | QueueUnderflow

  /** An index below 2 * MAX brought back into the array: the `% MAX` of the C code on that range. */
  function Wrap(x: int): (r: int)
    requires 0 <= x < 2 * MAX
    ensures 0 <= r < MAX
  {
    if x < MAX then x else x - MAX
  }

  /** On that range Wrap is the `% MAX` of the C code. */
  lemma WrapIsMod(x: int)
    requires 0 <= x < 2 * MAX
    ensures Wrap(x) == x % MAX
  {
  }

  class Queue {
    var data: array<int>
    var first: int
    var last: int
    var size: int
    /** The queued values, front first. */
    ghost var Elements: seq<int>

    ghost predicate Valid()
      reads this, data
    {
      && data.Length == MAX
      && 0 <= first < MAX && -1 <= last < MAX
      && 0 <= size <= MAX
      && Wrap(first + size) == Wrap(last + 1)
      && |Elements| == size
      && forall i :: 0 <= i < size ==> Elements[i] == data[Wrap(first + i)]
    }

    /** initQueue: first = 0, last = -1, size = 0. */
    constructor ()
      ensures Valid() && fresh(data)
      ensures first == 0 && last == -1 && size == 0 && Elements == []
    {
      data := new int[MAX];
      first, last, size := 0, -1, 0;
      Elements := [];
    }

    /** isQueueEmpty: size == 0. */
    predicate IsEmpty()
      reads this, data
      requires Valid()
      ensures IsEmpty() <==> Elements == []
    {
      size == 0
    }

    /** isQueueFull: size == MAX. */
    predicate IsFull()
      reads this, data
      requires Valid()
      ensures IsFull() <==> |Elements| == MAX
    {
      size == MAX
    }

    /** queuePush: overflow when full, otherwise store at (last + 1) % MAX. */
    method Push(value: int) returns (err: QueueError)
      requires Valid()
      modifies this, data
      ensures Valid() && data == old(data)
      ensures err == (if old(size) == MAX then QueueOverflow else QueueOk)
      ensures err == QueueOverflow ==> Elements == old(Elements) && size == old(size)
      ensures err == QueueOk ==> size == old(size) + 1 && last == (old(last) + 1) % MAX
      ensures err == QueueOk ==> Elements == old(Elements) + [value]
    {
      if size == MAX {
        return QueueOverflow;
      }
      WrapIsMod(last + 1);
      last := (last + 1) % MAX;
      assert last == Wrap(first + size);
      data[last] := value;
      size := size + 1;
      Elements := Elements + [value];
      err := QueueOk;
    }

    /**
     * queuePop: underflow when empty, otherwise the element at `first`, and
     * `first` moves on modulo MAX. `prev` is what the caller's variable held.
     */
    method Pop(prev: int) returns (err: QueueError, result: int)
      requires Valid()
      modifies this
      ensures Valid() && data == old(data)
      ensures err == (if old(size) == 0 then QueueUnderflow else QueueOk)
      ensures err == QueueUnderflow ==> result == prev && Elements == old(Elements)
      ensures err == QueueOk ==> result == old(Elements)[0] && Elements == old(Elements)[1..]
      ensures err == QueueOk ==> size == old(size) - 1 && first == (old(first) + 1) % MAX
    {
      if size == 0 {
        return QueueUnderflow, prev;
      }
      assert Elements[0] == data[Wrap(first)];
      WrapIsMod(first + 1);
      result := data[first];
      first := (first + 1) % MAX;
      size := size - 1;
      Elements := Elements[1..];
      err := QueueOk;
    }

    /** queueGetFirstElement: the front element, nothing changed. */
    method GetFirstElement(prev: int) returns (err: QueueError, result: int)
      requires Valid()
      ensures err == (if Elements == [] then QueueUnderflow else QueueOk)
      ensures err == QueueUnderflow ==> result == prev
      ensures err == QueueOk ==> result == Elements[0]
    {
      if size == 0 {
        return QueueUnderflow, prev;
      }
      assert Elements[0] == data[Wrap(first)];
      return QueueOk, data[first];
    }
  }

  /**
   * testQueue: after 5 and 10 go through, MAX values 0 .. MAX-1 are pushed
   * (the indices wrap around the array), one more push overflows, and the
   * MAX pops return the values in push order before a pop underflows.
   */
  method QueueTest() returns (drained: seq<int>)
    ensures |drained| == MAX
    ensures forall i :: 0 <= i < MAX ==> drained[i] == i
  {
    var queue := PassTwoTest();
    FillTest(queue);
    drained := DrainTest(queue);
  }

  /** 5 and 10 go in; the head is 5, and the pops give 5 then 10, leaving the queue empty. */
  method PassTwoTest() returns (queue: Queue)
    ensures fresh(queue) && fresh(queue.data)
    ensures queue.Valid() && queue.Elements == []
  {
    queue := new Queue();
    var err, result;
    err := queue.Push(5);
    assert err == QueueOk;
    err := queue.Push(10);
    assert err == QueueOk;
    err, result := queue.GetFirstElement(0);
    assert err == QueueOk && result == 5;
    err, result := queue.Pop(result);
    assert err == QueueOk && result == 5;
    err, result := queue.Pop(result);
    assert err == QueueOk && result == 10;
  }

  /** MAX pushes of 0 .. MAX-1 into the empty queue succeed; one more overflows. */
  method FillTest(queue: Queue)
    requires queue.Valid() && queue.Elements == []
    modifies queue, queue.data
    ensures queue.Valid() && queue.data == old(queue.data)
    ensures |queue.Elements| == MAX
    ensures forall j :: 0 <= j < MAX ==> queue.Elements[j] == j
  {
    var err;
    var i := 0;
    while i < MAX
      invariant 0 <= i <= MAX
      invariant queue.Valid() && queue.data == old(queue.data)
      invariant |queue.Elements| == i
      invariant forall j :: 0 <= j < i ==> queue.Elements[j] == j
    {
      err := queue.Push(i);
      assert err == QueueOk;
      i := i + 1;
    }
    err := queue.Push(100);
    assert err == QueueOverflow;
  }

  /** The MAX pops of the full queue return 0 .. MAX-1 in order; one more underflows. */
  method DrainTest(queue: Queue) returns (drained: seq<int>)
    requires queue.Valid() && |queue.Elements| == MAX
    requires forall j :: 0 <= j < MAX ==> queue.Elements[j] == j
    modifies queue
    ensures queue.Valid() && queue.Elements == []
    ensures |drained| == MAX
    ensures forall i :: 0 <= i < MAX ==> drained[i] == i
  {
    var err, result := QueueOk, 0;
    drained := [];
    var i := 0;
    while i < MAX
      invariant 0 <= i <= MAX
      invariant queue.Valid() && queue.data == old(queue.data)
      invariant |queue.Elements| == MAX - i
      invariant forall j :: 0 <= j < MAX - i ==> queue.Elements[j] == i + j
      invariant |drained| == i
      invariant forall j :: 0 <= j < i ==> drained[j] == j
    {
      err, result := queue.Pop(result);
      assert err == QueueOk;
      drained := drained + [result];
      i := i + 1;
    }
    err, result := queue.Pop(result);
    assert err == QueueUnderflow;
  }
}
