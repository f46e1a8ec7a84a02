/**
 * The fixed-capacity array stack of asd_lab_6_stack.c: `items[MAX]` and the
 * index `top` of the topmost element, -1 when the stack is empty.
 */
module ArrayStack {

  const MAX: int := 100

  datatype StackError = StackOk | StackOverflow | StackUnderflow

  /** The numeric value of each error code. */
  function Code(e: StackError): (c: int)
    ensures c == 0 <==> e == StackOk
    ensures c < 0 <==> e != StackOk
  {
    match e
    case StackOk => 0
    case StackOverflow => -1
    case StackUnderflow => -2
  }

  class Stack {
    var items: array<int>
    var top: int

    ghost predicate Valid()
      reads this
    {
      items.Length == MAX && -1 <= top <= MAX - 1
    }

    /** The stored values from bottom to top. */
    ghost function Contents(): (s: seq<int>)
      reads this, items
      requires Valid()
      ensures |s| == top + 1
    {
      items[..top + 1]
    }

    /** initStack: top = -1. */
    constructor ()
      ensures Valid() && fresh(items)
      ensures top == -1 && Contents() == []
    {
      items := new int[MAX];
      top := -1;
    }

    /** isStackEmpty: top == -1. */
    predicate IsEmpty()
      reads this, items
      requires Valid()
      ensures IsEmpty() <==> Contents() == []
    {
      top == -1
    }

    /** isStackFull: top == MAX - 1. */
    predicate IsFull()
      reads this, items
      requires Valid()
      ensures IsFull() <==> |Contents()| == MAX
    {
      top == MAX - 1
    }

    /** stackPush: overflow on a full stack, otherwise `items[++top] = value`. */
    method Push(value: int) returns (err: StackError)
      requires Valid()
      modifies this, items
      ensures Valid() && items == old(items)
      ensures err == (if old(top) == MAX - 1 then StackOverflow else StackOk)
      ensures err == StackOverflow ==> top == old(top) && Contents() == old(Contents())
      ensures err == StackOk ==> top == old(top) + 1 && items[top] == value
      ensures err == StackOk ==> Contents() == old(Contents()) + [value]
    {
      if top == MAX - 1 {
        return StackOverflow;
      }
      top := top + 1;
      items[top] := value;
      err := StackOk;
    }

    /**
     * stackPop: underflow on an empty stack, otherwise `*result = items[top--]`.
     * `prev` is the caller's variable before the call; it is left untouched on error.
     */
    method Pop(prev: int) returns (err: StackError, result: int)
      requires Valid()
      modifies this
      ensures Valid() && items == old(items)
      ensures err == (if old(top) == -1 then StackUnderflow else StackOk)
      ensures err == StackUnderflow ==> result == prev && top == old(top)
      ensures err == StackOk ==> top == old(top) - 1
      ensures err == StackOk ==> result == old(Contents())[|old(Contents())| - 1]
      ensures err == StackOk ==> Contents() == old(Contents())[..|old(Contents())| - 1]
    {
      if top == -1 {
        return StackUnderflow, prev;
      }
      result := items[top];
      top := top - 1;
      err := StackOk;
    }

    /** stackGetTopElement: the top value, the stack unchanged. */
    method GetTopElement(prev: int) returns (err: StackError, result: int)
      requires Valid()
      ensures err == (if Contents() == [] then StackUnderflow else StackOk)
      ensures err == StackUnderflow ==> result == prev
      ensures err == StackOk ==> result == Contents()[|Contents()| - 1]
    {
      if top == -1 {
        return StackUnderflow, prev;
      }
      return StackOk, items[top];
    }
  }

  /**
   * stackTest: push 5 and 10, look at and pop them, then fill the stack with
   * 0 .. MAX-1, see one more push overflow, empty it and see a pop underflow.
   * The values popped by the draining loop are returned: LIFO order.
   */
  method StackTest() returns (drained: seq<int>)
    ensures |drained| == MAX
    ensures forall i :: 0 <= i < MAX ==> drained[i] == MAX - 1 - i
  {
    var stack := new Stack();
    var err, result;
    err := stack.Push(5);
    assert err == StackOk;
    err := stack.Push(10);
    assert err == StackOk;
    err, result := stack.GetTopElement(0);
    assert err == StackOk && result == 10;
    err, result := stack.Pop(result);
    assert err == StackOk && result == 10;
    err, result := stack.Pop(result);
    assert err == StackOk && result == 5;
    assert stack.Contents() == [];

    Fill(stack);
    err := stack.Push(100);
    assert err == StackOverflow;
    drained, result := Drain(stack, result);
    err, result := stack.Pop(result);
    assert err == StackUnderflow;
  }

  /** The filling loop of stackTest: 0 .. MAX-1 pushed onto an empty stack, every push succeeding. */
  method Fill(stack: Stack)
    requires stack.Valid() && stack.Contents() == []
    modifies stack, stack.items
    ensures stack.Valid() && stack.items == old(stack.items)
    ensures |stack.Contents()| == MAX
    ensures forall j :: 0 <= j < MAX ==> stack.Contents()[j] == j
  {
    var i := 0;
    while i < MAX
      invariant 0 <= i <= MAX
      invariant stack.Valid() && stack.items == old(stack.items)
      invariant |stack.Contents()| == i
      invariant forall j :: 0 <= j < i ==> stack.Contents()[j] == j
    {
      var err := stack.Push(i);
      assert err == StackOk;
      i := i + 1;
    }
  }

  /** The draining loop of stackTest: MAX pops from the full stack, every pop succeeding, in LIFO order. */
  method Drain(stack: Stack, prev: int) returns (drained: seq<int>, last: int)
    requires stack.Valid() && |stack.Contents()| == MAX
    requires forall j :: 0 <= j < MAX ==> stack.Contents()[j] == j
    modifies stack
    ensures stack.Valid() && stack.Contents() == []
    ensures |drained| == MAX
    ensures forall i :: 0 <= i < MAX ==> drained[i] == MAX - 1 - i
  {
    drained := [];
    last := prev;
    var i := 0;
    while i < MAX
      invariant 0 <= i <= MAX
      invariant stack.Valid()
      invariant |stack.Contents()| == MAX - i
      invariant forall j :: 0 <= j < MAX - i ==> stack.Contents()[j] == j
      invariant |drained| == i
      invariant forall j :: 0 <= j < i ==> drained[j] == MAX - 1 - j
    {
      var err;
      err, last := stack.Pop(last);
      assert err == StackOk;
      drained := drained + [last];
      i := i + 1;
    }
  }
}
