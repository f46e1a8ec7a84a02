/**
 * The linked stack of data_structures/stack.c. The chain of nodes hanging
 * from `top` is modelled by the sequence of their values, top first.
 */
module LinkedStack {

  datatype StackError = StackOk | StackEmpty

  class Stack {
    /** Node values from `top` down to the bottom node. */
    var nodes: seq<int>

    /** stackInit: top = NULL. */
    constructor ()
      ensures nodes == []
    {
      nodes := [];
    }

    /** stackIsEmpty: top == NULL. */
    predicate IsEmpty()
      reads this
      ensures IsEmpty() <==> |nodes| == 0
    {
      nodes == []
    }

    /** stackPush: a new node becomes the top. */
    method Push(value: int) returns (err: StackError)
      modifies this
      ensures err == StackOk
      ensures nodes == [value] + old(nodes)
    {
      nodes := [value] + nodes;
      err := StackOk;
    }

    /** stackPop: STACK_EMPTY on an empty stack, otherwise the top value is removed and returned. */
    method Pop(prev: int) returns (err: StackError, value: int)
      modifies this
      ensures err == (if old(nodes) == [] then StackEmpty else StackOk)
      ensures err == StackEmpty ==> value == prev && nodes == old(nodes)
      ensures err == StackOk ==> value == old(nodes)[0] && nodes == old(nodes)[1..]
    {
      if nodes == [] {
        return StackEmpty, prev;
      }
      value := nodes[0];
      nodes := nodes[1..];
      err := StackOk;
    }

    /** stackPeek: the top value; the stack is not changed. */
    method Peek(prev: int) returns (err: StackError, value: int)
      ensures err == (if nodes == [] then StackEmpty else StackOk)
      ensures err == StackEmpty ==> value == prev
      ensures err == StackOk ==> value == nodes[0]
    {
      if nodes == [] {
        return StackEmpty, prev;
      }
      return StackOk, nodes[0];
    }

    /** stackClear: every node is released and top becomes NULL. */
    method Clear() returns (err: StackError)
      modifies this
      ensures err == StackOk && nodes == [] && IsEmpty()
    {
      nodes := [];
      err := StackOk;
    }
  }

  /**
   * testStack: push 10 and 20, peek 20, pop 20 then 10, see the stack empty,
   * then push 30 and clear. Returns the two popped values.
   */
  method StackTest() returns (popped: seq<int>, emptyAfterClear: bool)
    ensures popped == [20, 10]
    ensures emptyAfterClear
  {
    var stack := new Stack();
    var err := stack.Push(10);
    err := stack.Push(20);
    var value;
    err, value := stack.Peek(0);
    assert err == StackOk && value == 20;
    var first, second;
    err, first := stack.Pop(value);
    assert err == StackOk && first == 20;
    err, second := stack.Pop(first);
    assert err == StackOk && second == 10;
    assert stack.IsEmpty();
    err := stack.Push(30);
    err := stack.Clear();
    popped := [first, second];
    emptyAfterClear := stack.IsEmpty();
  }
}
