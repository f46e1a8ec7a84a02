/**
 * The list of data_structures/doubly_linked_list_2_stack.c built from two
 * linked stacks: pushFront goes onto `prevStack`, pushBack onto `nextStack`,
 * and a pop from an end whose stack is empty first moves the whole other
 * stack across. Each stack's node chain is the sequence of its values, top first.
 */
module TwoStackList {

  import opened Common

  datatype ListError = DllSuccess | DllEmptyList

  class Stack {
    /** Node values from `top` down. */
    var nodes: seq<int>

    /** stackInit: top = NULL. */
    constructor ()
      ensures nodes == []
    {
      nodes := [];
    }

    /** stackIsEmpty: top == NULL. */
    predicate IsEmpty()
      reads this
      ensures IsEmpty() <==> |nodes| == 0
    {
      nodes == []
    }

    /** stackPush: the value becomes the top. */
    method Push(value: int) returns (err: ListError)
      modifies this
      ensures err == DllSuccess && nodes == [value] + old(nodes)
    {
      nodes := [value] + nodes;
      err := DllSuccess;
    }

    /** stackPop: DLL_EMPTY_LIST on an empty stack, otherwise the top value. */
    method Pop(prev: int) returns (err: ListError, value: int)
      modifies this
      ensures err == (if old(nodes) == [] then DllEmptyList else DllSuccess)
      ensures err == DllEmptyList ==> value == prev && nodes == old(nodes)
      ensures err == DllSuccess ==> value == old(nodes)[0] && nodes == old(nodes)[1..]
    {
      if nodes == [] {
        return DllEmptyList, prev;
      }
      value := nodes[0];
      nodes := nodes[1..];
      err := DllSuccess;
    }
  }

  class List {
    const prevStack: Stack
    const nextStack: Stack

    ghost predicate Valid()
      reads this
    {
      prevStack != nextStack
    }

    /**
     * The list the two stacks represent: `prevStack` from top to bottom,
     * then `nextStack` from bottom to top.
     */
    function Contents(): (s: seq<int>)
      reads this, prevStack, nextStack
      ensures |s| == |prevStack.nodes| + |nextStack.nodes|
    {
      prevStack.nodes + Reverse(nextStack.nodes)
    }

    /** doublyLinkedListInit: both stacks empty. */
    constructor ()
      ensures Valid() && fresh(prevStack) && fresh(nextStack)
      ensures Contents() == []
    {
      prevStack := new Stack();
      nextStack := new Stack();
    }

    /** doublyLinkedListIsEmpty: both stacks are empty. */
    predicate IsEmpty()
      reads this, prevStack, nextStack
      ensures IsEmpty() <==> Contents() == []
    {
      prevStack.IsEmpty() && nextStack.IsEmpty()
    }

    /** doublyLinkedListPushBack: push onto `nextStack`, which appends to the list. */
    method PushBack(value: int) returns (err: ListError)
      requires Valid()
      modifies nextStack
      ensures err == DllSuccess && Contents() == old(Contents()) + [value]
    {
      ReverseCons(value, nextStack.nodes);
      err := nextStack.Push(value);
    }

    /** doublyLinkedListPushFront: push onto `prevStack`, which prepends to the list. */
    method PushFront(value: int) returns (err: ListError)
      requires Valid()
      modifies prevStack
      ensures err == DllSuccess && Contents() == [value] + old(Contents())
    {
      err := prevStack.Push(value);
    }

    /**
     * doublyLinkedListPopBack: DLL_EMPTY_LIST when both stacks are empty;
     * otherwise, if `nextStack` is empty, all of `prevStack` is moved onto it,
     * and the top of `nextStack`, the last list element, is popped.
     */
    method PopBack(prev: int) returns (err: ListError, value: int)
      requires Valid()
      modifies prevStack, nextStack
      ensures err == (if old(Contents()) == [] then DllEmptyList else DllSuccess)
      ensures err == DllEmptyList ==> value == prev && Contents() == old(Contents())
      ensures err == DllSuccess ==> value == old(Contents())[|old(Contents())| - 1]
      ensures err == DllSuccess ==> Contents() == old(Contents())[..|old(Contents())| - 1]
    {
      if nextStack.IsEmpty() && prevStack.IsEmpty() {
        return DllEmptyList, prev;
      }
      if nextStack.IsEmpty() {
        MoveAll(prevStack, nextStack);
        assert Contents() == old(Contents()) by {
          ReverseReverse(old(prevStack.nodes));
        }
      }
      ghost var before := Contents();
      assert Reverse(nextStack.nodes) == Reverse(nextStack.nodes[1..]) + [nextStack.nodes[0]];
      err, value := nextStack.Pop(prev);
      assert before == Contents() + [value];
    }

    /**
     * doublyLinkedListPopFront: symmetric to PopBack; an empty `prevStack` is
     * first refilled from `nextStack`, then its top, the first element, is popped.
     */
    method PopFront(prev: int) returns (err: ListError, value: int)
      requires Valid()
      modifies prevStack, nextStack
      ensures err == (if old(Contents()) == [] then DllEmptyList else DllSuccess)
      ensures err == DllEmptyList ==> value == prev && Contents() == old(Contents())
      ensures err == DllSuccess ==> value == old(Contents())[0]
      ensures err == DllSuccess ==> Contents() == old(Contents())[1..]
    {
      if prevStack.IsEmpty() && nextStack.IsEmpty() {
        return DllEmptyList, prev;
      }
      if prevStack.IsEmpty() {
        MoveAll(nextStack, prevStack);
        assert Contents() == old(Contents()) by {
          assert old(Contents()) == [] + Reverse(old(nextStack.nodes));
          assert Contents() == prevStack.nodes + [];
        }
      }
      err, value := prevStack.Pop(prev);
    }
  }

  /**
   * The moving loop of the two pops: pop every node of `source`, top first,
   * and push it onto the empty `target`, which ends up holding them in
   * reverse order.
   */
  method MoveAll(source: Stack, target: Stack)
    requires source != target && target.nodes == []
    modifies source, target
    ensures source.nodes == [] && target.nodes == Reverse(old(source.nodes))
  {
    ghost var moved := source.nodes;
    var temp := 0;
    while !source.IsEmpty()
      invariant Reverse(target.nodes) + source.nodes == moved
      decreases |source.nodes|
    {
      var e;
      e, temp := source.Pop(temp);
      ReverseCons(temp, target.nodes);
      e := target.Push(temp);
    }
    assert Reverse(target.nodes) + [] == Reverse(target.nodes);
    ReverseReverse(target.nodes);
  }

  /**
   * testDoublyLinkedList: push 10, 20 at the back, pop 20 then 10 from the
   * back; push 30, 40 at the front, pop 40 then 30 from the front; the list
   * is then empty.
   */
  method ListTest() returns (popped: seq<int>, emptyAtEnd: bool)
    ensures popped == [20, 10, 40, 30] && emptyAtEnd
  {
    var list := new List();
    var err := list.PushBack(10);
    err := list.PushBack(20);
    var a, b, c, d;
    err, a := list.PopBack(0);
    assert err == DllSuccess;
    err, b := list.PopBack(a);
    assert err == DllSuccess;
    err := list.PushFront(30);
    err := list.PushFront(40);
    err, c := list.PopFront(b);
    assert err == DllSuccess;
    err, d := list.PopFront(c);
    assert err == DllSuccess;
    popped := [a, b, c, d];
    emptyAtEnd := list.IsEmpty();
  }
}
