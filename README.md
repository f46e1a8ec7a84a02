# Verified model of a data-structures and discrete-mathematics coursework repository

This project models, in Dafny, the core of a student coursework repository in three parts:

* **C data structures** (`algorithms_and_data_structures/`): an array stack and a
  linked stack, a ring queue and a linked queue, a deque, a doubly linked list, a
  list built from two stacks, singly linked and cursor lists, a polynomial kept in
  descending powers, a priority queue, a task system over a queue and a stack, a
  bounded C string buffer, a chained hash table, an open-addressing table with
  double hashing, a word-to-number dictionary, binary search trees (strict and with
  duplicates), AVL and red-black trees, Huffman coding over a binary heap, and an
  adjacency-list graph with depth- and breadth-first search.
* **C++ discrete-mathematics labs 3-1 to 4-3**: binary relations as 0/1 matrices
  (union, intersection, difference, complement, converse, composition, property
  tests, transitive closure by three algorithms), equivalence classes, order
  relations with topological levels, routes, chains and cycles in a graph, walk
  counting by matrix powers, Euler and Hamilton tests, a Kruskal spanning forest,
  bridges, and splitting a graph into components.
* **Python logic lab** (`mat_logic_lab_1_practice.py`): a truth-table solver that
  tokenises a formula, converts it to postfix, evaluates it over every assignment,
  and keeps the rows that match the chosen mode.

Each source file becomes one module. Code that mutates objects in place (stacks,
queues, buffers, hash tables, heaps) is modelled as classes over arrays or `seq`
fields, with `modifies` frames. Every method is proved against a specification
function, and the properties the source promises are lemmas about that function.
Recursive tree code and the C++ `BinMatrix` value type are modelled as datatypes
and functions. The `BinMatrix` type is copied on assignment. Loops stay loops,
each carrying its invariants.

## Model

| member | source | states |
|---|---|---|
| ArrayStack.Code | asd_lab_6_stack.c:12-16 | STACK_OK is the only code that is 0; both error codes are negative |
| ArrayStack.Stack.constructor | asd_lab_6_stack.c:24 | `initStack` sets top to -1: the stack holds no values and -1 <= top <= MAX-1 holds |
| ArrayStack.Stack.IsEmpty | asd_lab_6_stack.c:27 | `isStackEmpty` holds exactly when the stack holds no values |
| ArrayStack.Stack.IsFull | asd_lab_6_stack.c:30 | `isStackFull` holds exactly when MAX values are stored |
| ArrayStack.Stack.Push | asd_lab_6_stack.c:39-45 | STACK_OVERFLOW exactly when top == MAX-1, and then nothing changes; otherwise top grows by one, `items[top]` is the value, the contents gain it at the top, and the bounds on top are kept |
| ArrayStack.Stack.Pop | asd_lab_6_stack.c:54-60 | STACK_UNDERFLOW exactly when top == -1, leaving the caller's variable untouched; otherwise the topmost value is returned and removed, top drops by one, and the bounds are kept |
| ArrayStack.Stack.GetTopElement | asd_lab_6_stack.c:69-75 | STACK_UNDERFLOW on an empty stack; otherwise the topmost value, with the stack unchanged |
| ArrayStack.StackTest | asd_lab_6_stack.c:77-114 | after MAX pushes of 0..MAX-1 (one more overflows), the MAX pops return MAX-1 down to 0: last in, first out |
| ArrayStack.Fill | asd_lab_6_stack.c:99-102 | pushing 0..MAX-1 onto an empty stack succeeds every time and leaves those values bottom to top |
| ArrayStack.Drain | asd_lab_6_stack.c:107-110 | MAX pops from the full stack all succeed, return MAX-1 down to 0 and leave it empty |
| LinkedStack.Stack.constructor | algorithms_and_data_structures/data_structures/stack.c:30-36 | `stackInit` leaves the stack empty |
| LinkedStack.Stack.IsEmpty | algorithms_and_data_structures/data_structures/stack.c:99 | `stackIsEmpty` holds exactly when there are no nodes |
| LinkedStack.Stack.Push | algorithms_and_data_structures/data_structures/stack.c:44-56 | always succeeds, and the new value is in front of the old nodes (it becomes the top) |
| LinkedStack.Stack.Pop | algorithms_and_data_structures/data_structures/stack.c:64-76 | STACK_EMPTY exactly on an empty stack, with the caller's variable and the stack unchanged; otherwise the top value is returned and removed |
| LinkedStack.Stack.Peek | algorithms_and_data_structures/data_structures/stack.c:84-92 | STACK_EMPTY on an empty stack; otherwise the top value, the stack unchanged |
| LinkedStack.Stack.Clear | algorithms_and_data_structures/data_structures/stack.c:106-120 | succeeds and leaves the stack empty, so `stackIsEmpty` holds |
| LinkedStack.StackTest | algorithms_and_data_structures/data_structures/stack.c:140-172 | after pushing 10 and 20 the pops give 20 then 10, and after clear the stack is empty |
| RingQueue.Queue.constructor | asd_lab_6_queue.c:26-28 | `initQueue` sets first 0, last -1 and size 0: an empty queue for which (first + size) % MAX == (last + 1) % MAX holds |
| RingQueue.Queue.IsEmpty | asd_lab_6_queue.c:31 | `isQueueEmpty` holds exactly when no value is queued |
| RingQueue.Queue.IsFull | asd_lab_6_queue.c:34 | `isQueueFull` holds exactly when MAX values are queued |
| RingQueue.Queue.Push | asd_lab_6_queue.c:43-51 | QUEUE_OVERFLOW exactly when size == MAX, with nothing changed; otherwise the value is appended at the back, last advances modulo MAX, size grows, and the index invariant is kept |
| RingQueue.Queue.Pop | asd_lab_6_queue.c:60-68 | QUEUE_UNDERFLOW exactly when size == 0, leaving the caller's variable untouched; otherwise the front value is returned and removed, first advances modulo MAX, size shrinks, and the invariant is kept |
| RingQueue.Queue.GetFirstElement | asd_lab_6_queue.c:77-83 | QUEUE_UNDERFLOW on an empty queue; otherwise the front value, the queue unchanged |
| RingQueue.QueueTest | asd_lab_6_queue.c:85-122 | MAX pushes of 0..MAX-1 after the indices have moved on wrap around the array, and the MAX pops return them in push order: first in, first out |
| RingQueue.PassTwoTest | asd_lab_6_queue.c:86-105 | after 5 and 10 are pushed the head is 5, the two pops return 5 and then 10, and the queue is left empty |
| RingQueue.FillTest | asd_lab_6_queue.c:107-113 | pushing 0..MAX-1 into the empty queue succeeds each time, leaving them in push order, and one more push overflows |
| RingQueue.DrainTest | asd_lab_6_queue.c:115-121 | the MAX pops of the full queue give 0..MAX-1 in order, leave it empty, and one more pop underflows |
| LinkedQueue.Queue.Front | algorithms_and_data_structures/data_structures/queue.c:21-25 | `front` is NULL exactly when there are no nodes, and otherwise holds the first value |
| LinkedQueue.Queue.Last | algorithms_and_data_structures/data_structures/queue.c:21-25 | `last` is NULL exactly when `front` is, and otherwise holds the last value |
| LinkedQueue.Queue.constructor | algorithms_and_data_structures/data_structures/queue.c:32-40 | `queueInit` leaves no nodes and size 0 |
| LinkedQueue.Queue.IsEmpty | algorithms_and_data_structures/data_structures/queue.c:129 | `queueIsEmpty` holds exactly when `front` is NULL |
| LinkedQueue.Queue.Size | algorithms_and_data_structures/data_structures/queue.c:136 | `queueSize` is the size field, which equals the number of nodes |
| LinkedQueue.Queue.Enqueue | algorithms_and_data_structures/data_structures/queue.c:48-66 | the value is appended at the back and becomes `last`, size grows by one, and on an empty queue it also becomes `front` |
| LinkedQueue.Queue.Dequeue | algorithms_and_data_structures/data_structures/queue.c:74-90 | QUEUE_EMPTY exactly on an empty queue, with nothing changed; otherwise the front value is returned and removed and size drops, and dequeuing the only node resets both `front` and `last` |
| LinkedQueue.Queue.PeekFront | algorithms_and_data_structures/data_structures/queue.c:98-106 | QUEUE_EMPTY on an empty queue; otherwise the first value, nothing changed |
| LinkedQueue.Queue.PeekLast | algorithms_and_data_structures/data_structures/queue.c:114-122 | QUEUE_EMPTY on an empty queue; otherwise the last value, nothing changed |
| LinkedQueue.Queue.Clear | algorithms_and_data_structures/data_structures/queue.c:143-159 | no nodes are left, size is 0 and `queueIsEmpty` holds |
| LinkedQueue.QueueTest | algorithms_and_data_structures/data_structures/queue.c:179-214 | enqueuing 10 and 20 and dequeuing twice gives 10 then 20 (FIFO), and after clear the queue is empty |
| Deque.Deque.constructor | algorithms_and_data_structures/dequeue.c:28-31 | `dequeInit` leaves the deque empty |
| Deque.Deque.IsEmpty | algorithms_and_data_structures/dequeue.c:36 | `dequeIsEmpty` holds exactly when there are no nodes |
| Deque.Deque.PushFront | algorithms_and_data_structures/dequeue.c:42-58 | succeeds and puts the value in front of all others |
| Deque.Deque.PushBack | algorithms_and_data_structures/dequeue.c:64-80 | succeeds and puts the value behind all others |
| Deque.Deque.PopFront | algorithms_and_data_structures/dequeue.c:86-101 | DEQUE_EMPTY exactly on an empty deque, leaving the caller's variable and the deque alone; otherwise the front value is returned and removed |
| Deque.Deque.PopBack | algorithms_and_data_structures/dequeue.c:107-122 | DEQUE_EMPTY exactly on an empty deque, leaving the caller's variable and the deque alone; otherwise the back value is returned and removed |
| Deque.Deque.Clear | algorithms_and_data_structures/dequeue.c:126-129 | popping until DEQUE_EMPTY leaves the deque empty |
| Deque.DequeTest | algorithms_and_data_structures/dequeue.c:132-154 | pushes and pops at the same end come back reversed: 20, 10 at the back, then 40, 30 at the front; the deque is then empty |
| DoublyLinkedList.List.constructor | algorithms_and_data_structures/doubly_linked_list.c:33-41 | no nodes and size 0 |
| DoublyLinkedList.List.IsEmpty | algorithms_and_data_structures/doubly_linked_list.c:159 | holds exactly when there are no nodes |
| DoublyLinkedList.List.Size | algorithms_and_data_structures/doubly_linked_list.c:166 | the size field equals the number of nodes |
| DoublyLinkedList.List.PushFront | algorithms_and_data_structures/doubly_linked_list.c:49-68 | prepends the value and increments size |
| DoublyLinkedList.List.PushBack | algorithms_and_data_structures/doubly_linked_list.c:76-96 | appends the value and increments size |
| DoublyLinkedList.List.PopFront | algorithms_and_data_structures/doubly_linked_list.c:104-124 | DOUBLY_LINKED_LIST_EMPTY exactly on an empty list, with nothing changed; otherwise the first value is returned and removed and size drops |
| DoublyLinkedList.List.PopBack | algorithms_and_data_structures/doubly_linked_list.c:132-152 | DOUBLY_LINKED_LIST_EMPTY exactly on an empty list, with nothing changed; otherwise the last value is returned and removed and size drops |
| DoublyLinkedList.List.Clear | algorithms_and_data_structures/doubly_linked_list.c:173-188 | no nodes, size 0, and the list reports empty |
| DoublyLinkedList.ListTest | algorithms_and_data_structures/doubly_linked_list.c:208-236 | after pushes of 10 (front), 20 (back) and 5 (front), popFront gives 5 and popBack gives 20; after clear the list is empty |
| TwoStackList.Stack.constructor | algorithms_and_data_structures/data_structures/doubly_linked_list_2_stack.c:32-34 | `stackInit` leaves the stack empty |
| TwoStackList.Stack.IsEmpty | algorithms_and_data_structures/data_structures/doubly_linked_list_2_stack.c:39-41 | holds exactly when the stack has no nodes |
| TwoStackList.Stack.Push | algorithms_and_data_structures/data_structures/doubly_linked_list_2_stack.c:47-57 | the value becomes the top |
| TwoStackList.Stack.Pop | algorithms_and_data_structures/data_structures/doubly_linked_list_2_stack.c:63-73 | DLL_EMPTY_LIST exactly on an empty stack, nothing changed; otherwise the top value is returned and removed |
| TwoStackList.List.Contents | algorithms_and_data_structures/data_structures/doubly_linked_list_2_stack.c:25-28 | the represented list is `prevStack` top to bottom followed by `nextStack` bottom to top, so its length is the sum of the two stack sizes |
| TwoStackList.List.constructor | algorithms_and_data_structures/data_structures/doubly_linked_list_2_stack.c:77-80 | both stacks are empty, so the represented list is empty |
| TwoStackList.List.IsEmpty | algorithms_and_data_structures/data_structures/doubly_linked_list_2_stack.c:140-142 | holds exactly when the represented list is empty |
| TwoStackList.List.PushBack | algorithms_and_data_structures/data_structures/doubly_linked_list_2_stack.c:86-88 | appends the value to the represented list |
| TwoStackList.List.PushFront | algorithms_and_data_structures/data_structures/doubly_linked_list_2_stack.c:113-115 | prepends the value to the represented list |
| TwoStackList.MoveAll | algorithms_and_data_structures/data_structures/doubly_linked_list_2_stack.c:100-103 | the moving loop empties the source stack onto the empty target, which then holds its nodes in reverse order |
| TwoStackList.List.PopBack | algorithms_and_data_structures/data_structures/doubly_linked_list_2_stack.c:94-107 | DLL_EMPTY_LIST exactly when both stacks are empty; otherwise the last element of the represented list is returned and removed, the transfer loop from `prevStack` to `nextStack` keeping the list the same |
| TwoStackList.List.PopFront | algorithms_and_data_structures/data_structures/doubly_linked_list_2_stack.c:121-135 | DLL_EMPTY_LIST exactly when both stacks are empty; otherwise the first element is returned and removed, the transfer loop from `nextStack` to `prevStack` keeping the list the same |
| TwoStackList.ListTest | algorithms_and_data_structures/data_structures/doubly_linked_list_2_stack.c:145-164 | pushBack 10, 20 then popBack gives 20, 10; pushFront 30, 40 then popFront gives 40, 30; the list is then empty |
| LinkedList.RemoveAtFirst | linked_list.c:154-176 | at the first occurrence i of the value, removing gives `s[..i] + s[i+1..]` |
| LinkedList.InsertAfterAtFirst | linked_list.c:96-114 | at the first occurrence i of the target, inserting after gives `s[..i+1] + [v] + s[i+1..]` |
| LinkedList.InsertBeforeAtFirst | linked_list.c:123-146 | at the first occurrence i of the target, inserting before gives `s[..i] + [v] + s[i..]` |
| LinkedList.EditsWithoutOccurrence | linked_list.c:96-176 | when the target does not occur, none of the three edits changes the list |
| LinkedList.RemoveFirstMultiset | linked_list.c:154-176 | removal deletes exactly one occurrence of the value: the multiset loses one copy and the length drops by one |
| LinkedList.InsertAfterMultiset | linked_list.c:96-114 | inserting after an occurrence adds exactly one copy of the new value |
| LinkedList.InsertBeforeMultiset | linked_list.c:123-146 | inserting before an occurrence adds exactly one copy of the new value |
| LinkedList.List.constructor | linked_list.c:31-37 | `listInit` leaves the list empty |
| LinkedList.List.IsEmpty | linked_list.c:178-180 | holds exactly when there are no nodes |
| LinkedList.List.InsertFront | linked_list.c:45-57 | succeeds and prepends the value |
| LinkedList.List.FindElement | linked_list.c:66-87 | LIST_OK with the position of the first node holding the value when it occurs, otherwise LIST_NOT_FOUND and no node |
| LinkedList.List.Contains | linked_list.c:188-208 | true exactly when the value occurs, with LIST_OK, else false with LIST_NOT_FOUND |
| LinkedList.List.InsertAfter | linked_list.c:96-114 | LIST_OK exactly when the target occurs, and the value is then right after its first occurrence; otherwise LIST_NOT_FOUND and no change |
| LinkedList.List.InsertBefore | linked_list.c:123-146 | LIST_EMPTY on an empty list; LIST_OK when the target occurs, with the value right before its first occurrence; otherwise LIST_NOT_FOUND and no change |
| LinkedList.List.RemoveElement | linked_list.c:154-176 | LIST_EMPTY on an empty list; LIST_OK when the value occurs, with only its first occurrence unlinked; otherwise LIST_NOT_FOUND and no change |
| LinkedList.List.Clear | linked_list.c:220-234 | succeeds and leaves head NULL |
| LinkedList.ListTest | linked_list.c:249-283 | the demo inserts give 5, 10, 20 and removing 10 leaves 5, 20; clear empties the list |
| CursorList.List.constructor | asd_lab_5.c:36-45 | `initList` leaves no nodes and current NULL |
| CursorList.List.IsEmpty | asd_lab_5.c:115-117 | `isEmptyList` holds exactly when head is NULL |
| CursorList.List.PutNode | asd_lab_5.c:53-71 | appends the value at the tail, current unchanged |
| CursorList.List.GetNode | asd_lab_5.c:79-87 | LIST_EMPTY exactly when current is NULL, leaving the caller's variable; otherwise the data of the current node |
| CursorList.List.Count | asd_lab_5.c:124-136 | the count equals the list length |
| CursorList.List.BeginPtr | asd_lab_5.c:143-147 | the head node, NULL exactly for an empty list |
| CursorList.List.EndPtr | asd_lab_5.c:154-162 | the last node, NULL exactly for an empty list |
| CursorList.List.MovePtr | asd_lab_5.c:169-175 | LIST_NULL_POINTER when current is NULL; otherwise current moves to the next node, NULL past the last one; the list is unchanged |
| CursorList.List.MoveTo | asd_lab_5.c:183-194 | for an index below the count current is that node with LIST_OK, otherwise current is NULL with LIST_NOT_FOUND (a negative index behaves like 0) |
| CursorList.List.CopyList | asd_lab_5.c:201-216 | a fresh list with the same values in the same order and current NULL |
| Polynomial.InsertAfterHeadAt | algorithms_and_data_structures/asd_lab_5_task.c:70-78 | the walk past the head that stops after k terms of strictly greater power splices the new term in at position k |
| Polynomial.InsertAfterHeadMultiset | algorithms_and_data_structures/asd_lab_5_task.c:70-78 | the walk adds exactly the new term |
| Polynomial.InsertAfterHeadBounded | algorithms_and_data_structures/asd_lab_5_task.c:70-78 | a bound on every power and on the new term bounds every power after the walk |
| Polynomial.InsertAfterHeadSorted | algorithms_and_data_structures/asd_lab_5_task.c:70-78 | the walk keeps a tail sorted by non-increasing power sorted |
| Polynomial.AddTermSpecSorted | algorithms_and_data_structures/asd_lab_5_task.c:61-79 | inserting a term keeps the list sorted by non-increasing power, and equal powers are not merged: exactly one (coefficient, power) pair is added |
| Polynomial.AddTermAt | algorithms_and_data_structures/asd_lab_5_task.c:70-78 | when the head's power is at least the new one, the term lands right after the last leading term of strictly greater power |
| Polynomial.GreaterPowerBecomesHead | algorithms_and_data_structures/asd_lab_5_task.c:65-69 | on an empty list, or when the head's power is smaller, the term becomes the new head |
| Polynomial.PolynomialList.constructor | algorithms_and_data_structures/asd_lab_5_task.c:43-50 | `initPolynomialList` gives an empty, sorted list |
| Polynomial.PolynomialList.AddTerm | algorithms_and_data_structures/asd_lab_5_task.c:58-79 | a zero coefficient leaves the list unchanged; otherwise the list becomes the reference insertion of the term, stays sorted, and gains exactly that term |
| Polynomial.PolynomialDemo | algorithms_and_data_structures/asd_lab_5_task.c:119-133 | the demo inserts give the order 3x^4, 2x^3, 4x^1, 1x^0 |
| PriorityQueue.InsertAt | algorithms_and_data_structures/data_structures/priority_queue.c:58-68 | after k leading nodes of priority >= the new one and a smaller one at k, the new node lands exactly at position k |
| PriorityQueue.InsertMultiset | algorithms_and_data_structures/data_structures/priority_queue.c:48-73 | enqueue adds exactly the new node |
| PriorityQueue.InsertBounded | algorithms_and_data_structures/data_structures/priority_queue.c:58-68 | a bound on every priority and on the new node bounds every priority afterwards |
| PriorityQueue.InsertSorted | algorithms_and_data_structures/data_structures/priority_queue.c:58-68 | enqueue keeps the nodes sorted by non-increasing priority |
| PriorityQueue.InsertStable | algorithms_and_data_structures/data_structures/priority_queue.c:63-67 | FIFO among equal priorities: the new node goes after every node of priority >= its own and before every node of smaller priority |
| PriorityQueue.FrontIsMax | algorithms_and_data_structures/data_structures/priority_queue.c:81-95 | in a sorted queue the front node has the highest priority |
| PriorityQueue.PriorityQueue.constructor | algorithms_and_data_structures/data_structures/priority_queue.c:32-39 | an empty queue with size 0 |
| PriorityQueue.PriorityQueue.IsEmpty | algorithms_and_data_structures/data_structures/priority_queue.c:118 | holds exactly when there are no nodes |
| PriorityQueue.PriorityQueue.Size | algorithms_and_data_structures/data_structures/priority_queue.c:125 | the size field equals the node count |
| PriorityQueue.PriorityQueue.Enqueue | algorithms_and_data_structures/data_structures/priority_queue.c:48-73 | the nodes become the reference insertion of the new node, stay sorted, gain exactly that node, and size grows by one |
| PriorityQueue.PriorityQueue.Dequeue | algorithms_and_data_structures/data_structures/priority_queue.c:81-95 | PRIORITY_QUEUE_EMPTY exactly on an empty queue, nothing changed; otherwise the front value, which has the highest priority, is returned and removed and size drops |
| PriorityQueue.PriorityQueue.Peek | algorithms_and_data_structures/data_structures/priority_queue.c:103-111 | PRIORITY_QUEUE_EMPTY on an empty queue; otherwise the front value, of highest priority, nothing removed |
| PriorityQueue.PriorityQueue.Clear | algorithms_and_data_structures/data_structures/priority_queue.c:132-147 | no nodes and size 0 |
| PriorityQueue.PriorityQueueTest | algorithms_and_data_structures/data_structures/priority_queue.c:167-195 | after enqueuing (10,1), (20,3), (15,2), dequeue gives 20 and peek then gives 15; clear empties the queue |
| TaskSystem.TaskQueue.constructor | asd_lab_6_task.c:46-48 | `initQueue` gives an empty queue with first 0, last -1 and size 0 |
| TaskSystem.TaskQueue.IsEmpty | asd_lab_6_task.c:50 | holds exactly when no task is queued |
| TaskSystem.TaskQueue.IsFull | asd_lab_6_task.c:51 | holds exactly when MAX_TASKS tasks are queued |
| TaskSystem.TaskQueue.AddTask | asd_lab_6_task.c:65-73 | QUEUE_FULL exactly when size == MAX_TASKS, with nothing changed; otherwise the task is appended, last advances modulo MAX_TASKS and size grows, keeping 0 <= size <= MAX_TASKS |
| TaskSystem.TaskQueue.RemoveTask | asd_lab_6_task.c:78-86 | QUEUE_EMPTY exactly on an empty queue, leaving the caller's task; otherwise the front task is returned and removed, first advances modulo MAX_TASKS and size drops |
| TaskSystem.TaskStack.Contents | asd_lab_6_task.c:34-37 | the stored tasks from bottom to top, top + 1 of them |
| TaskSystem.TaskStack.constructor | asd_lab_6_task.c:54 | `initStack` gives an empty stack with top -1 |
| TaskSystem.TaskStack.IsEmpty | asd_lab_6_task.c:55 | holds exactly when no task is stored |
| TaskSystem.TaskStack.IsFull | asd_lab_6_task.c:56 | holds exactly when MAX_TASKS tasks are stored |
| TaskSystem.TaskStack.Push | asd_lab_6_task.c:92-98 | STACK_FULL exactly at top == MAX_TASKS-1, with nothing changed; otherwise the task goes on top |
| TaskSystem.TaskStack.Pop | asd_lab_6_task.c:103-109 | STACK_EMPTY exactly at top == -1, leaving the caller's task; otherwise the top task is returned and removed (LIFO) |
| TaskSystem.LoadTasks | asd_lab_6_task.c:171-182 | the loader puts T1..T6 into F1 and T7..T12 into F2, in order, and the stack starts empty |
| TaskSystem.AddAll | asd_lab_6_task.c:177-182 | one loading loop: the tasks of the given range are appended to the queue in order and its array is kept |
| StringBuffer.Inserted | asd_lab_2.c:79-94 | inserting a substring lengthens the string by exactly the substring's length |
| StringBuffer.DeletedLength | asd_lab_2.c:57-70 | a start at or past the length changes nothing; otherwise min(count, length - start) characters go and the prefix before start is kept |
| StringBuffer.DeleteUndoesInsert | asd_lab_2.c:57-94 | deleting, at the same position, as many characters as were inserted gives the original string back |
| StringBuffer.NoSpaces | asd_lab_2.c:189-206 | the spaceless form of a string holds no space and is no longer than the string |
| StringBuffer.MemMove | asd_lab_2.c:91 | `memmove` within one buffer: the buffer becomes its old cells before the destination, the old source range, then its old cells after the destination range, even when source and destination overlap |
| StringBuffer.MemCopy | asd_lab_2.c:117-118 | `memcpy` between two buffers: the buffer becomes its old cells before the destination, the source range, then its old cells after the destination range |
| StringBuffer.Splice | asd_lab_2.c:91-92 | the two moves of Insert on the raw buffer: the text becomes text[..start] + sub + text[start..] and the old terminator follows it |
| StringBuffer.JoinOut | asd_lab_2.c:117-120 | the two copies of Concat on the raw buffers: the front of the result holds str1's characters then str2's, followed by a terminator |
| StringBuffer.CopyOut | asd_lab_2.c:149-151 | the copy of Copy on the raw buffers: the front of the substring's buffer holds str[start .. start + count], followed by a terminator |
| StringBuffer.StringBuffer.Contents | asd_lab_2.c:8-12 | the characters held are exactly `length` characters |
| StringBuffer.StringBuffer.constructor | asd_lab_2.c:23-31 | `InitStr` allocates size + 1 characters and sets capacity = size and length = 0 |
| StringBuffer.StringBuffer.WriteToStr | asd_lab_2.c:39-48 | the source characters are appended while length < capacity - 1; on reaching the limit writing stops and the truncated prefix is kept, terminated only when the whole source fit |
| StringBuffer.StringBuffer.Delete | asd_lab_2.c:57-70 | nothing happens when start >= length or count is 0; otherwise count is clamped to length - start and that slice is removed, the terminator moving down with the tail |
| StringBuffer.StringBuffer.Insert | asd_lab_2.c:79-94 | rejected, with nothing changed, when start > length or length + sub.length >= capacity; otherwise the contents become s[..start] + sub + s[start..] |
| StringBuffer.StringBuffer.Concat | asd_lab_2.c:103-121 | the result holds str1 followed by str2 and a terminator when len1 + len2 < capacity, and is unchanged otherwise |
| StringBuffer.StringBuffer.Copy | asd_lab_2.c:131-152 | rejected, with nothing changed, when count >= capacity or start >= length; otherwise the substring is str[start .. start + min(count, length - start)], terminated |
| StringBuffer.StringBuffer.DoneStr | asd_lab_2.c:159-166 | the buffer is released, with data NULL and capacity and length 0 |
| StringBuffer.SkipSpaces | asd_lab_2.c:174-179 | the position of the first non-space character at or after the start, or the terminator; everything skipped is a space |
| StringBuffer.WordCmpRound | asd_lab_2.c:190-202 | one round of the comparison loop: a mismatch after skipping spaces means the strings differ, a match means the rest decides |
| StringBuffer.WordCmpEnd | asd_lab_2.c:205 | when the loop stops, the strings agree exactly when both are used up |
| StringBuffer.WordCmp | asd_lab_2.c:189-206 | true exactly when the two strings are equal once every space is removed and neither ends in a space: runs of spaces are ignored and a differing non-space character makes them differ |
| StringBuffer.InitStrTest | asd_lab_2.c:208-216 | capacity 10 and length 0 |
| StringBuffer.WriteToStrTest | asd_lab_2.c:218-226 | "Hello" fits into capacity 10 and gives length 5 |
| StringBuffer.FilledBuffer | asd_lab_2.c:253-258 | a buffer initialised with a capacity larger than a NUL-free text and then written with it holds exactly that text |
| StringBuffer.DeleteTest | asd_lab_2.c:228-236 | removing one character at 5 from "Hello World" gives "HelloWorld" |
| StringBuffer.InsertTest | asd_lab_2.c:238-249 | inserting "l" at 3 of "Helo World" gives "Hello World" |
| StringBuffer.ConcatTest | asd_lab_2.c:251-267 | "Hello" and "World" concatenate to "HelloWorld" in a buffer of capacity 20 |
| StringBuffer.WordCmpTest | asd_lab_2.c:269-273 | "Hello   world" equals "Hello world", and "Hello  world!" does not |
| StringBuffer.SpacesIgnoredTest | asd_lab_2.c:270 | "Hello   world" and "Hello world" compare equal: runs of spaces are skipped |
| StringBuffer.CharacterCountsTest | asd_lab_2.c:271 | "Hello   world" and "Hello  world!" compare unequal because of the trailing "!" |
| ChainedHashTable.Djb2 | algorithms_and_data_structures/hash_table.c:42-48 | the DJB2 value (5381, then h*33 + c per character) stays within the 64-bit size_t range |
| ChainedHashTable.Bucket | algorithms_and_data_structures/hash_table.c:48 | the bucket of a key is below the bucket count |
| ChainedHashTable.HashFunction | algorithms_and_data_structures/hash_table.c:42-49 | the shift-add loop with size_t wrap-around computes DJB2, and the reduced result is below the table size |
| ChainedHashTable.Find | algorithms_and_data_structures/hash_table.c:107-120 | the chain walk finds a value exactly when some node of the chain holds the key |
| ChainedHashTable.ChainKeys | algorithms_and_data_structures/hash_table.c:157-170 | the keys of a chain, head first, one per node |
| ChainedHashTable.AllKeysUpdate | algorithms_and_data_structures/hash_table.c:56-152 | replacing one chain changes the number of keys by the difference of the chain lengths, which is how `count` follows inserts and removes |
| ChainedHashTable.AllKeysMember | algorithms_and_data_structures/hash_table.c:157-170 | a key is listed exactly when some chain holds it |
| ChainedHashTable.KeysStep | algorithms_and_data_structures/hash_table.c:162-168 | each round of the bucket loop extends the key list by that bucket's chain |
| ChainedHashTable.AllKeysLookup | algorithms_and_data_structures/hash_table.c:157-170 | with every key in its own bucket, a key is listed exactly when the lookup in its bucket finds it |
| ChainedHashTable.AllKeysDistinct | algorithms_and_data_structures/hash_table.c:157-170 | with keys in their own buckets and unique within each chain, the listed keys are all distinct |
| ChainedHashTable.FindPrepend | algorithms_and_data_structures/hash_table.c:76-79 | after a node is prepended its key is found with the new value, and every other key as before |
| ChainedHashTable.FindRemove | algorithms_and_data_structures/hash_table.c:139-148 | unlinking a node from a chain without repeated keys makes exactly that key missing, other keys as before |
| ChainedHashTable.HashTable.constructor | algorithms_and_data_structures/hash_table.c:32-36 | `hashTableInit` makes `size` empty buckets and count 0: no key is stored |
| ChainedHashTable.HashTable.InsertUnique | algorithms_and_data_structures/hash_table.c:56-83 | ALREADY_EXISTS exactly when the key is stored, with no change; otherwise the key maps to the value, count grows by one, and every other key keeps its value |
| ChainedHashTable.HashTable.Contains | algorithms_and_data_structures/hash_table.c:89-100 | SUCCESS exactly when the key is stored |
| ChainedHashTable.HashTable.Get | algorithms_and_data_structures/hash_table.c:107-120 | the stored value with SUCCESS, or KEY_NOT_FOUND with the caller's variable untouched |
| ChainedHashTable.HashTable.Count | algorithms_and_data_structures/hash_table.c:125 | the count field equals the number of stored keys |
| ChainedHashTable.HashTable.Remove | algorithms_and_data_structures/hash_table.c:131-152 | SUCCESS exactly when the key was stored: it is then missing, count drops, and every other key keeps its value; otherwise KEY_NOT_FOUND with no change, so a second remove of the same key fails |
| ChainedHashTable.HashTable.Keys | algorithms_and_data_structures/hash_table.c:157-170 | every stored key exactly once, `count` of them, bucket by bucket |
| ChainedHashTable.HashTable.Clear | algorithms_and_data_structures/hash_table.c:174-187 | every node released, buckets NULL, count 0, no key stored |
| ChainedHashTable.HashTableFillTest | algorithms_and_data_structures/hash_table.c:190-208 | apple and banana go in, a second apple is refused, count is 2 and the values read back are 100 and 200 |
| ChainedHashTable.InsertFruitTest | algorithms_and_data_structures/hash_table.c:191-196 | on a fresh table of ten buckets apple and banana are both accepted, leaving exactly apple -> 100 and banana -> 200 and a count of 2 |
| ChainedHashTable.DuplicateAppleTest | algorithms_and_data_structures/hash_table.c:197 | a second apple is refused with ALREADY_EXISTS and the stored pairs and count are unchanged |
| ChainedHashTable.HashTableLookupTest | algorithms_and_data_structures/hash_table.c:200-212 | apple and banana read back as 100 and 200 |
| ChainedHashTable.HashTableReinsertTest | algorithms_and_data_structures/hash_table.c:214-224 | removing apple twice fails the second time, and reinserting it with 300 gives 300 back and count 2 |
| ChainedHashTable.HashTableTest | algorithms_and_data_structures/hash_table.c:190-238 | values 100, 200 and then 300, count 2, exactly apple and banana listed, and count 0 after clear |
| DoubleHashTable.CRem | algorithms_and_data_structures/asd_lab_8.c:40 | C's `%`: agrees with the mathematical remainder for a non-negative dividend and has magnitude below the divisor |
| DoubleHashTable.PrimaryHash | algorithms_and_data_structures/asd_lab_8.c:40 | `key % TABLE_SIZE` is a slot number for non-negative keys and non-positive for negative ones |
| DoubleHashTable.SecondaryHash | algorithms_and_data_structures/asd_lab_8.c:47 | `PRIME - key % PRIME` is a step in 1..PRIME for non-negative keys, never 0 |
| DoubleHashTable.Probe | algorithms_and_data_structures/asd_lab_8.c:92-93 | every probe is a slot of the table |
| DoubleHashTable.FirstStop | algorithms_and_data_structures/asd_lab_8.c:92-108 | where insertItem stops: the first probe whose slot is empty or holds the key; every probe before it holds another key |
| DoubleHashTable.FirstMatch | algorithms_and_data_structures/asd_lab_8.c:126-136 | what findItem and deleteItem look for: the first probe whose slot holds the key, with empty slots not ending the search |
| DoubleHashTable.NotHeldNotFound | algorithms_and_data_structures/asd_lab_8.c:120-137 | a key held by no slot is not found |
| DoubleHashTable.FullTableRefuses | algorithms_and_data_structures/asd_lab_8.c:92-110 | when every slot holds another key, insertItem finds no stopping probe, which its contract turns into HT_TABLE_FULL |
| DoubleHashTable.FindAfterStop | algorithms_and_data_structures/asd_lab_8.c:86-137 | after an insertion into an empty slot at the key's stopping probe, a search finds the key at that probe |
| DoubleHashTable.NotFoundAfterClear | algorithms_and_data_structures/asd_lab_8.c:145-164 | without duplicates, once the only slot with the key is cleared the key is not found |
| DoubleHashTable.Table.constructor | algorithms_and_data_structures/asd_lab_8.c:54-63 | `createTable` makes `size` empty slots |
| DoubleHashTable.Table.InsertItem | algorithms_and_data_structures/asd_lab_8.c:86-111 | HT_SUCCESS with the item in the first empty probed slot; HT_KEY_EXISTS, no change, when a slot with the key comes first; HT_TABLE_FULL, no change, when every probe holds another key |
| DoubleHashTable.Table.FindItem | algorithms_and_data_structures/asd_lab_8.c:120-137 | the value in the first probed slot holding the key, or HT_KEY_NOT_FOUND with the caller's variable untouched |
| DoubleHashTable.Table.DeleteItem | algorithms_and_data_structures/asd_lab_8.c:145-164 | the first probed slot holding the key is emptied, or HT_KEY_NOT_FOUND and no change |
| DoubleHashTable.Table.InsertItemChecked | algorithms_and_data_structures/asd_lab_8.c:86-111 | the insertion refuses a key held by any of its probes and otherwise fills the first empty probe; it keeps every item on its key's probes and never stores a key twice |
| DoubleHashTable.InsertItemTest | algorithms_and_data_structures/asd_lab_8.c:194-215 | keys 1 and 2 go in and a second key 1 is refused |
| DoubleHashTable.FindItemTest | algorithms_and_data_structures/asd_lab_8.c:220-242 | 1 is found with 100, 99 is missing, and 101, which shares 1's first slot, is found with 200 |
| DoubleHashTable.DeleteItemTest | algorithms_and_data_structures/asd_lab_8.c:247-264 | 1 is deleted once; deleting 2 or deleting 1 again gives HT_KEY_NOT_FOUND |
| DoubleHashTable.DuplicateAfterDelete | algorithms_and_data_structures/asd_lab_8.c:86-164 | as written, inserting 101 after 1 was deleted stores 101 a second time, and after one delete of 101 it is still found with 200 |
| DoubleHashTable.CheckedInsertOne | algorithms_and_data_structures/asd_lab_8.c:86-111 | the checked insertion of 1 into an empty table fills slot 1 |
| DoubleHashTable.CheckedInsertTwo | algorithms_and_data_structures/asd_lab_8.c:86-111 | with the checked insertion, inserting 1 and then 101 into an empty table puts 1 in slot 1 and 101 in slot 5 |
| DoubleHashTable.CheckedInsertThenDelete | algorithms_and_data_structures/asd_lab_8.c:86-164 | with the checked insertion, inserting 1 and 101 and deleting 1 leaves only 101, in slot 5 |
| DoubleHashTable.NoDuplicateWithCheckedInsert | algorithms_and_data_structures/asd_lab_8.c:86-164 | with the checked insertion the second 101 is refused, and 101 is gone after one delete |
| NumberDictionary.ShiftAdd | algorithms_and_data_structures/labs/asd_lab_8_task.c:46-53 | the shift-add value (h << 5) + c stays within unsigned 32 bits |
| NumberDictionary.Index | algorithms_and_data_structures/labs/asd_lab_8_task.c:53 | the chain of a word is below TABLE_SIZE |
| NumberDictionary.Hash | algorithms_and_data_structures/labs/asd_lab_8_task.c:46-54 | the loop computes the shift-add value reduced modulo TABLE_SIZE |
| NumberDictionary.SearchResult | algorithms_and_data_structures/labs/asd_lab_8_task.c:77-89 | the value of the first node of the chain with the word, or -1 |
| NumberDictionary.LastValue | algorithms_and_data_structures/labs/asd_lab_8_task.c:116-133 | a word of the file gets the value of its last (word, value) pair |
| NumberDictionary.HashTable.constructor | algorithms_and_data_structures/labs/asd_lab_8_task.c:30-39 | TABLE_SIZE empty chains: no word is known |
| NumberDictionary.HashTable.Insert | algorithms_and_data_structures/labs/asd_lab_8_task.c:62-69 | a new node goes at the head of the word's chain, without looking for an older node, so the word now means the new value and every other word keeps its meaning |
| NumberDictionary.HashTable.Search | algorithms_and_data_structures/labs/asd_lab_8_task.c:77-89 | the value of the word, or -1 when the dictionary lacks it |
| NumberDictionary.HashTable.CreateNumberDict | algorithms_and_data_structures/labs/asd_lab_8_task.c:128-129 | after the insertion loop each listed word means the value of its last pair and every other word keeps its meaning |
| NumberDictionary.HashTable.Results | algorithms_and_data_structures/labs/asd_lab_8_task.c:155-156 | the search result for each token of a line |
| NumberDictionary.HashTable.ProcessLine | algorithms_and_data_structures/labs/asd_lab_8_task.c:151-175 | the pieces written for one line are the collapse of its tokens by their search results |
| NumberDictionary.HashTable.ProcessToken | algorithms_and_data_structures/labs/asd_lab_8_task.c:157-168 | one token advances the collapse by one step: a dictionary word joins the pending sum, any other token flushes the pending sum and is written; no sum is pending unless hasNumber holds |
| NumberDictionary.CollapseCopiesUnknown | algorithms_and_data_structures/labs/asd_lab_8_task.c:155-170 | every token the dictionary lacks is written, in order, and no other token is |
| NumberDictionary.CollapseKeepsSum | algorithms_and_data_structures/labs/asd_lab_8_task.c:155-173 | the numbers written add up to every dictionary value of the line |
| NumberDictionary.CollapseSeparatesNumbers | algorithms_and_data_structures/labs/asd_lab_8_task.c:155-173 | a run of dictionary words gives a single number: two numbers are never written next to each other |
| NumberDictionary.TwoHundredExample | algorithms_and_data_structures/labs/asd_lab_8_task.c:155-173 | values are added, not composed: "I have two hundred apples" with two = 2 and hundred = 100 gives "I have 102 apples" |
| SearchTree.InsertMembers | algorithms_and_data_structures/asd_lab_7.c:99-117 | insertion adds the value and nothing else, as a set of values |
| SearchTree.InsertOrdered | algorithms_and_data_structures/asd_lab_7.c:99-117 | insertion keeps the search-tree order |
| SearchTree.InsertElements | algorithms_and_data_structures/asd_lab_7.c:99-117 | a value already present leaves the tree as it is; otherwise exactly one copy of it is added |
| SearchTree.RemoveMinElements | algorithms_and_data_structures/asd_lab_7.c:177-188 | the successor value together with what is left are the values of the subtree |
| SearchTree.RemoveMinOrdered | algorithms_and_data_structures/asd_lab_7.c:177-188 | in an ordered subtree the successor is below every value left, and what is left stays ordered |
| SearchTree.RemoveRootElements | algorithms_and_data_structures/asd_lab_7.c:164-188 | unlinking the node, or copying its successor up, drops exactly the node's value |
| SearchTree.RemoveRootOrdered | algorithms_and_data_structures/asd_lab_7.c:164-188 | unlinking the node keeps the order |
| SearchTree.RemoveShrinks | algorithms_and_data_structures/asd_lab_7.c:149-193 | removal only ever takes values out |
| SearchTree.RemoveAbsent | algorithms_and_data_structures/asd_lab_7.c:160 | removing an absent value changes nothing |
| SearchTree.RemovePresent | algorithms_and_data_structures/asd_lab_7.c:149-193 | in an ordered tree a present value is found and taken out exactly once |
| SearchTree.RemoveOrdered | algorithms_and_data_structures/asd_lab_7.c:149-193 | removal keeps the search-tree order |
| SearchTree.RemoveElements | algorithms_and_data_structures/asd_lab_7.c:149-193 | removal takes one copy of the value out, and an absent value leaves the tree as it is |
| SearchTree.StepLeft | algorithms_and_data_structures/asd_lab_7.c:103-107 | in an ordered tree a smaller value is present exactly when it is in the left subtree |
| SearchTree.StepRight | algorithms_and_data_structures/asd_lab_7.c:103-107 | in an ordered tree a larger value is present exactly when it is in the right subtree |
| SearchTree.DescendLeft | algorithms_and_data_structures/asd_lab_7.c:103-107 | following the left link keeps the walked path and the current subtree together equal to the whole tree |
| SearchTree.DescendRight | algorithms_and_data_structures/asd_lab_7.c:103-107 | following the right link keeps the walked path and the current subtree together equal to the whole tree |
| SearchTree.PlugInsert | algorithms_and_data_structures/asd_lab_7.c:99-117 | hanging the new node at the end of the search path is inserting into the whole tree |
| SearchTree.PlugRemove | algorithms_and_data_structures/asd_lab_7.c:149-193 | rewriting the link at the end of the search path is removing from the whole tree |
| SearchTree.PlugRemoveMin | algorithms_and_data_structures/asd_lab_7.c:177-188 | the successor walk, always to the left, finds the minimum of the right subtree and splicing it out there removes it from that subtree |
| SearchTree.BinaryTree.constructor | algorithms_and_data_structures/asd_lab_7.c:42-48 | `treeInit` gives the empty tree |
| SearchTree.BinaryTree.IsEmpty | algorithms_and_data_structures/asd_lab_7.c:211 | `treeIsEmpty` holds exactly when the tree holds no value |
| SearchTree.BinaryTree.TreeInsert | algorithms_and_data_structures/asd_lab_7.c:99-117 | ERROR_DUPLICATE exactly when the value is present, with no change; otherwise ERROR_NONE and the value is added once, the tree staying ordered |
| SearchTree.BinaryTree.TreeFind | algorithms_and_data_structures/asd_lab_7.c:126-141 | ERROR_NONE exactly when the value is present, with the node holding it as the result; otherwise ERROR_NOT_FOUND and the caller's result untouched |
| SearchTree.BinaryTree.TreeRemove | algorithms_and_data_structures/asd_lab_7.c:149-193 | ERROR_NONE exactly when the value is present, and it is then taken out once with the order kept; otherwise ERROR_NOT_FOUND and no change |
| SearchTree.BinaryTree.Unlink | algorithms_and_data_structures/asd_lab_7.c:164-188 | the link to the node becomes NULL for a leaf, the only child for a node with one child, and otherwise the node with its in-order successor's value and that successor spliced out |
| SearchTree.BinaryTree.TreeFree | algorithms_and_data_structures/asd_lab_7.c:199-204 | every node released and the root NULL, so the tree is empty |
| SearchTree.InsertTest | algorithms_and_data_structures/asd_lab_7.c:241-249 | inserting 10, 5, 15 gives the tree with 10 at the root, 5 on the left and 15 on the right; a second 5 is refused as a duplicate |
| SearchTree.FindTest | algorithms_and_data_structures/asd_lab_7.c:251-261 | in that tree 10, 5 and 15 are found with their own values and 20 is not found; the root has both children and its left child none |
| SearchTree.RemoveTest | algorithms_and_data_structures/asd_lab_7.c:263-265 | in the three-node tree, removing 5 succeeds and leaves 10 with 15 on its right, after which 5 is not found and removing 20 reports not found |
| SearchTree.RemoveFreeTest | algorithms_and_data_structures/asd_lab_7.c:263-271 | 5 is removed and no longer found, removing 20 fails, and freeing empties the tree |
| Trees.InOrderElements | algorithms_and_data_structures/asd_lab_7_task.c:117-127 | the in-order walk lists every stored value once |
| Trees.PreOrderElements | algorithms_and_data_structures/asd_lab_7_task.c:171-177 | the depth-first (preorder) walk lists every stored value once, the root first |
| Trees.CountIsSize | algorithms_and_data_structures/asd_lab_7_task.c:145-149 | `countNodes` is the number of stored values, and the length of the in-order walk |
| Trees.HeightAtMostCount | algorithms_and_data_structures/asd_lab_7.c:229-236 | a tree of height h has at least h nodes |
| Trees.CountBelowPow2 | algorithms_and_data_structures/asd_lab_7.c:229-236 | a tree of height h has at most 2^h - 1 nodes |
| Trees.StrictInOrderIncreasing | algorithms_and_data_structures/asd_lab_7_task.c:117-127 | a search tree without duplicates lists its values in increasing order |
| Trees.LooseInOrderNonDecreasing | algorithms_and_data_structures/data_structures/binary_tree.c:121-127 | a tree with duplicates kept on the right lists its values in non-decreasing order |
| Trees.AllKidsCount | algorithms_and_data_structures/asd_lab_7_task.c:183-201 | the nodes of a row are its own nodes plus those of the row below |
| Trees.BfsDrain | algorithms_and_data_structures/asd_lab_7_task.c:183-201 | draining a queued row emits its node values and leaves its children, left first, at the back of the queue |
| Trees.BfsIsLevelOrder | algorithms_and_data_structures/asd_lab_7_task.c:183-201 | the queue-driven walk emits the values row by row, each row left to right |
| Trees.BfsElements | algorithms_and_data_structures/asd_lab_7_task.c:183-201 | the walk emits every value of the queued subtrees once, and nothing else |
| Trees.BreadthOrder | algorithms_and_data_structures/asd_lab_7_task.c:183-201 | breadth-first order of a tree is a permutation of its values, is its level order, and starts at the root |
| Trees.BreadthFirst | algorithms_and_data_structures/data_structures/binary_tree.c:133-152 | the walk over an array of subtree pointers with front and rear indices emits the breadth-first order, as long as the node count fits the array |
| Trees.PushKids | algorithms_and_data_structures/data_structures/binary_tree.c:144-149 | the non-NULL children of the node are queued at `rear`, left first, and `rear` moves past them |
| Trees.WalkStep | algorithms_and_data_structures/data_structures/binary_tree.c:141-150 | one turn of the walk keeps the emitted values followed by the walk of the queue equal to the whole breadth-first order, and the queue within the node count |
| Trees.PlugStep | algorithms_and_data_structures/asd_lab_7.c:99-117 | putting a subtree back through a path one level longer is putting it back through the last step and then the rest |
| OrderedTree.InsertAllMembers | algorithms_and_data_structures/asd_lab_7_task.c:107-109 | building stores exactly the old values and the array's values |
| OrderedTree.InsertAllOrdered | algorithms_and_data_structures/asd_lab_7_task.c:107-109 | building keeps the search-tree order, so each value is stored once |
| OrderedTree.BuildOrderedTree | algorithms_and_data_structures/asd_lab_7_task.c:107-109 | `treeInsert` on every value in turn, a duplicate's error ignored |
| OrderedTree.Take | algorithms_and_data_structures/asd_lab_7_task.c:117-127 | the first k values: none when k is not positive, all when k reaches the length, and a prefix in every case |
| OrderedTree.InorderTraversal | algorithms_and_data_structures/asd_lab_7_task.c:117-127 | while fewer than n values are printed the walk goes left, node, right: it prints the first n - count values in order and moves the counter past them |
| OrderedTree.PrintOrderedSequence | algorithms_and_data_structures/asd_lab_7_task.c:134-138 | the first n values in order: ascending, min(n, node count) of them, and every value left out is larger than every value printed |
| OrderedTree.SmallestFirst | algorithms_and_data_structures/asd_lab_7_task.c:117-138 | a prefix of an ordered tree's in-order sequence is ascending and holds its smallest values |
| OrderedTree.PrefixSmallest | algorithms_and_data_structures/asd_lab_7_task.c:117-138 | a prefix of an ascending sequence is ascending and below every later value |
| OrderedTree.SubtreeCountsLines | algorithms_and_data_structures/asd_lab_7_task.c:155-165 | `printSubtreeCounts` prints one line per node, the nodes in preorder |
| OrderedTree.SubtreeCountsBound | algorithms_and_data_structures/asd_lab_7_task.c:155-165 | at the root the two counts add up to the node count less one, and at every node they stay below the node count |
| OrderedTree.BreadthFirstSearch | algorithms_and_data_structures/asd_lab_7_task.c:183-201 | with its array of 100 pointers the walk emits the level order, a permutation of the values starting at the root |
| OrderedTree.BuildExample | algorithms_and_data_structures/asd_lab_7_task.c:221-224 | building from 10, 5, 15, 3, 7, 13, 17 gives the full tree of height 3 with 10 at the root |
| OrderedTree.BuildTest | algorithms_and_data_structures/asd_lab_7_task.c:217-224 | the test's tree is that full tree |
| OrderedTree.WalksTest | algorithms_and_data_structures/asd_lab_7_task.c:227-239 | the first five in order are 3, 5, 7, 10, 13; the depth-first order is 10, 5, 3, 7, 15, 13, 17; the root has 3 and 3 nodes below it and 5 has 1 and 1; the breadth-first order is 10, 5, 15, 3, 7, 13, 17 |
| DuplicateTree.CreateNode | algorithms_and_data_structures/data_structures/binary_tree.c:27-37 | a node with no children holding just the value |
| DuplicateTree.InsertAdds | algorithms_and_data_structures/data_structures/binary_tree.c:45-56 | insertion always reports SUCCESS and adds one more copy of the value, duplicates included |
| DuplicateTree.InsertOrdered | algorithms_and_data_structures/data_structures/binary_tree.c:45-56 | insertion keeps smaller values on the left and values not smaller on the right |
| DuplicateTree.Search | algorithms_and_data_structures/data_structures/binary_tree.c:64-71 | a node found by the search holds the value |
| DuplicateTree.SearchFinds | algorithms_and_data_structures/data_structures/binary_tree.c:64-71 | in an ordered tree the search finds the value exactly when it is stored |
| DuplicateTree.LeftmostIsMin | algorithms_and_data_structures/data_structures/binary_tree.c:78-82 | the leftmost value is stored, and in an ordered tree no stored value is smaller |
| DuplicateTree.FindMin | algorithms_and_data_structures/data_structures/binary_tree.c:78-82 | NULL for an empty tree; otherwise the node reached by following left links, which has no left child and holds the minimum |
| DuplicateTree.DeleteAbsent | algorithms_and_data_structures/data_structures/binary_tree.c:90-115 | deleting an absent value reports ERR_NOT_FOUND and changes nothing |
| DuplicateTree.DeleteShrinks | algorithms_and_data_structures/data_structures/binary_tree.c:90-115 | deletion only ever takes values out |
| DuplicateTree.DeletePresent | algorithms_and_data_structures/data_structures/binary_tree.c:90-115 | in an ordered tree a stored value is deleted: SUCCESS, and one copy fewer |
| DuplicateTree.DeleteSuccessor | algorithms_and_data_structures/data_structures/binary_tree.c:106-111 | with two children the node takes its successor's value and one copy of that value leaves the right subtree |
| DuplicateTree.DeleteOrdered | algorithms_and_data_structures/data_structures/binary_tree.c:90-115 | deletion keeps the order |
| DuplicateTree.DeleteSpec | algorithms_and_data_structures/data_structures/binary_tree.c:90-115 | ERR_NOT_FOUND exactly for an absent value, with the tree unchanged; SUCCESS exactly for a stored one; one copy fewer, order kept |
| DuplicateTree.InorderSorted | algorithms_and_data_structures/data_structures/binary_tree.c:121-127 | the in-order walk lists every value once, in non-decreasing order |
| DuplicateTree.TraverseBreadth | algorithms_and_data_structures/data_structures/binary_tree.c:133-152 | the walk with its 512-pointer array emits the level order, a permutation of the values |
| DuplicateTree.BuildExample | algorithms_and_data_structures/data_structures/binary_tree.c:168-176 | each insert of 50, 30, 70, 20, 40, 60, 80 after 5 reports SUCCESS and gives the expected shape |
| DuplicateTree.DeleteExample | algorithms_and_data_structures/data_structures/binary_tree.c:189-195 | 20, a leaf, is deleted; 50, with two children, takes 60; 100 is not found; the in-order walk then gives 5, 30, 40, 60, 70, 80 |
| DuplicateTree.MainTest | algorithms_and_data_structures/data_structures/binary_tree.c:167-200 | the inserts succeed, 40 is found and 90 is not, 20 and 50 are deleted and 100 is not found, leaving 5, 30, 40, 60, 70, 80 in order |
| Avl.CreateNode | algorithms_and_data_structures/data_structures/avl_tree.c:26-37 | a node of height 1 and balance 0 with just the key: an AVL tree |
| Avl.RotateRightOrdered | algorithms_and_data_structures/data_structures/avl_tree.c:60-71 | a right rotation of a search tree is a search tree: the moved subtree stays between the two keys |
| Avl.RotateRightSpec | algorithms_and_data_structures/data_structures/avl_tree.c:60-71 | a right rotation keeps the in-order sequence, the keys and the order, and with correct heights below it every height is correct |
| Avl.RotateLeftOrdered | algorithms_and_data_structures/data_structures/avl_tree.c:78-89 | a left rotation of a search tree is a search tree: the moved subtree stays between the two keys |
| Avl.RotateLeftSpec | algorithms_and_data_structures/data_structures/avl_tree.c:78-89 | a left rotation keeps the in-order sequence, the keys and the order, and with correct heights below it every height is correct |
| Avl.Insert | algorithms_and_data_structures/data_structures/avl_tree.c:97-130 | on an AVL tree the result is an AVL tree (ordered, correct heights, every balance factor in -1..1) with the key added, the same tree when the key is there, and at most one level taller |
| Avl.InsertLeftStep | algorithms_and_data_structures/data_structures/avl_tree.c:100-129 | after the left subtree took the key, recomputing the height and the LL or LR repair give an AVL tree with the key added, at most one level taller |
| Avl.InsertRightStep | algorithms_and_data_structures/data_structures/avl_tree.c:102-129 | after the right subtree took the key, recomputing the height and the RR or RL repair give an AVL tree with the key added, at most one level taller |
| Avl.LeftLeft | algorithms_and_data_structures/data_structures/avl_tree.c:112 | LL: one right rotation balances a node leaning left by two over a left child leaning left, at its old height |
| Avl.LeftRight | algorithms_and_data_structures/data_structures/avl_tree.c:118-121 | LR: rotating the left child left and the node right balances it, keys kept |
| Avl.LeftRightHeights | algorithms_and_data_structures/data_structures/avl_tree.c:118-121 | in the LR case the outer grandchild has the right child's height and the inner grandchild's subtrees are at most one lower |
| Avl.LeftRightKeys | algorithms_and_data_structures/data_structures/avl_tree.c:118-121 | the LR double rotation keeps the keys |
| Avl.RightRight | algorithms_and_data_structures/data_structures/avl_tree.c:115 | RR: one left rotation balances a node leaning right by two over a right child leaning right, at its old height |
| Avl.RightLeft | algorithms_and_data_structures/data_structures/avl_tree.c:124-127 | RL: rotating the right child right and the node left balances it, keys kept |
| Avl.RightLeftHeights | algorithms_and_data_structures/data_structures/avl_tree.c:124-127 | in the RL case the heights below mirror the LR case |
| Avl.RightLeftKeys | algorithms_and_data_structures/data_structures/avl_tree.c:124-127 | the RL double rotation keeps the keys |
| Avl.LeftRightOrder | algorithms_and_data_structures/data_structures/avl_tree.c:118-121 | the pieces an LR rotation reassembles are in key order around their new parents |
| Avl.RightLeftOrder | algorithms_and_data_structures/data_structures/avl_tree.c:124-127 | the pieces an RL rotation reassembles are in key order around their new parents |
| Avl.FixAvl | algorithms_and_data_structures/data_structures/avl_tree.c:106 | a node with its height recomputed over two AVL subtrees that differ in height by at most one, in key order, is an AVL tree |
| Avl.InOrderAscending | algorithms_and_data_structures/data_structures/avl_tree.c:136-142 | the in-order walk of an ordered tree lists its keys, ascending |
| Avl.InsertExample | algorithms_and_data_structures/data_structures/avl_tree.c:157-164 | inserting 10, 20, 30, 40, 50, 25 after 5 gives an AVL tree with exactly those keys |
| Avl.MainTest | algorithms_and_data_structures/data_structures/avl_tree.c:156-173 | the in-order walk then prints 5 10 20 25 30 40 50 |
| RedBlack.CreateNode | algorithms_and_data_structures/data_structures/RB_tree.c:27-37 | a new node is red, holds the key and has no children |
| RedBlack.RotateLeftSpec | algorithms_and_data_structures/data_structures/RB_tree.c:45-64 | left_rotate keeps the in-order sequence and right_rotate undoes it |
| RedBlack.RotateRightSpec | algorithms_and_data_structures/data_structures/RB_tree.c:72-90 | right_rotate keeps the in-order sequence and left_rotate undoes it |
| RedBlack.PlugInOrder | algorithms_and_data_structures/data_structures/RB_tree.c:99-133 | the tree rebuilt from the parent path lists the keys before the hole, the node's keys, then the keys after it |
| RedBlack.PlugSameInOrder | algorithms_and_data_structures/data_structures/RB_tree.c:99-133 | replacing a node by one with the same in-order sequence keeps the whole tree's |
| RedBlack.PlugRedSwap | algorithms_and_data_structures/data_structures/RB_tree.c:99-133 | a subtree may be swapped for a red-correct one that is black wherever the old one was, keeping the no-red-red rule |
| RedBlack.PlugBlackSwap | algorithms_and_data_structures/data_structures/RB_tree.c:99-133 | a subtree may be swapped for a black-correct one of the same black height, keeping equal black heights |
| RedBlack.GrandparentExists | algorithms_and_data_structures/data_structures/RB_tree.c:99-101 | in the loop a red parent is not the root, so the grandparent exists and is black |
| RedBlack.ParentLeftFacts | algorithms_and_data_structures/data_structures/RB_tree.c:100-115 | with the parent a left child: the uncle and siblings are red-black subtrees of the node's black height, and the tree outside the red pair is correct |
| RedBlack.ParentRightFacts | algorithms_and_data_structures/data_structures/RB_tree.c:116-131 | the mirror facts with the parent a right child |
| RedBlack.ReplaceGrandparent | algorithms_and_data_structures/data_structures/RB_tree.c:112-130 | a rotated subtree with the grandparent's keys and black height restores the tree above it |
| RedBlack.FixRecolorLeft | algorithms_and_data_structures/data_structures/RB_tree.c:102-106 | case 1 on the left: recolouring parent, uncle and grandparent and moving to the grandparent keeps the loop invariant with the same keys |
| RedBlack.FixRecolorRight | algorithms_and_data_structures/data_structures/RB_tree.c:118-122 | case 1 on the right: the same |
| RedBlack.PreRotateLeft | algorithms_and_data_structures/data_structures/RB_tree.c:108-111 | case 3 on the left: left_rotate at the parent turns it into case 2, keys unchanged |
| RedBlack.PreRotateRight | algorithms_and_data_structures/data_structures/RB_tree.c:124-127 | case 3 on the right: right_rotate at the parent turns it into case 2 |
| RedBlack.FixRotateLeft | algorithms_and_data_structures/data_structures/RB_tree.c:112-114 | case 2 on the left: repainting and right_rotate at the grandparent leave a black subtree root and no red-red pair |
| RedBlack.FixRotateRight | algorithms_and_data_structures/data_structures/RB_tree.c:128-130 | case 2 on the right: repainting and left_rotate at the grandparent, mirrored |
| RedBlack.FixDone | algorithms_and_data_structures/data_structures/RB_tree.c:99-136 | when the loop stops, painting the root black leaves a red-black tree with the same keys |
| RedBlack.FixInsert | algorithms_and_data_structures/data_structures/RB_tree.c:98-137 | fix_insert returns a tree with a black root, no red node with a red child, equal black heights on every path and the keys in the order the insertion left them |
| RedBlack.DescendLeft | algorithms_and_data_structures/data_structures/RB_tree.c:157-158 | going left past a larger key keeps the new key between the keys before and after the hole |
| RedBlack.DescendRight | algorithms_and_data_structures/data_structures/RB_tree.c:159-160 | going right past a smaller key keeps the new key between the keys before and after the hole |
| RedBlack.Attach | algorithms_and_data_structures/data_structures/RB_tree.c:167-172 | hanging the new red node in the NULL link reached establishes fix_insert's loop invariant |
| RedBlack.Descend | algorithms_and_data_structures/data_structures/RB_tree.c:152-164 | the walk keeps the visited frames plugged around the current subtree, each frame on the correct side of the key, and stops at the node holding the key or at the NULL link where it belongs |
| RedBlack.Insert | algorithms_and_data_structures/data_structures/RB_tree.c:145-175 | on a red-black tree the result is a red-black tree; an empty tree becomes one black node; a present key leaves the tree as it was; otherwise the keys gain exactly the new one |
| RedBlack.MainTest | algorithms_and_data_structures/data_structures/RB_tree.c:201-215 | inserting 10, 20, 30, 15 gives a red-black tree whose in-order walk is 10 15 20 30 |
| Huffman.ConsistentWeight | algorithms_and_data_structures/data_structures/Huffman_tree.c:116 | when every merged node's frequency is the sum of its children's, the root's frequency is the total over the leaves |
| Huffman.HeightBelowLeaves | algorithms_and_data_structures/data_structures/Huffman_tree.c:134-148 | a tree with k leaves is fewer than k levels deep, which bounds the code buffer the walk fills |
| Huffman.TotalsPerm | algorithms_and_data_structures/data_structures/Huffman_tree.c:106-126 | the total frequency and the leaf symbols of the queued trees do not depend on their order in the queue |
| Huffman.HeapRootMin | algorithms_and_data_structures/data_structures/Huffman_tree.c:74 | the first slot of a heap holds a least frequency |
| Huffman.SiftUpStep | algorithms_and_data_structures/data_structures/Huffman_tree.c:60-63 | moving a heavier parent into the hole keeps the sift-up invariant and the contents |
| Huffman.SiftUpDone | algorithms_and_data_structures/data_structures/Huffman_tree.c:60-64 | when the parent is no heavier the filled hole leaves a heap |
| Huffman.SiftDownStart | algorithms_and_data_structures/data_structures/Huffman_tree.c:74-75 | moving the last slot to the root leaves a heap except below the root, with the old root taken out |
| Huffman.Smallest | algorithms_and_data_structures/data_structures/Huffman_tree.c:79-86 | the slot chosen is the node itself or a strictly lighter child, and no child is lighter than it |
| Huffman.SmallestIs | algorithms_and_data_structures/data_structures/Huffman_tree.c:82-86 | the two comparisons of the loop pick exactly that slot |
| Huffman.SiftDownStep | algorithms_and_data_structures/data_structures/Huffman_tree.c:88-94 | swapping with the lighter child moves the fault one level down and keeps the contents |
| Huffman.SiftDownDone | algorithms_and_data_structures/data_structures/Huffman_tree.c:88 | when no child is lighter the array is a heap |
| Huffman.PriorityQueue.constructor | algorithms_and_data_structures/data_structures/Huffman_tree.c:44-50 | an empty queue of the given capacity |
| Huffman.PriorityQueue.Enqueue | algorithms_and_data_structures/data_structures/Huffman_tree.c:57-66 | the queue stays a heap and gains exactly the node |
| Huffman.PriorityQueue.SiftUp | algorithms_and_data_structures/data_structures/Huffman_tree.c:60-65 | the sift-up loop leaves a heap holding the old contents with the node in the hole |
| Huffman.PriorityQueue.Dequeue | algorithms_and_data_structures/data_structures/Huffman_tree.c:73-98 | returns a node of least frequency; the queue stays a heap and loses exactly that node |
| Huffman.PriorityQueue.SiftDown | algorithms_and_data_structures/data_structures/Huffman_tree.c:78-95 | the sift-down loop leaves a heap with the same contents |
| Huffman.PriorityQueue.Swap | algorithms_and_data_structures/data_structures/Huffman_tree.c:90-92 | exchanges the two slots and nothing else |
| Huffman.PositiveSymbolsExact | algorithms_and_data_structures/data_structures/Huffman_tree.c:109-110 | each symbol with a positive count gets exactly one leaf and no other symbol gets one |
| Huffman.LeafStep | algorithms_and_data_structures/data_structures/Huffman_tree.c:110 | enqueuing the leaf of a symbol with a positive count keeps the leaf-loading invariant |
| Huffman.LeafSkip | algorithms_and_data_structures/data_structures/Huffman_tree.c:110 | skipping a symbol with count 0 keeps the leaf-loading invariant |
| Huffman.MergeStep | algorithms_and_data_structures/data_structures/Huffman_tree.c:113-120 | one merge round keeps the total frequency, the leaf symbols and every tree's consistency |
| Huffman.LastTree | algorithms_and_data_structures/data_structures/Huffman_tree.c:122 | the last tree in the queue carries the whole total and every leaf symbol |
| Huffman.EnqueueLeaves | algorithms_and_data_structures/data_structures/Huffman_tree.c:109-110 | the queue holds exactly one leaf per symbol with a positive count, with that count |
| Huffman.MergeAll | algorithms_and_data_structures/data_structures/Huffman_tree.c:113-120 | the merge loop ends with one tree and keeps the total frequency and the leaf symbols |
| Huffman.BuildHuffmanTree | algorithms_and_data_structures/data_structures/Huffman_tree.c:106-126 | the root's frequency is the sum of the positive counts, its leaves are exactly the symbols with a positive count, each leaf carries its symbol's count and every merged node the sum of its children |
| Huffman.CodeListExtends | algorithms_and_data_structures/data_structures/Huffman_tree.c:134-148 | every code the walk gives under a prefix starts with it, and is longer below a merged node |
| Huffman.CodeListSymbols | algorithms_and_data_structures/data_structures/Huffman_tree.c:134-148 | the walk gives one code per leaf, each for a leaf symbol |
| Huffman.CodesPrefixFree | algorithms_and_data_structures/data_structures/Huffman_tree.c:134-148 | no code the walk gives is an initial segment of another: the code is prefix-free |
| Huffman.AssignLookup | algorithms_and_data_structures/data_structures/Huffman_tree.c:137 | with no symbol listed twice, each listed symbol's slot holds its own code and every other slot is unchanged |
| Huffman.GenerateHuffmanCodes | algorithms_and_data_structures/data_structures/Huffman_tree.c:134-148 | the code table afterwards is the old one with each leaf's slot set to its root path ('0' left, '1' right) after the prefix, and the prefix in the buffer is untouched |
| AdjacencyGraph.RemoveFirstMultiset | algorithms_and_data_structures/data_structures/graph.c:118-138 | unlinking the first node holding x removes exactly one copy of x from the list |
| AdjacencyGraph.AddThenRemove | algorithms_and_data_structures/data_structures/graph.c:90-138 | removing the edge just added restores the list: add_edge and remove_edge are inverse |
| AdjacencyGraph.ReachableTrans | algorithms_and_data_structures/data_structures/graph.c:162-173 | reachability along edges is transitive |
| AdjacencyGraph.ClosedHoldsReachable | algorithms_and_data_structures/data_structures/graph.c:180-213 | a set holding the start and closed under edges holds every vertex reachable from it |
| AdjacencyGraph.Graph.constructor | algorithms_and_data_structures/data_structures/graph.c:52-68 | num_nodes vertices with empty lists |
| AdjacencyGraph.Graph.AddEdge | algorithms_and_data_structures/data_structures/graph.c:90-109 | a src or dest at or above num_nodes is rejected with nothing changed; a negative dest passes the check and is stored; otherwise dest is prepended to src's list and the result is GRAPH_ERR_EDGE_EXISTS, because the scan starts at the node just inserted |
| AdjacencyGraph.Graph.FindNode | algorithms_and_data_structures/data_structures/graph.c:101-106 | the scan stops at the first node holding dest, or at the end exactly when dest is not in the list |
| AdjacencyGraph.Graph.RemoveEdge | algorithms_and_data_structures/data_structures/graph.c:118-138 | a src or dest at or above num_nodes is rejected, while a negative dest is looked for; a missing edge gives GRAPH_ERR_EDGE_NOT_FOUND with nothing changed; otherwise the first node holding dest is unlinked and nothing else changes |
| AdjacencyGraph.Graph.Dfs | algorithms_and_data_structures/data_structures/graph.c:145-154 | prints start first and then every vertex reachable from it, each exactly once, and no other |
| AdjacencyGraph.Graph.DfsHelper | algorithms_and_data_structures/data_structures/graph.c:162-173 | prints and marks start and only unmarked vertices reachable from it, each once, and leaves every target of a printed vertex marked |
| AdjacencyGraph.Graph.DfsTarget | algorithms_and_data_structures/data_structures/graph.c:168-170 | one target of the list: an unmarked one is searched from and what it prints is appended; marks are only added, the target ends marked, and everything printed stays distinct, reachable from start and previously unmarked |
| AdjacencyGraph.Graph.Bfs | algorithms_and_data_structures/data_structures/graph.c:180-213 | prints start first and then every vertex reachable from it, each exactly once, and no other, in order of non-decreasing distance from start |
| AdjacencyGraph.Graph.BfsTurn | algorithms_and_data_structures/data_structures/graph.c:193-210 | one turn of the outer loop marks, prints and enqueues the front vertex's unmarked targets and dequeues it, keeping the printed vertices distinct, reachable, marked exactly and in order of distance |
| AdjacencyGraph.LeastWalk | algorithms_and_data_structures/data_structures/graph.c:180-213 | every reachable vertex has a shortest walk |
| AdjacencyGraph.Dist | algorithms_and_data_structures/data_structures/graph.c:180-213 | the distance is the length of a walk and no shorter walk exists |
| AdjacencyGraph.DistSelf | algorithms_and_data_structures/data_structures/graph.c:187-188 | start is at distance 0 from itself |
| AdjacencyGraph.DistEdge | algorithms_and_data_structures/data_structures/graph.c:198-203 | a target of a reachable vertex is reachable and at most one further away |
| AdjacencyGraph.DistPred | algorithms_and_data_structures/data_structures/graph.c:180-213 | every reachable vertex other than start has a predecessor exactly one closer |
| AdjacencyGraph.LevelComplete | algorithms_and_data_structures/data_structures/graph.c:193-210 | while the distances along the printed vertices are levelled, every vertex no farther than the front of the queue is already printed |
| AdjacencyGraph.BfsLevels | algorithms_and_data_structures/data_structures/graph.c:198-203 | each vertex a turn appends lies one level below the front vertex, so distances stay non-decreasing and the queue spans at most two levels |
| AdjacencyGraph.BfsStep | algorithms_and_data_structures/data_structures/graph.c:193-210 | one turn keeps the printed vertices distinct, reachable, closed behind the head and levelled, and within the vertex count |
| AdjacencyGraph.QueueShift | algorithms_and_data_structures/data_structures/graph.c:201-209 | the queue after appending and dequeuing is the printed list from the next head on |
| AdjacencyGraph.BfsDone | algorithms_and_data_structures/data_structures/graph.c:193-213 | with the queue empty, the printed vertices are exactly the reachable ones, in order of distance |
| AdjacencyGraph.Graph.VisitTargets | algorithms_and_data_structures/data_structures/graph.c:195-206 | marks, prints and enqueues each unmarked target of the list, so that afterwards every target is printed and the printed list stays free of repeats |
| AdjacencyGraph.BfsRound | algorithms_and_data_structures/data_structures/graph.c:192-211 | after the front vertex's round, everything printed is reachable and every vertex that left the queue has all its targets printed |
| AdjacencyGraph.DistinctBound | algorithms_and_data_structures/data_structures/graph.c:180-213 | a list of distinct vertices below n has at most n entries, so the queue loop ends |
| BinRelation.Create | discreate_math_lab_3-2.cpp:26-33 | a zero size throws; any other size gives the square all-false matrix |
| BinRelation.GetElement | discreate_math_lab_3-2.cpp:47-51 | an index outside the matrix throws out_of_range, otherwise the entry is returned |
| BinRelation.SetElement | discreate_math_lab_3-2.cpp:41-45 | an index outside the matrix throws; otherwise exactly that entry takes the value |
| BinRelation.MakeRelationMatrix | discreate_math_lab_3-2.cpp:54-64 | entry (i, j) is set exactly when the relation holds for i and j |
| BinRelation.IsReflection | discreate_math_lab_3-2.cpp:66-77 | true exactly when every diagonal entry is set |
| BinRelation.IsAntiReflection | discreate_math_lab_3-2.cpp:79-90 | true exactly when no diagonal entry is set |
| BinRelation.IsSymmetric | discreate_math_lab_3-2.cpp:92-103 | true exactly when every entry equals its mirror |
| BinRelation.IsAntiSymmetric | discreate_math_lab_3-2.cpp:105-117 | true exactly when no pair, the diagonal included, is set both ways |
| BinRelation.IsTransitive | discreate_math_lab_3-2.cpp:119-139 | true exactly when (i, j) and (j, k) set imply (i, k) set |
| BinRelation.IsAntiTransitive | discreate_math_lab_3-2.cpp:141-159 | true exactly when no (i, j) is set together with some (i, k) and (j, k) |
| BinRelation.IsFull | discreate_math_lab_3-2.cpp:161-177 | true exactly when any two distinct points are related one way or the other |
| BinRelation.AntiSymmetricNotReflexive | discreate_math_lab_3-2.cpp:105-117 | because the diagonal is not exempt, an antisymmetric relation on a non-empty set is never reflexive |
| BinRelation.SymmetricIffSelfInverse | discreate_math_lab_3-2.cpp:92-103 | a relation is symmetric exactly when it equals its inverse |
| BinRelation.TransitiveIffSquareInside | discreate_math_lab_3-2.cpp:119-139 | a relation is transitive exactly when its composition with itself lies inside it |
| BinRelation.IsSubset | discreate_math_lab_3-2.cpp:188-197 | true exactly when every entry set in S is set in C |
| BinRelation.IsEqual | discreate_math_lab_3-2.cpp:199-208 | true exactly when the matrices are equal |
| BinRelation.IsProperSubset | discreate_math_lab_3-2.cpp:210-212 | true exactly when the first is a subset of the second and differs from it |
| BinRelation.SubsetAntisymmetric | discreate_math_lab_3-2.cpp:188-208 | two matrices of one size each inside the other are equal |
| BinRelation.UnionMatrix | discreate_math_lab_3-2.cpp:214-222 | each entry is the OR of the operands' entries |
| BinRelation.IntersectionMatrix | discreate_math_lab_3-2.cpp:224-234 | matrices of different sizes throw invalid_argument; otherwise each entry is the AND |
| BinRelation.DiffMatrix | discreate_math_lab_3-2.cpp:236-244 | an entry is set when it is set in the first and unset in the second |
| BinRelation.SymDiffMatrix | discreate_math_lab_3-2.cpp:246-254 | an entry is set when exactly one operand has it |
| BinRelation.ComplMatrix | discreate_math_lab_3-2.cpp:256-264 | as written, storing ~value into a bool sets every entry: the result is the universal relation |
| BinRelation.ComplMatrixOverlaps | discreate_math_lab_3-2.cpp:256-264 | that result meets every non-empty relation, so it is not the complement |
| BinRelation.ComplementMatrix | discreate_math_lab_3-2.cpp:256-264 | the intended complement: each entry negated |
| BinRelation.ComplementLaws | discreate_math_lab_3-2.cpp:256-264 | a relation and its complement are disjoint, cover every pair, and complementing twice gives the relation back |
| BinRelation.InverseMatrix | discreate_math_lab_3-2.cpp:266-274 | entry (i, j) of the result is entry (j, i) of the argument |
| BinRelation.InverseInvolution | discreate_math_lab_3-2.cpp:266-274 | inverting twice gives the relation back |
| BinRelation.ComposeEntry | discreate_math_lab_3-2.cpp:279-285 | the inner search succeeds exactly when some k has (i, k) in A and (k, j) in B |
| BinRelation.CompositeMatrix | discreate_math_lab_3-2.cpp:276-290 | entry (i, j) is set exactly when some k has (i, k) in A and (k, j) in B |
| BinRelation.IsSubsetCounter | discreate_math_lab_3-2.cpp:300-310 | the same answer as IsSubset, with one comparison per entry visited: all n*n on success, fewer on failure |
| BinRelation.ComposeEntryCounter | discreate_math_lab_3-2.cpp:312-327 | the inner search of the counting composition: the same answer, with between 1 and n comparisons |
| BinRelation.CompositeRowCounter | discreate_math_lab_3-2.cpp:312-327 | one row of the counting composition: the composed row, with between n and n*n comparisons |
| BinRelation.CompositeMatrixCounter | discreate_math_lab_3-2.cpp:312-327 | the same matrix as compositeMatrix, with between n*n and n*n*n comparisons |
| BinRelation.ClosureTransitive | discreate_math_lab_3-2.cpp:329-427 | the transitive closure (pairs joined by a walk) is transitive |
| BinRelation.ClosureLeast | discreate_math_lab_3-2.cpp:329-427 | the closure lies inside every relation that contains A and absorbs one more step of A |
| BinRelation.ClosureExact | discreate_math_lab_3-2.cpp:329-356 | a matrix between A and its closure and closed under one more step of A is the closure, which is what the loops test on exit |
| BinRelation.MissingShrinks | discreate_math_lab_3-2.cpp:335-338 | adding S to C when S is not inside C removes a missing pair, so the loops end |
| BinRelation.Algorithm1 | discreate_math_lab_3-2.cpp:329-342 | the loop C := C ∪ S; S := S∘C (with the new C) ends with C the transitive closure of A |
| BinRelation.Algorithm1Step | discreate_math_lab_3-2.cpp:336-339 | one round of algorithm1 keeps C between A and its closure and S inside the closure |
| BinRelation.Algorithm2 | discreate_math_lab_3-2.cpp:344-356 | the loop C := C ∪ C∘C ends with C the transitive closure of A |
| BinRelation.Algorithm2Step | discreate_math_lab_3-2.cpp:350-353 | one round of algorithm2 keeps C between A and its closure |
| BinRelation.Algorithm2Exit | discreate_math_lab_3-2.cpp:350 | when C∘C lies inside C, C is the closure |
| BinRelation.Algorithm1Counter | discreate_math_lab_3-2.cpp:358-372 | the closure, with at least one composition and at least 2n*n comparisons counted |
| BinRelation.Algorithm2Counter | discreate_math_lab_3-2.cpp:374-388 | the closure, with at least one composition and at least 2n*n comparisons counted |
| BinRelation.Round | discreate_math_lab_3-2.cpp:394-401 | one round z of Warshall's algorithm relates x to y when they were related or x reaches z and z reaches y |
| BinRelation.WarshallRow | discreate_math_lab_3-2.cpp:395-400 | updating row x in round z ORs row z into it when (x, z) is set and changes no other row |
| BinRelation.WarshallRound | discreate_math_lab_3-2.cpp:394-401 | updating the rows in place one after another gives the round, since row z itself does not change |
| BinRelation.Algorithm3 | discreate_math_lab_3-2.cpp:390-406 | Warshall's algorithm on a copy of A gives the transitive closure |
| BinRelation.WarshallRoundCounter | discreate_math_lab_3-2.cpp:410-424 | one counted round: the same matrix, with between n and n(n+1) comparisons |
| BinRelation.Algorithm3Counter | discreate_math_lab_3-2.cpp:408-427 | the closure, with between n*n and n*n(n+1) comparisons |
| BinRelation.SplitAt | discreate_math_lab_3-2.cpp:390-406 | a walk whose inner vertices are at most z and visits z splits into two walks through z with inner vertices below z |
| BinRelation.WarshallComplete | discreate_math_lab_3-2.cpp:390-406 | after k rounds the ends of every walk whose inner vertices are below k are related |
| BinRelation.WarshallWithin | discreate_math_lab_3-2.cpp:390-406 | every round keeps the matrix between A and any transitive relation containing A |
| BinRelation.WarshallIsClosure | discreate_math_lab_3-2.cpp:390-406 | after all n rounds Warshall's matrix is the transitive closure |
| BinRelation.Successor | discreate_math_lab_3-2.cpp:459-461 | the relation y - x == 1 on n points |
| BinRelation.SuccessorClosure | discreate_math_lab_3-2.cpp:459-461 | the closure of that relation is the strict order x < y |
| IntRelations.Zero | discrete_math_lab_3-1.cpp:9-11 | createMatrix(N, N) gives an N-by-N matrix of zeros |
| IntRelations.UnionMatrices | discrete_math_lab_3-1.cpp:55-63 | each entry is the bitwise OR of the operands' entries |
| IntRelations.IntersectionMatrices | discrete_math_lab_3-1.cpp:66-74 | each entry is the bitwise AND |
| IntRelations.DifferenceMatrices | discrete_math_lab_3-1.cpp:77-85 | each entry is m1 & ~m2 |
| IntRelations.SymDifferenceMatrices | discrete_math_lab_3-1.cpp:88-96 | each entry is 1 when exactly one operand is non-zero, else 0 |
| IntRelations.ComplementMatrix | discrete_math_lab_3-1.cpp:99-107 | as written, each entry is the bitwise complement ~m[i][j] |
| IntRelations.BitNotIsUniversal | discrete_math_lab_3-1.cpp:99-107 | on a 0/1 matrix ~ turns 0 into -1 and 1 into -2, so every entry is non-zero: the universal relation |
| IntRelations.BitNotOverlaps | discrete_math_lab_3-1.cpp:99-107 | that result meets the relation at every related pair, so it is not the complement |
| IntRelations.InverseMatrices | discrete_math_lab_3-1.cpp:110-118 | entry (i, j) of the result is entry (j, i) of the argument |
| IntRelations.JoinSearch | discrete_math_lab_3-1.cpp:125-130 | the inner search succeeds exactly when some k has m1[i][k] and m2[k][j] non-zero |
| IntRelations.CompositeMatrices | discrete_math_lab_3-1.cpp:121-134 | entry (i, j) is 1 when some k joins i to j and 0 otherwise |
| IntRelations.UnionMatrix | discrete_math_lab_3-1.cpp:196-202 | the out-parameter holds (m1 or m2) as 0/1 |
| IntRelations.IntersectionMatrix | discrete_math_lab_3-1.cpp:204-210 | the out-parameter holds (m1 and m2) as 0/1 |
| IntRelations.DiffMatrix | discrete_math_lab_3-1.cpp:212-218 | the out-parameter holds 0 where m2 is set and m1's entry elsewhere |
| IntRelations.SymDiffMatrix | discrete_math_lab_3-1.cpp:220-226 | the out-parameter holds 1 where the entries sum to 1, 0 elsewhere |
| IntRelations.ComplMatrix | discrete_math_lab_3-1.cpp:228-234 | the out-parameter holds !m: 1 for a zero entry, 0 otherwise |
| IntRelations.InverseMatrix | discrete_math_lab_3-1.cpp:236-242 | the out-parameter holds the transpose |
| IntRelations.CompositeMatrix | discrete_math_lab_3-1.cpp:244-255 | the out-parameter holds 1 where some k joins i to j, 0 otherwise |
| IntRelations.IsSubsetOf | discrete_math_lab_3-1.cpp:14-23 | true exactly when no entry is 1 in m1 and 0 in m2 |
| IntRelations.IsEqual | discrete_math_lab_3-1.cpp:26-35 | true exactly when the matrices are equal |
| IntRelations.IsProperSubsetOf | discrete_math_lab_3-1.cpp:38-52 | true exactly when m1 passes the subset test against m2 and differs from it |
| IntRelations.IsSubset | discrete_math_lab_3-1.cpp:170-179 | true exactly when no entry is 1 in m1 and other than 1 in m2 |
| IntRelations.IsProperSubset | discrete_math_lab_3-1.cpp:192-194 | true exactly when the matrices differ and the subset test passes |
| IntRelations.SubsetTestsAgree | discrete_math_lab_3-1.cpp:14-179 | on 0/1 matrices both subset tests mean inclusion of the related pairs |
| IntRelations.EqualIffSameRelation | discrete_math_lab_3-1.cpp:26-35 | on 0/1 matrices equal matrices are exactly equal relations |
| IntRelations.BitOrIsUnion | discrete_math_lab_3-1.cpp:55-63 | bitwise OR is the union of the relations for any entries |
| IntRelations.BitAndIsIntersection | discrete_math_lab_3-1.cpp:66-85 | on 0/1 entries & and & ~ are the intersection and the difference |
| IntRelations.BitAndNeedsBinary | discrete_math_lab_3-1.cpp:66-74 | once entries leave 0/1, & is not intersection: 1 & 2 == 0 |
| IntRelations.LogicalXorIsSymDifference | discrete_math_lab_3-1.cpp:88-96 | the logical symmetric difference is that of the relations |
| IntRelations.LogicalNotIsComplement | discrete_math_lab_3-1.cpp:228-234 | ! is the complement of any relation, stored as 0/1 |
| IntRelations.TransposeIsInverse | discrete_math_lab_3-1.cpp:110-118 | the transpose is the inverse relation, and transposing twice gives the matrix back |
| IntRelations.ProductIsComposition | discrete_math_lab_3-1.cpp:121-255 | both composition procedures compute the composition of the relations |
| IntRelations.OutParameterStyleMeaning | discrete_math_lab_3-1.cpp:196-218 | the out-parameter union, intersection and difference are the set operations on any relations |
| IntRelations.SumIsOneIsSymDifference | discrete_math_lab_3-1.cpp:220-226 | on 0/1 matrices the sum test is the symmetric difference and agrees with the logical one |
| IntRelations.SumIsOneNeedsBinary | discrete_math_lab_3-1.cpp:220-226 | once entries leave 0/1 the sum test fails: 2 + (-1) wraps to 1 |
| IntRelations.StylesAgree | discrete_math_lab_3-1.cpp:55-226 | on 0/1 matrices the two styles of operations store the same matrices |
| IntRelations.IsReflection | discrete_math_lab_3-1.cpp:257-266 | true exactly when every diagonal entry is non-zero |
| IntRelations.IsAntiReflection | discrete_math_lab_3-1.cpp:268-277 | true exactly when every diagonal entry is zero |
| IntRelations.IsSymmetric | discrete_math_lab_3-1.cpp:279-290 | true exactly when every entry equals its mirror |
| IntRelations.IsAntiSymmetric | discrete_math_lab_3-1.cpp:292-303 | true exactly when no pair, diagonal included, holds the same non-zero value both ways |
| IntRelations.IsTransitive | discrete_math_lab_3-1.cpp:305-326 | true exactly when (i, j) and (j, k) non-zero imply (i, k) non-zero |
| IntRelations.IsAntiTransitive | discrete_math_lab_3-1.cpp:328-341 | true exactly when no (i, j) and (j, k) both non-zero come with (i, k) non-zero |
| IntRelations.IsFull | discrete_math_lab_3-1.cpp:343-354 | true exactly when every pair, diagonal included, is related one way or the other |
| IntRelations.ReflexiveMeaning | discrete_math_lab_3-1.cpp:257-277 | the reflexivity tests are those of the relation the matrix stands for |
| IntRelations.SymmetryMeaning | discrete_math_lab_3-1.cpp:279-303 | on 0/1 matrices the symmetry tests are those of the relation |
| IntRelations.TransitiveMeaning | discrete_math_lab_3-1.cpp:305-326 | the transitivity test is that of the relation for any entries |
| IntRelations.AntiTransitiveMeaning | discrete_math_lab_3-1.cpp:328-341 | the antitransitivity test is that of the relation for any entries |
| IntRelations.FullIsReflexive | discrete_math_lab_3-1.cpp:343-354 | because the diagonal is not exempt, a full matrix is reflexive and never antisymmetric |
| IntRelations.MakeRelationMatrix | discrete_math_lab_3-1.cpp:137-147 | entry (i, j) is 1 exactly when the relation holds and 0 otherwise |
| IntRelations.AEqualsC | discrete_math_lab_3-1.cpp:149-159 | A_relation and C_relation are the same relation |
| IntRelations.BRelationShape | discrete_math_lab_3-1.cpp:153-155 | B_relation is symmetric and transitive, and reflexive exactly on the even points |
| Partition.IsEquivalent | discrete_math/discrete_math_lab_3-3.cpp:153-162 | true exactly when the relation is reflexive, symmetric and transitive |
| Partition.Relabel | discrete_math/discrete_math_lab_3-3.cpp:182-185 | row r writes class c over every point it relates to and leaves the other labels |
| Partition.FormationOfPartition | discrete_math/discrete_math_lab_3-3.cpp:173-188 | the result array holds the labels of the full ten-row scan |
| Partition.LabelRow | discrete_math/discrete_math_lab_3-3.cpp:183-186 | after the inner loop every point row i relates to carries label k and every other point keeps its label |
| Partition.FreshRowIsolated | discrete_math/discrete_math_lab_3-3.cpp:180 | for an equivalence, a row still unlabelled relates to no labelled point |
| Partition.OpenConsistent | discrete_math/discrete_math_lab_3-3.cpp:180-186 | opening a class at an unlabelled row keeps "same label exactly when related" among labelled points |
| Partition.OpenUnlabelled | discrete_math/discrete_math_lab_3-3.cpp:180-186 | after opening a class at row i, a point is unlabelled exactly when no row up to i relates to it |
| Partition.OpenOpeners | discrete_math/discrete_math_lab_3-3.cpp:180-186 | opening class k + 1 at row i keeps the class openers ordered, each carrying its own class |
| Partition.ScanOpen | discrete_math/discrete_math_lab_3-3.cpp:180-186 | the scan invariant survives a row that opens a class |
| Partition.KeepUnlabelled | discrete_math/discrete_math_lab_3-3.cpp:180 | a labelled row relates only to labelled points, so it labels nothing new |
| Partition.ScanKeep | discrete_math/discrete_math_lab_3-3.cpp:180 | the scan invariant survives a row already labelled |
| Partition.ScanStep | discrete_math/discrete_math_lab_3-3.cpp:179-187 | one row of the scan keeps the invariant: if it held before the row, it holds after |
| Partition.ScanInvariantHolds | discrete_math/discrete_math_lab_3-3.cpp:179-187 | the invariant holds after every prefix of the scan |
| Partition.PartitionIsEquivalenceClasses | discrete_math/discrete_math_lab_3-3.cpp:173-188 | for an equivalence on ten points every point gets a class number 1..k, every number is used, two points share a number exactly when related, and numbers appear in order of first occurrence |
| Partition.ReflexivePrefixLabelled | discrete_math/discrete_math_lab_3-3.cpp:176-186 | for a reflexive relation, after i rows every label is non-negative and the first i points carry a label of at least 1 |
| Partition.ReflexiveLabelsPositive | discrete_math/discrete_math_lab_3-3.cpp:179-186 | for a reflexive relation, formationOfPartition leaves no point with label 0 |
| Partition.ClassOf | discrete_math/discrete_math_lab_3-3.cpp:200-208 | the points, numbered from 1, carrying label c, in increasing order |
| Partition.MaxLabel | discrete_math/discrete_math_lab_3-3.cpp:193 | max_element: no label exceeds it and some point carries it |
| Partition.ClassMembers | discrete_math/discrete_math_lab_3-3.cpp:200-208 | the inner loop lists exactly the points carrying the label, in increasing order |
| Partition.FactorSet | discrete_math/discrete_math_lab_3-3.cpp:192-216 | one class per label 1..max, each listing its points from 1 upwards |
| Partition.FactorSetOfPartition | discrete_math/discrete_math_lab_3-3.cpp:173-216 | for an equivalence the classes listed are the equivalence classes: none empty, each point in its own label's class, any two members related |
| Partition.MyRelationIsEquivalence | discrete_math/discrete_math_lab_3-3.cpp:220-222 | myRelation is an equivalence on the ten points |
| OrderRelation.IsOrder | discrete_math/discrete_math_lab_3-4.cpp:150-160 | true exactly when the relation is antisymmetric and transitive |
| OrderRelation.IsLooseOrder | discrete_math/discrete_math_lab_3-4.cpp:162-173 | true exactly for a reflexive order |
| OrderRelation.IsStrictOrder | discrete_math/discrete_math_lab_3-4.cpp:175-185 | true exactly for an antireflexive order |
| OrderRelation.IsLinearOrder | discrete_math/discrete_math_lab_3-4.cpp:187-197 | true exactly for an order in which any two distinct points are comparable |
| OrderRelation.IsLooseLinearOrder | discrete_math/discrete_math_lab_3-4.cpp:199-209 | true exactly for a full loose order |
| OrderRelation.IsStrictLinearOrder | discrete_math/discrete_math_lab_3-4.cpp:211-221 | true exactly for a full strict order |
| OrderRelation.LooseOrderNeverHolds | discrete_math/discrete_math_lab_3-4.cpp:76-88 | because the antisymmetry test rejects diagonal pairs, no non-empty relation is a loose order, and the order tests coincide with the strict ones |
| OrderRelation.WithoutDiagonal | discrete_math/discrete_math_lab_3-4.cpp:232-234 | the relation with the diagonal pairs removed and every other pair kept |
| OrderRelation.MakeZeroDiagonal | discrete_math/discrete_math_lab_3-4.cpp:232-234 | clears the diagonal and nothing else |
| OrderRelation.BetweenIsSquare | discrete_math/discrete_math_lab_3-4.cpp:253-258 | scanning the middle points finds a point between j and k exactly when some i has (j, i) and (i, k) |
| OrderRelation.Domination | discrete_math/discrete_math_lab_3-4.cpp:247-262 | the pairs of the other matrix, off the diagonal, with no point of this relation between them |
| OrderRelation.MakeDominationMatrix | discrete_math/discrete_math_lab_3-4.cpp:247-262 | the copy with the diagonal cleared and every pair with a middle point cleared is that matrix |
| OrderRelation.ClearThrough | discrete_math/discrete_math_lab_3-4.cpp:253-258 | one pass for middle point i turns the matrix cleared through the first i points into the one cleared through i + 1 |
| OrderRelation.ClearRow | discrete_math/discrete_math_lab_3-4.cpp:254-257 | row j keeps an entry k exactly when it was set and j -> i -> k does not hold |
| OrderRelation.DominationIsCovering | discrete_math/discrete_math_lab_3-4.cpp:247-262 | the domination matrix of any square relation (an order in particular) lies inside it, is antireflexive and antitransitive |
| OrderRelation.CloserRelation | discrete_math/discrete_math_lab_3-4.cpp:273-284 | point a is related to b exactly when a is strictly closer to the origin |
| OrderRelation.MakeRelationPointsMatrix | discrete_math/discrete_math_lab_3-4.cpp:273-284 | fills the matrix with that relation on the first n points |
| OrderRelation.CloserIsStrictOrder | discrete_math/discrete_math_lab_3-4.cpp:273-284 | being closer to the origin is a strict order |
| OrderRelation.LabPointsNotLinear | discrete_math/discrete_math_lab_3-4.cpp:288-292 | on the lab's first set of nine points the relation is not linear, since equally distant points are incomparable |
| OrderRelation.IsNegative | discrete_math/discrete_math_lab_3-4.cpp:369-374 | true exactly when every entry is negative |
| OrderRelation.Label | discrete_math/discrete_math_lab_3-4.cpp:390-395 | the first loop of a round turns each zero into -(k + 1) and keeps every other entry |
| OrderRelation.Level | discrete_math/discrete_math_lab_3-4.cpp:390-402 | a whole round: zeros are levelled and each unlevelled point loses its freshly levelled predecessors |
| OrderRelation.Progress | discrete_math/discrete_math_lab_3-4.cpp:387 | on an acyclic relation, while a point is unlevelled some entry is zero, so every round levels something |
| OrderRelation.SubtractGuard | discrete_math/discrete_math_lab_3-4.cpp:397 | in round k the second loop's test holds exactly at the points levelled in that round |
| OrderRelation.RoundComplete | discrete_math/discrete_math_lab_3-4.cpp:396-402 | after the second loop every entry is what a whole round gives |
| OrderRelation.LevelSign | discrete_math/discrete_math_lab_3-4.cpp:390-402 | a round leaves an unlevelled point unlevelled exactly when it was not a zero |
| OrderRelation.LevelLayered | discrete_math/discrete_math_lab_3-4.cpp:387-403 | a round keeps the layering one round further on |
| OrderRelation.InDegrees | discrete_math/discrete_math_lab_3-4.cpp:381-385 | W starts as the column sums: each point's number of predecessors |
| OrderRelation.LabelZeros | discrete_math/discrete_math_lab_3-4.cpp:390-395 | the first loop of a round computes Label |
| OrderRelation.SubtractRow | discrete_math/discrete_math_lab_3-4.cpp:398-400 | each target of a pair leaving i loses one |
| OrderRelation.SubtractPass | discrete_math/discrete_math_lab_3-4.cpp:397-401 | a point levelled this round gives up its pairs |
| OrderRelation.LevelRound | discrete_math/discrete_math_lab_3-4.cpp:390-403 | one round computes Level |
| OrderRelation.RoundShrinks | discrete_math/discrete_math_lab_3-4.cpp:387-403 | each round levels at least one more point and unlevels none, so the loop ends |
| OrderRelation.FirstLevel | discrete_math/discrete_math_lab_3-4.cpp:407-410 | at the end only points without predecessors hold -1 |
| OrderRelation.TopologicSort | discrete_math/discrete_math_lab_3-4.cpp:377-411 | on an acyclic relation every point ends negative, every pair (i, j) has W[j] < W[i] (a later level), and exactly the points without predecessors are on level -1 |
| RouteGraph.Create | discrete_math/discrete_math_lab_4-1.cpp:19-25 | a zero dimension throws; otherwise every entry is 0 |
| RouteGraph.FillRow | discrete_math/discrete_math_lab_4-1.cpp:34-36 | row i takes the i-th block of cols consecutive elements of the flat array and no other row changes |
| RouteGraph.InitFrom2DArray | discrete_math/discrete_math_lab_4-1.cpp:30-38 | different dimensions throw; otherwise row i is the i-th block of the flat array |
| RouteGraph.InitRoundTrip | discrete_math/discrete_math_lab_4-1.cpp:30-38 | reading the initialised matrix back row by row gives the array's first rows * cols elements |
| RouteGraph.IsRoute | discrete_math/discrete_math_lab_4-1.cpp:71-76 | true exactly when consecutive vertices are adjacent |
| RouteGraph.DistinctEdgesMeaning | discrete_math/discrete_math_lab_4-1.cpp:79-97 | no step repeats an earlier step's undirected edge exactly when no two steps share one |
| RouteGraph.MarkStep | discrete_math/discrete_math_lab_4-1.cpp:88-92 | marking a step both ways extends the scratch marks to exactly the edges of one more step |
| RouteGraph.IsChain | discrete_math/discrete_math_lab_4-1.cpp:79-97 | true exactly for a route that uses no undirected edge twice |
| RouteGraph.IsSimpleChain | discrete_math/discrete_math_lab_4-1.cpp:110-122 | true exactly for a chain with no vertex twice |
| RouteGraph.IsCycle | discrete_math/discrete_math_lab_4-1.cpp:126-130 | true exactly for a chain that ends where it starts |
| RouteGraph.IsSimpleCycle | discrete_math/discrete_math_lab_4-1.cpp:133-140 | true exactly for a cycle whose inner vertices are distinct |
| RouteGraph.RecognisersNest | discrete_math/discrete_math_lab_4-1.cpp:71-140 | a simple chain is a chain and no cycle, a chain is a route, a simple cycle is a cycle |
| RouteGraph.Adjacent | discrete_math/discrete_math_lab_4-1.cpp:143-147 | the neighbours of the vertex among the first k, numbered from 1, in increasing order |
| RouteGraph.GetAdjacentVertices | discrete_math/discrete_math_lab_4-1.cpp:143-147 | the columns with a non-zero entry in the vertex's row, in order |
| RouteGraph.UnusedCount | discrete_math/discrete_math_lab_4-1.cpp:150-174 | distinct vertices and the vertices they miss make up all n |
| RouteGraph.DistinctShort | discrete_math/discrete_math_lab_4-1.cpp:163-165 | distinct vertices that miss some vertex are fewer than n, so the recursion ends |
| RouteGraph.ExtensionsSound | discrete_math/discrete_math_lab_4-1.cpp:150-174 | every route graphGetRoutes_ prints has l vertices, starts with the route and is simple |
| RouteGraph.ExtensionsComplete | discrete_math/discrete_math_lab_4-1.cpp:150-174 | every simple route with l vertices that starts with the route is printed |
| RouteGraph.ExtensionsExactly | discrete_math/discrete_math_lab_4-1.cpp:150-174 | the printed routes are exactly the simple routes with l vertices that start with the route |
| RouteGraph.GetRoutesFrom | discrete_math/discrete_math_lab_4-1.cpp:150-174 | prints those routes in order and leaves the visited marks as they were |
| RouteGraph.RouteNeighbour | discrete_math/discrete_math_lab_4-1.cpp:165-172 | one loop turn adds the routes through that neighbour and restores its mark |
| RouteGraph.GetRoutes | discrete_math/discrete_math_lab_4-1.cpp:177-190 | nothing for a vertex out of range, else the simple routes of n vertices from it |
| RouteGraph.WalksStep | discrete_math/discrete_math_lab_4-1.cpp:199-214 | the walks of len edges from v are those of len - 1 edges from each neighbour |
| RouteGraph.RoutesAmount | discrete_math/discrete_math_lab_4-1.cpp:199-214 | each end vertex's count grows by the number of walks to it from the current vertex, and the route prefix is kept |
| RouteGraph.CountNeighbour | discrete_math/discrete_math_lab_4-1.cpp:204-212 | one loop turn adds the walks through that neighbour |
| RouteGraph.RoutesAmountTable | discrete_math/discrete_math_lab_4-1.cpp:216-233 | row i of the printed table counts, per end vertex, the walks with routeLength edges from vertex i |
| RouteGraph.BetweenCount | discrete_math/discrete_math_lab_4-1.cpp:236-262 | as many routes are recorded as there are walks from the prefix's last vertex to vertexEnd |
| RouteGraph.BetweenSound | discrete_math/discrete_math_lab_4-1.cpp:236-262 | every recorded route has l + 1 vertices, extends the prefix by edges and ends at vertexEnd |
| RouteGraph.RoutesBetween | discrete_math/discrete_math_lab_4-1.cpp:236-262 | the routes recorded are those, in order, and the buffer prefix is restored |
| RouteGraph.RecordNeighbour | discrete_math/discrete_math_lab_4-1.cpp:243-261 | one loop turn records or recurses through that neighbour |
| RouteGraph.ChainsSound | discrete_math/discrete_math_lab_4-1.cpp:294-322 | everything printed extends the chain and is a maximal simple chain, and the printed lengths ascend from maxSize to the returned maxSize |
| RouteGraph.NeighboursSound | discrete_math/discrete_math_lab_4-1.cpp:302-308 | the loop's output has those properties, and the dead-end flag stays set exactly when every neighbour is visited |
| RouteGraph.MaxChains | discrete_math/discrete_math_lab_4-1.cpp:294-322 | prints what Chains gives, and restores the visited marks and the route prefix |
| RouteGraph.NextChain | discrete_math/discrete_math_lab_4-1.cpp:303-306 | extending a simple path by an adjacent vertex it misses gives a simple path, so the path was short of all vertices |
| RouteGraph.VisitNeighbour | discrete_math/discrete_math_lab_4-1.cpp:303-307 | one loop turn recurses through an adjacent unvisited neighbour and clears the dead-end flag |
| RouteGraph.FindAllMaxSimpleChains | discrete_math/discrete_math_lab_4-1.cpp:325-333 | prints maximal simple chains from the start vertex, in non-decreasing length |
| MatrixPower.IdentityUnit | discrete_math/discrete_math_lab_4-1.cpp:524-529 | the identity matrix the power starts from is a unit of the product on both sides |
| MatrixPower.MultAssociative | discrete_math/discrete_math_lab_4-1.cpp:508-521 | the product is associative |
| MatrixPower.PowerOfSquare | discrete_math/discrete_math_lab_4-1.cpp:534-535 | the q-th power of a squared is the 2q-th power of a |
| MatrixPower.SquareAndMultiplyStep | discrete_math/discrete_math_lab_4-1.cpp:531-536 | one round of square-and-multiply keeps result times base to the power the same |
| MatrixPower.DotSumsNeighbours | discrete_math/discrete_math_lab_4-1.cpp:512-515 | for a 0/1 matrix, row i of g times column j of P sums column j of P over i's neighbours |
| MatrixPower.ColumnSumWalks | discrete_math/discrete_math_lab_4-1.cpp:541-555 | when column j of P counts walks with len edges, its sum over a set of vertices is their walk count |
| MatrixPower.PowerEntryStep | discrete_math/discrete_math_lab_4-1.cpp:541-555 | row i of g times a column counting walks with len - 1 edges counts the walks with len edges |
| MatrixPower.PowerCountsWalks | discrete_math/discrete_math_lab_4-1.cpp:541-555 | entry (i, j) of the L-th power of a 0/1 adjacency matrix counts the walks with L edges from i to j |
| MatrixPower.MultiplyMatrices | discrete_math/discrete_math_lab_4-1.cpp:508-521 | the top-left n-by-n block of result becomes the product of the two factors as they were on entry, even when result is one of them, and the rest of result is unchanged |
| MatrixPower.Block | discrete_math/discrete_math_lab_4-1.cpp:508-521 | the block holds the array's entries |
| MatrixPower.CopyBlock | discrete_math/discrete_math_lab_4-1.cpp:519-520 | the copy loop writes the scratch matrix into the top-left block and nothing else |
| MatrixPower.ProductRow | discrete_math/discrete_math_lab_4-1.cpp:512-516 | entry j of row i accumulates row i of mat1 times column j of mat2 |
| MatrixPower.PowerMatrix | discrete_math/discrete_math_lab_4-1.cpp:524-539 | with the running product and the running square each multiplied into themselves, the result is the power-th power of the top-left n-by-n block; a power of zero or less leaves the identity |
| MatrixPower.RoutesAmountMatrix | discrete_math/discrete_math_lab_4-1.cpp:541-555 | the printed table is that power of the graph; for a whole 0/1 graph it counts walks, as graphGetRoutesAmountWrapper does |
| EulerHamilton.CountIsCardinality | discrete_math/discrete_math_lab_4-2.cpp:42-51 | the count of true entries is the number of positions holding true |
| EulerHamilton.CountMark | discrete_math/discrete_math_lab_4-2.cpp:58-60 | marking an unmarked vertex adds one to the count |
| EulerHamilton.CountFull | discrete_math/discrete_math_lab_4-2.cpp:61 | when the count reaches the number of vertices, every vertex is marked |
| EulerHamilton.ExtendableSound | discrete_math/discrete_math_lab_4-2.cpp:58-70 | a successful search has a simple path through the unmarked vertices that the count completes |
| EulerHamilton.ExtendableComplete | discrete_math/discrete_math_lab_4-2.cpp:58-70 | every such simple path makes the search succeed |
| EulerHamilton.Graph.constructor | discrete_math/discrete_math_lab_4-2.cpp:15-17 | n vertices, no edges, and m recorded as the number of edges to generate |
| EulerHamilton.Graph.Clear | discrete_math/discrete_math_lab_4-2.cpp:19-25 | every entry becomes false and the counts stay |
| EulerHamilton.Graph.IsEulerian | discrete_math/discrete_math_lab_4-2.cpp:42-51 | true exactly when every vertex has even degree |
| EulerHamilton.Graph.IsHamiltonian | discrete_math/discrete_math_lab_4-2.cpp:53-56 | true exactly when some simple path from vertex 0 passes through all the vertices |
| EulerHamilton.Graph.Dfs | discrete_math/discrete_math_lab_4-2.cpp:58-70 | succeeds exactly when the path so far extends through the unmarked vertices to all of them; on failure the marks are restored, on success all are set |
| EulerHamilton.Graph.DfsNeighbour | discrete_math/discrete_math_lab_4-2.cpp:63-67 | one loop turn succeeds exactly when vertex i is an unmarked neighbour through which the search succeeds |
| SpanningForest.GetMemGraph | discrete_math/discrete_math_lab_4-3.cpp:14-19 | n vertices and every entry 0 |
| SpanningForest.ConnectedTrans | discrete_math/discrete_math_lab_4-3.cpp:21-61 | connection in a graph is transitive |
| SpanningForest.ConnectedSameLabel | discrete_math/discrete_math_lab_4-3.cpp:21-61 | labels that agree across every edge agree between any two connected vertices |
| SpanningForest.MergeLabels | discrete_math/discrete_math_lab_4-3.cpp:33-36 | merging j's tree into i's, when they differ, removes exactly one label |
| SpanningForest.IdentityLabels | discrete_math/discrete_math_lab_4-3.cpp:22-25 | the first loop's labels 0..n-1 are n distinct labels |
| SpanningForest.Relabel | discrete_math/discrete_math_lab_4-3.cpp:33-36 | the corrected relabelling, with j's label saved first, moves every vertex of j's tree into i's tree |
| SpanningForest.AsWritten | discrete_math/discrete_math_lab_4-3.cpp:33-36 | the loop as written: after reaching j it compares with j's new label, so later vertices of j's tree keep the old label |
| SpanningForest.RelabelAsWritten | discrete_math/discrete_math_lab_4-3.cpp:33-36 | the as-written loop computes AsWritten |
| SpanningForest.RelabelAsWrittenSplitsTree | discrete_math/discrete_math_lab_4-3.cpp:33-36 | with labels [0, 1, 0, 0], i = 1 and j = 2, the as-written loop separates vertices 0 and 3 of one tree, which the corrected merge keeps together |
| SpanningForest.MergeKeepsTogether | discrete_math/discrete_math_lab_4-3.cpp:33-36 | merging never separates vertices that shared a label |
| SpanningForest.MergeConnected | discrete_math/discrete_math_lab_4-3.cpp:31-36 | after adding the edge (i, j), a vertex of j's tree is connected to any vertex of i's tree |
| SpanningForest.ForestEdgesAdd | discrete_math/discrete_math_lab_4-3.cpp:31-32 | the new edge adds exactly one edge to the forest |
| SpanningForest.KruskalAddEdge | discrete_math/discrete_math_lab_4-3.cpp:29-37 | keeping the edge (i, j) between two trees and merging the labels preserves the scan invariant |
| SpanningForest.KruskalSkip | discrete_math/discrete_math_lab_4-3.cpp:29-30 | passing over a pair that is no edge, or one inside a tree, preserves the invariant |
| SpanningForest.KruskalFinal | discrete_math/discrete_math_lab_4-3.cpp:27-40 | after the scan the forest is part of the graph, the labels are the components of the graph and of the forest, and edges plus trees number n |
| SpanningForest.InitialLabels | discrete_math/discrete_math_lab_4-3.cpp:22-25 | every vertex is its own tree |
| SpanningForest.KruskalStep | discrete_math/discrete_math_lab_4-3.cpp:29-37 | one pair of the scan keeps the invariant |
| SpanningForest.KruskalRow | discrete_math/discrete_math_lab_4-3.cpp:28-39 | the inner loop over row i keeps the invariant |
| SpanningForest.KruskalScan | discrete_math/discrete_math_lab_4-3.cpp:27-40 | the outer loop yields the final facts |
| SpanningForest.Kruskal | discrete_math/discrete_math_lab_4-3.cpp:21-61 | the corrected algorithm, with j's label saved before the relabelling loop: the forest is a symmetric 0/1 part of the graph; two vertices share a label exactly when the graph connects them, and exactly when the forest does; forest edges plus trees number the vertices, so the forest has no cycle |
| SpanningForest.StepAsWrittenJoins | discrete_math/discrete_math_lab_4-3.cpp:29-37 | as written, a pair changes the forest or the labels only when it is a graph edge whose ends carry different labels; afterwards the ends of a graph edge share a label, and a kept edge is set on both sides |
| SpanningForest.AddEdgeWithin | discrete_math/discrete_math_lab_4-3.cpp:31-32 | setting a graph edge on both sides keeps the forest a symmetric 0/1 part of the graph |
| SpanningForest.ScanAsWrittenWithin | discrete_math/discrete_math_lab_4-3.cpp:27-40 | the scan as written keeps the forest a symmetric 0/1 part of the graph |
| SpanningForest.KruskalRowAsWritten | discrete_math/discrete_math_lab_4-3.cpp:28-39 | the inner loop as written, with the two forest writes and the as-written relabelling, advances the scan by one row |
| SpanningForest.KruskalAsWritten | discrete_math/discrete_math_lab_4-3.cpp:21-61 | kraskalAlgorithm as written: the as-written scan from the empty forest and labels 0..n-1, whose forest is a symmetric 0/1 part of the graph |
| SpanningForest.CycleRowZero | discrete_math/discrete_math_lab_4-3.cpp:28-39 | on edges (0,2),(0,3),(1,2),(2,3), row 0 keeps (0,2) and (0,3) and gives 0, 2 and 3 one label |
| SpanningForest.CycleRowOne | discrete_math/discrete_math_lab_4-3.cpp:28-39 | row 1 keeps (1,2), and relabelling as written gives [1,1,1,0], taking vertex 3 out of its tree's label |
| SpanningForest.CycleRowTwo | discrete_math/discrete_math_lab_4-3.cpp:28-39 | row 2 keeps (2,3), after which the forest is the whole graph, and row 3 keeps nothing |
| SpanningForest.CycleGraphCycle | discrete_math/discrete_math_lab_4-3.cpp:21-61 | that graph has the cycle 0-2-3-0 |
| SpanningForest.KruskalAsWrittenCycle | discrete_math/discrete_math_lab_4-3.cpp:21-61 | on that graph the algorithm as written keeps all four edges, the cycle 0-2-3-0 included, and ends with every label 1 |
| GraphSplit.ReachesStep | discrete_math/discrete_math_lab_4-3.cpp:121-138 | a vertex reachable from a, followed by one more edge, is reachable from a |
| GraphSplit.ClosedWalk | discrete_math/discrete_math_lab_4-3.cpp:121-138 | a marked set closed under successors holds every vertex a walk from a marked vertex reaches |
| GraphSplit.ConnectDfs | discrete_math/discrete_math_lab_4-3.cpp:123-130 | the recursive lambda marks the vertex, never unmarks, marks only vertices reachable from vertex 0, and leaves every finished vertex with its successors marked |
| GraphSplit.ConnectNeighbour | discrete_math/discrete_math_lab_4-3.cpp:126-128 | one turn of the lambda's loop leaves the successor marked and keeps those facts |
| GraphSplit.IsConnect | discrete_math/discrete_math_lab_4-3.cpp:121-138 | true exactly when every vertex is reachable from vertex 0 |
| GraphSplit.Unlink | discrete_math/discrete_math_lab_4-3.cpp:145-146 | clears the entry (i, j) and its mirror and nothing else |
| GraphSplit.SplitFrom | discrete_math/discrete_math_lab_4-3.cpp:142-153 | marked edges are cleared in row-major order until the copy is no longer connected |
| GraphSplit.SplitThins | discrete_math/discrete_math_lab_4-3.cpp:142-153 | the split clears only marked edges of the graph, each on both sides |
| GraphSplit.SplitClearsAll | discrete_math/discrete_math_lab_4-3.cpp:142-153 | when the split ends still connected, every marked edge has been cleared |
| GraphSplit.SplitRow | discrete_math/discrete_math_lab_4-3.cpp:143-150 | one row of the scan: either it stops at a disconnection, or the rest of the split continues from the next row |
| GraphSplit.SplitGraphTwoConnectedComponents | discrete_math/discrete_math_lab_4-3.cpp:140-154 | the result is the copy of the graph after that split |
| GraphSplit.SplitResult | discrete_math/discrete_math_lab_4-3.cpp:140-154 | only marked edges of the graph are cleared, each on both sides, and a result that is still connected has lost every marked edge |
| Bridges.Min | discrete_math/discrete_math_lab_4-3.cpp:94 | std::min: at most both arguments and equal to one of them |
| Bridges.BridgeVisit | discrete_math/discrete_math_lab_4-3.cpp:82-106 | the visit marks the vertex with entry time timer, strictly grows the visited set, gives every newly visited vertex a distinct entry time from that interval with its low time at most its entry time and its successors visited, and only marks bridges that are symmetric 1-entries on edges |
| Bridges.StampedBelowGrow | discrete_math/discrete_math_lab_4-3.cpp:88-105 | a neighbour visit that stamps only later times keeps the facts about the vertices finished so far |
| Bridges.StampedBelowDone | discrete_math/discrete_math_lab_4-3.cpp:88-105 | once every successor of the vertex is visited, the vertex itself is finished |
| Bridges.MarkBridge | discrete_math/discrete_math_lab_4-3.cpp:99-100 | setting both entries of an edge to 1 keeps every mark a 1, mirrored, on an edge of the graph |
| Bridges.BridgeNeighbour | discrete_math/discrete_math_lab_4-3.cpp:89-104 | one loop turn skips the parent, or lowers the low time by a visited successor's entry time, or visits an unvisited successor; the successor ends visited and the low time never rises |
| Bridges.FindBridges | discrete_math/discrete_math_lab_4-3.cpp:108-119 | the bridges graph has the graph's size and marks only symmetric 1-entries on edges of the graph |
| TruthTable.FormatString | mat_logic_lab_1_practice.py:49-58 | the formatted string has no spaces, no "!" and no bar sign, and no lower-case letter other than the "v" standing for the bar |
| TruthTable.InsertAndsOnLetters | mat_logic_lab_1_practice.py:56 | on a run of letters, pairs are taken from the left without overlap: every third character from position 1 is an inserted & |
| TruthTable.Precedence | mat_logic_lab_1_practice.py:60-73 | the bar (or) is 1, "&" is 2, "!" is 3, and every other character 0 |
| TruthTable.InfixToPostfix | mat_logic_lab_1_practice.py:75-101 | the loop with its two inner loops computes Shunt; a ) with no ( below it is the error of popping an empty list |
| TruthTable.CalculatePostfix | mat_logic_lab_1_practice.py:103-131 | the loop over the tokens computes EvalFrom, including the errors of popping an empty stack and of int() on a non-digit |
| TruthTable.EmittedThenPending | mat_logic_lab_1_practice.py:98-99 | flushing the operators still pending after the text completes the postfix text |
| TruthTable.PendingBinds | mat_logic_lab_1_practice.py:95 | the pending operators bind at least as tightly as the formula's top level |
| TruthTable.PopAll | mat_logic_lab_1_practice.py:95-96 | popping for an operator of precedence p takes exactly the operators above a weaker top |
| TruthTable.PopParen | mat_logic_lab_1_practice.py:91-93 | a closing parenthesis takes exactly the operators above the matching ( and the ( |
| TruthTable.ShuntText | mat_logic_lab_1_practice.py:85-97 | reading the text of a formula on a stack whose top binds more weakly outputs what it emits and leaves its pending operators on top |
| TruthTable.ShuntParen | mat_logic_lab_1_practice.py:88-93 | reading a parenthesised formula outputs its whole postfix text and leaves the stack as it was |
| TruthTable.ShuntNot | mat_logic_lab_1_practice.py:94-97 | reading a negation outputs its operand's postfix text and leaves ! pending |
| TruthTable.ShuntOperator | mat_logic_lab_1_practice.py:94-97 | reading a binary formula emits the left operand, pushes the operator, then reads the right operand |
| TruthTable.InfixToPostfixCorrect | mat_logic_lab_1_practice.py:75-101 | infix_to_postfix turns the text of a well-formed formula into its postfix text |
| TruthTable.EvalPostfix | mat_logic_lab_1_practice.py:103-131 | the postfix text of a formula pushes exactly the formula's value on the stack |
| TruthTable.FormulaValue | mat_logic_lab_1_practice.py:75-131 | for a well-formed formula whose atoms have values, conversion succeeds and the postfix text evaluates to the formula's value, ! binding tighter than &, and "&" tighter than the bar |
| TruthTable.InsertSortedCorrect | mat_logic_lab_1_practice.py:142 | inserting keeps the variable list strictly increasing and adds exactly the one character |
| TruthTable.Variables | mat_logic_lab_1_practice.py:142 | the sorted distinct letters of the expression, strictly increasing, and no other character |
| TruthTable.Combinations | mat_logic_lab_1_practice.py:143 | 2^n tuples of n values each |
| TruthTable.CombinationIndex | mat_logic_lab_1_practice.py:143 | the k-th tuple is k written in binary: the rows count up from all False |
| TruthTable.CombinationOf | mat_logic_lab_1_practice.py:143 | every assignment of n values occurs among the tuples, at its binary index |
| TruthTable.Env | mat_logic_lab_1_practice.py:153 | dict(zip(...)) maps each variable to its value in the combination and holds nothing else |
| TruthTable.EvaluateAll | mat_logic_lab_1_practice.py:152-154 | each combination evaluated in turn, one result per combination when none fails |
| TruthTable.EvaluateAllFails | mat_logic_lab_1_practice.py:152-154 | once a prefix of the combinations fails, the whole evaluation fails with that error |
| TruthTable.KeptRowsStep | mat_logic_lab_1_practice.py:156-161 | one more combination adds its row exactly when the mode keeps it |
| TruthTable.TruthTableText | mat_logic_lab_1_practice.py:133-166 | an evaluation error propagates; otherwise mode 0 gives the contradiction verdict and other modes the header, the dashes and the kept rows joined by newlines |
| TruthTable.TableLoop | mat_logic_lab_1_practice.py:152-166 | the loop over the combinations returns that text |
| TruthTable.TableRow | mat_logic_lab_1_practice.py:153-161 | one turn evaluates the combination, clears the contradiction flag on a true row in mode 0 and appends a kept row |
| TruthTable.NoneTrueStep | mat_logic_lab_1_practice.py:156-158 | the flag stays set after one more row exactly when it was set and the row is false |
| TruthTable.DefinedForAll | mat_logic_lab_1_practice.py:142-153 | under every combination of the variables of the postfix text, every atom of the formula has a value |
| TruthTable.EvaluateFormula | mat_logic_lab_1_practice.py:152-154 | no combination fails on the postfix text of a formula whose atoms all have values, and the results are its values |
| TruthTable.ModeZeroMeansUnsatisfiable | mat_logic_lab_1_practice.py:133-164 | in mode 0, for a well-formed formula, no evaluation fails and the answer is "contradictory" exactly when no assignment of its variables makes it true |
| TruthTable.NoneTrueMeansUnsatisfiable | mat_logic_lab_1_practice.py:143-158 | no row of the table is true exactly when no assignment makes the formula true |
| TruthTable.ModeTwoKeepsAll | mat_logic_lab_1_practice.py:159-161 | mode 2 keeps one row per combination, in order |
| TruthTable.TrueIndices | mat_logic_lab_1_practice.py:159 | the positions of the true results, increasing, and all of them |
| TruthTable.ModeOneKeepsTrue | mat_logic_lab_1_practice.py:159-161 | mode 1 keeps exactly the rows where the formula is true, in order |
| TruthTable.OtherModesKeepNothing | mat_logic_lab_1_practice.py:159 | a mode other than 0, 1 and 2 keeps no row |

## Left out

- Console and file I/O, printing, and the Tk user interface of the logic lab, including `show_truth_table` (mat_logic_lab_1_practice.py:168-185). The values that would be printed are returned as results instead.
- Memory-allocation failure. Every `malloc` and `new` is assumed to succeed, and the error codes for a NULL structure pointer are not modelled.
- Pointer rewiring inside linked nodes (stacks, queues, lists, chains, trees). The node sequence is modelled as a `seq` or a datatype value, so aliasing between nodes is not captured.
- Fixed-width `int` overflow. Integers are unbounded except where a bound is stated (the string buffer's `unsigned int` lengths, the 32-bit cells of lab 3-1).
- The random-graph and timing code of lab 4-2 (`generateRandom`, `tenSecGen`), `task5TimeTest`, the `simulate` driver of asd_lab_6_task.c, the copy assignment `operator=` of lab 3-4, and the sympy-based logic labs.
- `showGraphDifference`, `main`, and the unused `dfs` of lab 4-3.
- Bridges.BridgeVisit: the source compares with `timerIn[to]` where the textbook algorithm uses the low value, which reports edge (0,1) of the triangle 0-1-2 as a bridge. The model therefore states only that the traversal stamps every vertex it reaches and marks only edges of the graph, not that the marked edges are bridges. The static timer, which the source never resets, is passed as a parameter.
- SpanningForest.Kruskal: models the relabelling with j's label saved first (see Findings); the code as written is `SpanningForest.KruskalAsWritten`. That the chosen edges form no cycle is stated as a count identity (one fewer label for each edge added), not as a graph property.
- EulerHamilton.Graph.IsHamiltonian: searches only from vertex 0, as the source does. EulerHamilton.Graph.IsEulerian: checks degrees only, with no connectivity check, as the source does.
- GraphSplit.IsConnect: requires at least one vertex, because the source reads vertex 0.
- StringBuffer.WordCmp: requires that the two strings do not both end in a space. On such input the C loop can step past both terminators and read beyond the strings.
- StringBuffer.StringBuffer.constructor: requires the size to fit an `unsigned int`. The other buffer operations require that their length arithmetic stays below 2^32.
- DoubleHashTable.Table.constructor: requires a size below 2^28, so that the probe arithmetic needs no wrap-around.
- DoubleHashTable.Table.InsertItem, DoubleHashTable.Table.FindItem, DoubleHashTable.Table.DeleteItem: require key >= 0. For a negative key `primaryHash` gives a negative remainder and C indexes before the slot array.
- DoubleHashTable.InsertItemTest: covers the first part of `testInsertItem`. The hundred further insertions that fill the table, followed by key 999, are not replayed. `FullTableRefuses` states why a full table answers HT_TABLE_FULL.
- Huffman.BuildHuffmanTree: requires between 1 and n positive counts. With none the source dequeues from an empty heap; with more than n it writes past the heap's capacity.
- Trees.BreadthFirst, DuplicateTree.TraverseBreadth, OrderedTree.BreadthFirstSearch: require the node count to fit the queue array (the capacity given, 512 and 100 pointers), which the source does not check.
- NumberDictionary.HashTable.Insert: requires a word that fits the 100-byte node buffer (`Storable`), which `strcpy` would overrun.
- RouteGraph.MaxChains: graphs and buffers have the fixed size `MAX_VERTICES` = 7, as in the source.
- RouteGraph.RoutesBetween: returns every route as an unbounded sequence. The source writes them into `routes[MAX_VERTICES][MAX_VERTICES]` (discrete_math_lab_4-1.cpp:236-262), which more than seven routes, or a route of more than seven vertices, would overrun.
- TruthTable.FormulaValue: stated only for formulas in which `!` applies to a variable, a digit or a parenthesis. Double negation such as `!!a` is outside it: the `>=` at mat_logic_lab_1_practice.py:95 pops the first `!` before its operand is read, so `!!a` becomes the postfix `!a!`, and calculate_postfix then pops an empty list at mat_logic_lab_1_practice.py:115.
- OrderRelation.TopologicSort: requires an acyclic (ranked) relation, so that each round removes an element. On a cyclic relation the points of a cycle never reach in-degree 0, so the source's loop never ends.
- Truth-table characters outside ASCII: `str.isalnum` and `str.upper` are modelled for ASCII letters and digits only. `formating_string` is modelled, although `show_truth_table` does not call it.

## Findings

| source | as written | input that shows it | evidently intended | confidence | as-written member | corrected member |
|---|---|---|---|---|---|---|
| discreate_math_lab_3-2.cpp:256-264 | `complMatrix` stores `~value` in a `bool`; `~` of 0 or 1 is non-zero, so every entry becomes true | any relation with at least one related pair: its complement then still contains that pair | each entry is the logical negation of the original | not executed | BinRelation.ComplMatrixOverlaps | BinRelation.ComplementLaws |
| discrete_math_lab_3-1.cpp:99-107 | `complementMatrix` writes `~m[i][j]`, giving -1 or -2 for 0/1 cells, both non-zero | any 0/1 matrix: the result relates every pair | each cell is 1 - cell, the logical negation | not executed | IntRelations.BitNotOverlaps | IntRelations.LogicalNotIsComplement |
| discrete_math/discrete_math_lab_4-3.cpp:33-36 | the relabelling loop compares each label with `flower[j]` after `flower[j]` has itself been overwritten | edges (0,2),(0,3),(1,2),(2,3) with n = 4: merging at i = 1, j = 2 turns labels [0,1,0,0] into [1,1,1,0], so (2,3) is then added and closes the cycle 0-2-3 | compare with the old label saved before the loop | not executed | SpanningForest.KruskalAsWrittenCycle | SpanningForest.Kruskal |
| algorithms_and_data_structures/asd_lab_8.c:86-164 | `insertItem` stores a key in the first empty or deleted slot without probing on for an existing copy | keys 1 and 101 in a table of size 100: insert 1, insert 101 (slot 5), delete 1, insert 101 again (slot 1); after deleting 101 once it is still found | look up the key along its whole probe sequence before reusing a deleted slot | not executed | DoubleHashTable.DuplicateAfterDelete | DoubleHashTable.NoDuplicateWithCheckedInsert |
