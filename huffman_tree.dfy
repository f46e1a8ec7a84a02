// Huffman coding: a binary min-heap of tree nodes keyed by frequency, the
// greedy merge loop that builds the code tree, and the recursive walk that
// writes one bit string per symbol into a 256-entry table.
module Huffman {
  import opened Common

  /** Number of distinct byte values, and the size of the code buffer. */
  const MaxSymbols := 256

  /**
   * A node of the code tree. A node created for a symbol has no children; a
   * merged node always gets both children and carries the symbol '\0', which
   * the code walk never reads, so it is not modelled. The symbol is kept as
   * its byte value 0..255: the conversion to `char` and back through
   * `unsigned char` is the identity on that range.
   */
  datatype Huff = Leaf(symbol: int, freq: int) | Merged(freq: int, left: Huff, right: Huff)

  /** Every merged node's frequency is the sum of its children's. */
  ghost predicate Consistent(t: Huff) {
    match t
    case Leaf(_, _) => true
    case Merged(f, l, r) => f == l.freq + r.freq && Consistent(l) && Consistent(r)
  }

  /** The symbols at the leaves, with multiplicity. */
  function Symbols(t: Huff): multiset<int> {
    match t
    case Leaf(s, _) => multiset{s}
    case Merged(_, l, r) => Symbols(l) + Symbols(r)
  }

  /** The sum of the leaves' frequencies. */
  function LeafWeight(t: Huff): int {
    match t
    case Leaf(_, f) => f
    case Merged(_, l, r) => LeafWeight(l) + LeafWeight(r)
  }

  /** Every leaf carries the count recorded for its symbol. */
  ghost predicate LeavesMatch(t: Huff, freq: seq<int>) {
    match t
    case Leaf(s, f) => 0 <= s < |freq| && f == freq[s]
    case Merged(_, l, r) => LeavesMatch(l, freq) && LeavesMatch(r, freq)
  }

  function Height(t: Huff): nat {
    match t
    case Leaf(_, _) => 0
    case Merged(_, l, r) => 1 + (if Height(l) < Height(r) then Height(r) else Height(l))
  }

  /** In a consistent tree the root's frequency is the total of its leaves. */
  lemma {:induction false} ConsistentWeight(t: Huff)
    requires Consistent(t)
    ensures t.freq == LeafWeight(t)
  {
    if t.Merged? {
      ConsistentWeight(t.left);
      ConsistentWeight(t.right);
    }
  }

  /** A tree with k leaves is at most k - 1 levels deep. */
  lemma {:induction false} HeightBelowLeaves(t: Huff)
    ensures Height(t) < |Symbols(t)|
  {
    if t.Merged? {
      HeightBelowLeaves(t.left);
      HeightBelowLeaves(t.right);
    }
  }

  // ---------------------------------------------------------------------
  // Totals over a sequence of trees (the heap's contents)

  function SumFreq(s: seq<Huff>): int {
    if s == [] then 0 else s[0].freq + SumFreq(s[1..])
  }

  function AllSymbols(s: seq<Huff>): multiset<int> {
    if s == [] then multiset{} else Symbols(s[0]) + AllSymbols(s[1..])
  }

  lemma {:induction false} TotalsConcat(a: seq<Huff>, b: seq<Huff>)
    ensures SumFreq(a + b) == SumFreq(a) + SumFreq(b)
    ensures AllSymbols(a + b) == AllSymbols(a) + AllSymbols(b)
  {
    if a == [] {
      assert a + b == b;
    } else {
      assert (a + b)[0] == a[0] && (a + b)[1..] == a[1..] + b;
      TotalsConcat(a[1..], b);
    }
  }

  /** Taking out the tree at slot k takes out its frequency and its leaves. */
  lemma TotalsRemoveAt(b: seq<Huff>, k: int)
    requires 0 <= k < |b|
    ensures SumFreq(b) == SumFreq(b[..k] + b[k + 1..]) + b[k].freq
    ensures AllSymbols(b) == AllSymbols(b[..k] + b[k + 1..]) + Symbols(b[k])
  {
    assert b == b[..k] + b[k..];
    TotalsConcat(b[..k], b[k..]);
    assert b[k..][0] == b[k] && b[k..][1..] == b[k + 1..];
    TotalsConcat(b[..k], b[k + 1..]);
  }

  /** Cancelling a matching first element from two permutations of each other. */
  lemma PermTail<T>(a: seq<T>, b: seq<T>, k: int)
    requires multiset(a) == multiset(b) && |a| > 0 && 0 <= k < |b| && b[k] == a[0]
    ensures multiset(a[1..]) == multiset(b[..k] + b[k + 1..])
  {
    var rest := b[..k] + b[k + 1..];
    assert b == b[..k] + [b[k]] + b[k + 1..];
    assert a == [a[0]] + a[1..];
    calc {
      multiset(a[1..]);
      multiset(a) - multiset{a[0]};
      multiset(b) - multiset{b[k]};
      multiset(b[..k]) + multiset{b[k]} + multiset(b[k + 1..]) - multiset{b[k]};
      multiset(b[..k]) + multiset(b[k + 1..]);
      multiset(rest);
    }
  }

  /** The totals do not depend on the order of the trees. */
  lemma {:induction false} TotalsPerm(a: seq<Huff>, b: seq<Huff>)
    requires multiset(a) == multiset(b)
    ensures SumFreq(a) == SumFreq(b) && AllSymbols(a) == AllSymbols(b)
    decreases |a|
  {
    if a == [] {
      assert |multiset(b)| == 0;
    } else {
      assert a[0] in multiset(b);
      var k :| 0 <= k < |b| && b[k] == a[0];
      PermTail(a, b, k);
      TotalsPerm(a[1..], b[..k] + b[k + 1..]);
      TotalsRemoveAt(b, k);
      TotalsRemoveAt(a, 0);
      assert a[..0] + a[1..] == a[1..];
    }
  }

  /** Adding one tree to a collection adds its frequency and its leaves. */
  lemma TotalsAdd(a: seq<Huff>, b: seq<Huff>, x: Huff)
    requires multiset(b) == multiset(a) + multiset{x}
    ensures SumFreq(b) == SumFreq(a) + x.freq
    ensures AllSymbols(b) == AllSymbols(a) + Symbols(x)
  {
    TotalsPerm(b, a + [x]);
    TotalsConcat(a, [x]);
    assert [x][1..] == [];
  }

  // ---------------------------------------------------------------------
  // The binary min-heap, as a predicate on the occupied prefix. Slot j is a
  // child of slot i when j is 2i + 1 or 2i + 2, that is, when i is (j - 1) / 2.

  /** Slot j is a child of slot i. */
  predicate Child(i: int, j: int) {
    j == 2 * i + 1 || j == 2 * i + 2
  }

  ghost predicate IsHeap(s: seq<Huff>) {
    forall i, j {:trigger Child(i, j)} :: 0 <= i < |s| && 0 <= j < |s| && Child(i, j) ==> s[i].freq <= s[j].freq
  }

  lemma MultisetUpdate<T>(u: seq<T>, k: int, v: T)
    requires 0 <= k < |u|
    ensures multiset(u[k := v]) == multiset(u) - multiset{u[k]} + multiset{v}
  {
    assert u == u[..k] + [u[k]] + u[k + 1..];
    assert u[k := v] == u[..k] + [v] + u[k + 1..];
  }

  /** The parent slot of every slot but the first. */
  lemma ParentSlot(j: int)
    requires j > 0
    ensures 0 <= (j - 1) / 2 < j && (j == 2 * ((j - 1) / 2) + 1 || j == 2 * ((j - 1) / 2) + 2)
  {
  }

  /** Sift-up with a hole at h that is to receive x. */
  ghost predicate HoleUp(s: seq<Huff>, h: int, x: Huff) {
    0 <= h < |s|
    && (forall i, j {:trigger Child(i, j)} :: 0 <= i < |s| && 0 <= j < |s| && Child(i, j) && j != h ==> s[i].freq <= s[j].freq)
    && (0 < h < |s| - 1 ==> s[(h - 1) / 2].freq <= s[h].freq)
    && (h < |s| - 1 ==> x.freq < s[h].freq)
  }

  /** Sift-down: heap order everywhere except between h and its children. */
  ghost predicate HoleDown(s: seq<Huff>, h: int) {
    0 <= h
    && (forall i, j {:trigger Child(i, j)} :: 0 <= i < |s| && 0 <= j < |s| && Child(i, j) && i != h ==> s[i].freq <= s[j].freq)
    && (forall j {:trigger Child(h, j)} :: 0 <= j < |s| && Child(h, j) && h > 0 ==> s[(h - 1) / 2].freq <= s[j].freq)
  }

  lemma RootBelow(s: seq<Huff>, j: int)
    requires IsHeap(s) && 0 <= j < |s|
    ensures s[0].freq <= s[j].freq
    decreases j
  {
    if j > 0 {
      ParentSlot(j);
      assert Child((j - 1) / 2, j);
      RootBelow(s, (j - 1) / 2);
    }
  }

  /** The first slot of a heap holds a minimum. */
  lemma {:induction false} HeapRootMin(s: seq<Huff>)
    requires IsHeap(s) && |s| > 0
    ensures forall t :: t in s ==> s[0].freq <= t.freq
  {
    forall t | t in s ensures s[0].freq <= t.freq {
      var j :| 0 <= j < |s| && s[j] == t;
      RootBelow(s, j);
    }
  }

  lemma SiftUpStart(s: seq<Huff>, x: Huff)
    requires |s| > 0 && IsHeap(s[..|s| - 1])
    ensures HoleUp(s, |s| - 1, x)
  {
    var n := |s| - 1;
    forall i, j | 0 <= i < |s| && 0 <= j < |s| && Child(i, j) && j != n
      ensures s[i].freq <= s[j].freq
    {
      assert s[..n][i] == s[i] && s[..n][j] == s[j];
    }
  }

  /** Moving the parent into the hole and then filling the parent's slot gives the same multiset. */
  lemma HoleMoveMultiset(s: seq<Huff>, h: int, p: int, x: Huff)
    requires 0 <= p < |s| && 0 <= h < |s|
    ensures multiset(s[h := s[p]][p := x]) == multiset(s[h := x])
  {
    MultisetUpdate(s, h, s[p]);
    MultisetUpdate(s[h := s[p]], p, x);
    MultisetUpdate(s, h, x);
  }

  lemma SiftUpStep(s: seq<Huff>, h: int, x: Huff)
    requires HoleUp(s, h, x) && h > 0 && s[(h - 1) / 2].freq > x.freq
    ensures HoleUp(s[h := s[(h - 1) / 2]], (h - 1) / 2, x)
    ensures multiset(s[h := s[(h - 1) / 2]][(h - 1) / 2 := x]) == multiset(s[h := x])
  {
    var p := (h - 1) / 2;
    ParentSlot(h);
    var t := s[h := s[p]];
    forall i, j | 0 <= i < |t| && 0 <= j < |t| && Child(i, j) && j != p
      ensures t[i].freq <= t[j].freq
    {
      if j == h {
        assert i == p;
      } else if i == h {
        assert s[p].freq <= s[h].freq <= s[j].freq;
      } else {
        assert t[i] == s[i] && t[j] == s[j];
      }
    }
    if 0 < p {
      ParentSlot(p);
      assert Child((p - 1) / 2, p);
    }
    HoleMoveMultiset(s, h, p, x);
  }

  lemma SiftUpDone(s: seq<Huff>, h: int, x: Huff)
    requires HoleUp(s, h, x) && (h == 0 || s[(h - 1) / 2].freq <= x.freq)
    ensures IsHeap(s[h := x])
  {
    if h > 0 { ParentSlot(h); }
    var t := s[h := x];
    forall i, j | 0 <= i < |t| && 0 <= j < |t| && Child(i, j)
      ensures t[i].freq <= t[j].freq
    {
      if i == h {
        assert x.freq < s[h].freq;
      }
    }
  }

  lemma SiftDownStartMultiset(s: seq<Huff>)
    requires |s| > 0
    ensures multiset(s[0 := s[|s| - 1]][..|s| - 1]) + multiset{s[0]} == multiset(s)
  {
    var n := |s| - 1;
    if n == 0 {
      assert s[0 := s[n]][..n] == [];
      assert s == [s[0]];
    } else {
      assert s == [s[0]] + s[1..n] + [s[n]];
      assert s[0 := s[n]][..n] == [s[n]] + s[1..n];
    }
  }

  /** Moving the last slot to the root of a heap leaves a hole at the root. */
  lemma SiftDownStart(s: seq<Huff>)
    requires IsHeap(s) && |s| > 0
    ensures HoleDown(s[0 := s[|s| - 1]][..|s| - 1], 0)
    ensures multiset(s[0 := s[|s| - 1]][..|s| - 1]) + multiset{s[0]} == multiset(s)
  {
    var n := |s| - 1;
    var t := s[0 := s[n]][..n];
    forall i, j | 0 <= i < |t| && 0 <= j < |t| && Child(i, j) && i != 0
      ensures t[i].freq <= t[j].freq
    {
      assert t[i] == s[i] && t[j] == s[j];
    }
    SiftDownStartMultiset(s);
  }

  /** The slot among h and its children holding the least frequency, as the two comparisons pick it. */
  function Smallest(s: seq<Huff>, h: nat): (m: nat)
    requires h < |s|
    ensures m == h || (Child(h, m) && m < |s| && s[m].freq < s[h].freq)
    ensures forall d {:trigger Child(h, d)} :: 0 <= d < |s| && Child(h, d) ==> s[m].freq <= s[d].freq
  {
    var m1 := if 2 * h + 1 < |s| && s[2 * h + 1].freq < s[h].freq then 2 * h + 1 else h;
    if 2 * h + 2 < |s| && s[2 * h + 2].freq < s[m1].freq then 2 * h + 2 else m1
  }

  /** The two comparisons of the sift-down loop pick `Smallest`. */
  lemma SmallestIs(s: seq<Huff>, h: nat, m1: nat, m: nat)
    requires h < |s|
    requires m1 == if 2 * h + 1 < |s| && s[2 * h + 1].freq < s[h].freq then 2 * h + 1 else h
    requires m == if 2 * h + 2 < |s| && s[2 * h + 2].freq < s[m1].freq then 2 * h + 2 else m1
    ensures m == Smallest(s, h)
  {
  }

  lemma SiftDownStep(s: seq<Huff>, h: nat)
    requires h < |s| && HoleDown(s, h) && Smallest(s, h) != h
    ensures var c := Smallest(s, h); HoleDown(s[h := s[c]][c := s[h]], c)
    ensures var c := Smallest(s, h); multiset(s[h := s[c]][c := s[h]]) == multiset(s)
  {
    var c := Smallest(s, h);
    var t := s[h := s[c]][c := s[h]];
    assert (c - 1) / 2 == h;
    forall i, j | 0 <= i < |t| && 0 <= j < |t| && Child(i, j) && i != c
      ensures t[i].freq <= t[j].freq
    {
      if j == h {
        assert s[(h - 1) / 2].freq <= s[c].freq;
      }
    }
    forall j | 0 <= j < |t| && Child(c, j)
      ensures t[(c - 1) / 2].freq <= t[j].freq
    {
      assert s[c].freq <= s[j].freq;
    }
  }

  lemma SiftDownDone(s: seq<Huff>, h: nat)
    requires h < |s| && HoleDown(s, h) && Smallest(s, h) == h
    ensures IsHeap(s)
  {
  }

  /**
   * The priority queue: an array of node slots of which the first `size`
   * form a min-heap on frequency. The capacity is fixed when the queue is
   * created and is not checked when a node is added.
   */
  class PriorityQueue {
    var nodes: array<Huff>
    var size: int
    ghost const capacity: int

    ghost predicate Valid()
      reads this, nodes
    {
      nodes.Length == capacity && 0 <= size <= nodes.Length && IsHeap(nodes[..size])
    }

    ghost function Contents(): seq<Huff>
      reads this, nodes
      requires 0 <= size <= nodes.Length
    {
      nodes[..size]
    }

    constructor (capacity: nat)
      ensures Valid() && fresh(nodes) && this.capacity == capacity && size == 0
    {
      nodes := new Huff[capacity](_ => Leaf(0, 0));
      size := 0;
      this.capacity := capacity;
    }

    /** Adds a node by sifting a hole up from the new last slot. */
    method Enqueue(node: Huff)
      requires Valid() && size < nodes.Length
      modifies this, nodes
      ensures Valid() && nodes == old(nodes) && size == old(size) + 1
      ensures multiset(Contents()) == multiset(old(Contents())) + multiset{node}
    {
      var i := size;
      size := size + 1;
      assert nodes[..size][..size - 1] == old(Contents());
      SiftUpStart(nodes[..size], node);
      assert nodes[..size][i := node] == old(Contents()) + [node];
      SiftUp(i, node);
    }

    /** Moves the hole at slot i up while its parent is heavier than `node`, then fills it. */
    method SiftUp(i: int, node: Huff)
      requires 0 <= size <= nodes.Length && HoleUp(nodes[..size], i, node)
      modifies nodes
      ensures IsHeap(nodes[..size]) && multiset(nodes[..size]) == multiset(old(nodes[..size])[i := node])
    {
      var h := i;
      while h > 0 && nodes[(h - 1) / 2].freq > node.freq
        invariant HoleUp(nodes[..size], h, node)
        invariant multiset(nodes[..size][h := node]) == multiset(old(nodes[..size])[i := node])
        decreases h
      {
        ghost var s := nodes[..size];
        SiftUpStep(s, h, node);
        nodes[h] := nodes[(h - 1) / 2];
        assert nodes[..size] == s[h := s[(h - 1) / 2]];
        h := (h - 1) / 2;
      }
      ghost var s := nodes[..size];
      SiftUpDone(s, h, node);
      nodes[h] := node;
      assert nodes[..size] == s[h := node];
    }

    /**
     * Removes and returns a node of least frequency: the last node moves to
     * the root and is swapped down while a child is strictly smaller.
     */
    method Dequeue() returns (min: Huff)
      requires Valid() && size > 0
      modifies this, nodes
      ensures Valid() && nodes == old(nodes) && size == old(size) - 1
      ensures multiset(Contents()) + multiset{min} == multiset(old(Contents()))
      ensures forall t :: t in old(Contents()) ==> min.freq <= t.freq
    {
      ghost var s0 := nodes[..size];
      HeapRootMin(s0);
      SiftDownStart(s0);
      min := nodes[0];
      size := size - 1;
      nodes[0] := nodes[size];
      assert nodes[..size] == s0[0 := s0[size]][..size];
      SiftDown();
    }

    /** Restores heap order after the root slot was overwritten. */
    method SiftDown()
      requires 0 <= size <= nodes.Length && HoleDown(nodes[..size], 0)
      modifies nodes
      ensures IsHeap(nodes[..size]) && multiset(nodes[..size]) == multiset(old(nodes[..size]))
    {
      ghost var s0 := nodes[..size];
      var i, smallest := 0, 0;
      while true
        invariant smallest == i && (i < size || i == 0)
        invariant HoleDown(nodes[..size], i)
        invariant multiset(nodes[..size]) == multiset(s0)
        decreases size - i
      {
        ghost var s := nodes[..size];
        var left := 2 * i + 1;
        var right := 2 * i + 2;
        if left < size && nodes[left].freq < nodes[smallest].freq {
          smallest := left;
        }
        ghost var first := smallest;
        if right < size && nodes[right].freq < nodes[smallest].freq {
          smallest := right;
        }
        if size > 0 { SmallestIs(s, i, first, smallest); }
        if smallest == i {
          if size > 0 { SiftDownDone(s, i); }
          break;
        }
        SiftDownStep(s, i);
        Swap(i, smallest);
        i := smallest;
      }
    }

    /** Exchanges two occupied slots. */
    method Swap(i: int, j: int)
      requires 0 <= i < size && 0 <= j < size && size <= nodes.Length
      modifies nodes
      ensures nodes[..size] == old(nodes[..size])[i := old(nodes[j])][j := old(nodes[i])]
    {
      var temp := nodes[i];
      nodes[i] := nodes[j];
      nodes[j] := temp;
    }
  }

  // ---------------------------------------------------------------------
  // Building the tree

  /** The total of the positive counts among the first k entries. */
  function PositiveSum(freq: seq<int>, k: nat): int
    requires k <= |freq|
  {
    if k == 0 then 0 else PositiveSum(freq, k - 1) + (if freq[k - 1] > 0 then freq[k - 1] else 0)
  }

  /** The symbols among the first k whose count is positive, each once. */
  function PositiveSymbols(freq: seq<int>, k: nat): multiset<int>
    requires k <= |freq|
  {
    if k == 0 then multiset{}
    else PositiveSymbols(freq, k - 1) + (if freq[k - 1] > 0 then multiset{k - 1} else multiset{})
  }

  function PositiveCount(freq: seq<int>, k: nat): nat
    requires k <= |freq|
  {
    if k == 0 then 0 else PositiveCount(freq, k - 1) + (if freq[k - 1] > 0 then 1 else 0)
  }

  /** Each symbol with a positive count is listed once, and no other. */
  lemma {:induction false} PositiveSymbolsExact(freq: seq<int>, k: nat)
    requires k <= |freq|
    ensures forall s :: PositiveSymbols(freq, k)[s] == (if 0 <= s < k && freq[s] > 0 then 1 else 0)
    ensures |PositiveSymbols(freq, k)| == PositiveCount(freq, k)
  {
    if k > 0 { PositiveSymbolsExact(freq, k - 1); }
  }

  lemma {:induction false} PositiveCountMono(freq: seq<int>, i: nat, k: nat)
    requires i <= k <= |freq|
    ensures PositiveCount(freq, i) <= PositiveCount(freq, k)
    decreases k
  {
    if i < k { PositiveCountMono(freq, i, k - 1); }
  }

  /** What every tree in the queue satisfies while the tree is built. */
  ghost predicate Built(s: seq<Huff>, freq: seq<int>) {
    forall t :: t in s ==> Consistent(t) && LeavesMatch(t, freq)
  }

  lemma BuiltAdd(a: seq<Huff>, b: seq<Huff>, x: Huff, freq: seq<int>)
    requires multiset(b) == multiset(a) + multiset{x}
    requires Built(a, freq) && Consistent(x) && LeavesMatch(x, freq)
    ensures Built(b, freq)
  {
    forall t | t in b ensures Consistent(t) && LeavesMatch(t, freq) {
      assert t in multiset(b);
      if t != x { assert t in multiset(a); }
    }
  }

  lemma BuiltRemove(a: seq<Huff>, b: seq<Huff>, x: Huff, freq: seq<int>)
    requires multiset(a) + multiset{x} == multiset(b)
    requires Built(b, freq)
    ensures Built(a, freq) && Consistent(x) && LeavesMatch(x, freq)
  {
    assert x in multiset(b);
    forall t | t in a ensures Consistent(t) && LeavesMatch(t, freq) {
      assert t in multiset(a);
      assert t in multiset(b);
    }
  }

  /** The queue holds exactly the leaves for the positive counts among the first k symbols. */
  ghost predicate Loaded(s: seq<Huff>, freq: seq<int>, k: nat)
    requires k <= |freq|
  {
    SumFreq(s) == PositiveSum(freq, k) && AllSymbols(s) == PositiveSymbols(freq, k) && Built(s, freq)
  }

  /** The symbol loop keeps its invariant when it enqueues a leaf for symbol i. */
  lemma LeafStep(a: seq<Huff>, b: seq<Huff>, freq: seq<int>, i: nat)
    requires i < |freq|
    requires multiset(b) == multiset(a) + multiset{Leaf(i, freq[i])} && freq[i] > 0
    requires Loaded(a, freq, i)
    ensures Loaded(b, freq, i + 1)
  {
    TotalsAdd(a, b, Leaf(i, freq[i]));
    BuiltAdd(a, b, Leaf(i, freq[i]), freq);
  }

  /** The symbol loop keeps its invariant when it skips symbol i. */
  lemma LeafSkip(s: seq<Huff>, freq: seq<int>, i: nat)
    requires i < |freq| && freq[i] <= 0 && Loaded(s, freq, i)
    ensures Loaded(s, freq, i + 1)
  {
    assert PositiveSymbols(freq, i + 1) == PositiveSymbols(freq, i) + multiset{};
  }

  /** One merge round leaves the totals and the per-tree facts unchanged. */
  lemma MergeStep(s0: seq<Huff>, s1: seq<Huff>, s2: seq<Huff>, s3: seq<Huff>, l: Huff, r: Huff, freq: seq<int>)
    requires multiset(s1) + multiset{l} == multiset(s0)
    requires multiset(s2) + multiset{r} == multiset(s1)
    requires multiset(s3) == multiset(s2) + multiset{Merged(l.freq + r.freq, l, r)}
    requires Built(s0, freq)
    ensures SumFreq(s3) == SumFreq(s0) && AllSymbols(s3) == AllSymbols(s0)
    ensures Built(s3, freq)
  {
    var m := Merged(l.freq + r.freq, l, r);
    TotalsAdd(s1, s0, l);
    TotalsAdd(s2, s1, r);
    TotalsAdd(s2, s3, m);
    BuiltRemove(s1, s0, l, freq);
    BuiltRemove(s2, s1, r, freq);
    BuiltAdd(s2, s3, m, freq);
  }

  lemma LastTree(s0: seq<Huff>, s1: seq<Huff>, root: Huff, freq: seq<int>)
    requires |s1| == 0 && multiset(s1) + multiset{root} == multiset(s0)
    requires Built(s0, freq)
    ensures SumFreq(s0) == root.freq && AllSymbols(s0) == Symbols(root)
    ensures Consistent(root) && LeavesMatch(root, freq)
  {
    assert s1 == [];
    TotalsAdd(s1, s0, root);
    BuiltRemove(s1, s0, root, freq);
  }

  /** The first loop of the build: one leaf per symbol of positive count. */
  method EnqueueLeaves(pq: PriorityQueue, freq: array<int>)
    requires pq.Valid() && pq.size == 0 && freq.Length >= MaxSymbols
    requires PositiveCount(freq[..], MaxSymbols) <= pq.nodes.Length
    modifies pq, pq.nodes
    ensures pq.Valid() && pq.nodes == old(pq.nodes)
    ensures pq.size == PositiveCount(freq[..], MaxSymbols)
    ensures Loaded(pq.Contents(), freq[..], MaxSymbols)
  {
    ghost var f := freq[..];
    for i := 0 to MaxSymbols
      invariant pq.Valid() && pq.nodes == old(pq.nodes)
      invariant pq.size == PositiveCount(f, i)
      invariant Loaded(pq.Contents(), f, i)
    {
      if freq[i] > 0 {
        PositiveCountMono(f, i + 1, MaxSymbols);
        ghost var before := pq.Contents();
        pq.Enqueue(Leaf(i, freq[i]));
        LeafStep(before, pq.Contents(), f, i);
      } else {
        LeafSkip(pq.Contents(), f, i);
      }
    }
  }

  /** The merge loop of the build: combines the two least frequent trees until one is left. */
  method MergeAll(pq: PriorityQueue, ghost freq: seq<int>)
    requires pq.Valid() && pq.size >= 1 && Built(pq.Contents(), freq)
    modifies pq, pq.nodes
    ensures pq.Valid() && pq.nodes == old(pq.nodes) && pq.size == 1
    ensures SumFreq(pq.Contents()) == old(SumFreq(pq.Contents()))
    ensures AllSymbols(pq.Contents()) == old(AllSymbols(pq.Contents()))
    ensures Built(pq.Contents(), freq)
  {
    while pq.size > 1
      invariant pq.Valid() && pq.nodes == old(pq.nodes) && pq.size >= 1
      invariant SumFreq(pq.Contents()) == old(SumFreq(pq.Contents()))
      invariant AllSymbols(pq.Contents()) == old(AllSymbols(pq.Contents()))
      invariant Built(pq.Contents(), freq)
      decreases pq.size
    {
      ghost var s0 := pq.Contents();
      var left := pq.Dequeue();
      ghost var s1 := pq.Contents();
      var right := pq.Dequeue();
      ghost var s2 := pq.Contents();
      var merged := Merged(left.freq + right.freq, left, right);
      pq.Enqueue(merged);
      MergeStep(s0, s1, s2, pq.Contents(), left, right, freq);
    }
  }

  /**
   * Builds the code tree for the counts `freq` with a queue of capacity n:
   * one leaf per symbol of positive count, then the two least frequent
   * trees are merged until one remains. An input with no positive count
   * would dequeue from an empty queue, and more positive counts than n would
   * overflow the queue; both are excluded.
   */
  method BuildHuffmanTree(freq: array<int>, n: int) returns (root: Huff)
    requires freq.Length >= MaxSymbols
    requires 1 <= PositiveCount(freq[..], MaxSymbols) <= n
    ensures root.freq == PositiveSum(freq[..], MaxSymbols)
    ensures Symbols(root) == PositiveSymbols(freq[..], MaxSymbols)
    ensures Consistent(root) && LeavesMatch(root, freq[..])
  {
    var pq := new PriorityQueue(n);
    EnqueueLeaves(pq, freq);
    MergeAll(pq, freq[..]);
    ghost var s0 := pq.Contents();
    root := pq.Dequeue();
    LastTree(s0, pq.Contents(), root, freq[..]);
  }

  // ---------------------------------------------------------------------
  // Code generation

  /** One line of the code table: a symbol and its bit string. */
  datatype Entry = Entry(symbol: int, code: seq<char>)

  /**
   * The leaves of t in the order the code walk reaches them, each with its
   * root path appended to `prefix`: '0' for a step to the left child, '1'
   * for a step to the right child.
   */
  function CodeList(t: Huff, prefix: seq<char>): seq<Entry> {
    match t
    case Leaf(s, _) => [Entry(s, prefix)]
    case Merged(_, l, r) => CodeList(l, prefix + ['0']) + CodeList(r, prefix + ['1'])
  }

  /** a is an initial segment of b. */
  predicate IsPrefix(a: seq<char>, b: seq<char>) {
    |a| <= |b| && b[..|a|] == a
  }

  /** No code in the list is an initial segment of another entry's code. */
  ghost predicate PrefixFree(codes: seq<Entry>) {
    forall i, j :: 0 <= i < |codes| && 0 <= j < |codes| && i != j ==> !IsPrefix(codes[i].code, codes[j].code)
  }

  /** Every code starts with the prefix, and is longer than it below a merged node. */
  lemma {:induction false} CodeListExtends(t: Huff, prefix: seq<char>)
    ensures forall e :: e in CodeList(t, prefix) ==> IsPrefix(prefix, e.code)
    ensures t.Merged? ==> forall e :: e in CodeList(t, prefix) ==> |e.code| > |prefix|
  {
    match t
    case Leaf(_, _) =>
    case Merged(_, l, r) =>
      CodeListExtends(l, prefix + ['0']);
      CodeListExtends(r, prefix + ['1']);
      forall e | e in CodeList(t, prefix) ensures IsPrefix(prefix, e.code) && |e.code| > |prefix| {
        var p := if e in CodeList(l, prefix + ['0']) then prefix + ['0'] else prefix + ['1'];
        assert IsPrefix(p, e.code);
        assert e.code[..|prefix|] == p[..|prefix|];
      }
  }

  /** The code list has one entry per leaf, and every listed symbol is a leaf symbol. */
  lemma {:induction false} CodeListSymbols(t: Huff, prefix: seq<char>)
    ensures |CodeList(t, prefix)| == |Symbols(t)|
    ensures forall e :: e in CodeList(t, prefix) ==> e.symbol in Symbols(t)
  {
    match t
    case Leaf(_, _) =>
    case Merged(_, l, r) =>
      CodeListSymbols(l, prefix + ['0']);
      CodeListSymbols(r, prefix + ['1']);
  }

  /** Every entry's symbol indexes a table of n slots. */
  predicate EntriesBelow(entries: seq<Entry>, n: int) {
    forall e :: e in entries ==> 0 <= e.symbol < n
  }

  /** Every leaf symbol indexes a table of n slots. */
  predicate SymbolsBelow(t: Huff, n: int) {
    forall s :: s in Symbols(t) ==> 0 <= s < n
  }

  /** The codes the walk produces are prefix-free. */
  lemma {:induction false} CodesPrefixFree(t: Huff, prefix: seq<char>)
    ensures PrefixFree(CodeList(t, prefix))
  {
    match t
    case Leaf(_, _) =>
    case Merged(_, l, r) =>
      var a, b := CodeList(l, prefix + ['0']), CodeList(r, prefix + ['1']);
      CodesPrefixFree(l, prefix + ['0']);
      CodesPrefixFree(r, prefix + ['1']);
      CodeListExtends(l, prefix + ['0']);
      CodeListExtends(r, prefix + ['1']);
      var c := a + b;
      forall i, j | 0 <= i < |c| && 0 <= j < |c| && i != j
        ensures !IsPrefix(c[i].code, c[j].code)
      {
        if i < |a| && j < |a| {
          assert c[i] == a[i] && c[j] == a[j];
        } else if i >= |a| && j >= |a| {
          assert c[i] == b[i - |a|] && c[j] == b[j - |a|];
        } else {
          // The two codes part at position |prefix|: one has '0' there, the other '1'.
          var x, y := c[i].code, c[j].code;
          assert c[i] in a + b && c[j] in a + b;
          var xp := if i < |a| then prefix + ['0'] else prefix + ['1'];
          var yp := if j < |a| then prefix + ['0'] else prefix + ['1'];
          assert i < |a| ==> c[i] in a;
          assert i >= |a| ==> c[i] in b;
          assert j < |a| ==> c[j] in a;
          assert j >= |a| ==> c[j] in b;
          assert IsPrefix(xp, x) && IsPrefix(yp, y);
          assert x[|prefix|] == xp[|prefix|] != yp[|prefix|] == y[|prefix|];
        }
      }
  }

  /** The table after writing the entries one after another. */
  function Assign(table: seq<Option<seq<char>>>, entries: seq<Entry>): (r: seq<Option<seq<char>>>)
    requires EntriesBelow(entries, |table|)
    ensures |r| == |table|
    decreases |entries|
  {
    if entries == [] then table
    else Assign(table[entries[0].symbol := Some(entries[0].code)], entries[1..])
  }

  lemma {:induction false} AssignConcat(table: seq<Option<seq<char>>>, a: seq<Entry>, b: seq<Entry>)
    requires EntriesBelow(a, |table|) && EntriesBelow(b, |table|)
    ensures EntriesBelow(a + b, |table|)
    ensures Assign(table, a + b) == Assign(Assign(table, a), b)
    decreases |a|
  {
    if a == [] {
      assert a + b == b;
    } else {
      assert (a + b)[0] == a[0] && (a + b)[1..] == a[1..] + b;
      AssignConcat(table[a[0].symbol := Some(a[0].code)], a[1..], b);
    }
  }

  /**
   * When no symbol is listed twice, the table maps each listed symbol to
   * its own code and leaves every other slot as it was.
   */
  lemma {:induction false} AssignLookup(table: seq<Option<seq<char>>>, entries: seq<Entry>, s: int)
    requires EntriesBelow(entries, |table|)
    requires forall i, j :: 0 <= i < j < |entries| ==> entries[i].symbol != entries[j].symbol
    requires 0 <= s < |table|
    ensures forall k :: 0 <= k < |entries| && entries[k].symbol == s ==> Assign(table, entries)[s] == Some(entries[k].code)
    ensures (forall e :: e in entries ==> e.symbol != s) ==> Assign(table, entries)[s] == table[s]
    decreases |entries|
  {
    if entries != [] {
      var t := table[entries[0].symbol := Some(entries[0].code)];
      AssignLookup(t, entries[1..], s);
      forall k | 0 <= k < |entries| && entries[k].symbol == s
        ensures Assign(table, entries)[s] == Some(entries[k].code)
      {
        if k > 0 {
          assert entries[1..][k - 1] == entries[k];
        } else {
          forall e | e in entries[1..] ensures e.symbol != s {
            var m :| 0 <= m < |entries[1..]| && entries[1..][m] == e;
            assert entries[m + 1] == e;
          }
        }
      }
    }
  }

  /** Below a merged node the walk writes the left subtree's entries and then the right's. */
  lemma CodeListMerged(table: seq<Option<seq<char>>>, t: Huff, prefix: seq<char>)
    requires t.Merged? && SymbolsBelow(t, |table|)
    ensures SymbolsBelow(t.left, |table|) && SymbolsBelow(t.right, |table|)
    ensures EntriesBelow(CodeList(t, prefix), |table|)
    ensures EntriesBelow(CodeList(t.left, prefix + ['0']), |table|)
    ensures Assign(table, CodeList(t, prefix))
         == Assign(Assign(table, CodeList(t.left, prefix + ['0'])), CodeList(t.right, prefix + ['1']))
  {
    var a, b := CodeList(t.left, prefix + ['0']), CodeList(t.right, prefix + ['1']);
    assert Symbols(t) == Symbols(t.left) + Symbols(t.right);
    forall s | s in Symbols(t.left) ensures 0 <= s < |table| {
      assert s in Symbols(t);
    }
    forall s | s in Symbols(t.right) ensures 0 <= s < |table| {
      assert s in Symbols(t);
    }
    CodeListBelow(t.left, prefix + ['0'], |table|);
    CodeListBelow(t.right, prefix + ['1'], |table|);
    assert CodeList(t, prefix) == a + b;
    AssignConcat(table, a, b);
  }

  /** A tree whose leaf symbols index the table lists only such symbols. */
  lemma CodeListBelow(t: Huff, prefix: seq<char>, n: int)
    requires SymbolsBelow(t, n)
    ensures EntriesBelow(CodeList(t, prefix), n)
  {
    CodeListSymbols(t, prefix);
  }

  /**
   * The recursive code walk: `code[..depth]` holds the path to `root`; at a
   * leaf the path is closed with the terminator and copied into the
   * symbol's table slot, at a merged node the walk goes left with '0' and
   * then right with '1'. The code buffer must be deep enough for the tree
   * and every leaf symbol must index the table.
   */
  method GenerateHuffmanCodes(root: Huff, codes: array<Option<seq<char>>>, code: array<char>, depth: nat)
    requires depth + Height(root) < code.Length
    requires SymbolsBelow(root, codes.Length)
    modifies codes, code
    ensures code[..depth] == old(code[..depth])
    ensures EntriesBelow(CodeList(root, old(code[..depth])), codes.Length)
    ensures codes[..] == Assign(old(codes[..]), CodeList(root, old(code[..depth])))
    decreases root
  {
    ghost var prefix := code[..depth];
    match root
    case Leaf(s, _) =>
      code[depth] := '\0';
      assert code[..depth] == prefix;
      assert s in Symbols(root);
      codes[s] := Some(code[..depth]);
    case Merged(_, l, r) =>
      ghost var before := codes[..];
      CodeListMerged(before, root, prefix);
      code[depth] := '0';
      assert code[..depth + 1] == prefix + ['0'];
      GenerateHuffmanCodes(l, codes, code, depth + 1);
      assert code[..depth] == code[..depth + 1][..depth];
      code[depth] := '1';
      assert code[..depth + 1] == prefix + ['1'];
      GenerateHuffmanCodes(r, codes, code, depth + 1);
      assert code[..depth] == code[..depth + 1][..depth];
  }
}
