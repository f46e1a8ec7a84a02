/**
 * The bounded string of asd_lab_2.c: a heap buffer `data` of capacity + 1
 * characters, the `capacity` it was created with and the current `length`.
 * `unsigned` values are naturals below 2^32; a C string argument is the
 * sequence of its characters before the terminating NUL.
 */
module StringBuffer {

  const UINT_LIMIT: int := 0x1_0000_0000

  /** `s` with `count` characters removed from `start`, clamped to the end; unchanged when `start` is outside or `count` is 0. */
  function Deleted(s: string, start: nat, count: nat): string
  {
    if start >= |s| || count == 0 then s
    else if start + count > |s| then s[..start]
    else s[..start] + s[start + count..]
  }

  /** `sub` placed at position `start` of `s`. */
  function Inserted(s: string, sub: string, start: nat): (r: string)
    requires start <= |s|
    ensures |r| == |s| + |sub|
  {
    s[..start] + sub + s[start..]
  }

  /** What Delete removes: min(count, |s| - start) characters, nothing out of range. */
  lemma DeletedLength(s: string, start: nat, count: nat)
    ensures start >= |s| ==> Deleted(s, start, count) == s
    ensures start < |s| ==> |Deleted(s, start, count)| == |s| - (if start + count > |s| then |s| - start else count)
    ensures start < |s| ==> Deleted(s, start, count)[..start] == s[..start]
  {
  }

  /** Deleting exactly what was inserted gives the original string back. */
  lemma {:induction false} DeleteUndoesInsert(s: string, sub: string, start: nat)
    requires start <= |s|
    ensures Deleted(Inserted(s, sub, start), start, |sub|) == s
  {
    var t := Inserted(s, sub, start);
    if sub == [] {
      assert t == s;
    } else {
      assert t[..start] == s[..start];
      assert t[start + |sub|..] == s[start..];
      assert s == s[..start] + s[start..];
    }
  }

  /** The last character is a space. */
  predicate EndsInSpace(s: string)
  {
    |s| > 0 && s[|s| - 1] == ' '
  }

  /** `s` with every space removed. */
  function NoSpaces(s: string): (r: string)
    ensures |r| <= |s|
    ensures ' ' !in r
  {
    if s == [] then []
    else if s[0] == ' ' then NoSpaces(s[1..])
    else [s[0]] + NoSpaces(s[1..])
  }

  /** Skipping a run of spaces does not change the spaceless form. */
  lemma {:induction false} NoSpacesSkip(s: string, i: nat, j: nat)
    requires i <= j <= |s|
    requires forall k :: i <= k < j ==> s[k] == ' '
    ensures NoSpaces(s[i..]) == NoSpaces(s[j..])
    decreases j - i
  {
    if i < j {
      assert s[i..][1..] == s[i + 1..];
      NoSpacesSkip(s, i + 1, j);
    }
  }

  /** A suffix that is all spaces has an empty spaceless form, and ends in a space when non-empty. */
  lemma {:induction false} NoSpacesAllSpaces(s: string, i: nat)
    requires i <= |s|
    requires forall k :: i <= k < |s| ==> s[k] == ' '
    ensures NoSpaces(s[i..]) == []
  {
    NoSpacesSkip(s, i, |s|);
  }

  /**
   * Insert's two moves on the raw buffer: the text a[..len] and its
   * terminator shift up by n from `start`, then b[..n] fills the gap.
   */
  method Splice(a: array<char>, len: nat, start: nat, b: array<char>, n: nat)
    requires a != b && start <= len && len + n < a.Length && n <= b.Length
    modifies a
    ensures a[..len + n] == Inserted(old(a[..len]), b[..n], start)
    ensures a[len + n] == old(a[len])
  {
    ghost var before := a[..];
    MemMove(a, start + n, start, len - start + 1);
    ghost var shifted := a[..];
    MemCopy(a, start, b, 0, n);
    assert b[0..n] == b[..n];
    InsertLayout(before, shifted, a[..], b[..n], start, len);
  }

  /**
   * Delete's move on the raw buffer: the text a[..len] and its terminator
   * after `start + n` shift down by n, closing the gap at `start`.
   */
  method CloseGap(a: array<char>, len: nat, start: nat, n: nat)
    requires start + n <= len < a.Length
    modifies a
    ensures a[..len - n] == old(a[..len])[..start] + old(a[..len])[start + n..]
    ensures a[len - n] == old(a[len])
  {
    ghost var before := a[..];
    MemMove(a, start, start + n, len - start - n + 1);
    assert a[..] == before[..start] + before[start + n..len + 1] + before[len - n + 1..];
    assert a[..len - n] == before[..start] + before[start + n..len];
    assert before[..len][..start] == before[..start] && before[..len][start + n..] == before[start + n..len];
  }

  /**
   * Concat's moves on the raw buffers: b1[..n1] then b2[..n2] go to the
   * front of `a`, with a terminator after them.
   */
  method JoinOut(a: array<char>, b1: array<char>, n1: nat, b2: array<char>, n2: nat)
    requires a != b1 && a != b2 && n1 + n2 < a.Length && n1 <= b1.Length && n2 <= b2.Length
    modifies a
    ensures a[..n1 + n2] == b1[..n1] + b2[..n2] && a[n1 + n2] == '\0'
  {
    MemCopy(a, 0, b1, 0, n1);
    assert a[..n1] == b1[..n1];
    MemCopy(a, n1, b2, 0, n2);
    assert a[..n1 + n2] == a[..n1] + a[n1..n1 + n2];
    assert a[..n1 + n2] == b1[..n1] + b2[..n2];
    a[n1 + n2] := '\0';
    assert a[..n1 + n2] == b1[..n1] + b2[..n2];
  }

  /**
   * Copy's moves on the raw buffers: b[start..start + n], taken from the
   * first `len` characters of `b`, goes to the front of `a` with a
   * terminator after it.
   */
  method CopyOut(a: array<char>, b: array<char>, len: nat, start: nat, n: nat)
    requires a != b && n < a.Length && start + n <= len <= b.Length
    modifies a
    ensures a[..n] == b[..len][start..start + n] && a[n] == '\0'
  {
    MemCopy(a, 0, b, start, n);
    assert a[..n] == b[start..start + n];
    a[n] := '\0';
    assert a[..n] == b[start..start + n];
    assert b[..len][start..start + n] == b[start..start + n];
  }

  /**
   * The buffer after Insert's two moves: the tail (with its terminator)
   * shifted up by |sub|, then sub copied into the gap at `start`.
   */
  lemma InsertLayout(before: seq<char>, shifted: seq<char>, after: seq<char>, sub: string, start: nat, len: nat)
    requires start <= len && len + |sub| < |before|
    requires shifted == before[..start + |sub|] + before[start..start + (len - start + 1)] + before[start + |sub| + (len - start + 1)..]
    requires after == shifted[..start] + sub + shifted[start + |sub|..]
    ensures after[..len + |sub|] == Inserted(before[..len], sub, start)
    ensures after[len + |sub|] == before[len]
  {
    assert shifted[..start] == before[..start];
    assert shifted[start + |sub|..] == before[start..len + 1] + before[len + |sub| + 1..];
    assert after == before[..start] + sub + before[start..len] + [before[len]] + before[len + |sub| + 1..];
  }

  /** A sequence that agrees index by index with three pieces laid end to end is their concatenation. */
  lemma Spliced(s: seq<char>, x: seq<char>, y: seq<char>, z: seq<char>)
    requires |s| == |x| + |y| + |z|
    requires forall k :: 0 <= k < |x| ==> s[k] == x[k]
    requires forall k :: 0 <= k < |y| ==> s[|x| + k] == y[k]
    requires forall k :: 0 <= k < |z| ==> s[|x| + |y| + k] == z[k]
    ensures s == x + y + z
  {
  }

  /**
   * Copy `n` characters within one array from `src` to `dst`, the regions
   * possibly overlapping, as `memmove` does (as if through a temporary).
   */
  method MemMove(a: array<char>, dst: nat, src: nat, n: nat)
    requires dst + n <= a.Length && src + n <= a.Length
    modifies a
    ensures a[..] == old(a[..dst]) + old(a[src..src + n]) + old(a[dst + n..])
  {
    var snapshot := a[..];
    for i := 0 to n
      invariant forall k :: 0 <= k < a.Length && !(dst <= k < dst + i) ==> a[k] == snapshot[k]
      invariant forall k :: dst <= k < dst + i ==> a[k] == snapshot[src + k - dst]
    {
      a[dst + i] := snapshot[src + i];
    }
    Spliced(a[..], snapshot[..dst], snapshot[src..src + n], snapshot[dst + n..]);
  }

  /** Copy `n` characters from one array into another, as `memcpy` does. */
  method MemCopy(a: array<char>, dst: nat, b: array<char>, src: nat, n: nat)
    requires a != b
    requires dst + n <= a.Length && src + n <= b.Length
    modifies a
    ensures a[..] == old(a[..dst]) + b[src..src + n] + old(a[dst + n..])
  {
    for i := 0 to n
      invariant forall k :: 0 <= k < a.Length && !(dst <= k < dst + i) ==> a[k] == old(a[k])
      invariant forall k :: dst <= k < dst + i ==> a[k] == b[src + k - dst]
    {
      a[dst + i] := b[src + i];
    }
    Spliced(a[..], old(a[..dst]), b[src..src + n], old(a[dst + n..]));
  }

  class StringBuffer {
    var data: array?<char>
    var capacity: nat
    var length: nat

    ghost predicate Valid()
      reads this
    {
      && capacity < UINT_LIMIT - 1
      && (length < capacity || length == 0)
      && (data == null ==> capacity == 0 && length == 0)
      && (data != null ==> data.Length == capacity + 1)
    }

    /** The characters held. */
    function Contents(): (s: string)
      reads this, data
      requires Valid()
      ensures |s| == length
    {
      if data == null then [] else data[..length]
    }

    /** InitStr: a buffer of size + 1 characters, capacity = size, length = 0. */
    constructor (size: nat)
      requires size < UINT_LIMIT - 1
      ensures Valid() && data != null && fresh(data)
      ensures capacity == size && length == 0 && Contents() == []
    {
      data := new char[size + 1];
      capacity := size;
      length := 0;
    }

    /**
     * WriteToStr: append the characters of `source` one by one while
     * length < capacity - 1; on reaching that limit stop, keeping what was
     * written and writing no terminator. A capacity of 0 with a non-empty
     * source wraps `capacity - 1` and overruns the buffer, so it is excluded.
     */
    method WriteToStr(source: string)
      requires Valid() && data != null
      requires '\0' !in source
      requires capacity >= 1 || source == []
      modifies data, this
      ensures Valid() && data == old(data) && capacity == old(capacity)
      ensures var room := if capacity == 0 then 0 else capacity - 1 - old(length);
        Contents() == old(Contents()) + source[..if |source| <= room then |source| else room]
      ensures source == [] || old(length) + |source| <= capacity - 1 ==> data[length] == '\0'
    {
      var i := 0;
      while i < |source|
        invariant 0 <= i <= |source|
        invariant Valid() && data == old(data) && capacity == old(capacity)
        invariant length == old(length) + i
        invariant data[..length] == old(data[..length]) + source[..i]
      {
        if length >= capacity - 1 {
          return;
        }
        data[length] := source[i];
        length := length + 1;
        i := i + 1;
      }
      data[length] := '\0';
    }

    /**
     * Delete: nothing when start_index >= length or count == 0; otherwise
     * count is clamped to length - start_index and the tail, terminator
     * included, moves down over the removed characters.
     */
    method Delete(startIndex: nat, count: nat)
      requires Valid() && data != null
      requires startIndex >= length || count == 0 || startIndex + count < UINT_LIMIT
      modifies data, this
      ensures Valid() && data == old(data) && capacity == old(capacity)
      ensures Contents() == Deleted(old(Contents()), startIndex, count)
      ensures data[length] == old(data[length])
    {
      if startIndex >= length {
        return;
      }
      if count == 0 {
        return;
      }
      var n := count;
      if startIndex + n > length {
        n := length - startIndex;
      }
      CloseGap(data, length, startIndex, n);
      length := length - n;
    }

    /**
     * Insert: rejected when start_index > length or the result would not
     * fit (length + substring.length >= capacity); otherwise the tail moves
     * up and the substring is copied into the gap.
     */
    method Insert(substring: StringBuffer, startIndex: nat)
      requires Valid() && data != null
      requires substring.Valid() && substring.data != null && substring.data != data
      requires startIndex > length || length + substring.length < UINT_LIMIT
      modifies data, this
      ensures Valid() && data == old(data) && capacity == old(capacity)
      ensures startIndex > old(length) || old(length) + substring.length >= capacity ==>
        length == old(length) && data[..] == old(data[..])
      ensures startIndex <= old(length) && old(length) + substring.length < capacity ==>
        Contents() == Inserted(old(Contents()), substring.Contents(), startIndex)
      ensures data[length] == old(data[length])
    {
      if startIndex > length {
        return;
      }
      var newLength := length + substring.length;
      if newLength >= capacity {
        return;
      }
      Splice(data, length, startIndex, substring.data, substring.length);
      length := newLength;
    }

    /**
     * Concat, with this buffer as the result: str1 followed by str2 and a
     * terminator when len1 + len2 < capacity; otherwise nothing changes.
     */
    method Concat(str1: StringBuffer, str2: StringBuffer)
      requires Valid() && data != null
      requires str1.Valid() && str1.data != null && str1.data != data
      requires str2.Valid() && str2.data != null && str2.data != data
      requires str1.length + str2.length < UINT_LIMIT
      modifies data, this
      ensures Valid() && data == old(data) && capacity == old(capacity)
      ensures str1.length + str2.length >= capacity ==> length == old(length) && data[..] == old(data[..])
      ensures str1.length + str2.length < capacity ==>
        Contents() == str1.Contents() + str2.Contents() && data[length] == '\0'
    {
      var len1 := str1.length;
      var len2 := str2.length;
      if len1 + len2 >= capacity {
        return;
      }
      JoinOut(data, str1.data, len1, str2.data, len2);
      length := len1 + len2;
    }

    /**
     * Copy, with this buffer as the substring: rejected when count >=
     * capacity or start_index >= str.length; otherwise count is clamped to
     * str.length - start_index, the characters are copied and terminated.
     */
    method Copy(str: StringBuffer, startIndex: nat, count: nat)
      requires Valid() && data != null
      requires str.Valid() && str.data != null && str.data != data
      requires count >= capacity || startIndex >= str.length || startIndex + count < UINT_LIMIT
      modifies data, this
      ensures Valid() && data == old(data) && capacity == old(capacity)
      ensures count >= capacity || startIndex >= str.length ==> length == old(length) && data[..] == old(data[..])
      ensures count < capacity && startIndex < str.length ==>
        var n := if startIndex + count > str.length then str.length - startIndex else count;
        Contents() == str.Contents()[startIndex..startIndex + n] && data[length] == '\0'
    {
      if count >= capacity {
        return;
      }
      if startIndex >= str.length {
        return;
      }
      var n := count;
      if startIndex + n > str.length {
        n := str.length - startIndex;
      }
      CopyOut(data, str.data, str.length, startIndex, n);
      length := n;
    }

    /** DoneStr: the buffer is released, data = NULL, capacity = length = 0. */
    method DoneStr()
      requires Valid()
      modifies this
      ensures Valid() && data == null && capacity == 0 && length == 0 && Contents() == []
    {
      data := null;
      capacity := 0;
      length := 0;
    }
  }

  /**
   * SkipSpaces: from position `i` of a C string, the position of the first
   * character that is not a space (possibly the terminator, at |s|).
   */
  method SkipSpaces(s: string, i: nat) returns (j: nat)
    requires i <= |s|
    ensures i <= j <= |s|
    ensures forall k :: i <= k < j ==> s[k] == ' '
    ensures j == |s| || s[j] != ' '
  {
    j := i;
    while j < |s| && s[j] == ' '
      invariant i <= j <= |s|
      invariant forall k :: i <= k < j ==> s[k] == ' '
    {
      j := j + 1;
    }
  }

  /** The character under a pointer into a C string: the terminator at the end. */
  function At(s: string, i: nat): char
  {
    if i < |s| then s[i] else '\0'
  }

  /** What WordCmp decides: equal without spaces, and neither ending in a space. */
  ghost predicate SameWords(a: string, b: string)
  {
    NoSpaces(a) == NoSpaces(b) && !EndsInSpace(a) && !EndsInSpace(b)
  }

  /** A string whose spaceless form is empty consists of spaces. */
  lemma {:induction false} NoSpacesEmpty(x: string)
    requires NoSpaces(x) == []
    ensures forall k :: 0 <= k < |x| ==> x[k] == ' '
  {
    if x != [] {
      NoSpacesEmpty(x[1..]);
      forall k | 0 < k < |x| ensures x[k] == ' ' {
        assert x[k] == x[1..][k - 1];
      }
    }
  }

  /** Skipping spaces from `i` to a character at `j` keeps both parts of SameWords. */
  lemma SkipKeeps(s: string, i: nat, j: nat)
    requires i <= j < |s|
    requires forall k :: i <= k < j ==> s[k] == ' '
    ensures NoSpaces(s[i..]) == NoSpaces(s[j..])
    ensures EndsInSpace(s[i..]) == EndsInSpace(s[j..])
  {
    NoSpacesSkip(s, i, j);
  }

  /** A non-empty suffix of spaces ends in a space and has an empty spaceless form. */
  lemma SkipToEnd(s: string, i: nat)
    requires i < |s|
    requires forall k :: i <= k < |s| ==> s[k] == ' '
    ensures EndsInSpace(s[i..]) && NoSpaces(s[i..]) == []
  {
    NoSpacesSkip(s, i, |s|);
  }

  /** Stepping over a non-space character. */
  lemma StepChar(s: string, j: nat)
    requires j < |s| && s[j] != ' '
    ensures NoSpaces(s[j..]) == [s[j]] + NoSpaces(s[j + 1..])
    ensures EndsInSpace(s[j..]) == EndsInSpace(s[j + 1..])
  {
    assert s[j..][1..] == s[j + 1..];
  }

  /** One round of WordCmp's loop, from positions (i1, i2) skipped to (j1, j2). */
  lemma WordCmpRound(s1: string, s2: string, i1: nat, i2: nat, j1: nat, j2: nat)
    requires '\0' !in s1 && '\0' !in s2
    requires i1 <= j1 <= |s1| && i2 <= j2 <= |s2| && i1 < |s1| && i2 < |s2|
    requires forall k :: i1 <= k < j1 ==> s1[k] == ' '
    requires forall k :: i2 <= k < j2 ==> s2[k] == ' '
    requires j1 == |s1| || s1[j1] != ' '
    requires j2 == |s2| || s2[j2] != ' '
    requires !(EndsInSpace(s1[i1..]) && EndsInSpace(s2[i2..]))
    ensures At(s1, j1) != At(s2, j2) ==> !SameWords(s1[i1..], s2[i2..])
    ensures At(s1, j1) == At(s2, j2) ==> (j1 < |s1| && j2 < |s2|
      && (SameWords(s1[i1..], s2[i2..]) <==> SameWords(s1[j1 + 1..], s2[j2 + 1..]))
      && !(EndsInSpace(s1[j1 + 1..]) && EndsInSpace(s2[j2 + 1..])))
  {
    if j1 == |s1| {
      SkipToEnd(s1, i1);
    } else {
      SkipKeeps(s1, i1, j1);
      StepChar(s1, j1);
    }
    if j2 == |s2| {
      SkipToEnd(s2, i2);
    } else {
      SkipKeeps(s2, i2, j2);
      StepChar(s2, j2);
    }
    if At(s1, j1) == At(s2, j2) {
      if NoSpaces(s1[j1..]) == NoSpaces(s2[j2..]) {
        assert NoSpaces(s1[j1 + 1..]) == NoSpaces(s1[j1..])[1..];
        assert NoSpaces(s2[j2 + 1..]) == NoSpaces(s2[j2..])[1..];
      }
    } else if j1 < |s1| && j2 < |s2| {
      assert NoSpaces(s1[j1..])[0] != NoSpaces(s2[j2..])[0];
    }
  }

  /** When WordCmp's loop stops, SameWords holds exactly when both strings are used up. */
  lemma WordCmpEnd(s1: string, s2: string, i1: nat, i2: nat)
    requires i1 <= |s1| && i2 <= |s2|
    requires i1 == |s1| || i2 == |s2|
    ensures SameWords(s1[i1..], s2[i2..]) <==> i1 == |s1| && i2 == |s2|
  {
    if i1 < |s1| && NoSpaces(s1[i1..]) == [] {
      NoSpacesEmpty(s1[i1..]);
      assert s1[i1..][|s1| - i1 - 1] == ' ';
    }
    if i2 < |s2| && NoSpaces(s2[i2..]) == [] {
      NoSpacesEmpty(s2[i2..]);
      assert s2[i2..][|s2| - i2 - 1] == ' ';
    }
  }

  /**
   * WordCmp: while neither pointer is at the terminator, skip spaces in
   * both, fail on a mismatch, and step both on; equal when both end
   * together. The result ignores every space except that a string ending
   * in a space never compares equal. When both strings end in spaces the
   * C code can step past the terminators, so that case is excluded.
   */
  method WordCmp(s1: string, s2: string) returns (r: bool)
    requires '\0' !in s1 && '\0' !in s2
    requires !(EndsInSpace(s1) && EndsInSpace(s2))
    ensures r <==> NoSpaces(s1) == NoSpaces(s2) && !EndsInSpace(s1) && !EndsInSpace(s2)
  {
    var i1, i2 := 0, 0;
    assert s1[0..] == s1 && s2[0..] == s2;
    while i1 < |s1| && i2 < |s2|
      invariant i1 <= |s1| && i2 <= |s2|
      invariant !(EndsInSpace(s1[i1..]) && EndsInSpace(s2[i2..]))
      invariant SameWords(s1, s2) <==> SameWords(s1[i1..], s2[i2..])
      decreases |s1| - i1
    {
      var j1 := SkipSpaces(s1, i1);
      var j2 := SkipSpaces(s2, i2);
      WordCmpRound(s1, s2, i1, i2, j1, j2);
      if At(s1, j1) != At(s2, j2) {
        return false;
      }
      i1, i2 := j1 + 1, j2 + 1;
    }
    WordCmpEnd(s1, s2, i1, i2);
    r := i1 == |s1| && i2 == |s2|;
  }

  /** Removing spaces distributes over concatenation. */
  lemma {:induction false} NoSpacesConcat(a: string, b: string)
    ensures NoSpaces(a + b) == NoSpaces(a) + NoSpaces(b)
  {
    if a == [] {
      assert a + b == b;
    } else {
      assert (a + b)[0] == a[0] && (a + b)[1..] == a[1..] + b;
      NoSpacesConcat(a[1..], b);
    }
  }

  /** TestInitStr: capacity 10, length 0. */
  method InitStrTest() returns (capacity: nat, length: nat)
    ensures capacity == 10 && length == 0
  {
    var str := new StringBuffer(10);
    capacity, length := str.capacity, str.length;
    str.DoneStr();
  }

  /** TestWriteToStr: "Hello" fits in capacity 10, length 5. */
  method WriteToStrTest() returns (written: string)
    ensures written == "Hello" && |written| == 5
  {
    var str := new StringBuffer(10);
    str.WriteToStr("Hello");
    written := str.Contents();
    str.DoneStr();
  }

  /** InitStr of `size` followed by WriteToStr of a text that fits: the buffer holds the text. */
  method FilledBuffer(size: nat, text: string) returns (str: StringBuffer)
    requires size < UINT_LIMIT - 1 && '\0' !in text && |text| < size
    ensures fresh(str) && fresh(str.data)
    ensures str.Valid() && str.data != null && str.capacity == size && str.Contents() == text
  {
    str := new StringBuffer(size);
    str.WriteToStr(text);
    assert text[..|text|] == text;
  }

  /** TestDelete: removing one character at 5 from "Hello World". */
  method DeleteTest() returns (deleted: string)
    ensures deleted == "HelloWorld"
  {
    var str := FilledBuffer(20, "Hello World");
    str.Delete(5, 1);
    assert "Hello World"[..5] + "Hello World"[6..] == "HelloWorld";
    deleted := str.Contents();
  }

  /** The string TestInsert expects. */
  lemma HelloInserted()
    ensures Inserted("Helo World", "l", 3) == "Hello World"
  {
    assert "Helo World"[..3] == "Hel" && "Helo World"[3..] == "o World";
  }

  /** TestInsert: "l" inserted at 3 of "Helo World". */
  method InsertTest() returns (inserted: string)
    ensures inserted == "Hello World"
  {
    var str := FilledBuffer(20, "Helo World");
    var sub := FilledBuffer(10, "l");
    str.Insert(sub, 3);
    HelloInserted();
    inserted := str.Contents();
  }

  /** TestConcat: "Hello" and "World" into a buffer of capacity 20. */
  method ConcatTest() returns (concatenated: string)
    ensures concatenated == "HelloWorld"
  {
    var str1 := FilledBuffer(10, "Hello");
    var str2 := FilledBuffer(10, "World");
    var result := new StringBuffer(20);
    result.Concat(str1, str2);
    concatenated := result.Contents();
    assert concatenated == "Hello" + "World";
  }

  /** A string without spaces is its own spaceless form. */
  lemma {:induction false} NoSpacesNone(x: string)
    requires ' ' !in x
    ensures NoSpaces(x) == x
  {
    if x != [] {
      assert x[0] != ' ' && ' ' !in x[1..];
      NoSpacesNone(x[1..]);
    }
  }

  /** A string of spaces has an empty spaceless form. */
  lemma {:induction false} NoSpacesOnly(x: string)
    requires forall k :: 0 <= k < |x| ==> x[k] == ' '
    ensures NoSpaces(x) == []
  {
    if x != [] {
      NoSpacesOnly(x[1..]);
    }
  }

  /** The spaceless form of `a`, a run of spaces and `b`, neither holding a space. */
  lemma NoSpacesAround(a: string, spaces: string, b: string)
    requires ' ' !in a && ' ' !in b
    requires forall k :: 0 <= k < |spaces| ==> spaces[k] == ' '
    ensures NoSpaces(a + spaces + b) == a + b
  {
    var front := a + spaces;
    assert NoSpaces(front) == a by {
      NoSpacesConcat(a, spaces);
      NoSpacesNone(a);
      NoSpacesOnly(spaces);
      assert a + [] == a;
    }
    assert NoSpaces(b) == b by {
      NoSpacesNone(b);
    }
    NoSpacesConcat(front, b);
  }

  /** The spaceless form of the first string TestWordCmp compares. */
  lemma ThreeSpaces(s: string)
    requires s == "Hello   world"
    ensures NoSpaces(s) == "Helloworld"
    ensures '\0' !in s && !EndsInSpace(s)
  {
    assert s == s[..5] + s[5..8] + s[8..];
    NoSpacesAround(s[..5], s[5..8], s[8..]);
    assert s[..5] + s[8..] == "Helloworld";
  }

  /** The spaceless form of the second string TestWordCmp compares. */
  lemma OneSpace(s: string)
    requires s == "Hello world"
    ensures NoSpaces(s) == "Helloworld"
    ensures '\0' !in s && !EndsInSpace(s)
  {
    assert s == s[..5] + s[5..6] + s[6..];
    NoSpacesAround(s[..5], s[5..6], s[6..]);
    assert s[..5] + s[6..] == "Helloworld";
  }

  /** The spaceless form of the third string TestWordCmp compares. */
  lemma TwoSpaces(s: string)
    requires s == "Hello  world!"
    ensures NoSpaces(s) == "Helloworld!"
    ensures '\0' !in s && !EndsInSpace(s)
  {
    assert s == s[..5] + s[5..7] + s[7..];
    NoSpacesAround(s[..5], s[5..7], s[7..]);
    assert s[..5] + s[7..] == "Helloworld!";
  }

  /** TestWordCmp: runs of spaces are ignored, a differing character is not. */
  method WordCmpTest() returns (same: bool, different: bool)
    ensures same && !different
  {
    same := SpacesIgnoredTest();
    different := CharacterCountsTest();
  }

  /** "Hello   world" and "Hello world" compare equal. */
  method SpacesIgnoredTest() returns (same: bool)
    ensures same
  {
    ThreeSpaces("Hello   world");
    OneSpace("Hello world");
    same := WordCmp("Hello   world", "Hello world");
  }

  /** "Hello   world" and "Hello  world!" differ in the final "!". */
  method CharacterCountsTest() returns (different: bool)
    ensures !different
  {
    ThreeSpaces("Hello   world");
    TwoSpaces("Hello  world!");
    different := WordCmp("Hello   world", "Hello  world!");
  }
}
