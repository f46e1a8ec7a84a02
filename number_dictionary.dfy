/**
 * The word-to-number dictionary of labs/asd_lab_8_task.c: TABLE_SIZE
 * bucket chains of (word, value) nodes, new nodes put at the head of
 * their chain, and the rule of processText that replaces each run of
 * dictionary words on a line by the sum of their values.
 */
module NumberDictionary {
  import opened Common
  import ChainedHashTable

  const TABLE_SIZE: int := 200
  /** Size of the `word` buffer of a node; strcpy needs room for the terminator. */
  const MAX_LENGTH: int := 100
  /** unsigned int is 32 bits wide. */
  const UINT_LIMIT: int := 0x1_0000_0000

  type Entry = ChainedHashTable.Entry

  /** The shift-add hash before reduction: h = 0, then h = (h << 5) + c for each character, modulo 2^32. */
  function ShiftAdd(word: string): (h: int)
    ensures 0 <= h < UINT_LIMIT
  {
    if word == [] then 0
    else ((ShiftAdd(word[..|word| - 1]) * 32) % UINT_LIMIT + SignedChar(word[|word| - 1])) % UINT_LIMIT
  }

  /** The chain a word belongs to. */
  function Index(word: string): (i: nat)
    ensures i < TABLE_SIZE
  {
    ShiftAdd(word) % TABLE_SIZE
  }

  /** hash: the shift-add loop over the characters, then `% TABLE_SIZE`. */
  method Hash(word: string) returns (index: nat)
    ensures index == Index(word) && index < TABLE_SIZE
  {
    var hashValue := 0;
    var i := 0;
    while i < |word|
      invariant 0 <= i <= |word|
      invariant hashValue == ShiftAdd(word[..i])
    {
      assert word[..i + 1][..i] == word[..i];
      hashValue := ((hashValue * 32) % UINT_LIMIT + SignedChar(word[i])) % UINT_LIMIT;
      i := i + 1;
    }
    assert word[..i] == word;
    index := hashValue % TABLE_SIZE;
  }

  /** A word that fits a node's buffer as a C string. */
  predicate Storable(word: string)
  {
    |word| < MAX_LENGTH && '\0' !in word
  }

  /** What hashTableSearch answers for a chain: the value of the first node with the word, or -1. */
  function SearchResult(chain: seq<Entry>, word: string): (v: int)
    ensures ChainedHashTable.Find(chain, word).Some? ==> v == ChainedHashTable.Find(chain, word).value
    ensures ChainedHashTable.Find(chain, word).None? ==> v == -1
  {
    match ChainedHashTable.Find(chain, word)
    case Some(value) => value
    case None => -1
  }

  /** The value the last entry with this word gives it, if any entry does. */
  function LastValue(entries: seq<Entry>, word: string): (r: Option<int>)
    ensures r.Some? <==> exists j :: 0 <= j < |entries| && entries[j].key == word
    ensures r.Some? ==> exists j :: (0 <= j < |entries| && entries[j] == ChainedHashTable.Entry(word, r.value) &&
      forall k :: j < k < |entries| ==> entries[k].key != word)
  {
    if entries == [] then None
    else if entries[|entries| - 1].key == word then Some(entries[|entries| - 1].value)
    else
      var r := LastValue(entries[..|entries| - 1], word);
      LastValueStep(entries, word, r);
      r
  }

  /** The contract of LastValue carries over past a last entry with another word. */
  lemma LastValueStep(entries: seq<Entry>, word: string, r: Option<int>)
    requires entries != [] && entries[|entries| - 1].key != word
    requires var init := entries[..|entries| - 1];
      && (r.Some? <==> exists j :: 0 <= j < |init| && init[j].key == word)
      && (r.Some? ==> exists j :: (0 <= j < |init| && init[j] == ChainedHashTable.Entry(word, r.value) &&
            forall k :: j < k < |init| ==> init[k].key != word))
    ensures r.Some? <==> exists j :: 0 <= j < |entries| && entries[j].key == word
    ensures r.Some? ==> exists j :: (0 <= j < |entries| && entries[j] == ChainedHashTable.Entry(word, r.value) &&
      forall k :: j < k < |entries| ==> entries[k].key != word)
  {
    var init := entries[..|entries| - 1];
    assert forall j :: 0 <= j < |init| ==> init[j] == entries[j];
  }

  class HashTable {
    var table: array<seq<Entry>>

    /** TABLE_SIZE chains; every node sits in the chain of its word, and its word fits the node's buffer. */
    ghost predicate Valid()
      reads this, table
    {
      && table.Length == TABLE_SIZE
      && forall i, j :: 0 <= i < TABLE_SIZE && 0 <= j < |table[i]| ==>
           Index(table[i][j].key) == i && Storable(table[i][j].key)
    }

    /** The dictionary as hashTableSearch sees it: the head-most node with the word wins. */
    ghost function Lookup(word: string): Option<int>
      reads this, table
      requires Valid()
    {
      ChainedHashTable.Find(table[Index(word)], word)
    }

    /** createHashTable: TABLE_SIZE empty chains. */
    constructor ()
      ensures Valid() && fresh(table)
      ensures forall word :: Lookup(word) == None
    {
      table := new seq<Entry>[TABLE_SIZE](_ => []);
    }

    /**
     * hashTableInsert: put a new node at the head of the word's chain,
     * without looking for an older node with the same word, which stays
     * behind it. strcpy into the 100-byte buffer needs a shorter word.
     */
    method Insert(word: string, value: int)
      requires Valid() && Storable(word)
      modifies table
      ensures Valid()
      ensures table[..] == old(table[..])[Index(word) := [ChainedHashTable.Entry(word, value)] + old(table[Index(word)])]
      ensures forall w :: Lookup(w) == if w == word then Some(value) else old(Lookup(w))
    {
      var index := Hash(word);
      table[index] := [ChainedHashTable.Entry(word, value)] + table[index];
      forall w
        ensures Lookup(w) == if w == word then Some(value) else old(Lookup(w))
      {
        if w != word && Index(w) == index {
          assert table[index][1..] == old(table[index]);
        }
      }
    }

    /** hashTableSearch: walk the word's chain; the first node with the word gives its value, otherwise -1. */
    method Search(word: string) returns (value: int)
      requires Valid()
      ensures Lookup(word).Some? ==> value == Lookup(word).value
      ensures Lookup(word).None? ==> value == -1
      ensures value == SearchResult(table[Index(word)], word)
    {
      var index := Hash(word);
      var chain := table[index];
      var j := 0;
      while j < |chain|
        invariant 0 <= j <= |chain|
        invariant ChainedHashTable.Find(chain[j..], word) == Lookup(word)
      {
        assert chain[j..][1..] == chain[j + 1..];
        if chain[j].key == word {
          return chain[j].value;
        }
        j := j + 1;
      }
      return -1;
    }

    /**
     * The insertion loop of createNumberDict, over the (word, value) pairs
     * the file yields: afterwards each word listed maps to the value of its
     * LAST pair, and every other word keeps its meaning.
     */
    method CreateNumberDict(entries: seq<Entry>)
      requires Valid()
      requires forall j :: 0 <= j < |entries| ==> Storable(entries[j].key)
      modifies table
      ensures Valid()
      ensures forall w :: Lookup(w) == if LastValue(entries, w).Some? then LastValue(entries, w) else old(Lookup(w))
    {
      var i := 0;
      while i < |entries|
        invariant 0 <= i <= |entries| && Valid()
        invariant forall w :: Lookup(w) == if LastValue(entries[..i], w).Some? then LastValue(entries[..i], w) else old(Lookup(w))
      {
        Insert(entries[i].key, entries[i].value);
        assert entries[..i + 1][..i] == entries[..i];
        i := i + 1;
      }
      assert entries[..i] == entries;
    }

    /** What hashTableSearch answers for each token of a line. */
    ghost function Results(tokens: seq<string>): (r: seq<int>)
      reads this, table
      requires Valid()
      ensures |r| == |tokens|
      ensures forall i :: 0 <= i < |tokens| ==> r[i] == SearchResult(table[Index(tokens[i])], tokens[i])
    {
      if tokens == [] then []
      else [SearchResult(table[Index(tokens[0])], tokens[0])] + Results(tokens[1..])
    }

    /**
     * The inner loop of processText for one line's tokens: dictionary words
     * are added to sumNumbers; any other token first flushes a pending sum,
     * then is written itself; a pending sum is flushed at end of line.
     */
    method ProcessLine(tokens: seq<string>) returns (out: seq<Piece>)
      requires Valid()
      ensures out == Collapse(tokens, Results(tokens), None)
    {
      ghost var values := Results(tokens);
      var sumNumbers := 0;
      var hasNumber := false;
      out := [];
      var i := 0;
      while i < |tokens|
        invariant 0 <= i <= |tokens|
        invariant !hasNumber ==> sumNumbers == 0
        invariant Collapse(tokens, values, None) ==
          out + Collapse(tokens[i..], values[i..], if hasNumber then Some(sumNumbers) else None)
      {
        out, sumNumbers, hasNumber := ProcessToken(tokens, values, i, out, sumNumbers, hasNumber);
        i := i + 1;
      }
      assert tokens[i..] == [] && values[i..] == [];
      if hasNumber {
        out := out + [Number(sumNumbers)];
      }
    }

    /**
     * One turn of the inner loop: a dictionary word joins the pending sum;
     * any other token first flushes the pending sum and is then written.
     */
    method ProcessToken(tokens: seq<string>, ghost values: seq<int>, i: nat, out: seq<Piece>, sumNumbers: int, hasNumber: bool)
      returns (out': seq<Piece>, sumNumbers': int, hasNumber': bool)
      requires Valid() && |values| == |tokens| && i < |tokens| && (!hasNumber ==> sumNumbers == 0)
      requires values[i] == SearchResult(table[Index(tokens[i])], tokens[i])
      ensures !hasNumber' ==> sumNumbers' == 0
      ensures out + Collapse(tokens[i..], values[i..], if hasNumber then Some(sumNumbers) else None) ==
        out' + Collapse(tokens[i + 1..], values[i + 1..], if hasNumber' then Some(sumNumbers') else None)
    {
      var value := Search(tokens[i]);
      out', sumNumbers', hasNumber' := out, sumNumbers, hasNumber;
      if value != -1 {
        CollapseKnown(tokens, values, i, hasNumber, sumNumbers);
        sumNumbers' := sumNumbers' + value;
        hasNumber' := true;
      } else {
        CollapseUnknown(tokens, values, i, hasNumber, sumNumbers, out);
        if hasNumber' {
          out' := out' + [Number(sumNumbers')];
          sumNumbers' := 0;
          hasNumber' := false;
        }
        out' := out' + [Word(tokens[i])];
      }
    }
  }

  /** One item written to the output line: a sum ("%d ") or a copied token ("%s "). */
  datatype Piece = Number(n: int) | Word(w: string)

  /** A pending sum, written out. */
  function Flush(pending: Option<int>): seq<Piece>
  {
    if pending.Some? then [Number(pending.value)] else []
  }

  /**
   * The output for `words` whose search results are `values`, with
   * `pending` the sum of the dictionary run just before them: -1 marks a
   * word the dictionary lacks.
   */
  function Collapse(words: seq<string>, values: seq<int>, pending: Option<int>): seq<Piece>
    requires |words| == |values|
  {
    if words == [] then Flush(pending)
    else if values[0] != -1 then
      Collapse(words[1..], values[1..], Some((if pending.Some? then pending.value else 0) + values[0]))
    else Flush(pending) + [Word(words[0])] + Collapse(words[1..], values[1..], None)
  }

  /** One step of Collapse at a dictionary word: the word's value joins the pending sum. */
  lemma CollapseKnown(words: seq<string>, values: seq<int>, i: nat, hasNumber: bool, sum: int)
    requires |words| == |values| && i < |words| && values[i] != -1 && (!hasNumber ==> sum == 0)
    ensures Collapse(words[i..], values[i..], if hasNumber then Some(sum) else None) ==
      Collapse(words[i + 1..], values[i + 1..], Some(sum + values[i]))
  {
    var w, v := words[i..], values[i..];
    assert w != [] && v[0] == values[i];
    assert w[1..] == words[i + 1..] && v[1..] == values[i + 1..];
  }

  /** One step of Collapse at a position holding another token: the pending sum, then the token. */
  lemma CollapseUnknown(words: seq<string>, values: seq<int>, i: nat, hasNumber: bool, sum: int, out: seq<Piece>)
    requires |words| == |values| && i < |words| && values[i] == -1
    ensures out + Collapse(words[i..], values[i..], if hasNumber then Some(sum) else None) ==
      (if hasNumber then out + [Number(sum)] else out) + [Word(words[i])] + Collapse(words[i + 1..], values[i + 1..], None)
  {
    var w, v := words[i..], values[i..];
    assert w != [] && w[0] == words[i] && v[0] == values[i];
    assert w[1..] == words[i + 1..] && v[1..] == values[i + 1..];
    var pending := if hasNumber then Some(sum) else None;
    assert Collapse(w, v, pending) == Flush(pending) + [Word(words[i])] + Collapse(words[i + 1..], values[i + 1..], None);
    if hasNumber {
      assert out + Flush(pending) == out + [Number(sum)];
    } else {
      assert out + Flush(pending) == out;
    }
  }

  /** The copied tokens of an output line. */
  function Words(out: seq<Piece>): seq<string>
  {
    if out == [] then [] else (if out[0].Word? then [out[0].w] else []) + Words(out[1..])
  }

  /** The sum of the numbers of an output line. */
  function Total(out: seq<Piece>): int
  {
    if out == [] then 0 else (if out[0].Number? then out[0].n else 0) + Total(out[1..])
  }

  /** The tokens the dictionary lacks, in order. */
  function Unknown(words: seq<string>, values: seq<int>): seq<string>
    requires |words| == |values|
  {
    if words == [] then [] else (if values[0] == -1 then [words[0]] else []) + Unknown(words[1..], values[1..])
  }

  /** The sum of the dictionary values of a line. */
  function Known(values: seq<int>): int
  {
    if values == [] then 0 else (if values[0] != -1 then values[0] else 0) + Known(values[1..])
  }

  lemma {:induction false} WordsConcat(a: seq<Piece>, b: seq<Piece>)
    ensures Words(a + b) == Words(a) + Words(b)
    ensures Total(a + b) == Total(a) + Total(b)
  {
    if a != [] {
      assert (a + b)[0] == a[0] && (a + b)[1..] == a[1..] + b;
      WordsConcat(a[1..], b);
    } else {
      assert a + b == b;
    }
  }

  /** Every token the dictionary lacks is copied, in order, and nothing else is copied. */
  lemma {:induction false} CollapseCopiesUnknown(words: seq<string>, values: seq<int>, pending: Option<int>)
    requires |words| == |values|
    ensures Words(Collapse(words, values, pending)) == Unknown(words, values)
  {
    if words != [] {
      CollapseCopiesUnknown(words[1..], values[1..], if values[0] != -1 then Some((if pending.Some? then pending.value else 0) + values[0]) else None);
      if values[0] == -1 {
        WordsConcat(Flush(pending) + [Word(words[0])], Collapse(words[1..], values[1..], None));
        WordsConcat(Flush(pending), [Word(words[0])]);
      }
    }
  }

  /** The numbers written add up to the pending sum plus every dictionary value of the line. */
  lemma {:induction false} CollapseKeepsSum(words: seq<string>, values: seq<int>, pending: Option<int>)
    requires |words| == |values|
    ensures Total(Collapse(words, values, pending)) == (if pending.Some? then pending.value else 0) + Known(values)
  {
    if words != [] {
      CollapseKeepsSum(words[1..], values[1..], if values[0] != -1 then Some((if pending.Some? then pending.value else 0) + values[0]) else None);
      if values[0] == -1 {
        WordsConcat(Flush(pending) + [Word(words[0])], Collapse(words[1..], values[1..], None));
        WordsConcat(Flush(pending), [Word(words[0])]);
      }
    }
  }

  /** A run of dictionary words gives a single number: two numbers are never written next to each other. */
  lemma {:induction false} CollapseSeparatesNumbers(words: seq<string>, values: seq<int>, pending: Option<int>)
    requires |words| == |values|
    ensures forall i :: 0 <= i < |Collapse(words, values, pending)| - 1 ==>
      !(Collapse(words, values, pending)[i].Number? && Collapse(words, values, pending)[i + 1].Number?)
  {
    if words != [] {
      if values[0] != -1 {
        CollapseSeparatesNumbers(words[1..], values[1..], Some((if pending.Some? then pending.value else 0) + values[0]));
      } else {
        var rest: seq<Piece> := Collapse(words[1..], values[1..], None);
        CollapseSeparatesNumbers(words[1..], values[1..], None);
        var head: seq<Piece> := Flush(pending) + [Word(words[0])];
        assert Collapse(words, values, pending) == head + rest;
        forall i | 0 <= i < |head + rest| - 1
          ensures !((head + rest)[i].Number? && (head + rest)[i + 1].Number?)
        {
          if i + 1 < |head| {
            assert (head + rest)[i + 1] == Word(words[0]);
          } else if i + 1 == |head| {
            assert (head + rest)[i] == Word(words[0]);
          } else {
            assert (head + rest)[i] == rest[i - |head|] && (head + rest)[i + 1] == rest[i + 1 - |head|];
          }
        }
      }
    }
  }

  /** Values are added, not composed: "two hundred" with values 2 and 100 becomes 102. */
  lemma TwoHundredExample()
    ensures Collapse(["I", "have", "two", "hundred", "apples"], [-1, -1, 2, 100, -1], None) ==
      [Word("I"), Word("have"), Number(102), Word("apples")]
  {
  }
}
