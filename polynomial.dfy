/**
 * The polynomial term list of asd_lab_5_task.c: a singly linked chain from
 * `head` of (coefficient, power) terms, kept in non-increasing power order.
 * The chain is the sequence of its terms, head first.
 */
module Polynomial {

  datatype Term = Term(coefficient: int, power: int)

  /** Powers never increase from the head to the tail. */
  ghost predicate Sorted(s: seq<Term>)
  {
    forall i, j :: 0 <= i < j < |s| ==> s[i].power >= s[j].power
  }

  /**
   * Reference definition of addTerm on a non-zero term: a term of power
   * greater than the head's becomes the head; otherwise it is placed after
   * the head, in front of the first later term whose power is not greater.
   */
  function AddTermSpec(s: seq<Term>, t: Term): seq<Term>
  {
    if s == [] || s[0].power < t.power then [t] + s
    else [s[0]] + InsertAfterHead(s[1..], t)
  }

  /** The walk after the head: skip terms of strictly greater power. */
  function InsertAfterHead(r: seq<Term>, t: Term): seq<Term>
  {
    if r == [] || r[0].power <= t.power then [t] + r
    else [r[0]] + InsertAfterHead(r[1..], t)
  }

  /** The walk stopping after `k` skipped terms splices the term at position `k`. */
  lemma {:induction false} InsertAfterHeadAt(r: seq<Term>, t: Term, k: nat)
    requires k <= |r|
    requires forall j :: 0 <= j < k ==> r[j].power > t.power
    requires k < |r| ==> r[k].power <= t.power
    ensures InsertAfterHead(r, t) == r[..k] + [t] + r[k..]
  {
    if k > 0 {
      InsertAfterHeadAt(r[1..], t, k - 1);
      assert r[..k] == [r[0]] + r[1..][..k - 1];
    }
  }

  /** The walk adds exactly the new term. */
  lemma {:induction false} InsertAfterHeadMultiset(r: seq<Term>, t: Term)
    ensures multiset(InsertAfterHead(r, t)) == multiset(r) + multiset{t}
  {
    if r != [] && r[0].power > t.power {
      InsertAfterHeadMultiset(r[1..], t);
      assert r == [r[0]] + r[1..];
    }
  }

  /** A bound on every power and on the new term bounds the result of the walk. */
  lemma {:induction false} InsertAfterHeadBounded(r: seq<Term>, t: Term, bound: int)
    requires forall j :: 0 <= j < |r| ==> r[j].power <= bound
    requires t.power <= bound
    ensures forall j :: 0 <= j < |InsertAfterHead(r, t)| ==> InsertAfterHead(r, t)[j].power <= bound
  {
    if r != [] && r[0].power > t.power {
      InsertAfterHeadBounded(r[1..], t, bound);
    }
  }

  /** A term of power at least every power of a sorted list may lead it. */
  lemma ConsSorted(x: Term, rest: seq<Term>)
    requires Sorted(rest)
    requires forall j :: 0 <= j < |rest| ==> rest[j].power <= x.power
    ensures Sorted([x] + rest)
  {
    forall i, j | 0 <= i < j < |[x] + rest|
      ensures ([x] + rest)[i].power >= ([x] + rest)[j].power
    {
      if i > 0 {
        assert ([x] + rest)[i] == rest[i - 1];
      }
      assert ([x] + rest)[j] == rest[j - 1];
    }
  }

  /** The walk keeps a sorted tail sorted. */
  lemma {:induction false} InsertAfterHeadSorted(r: seq<Term>, t: Term)
    requires Sorted(r)
    ensures Sorted(InsertAfterHead(r, t))
  {
    if r != [] && r[0].power > t.power {
      InsertAfterHeadSorted(r[1..], t);
      InsertAfterHeadBounded(r[1..], t, r[0].power);
      ConsSorted(r[0], InsertAfterHead(r[1..], t));
    }
  }

  /** addTerm keeps the list sorted and adds exactly one term: equal powers are not merged. */
  lemma AddTermSpecSorted(s: seq<Term>, t: Term)
    requires Sorted(s)
    ensures Sorted(AddTermSpec(s, t))
    ensures multiset(AddTermSpec(s, t)) == multiset(s) + multiset{t}
    ensures |AddTermSpec(s, t)| == |s| + 1
  {
    if s != [] && s[0].power >= t.power {
      var rest := InsertAfterHead(s[1..], t);
      assert AddTermSpec(s, t) == [s[0]] + rest;
      assert Sorted([s[0]] + rest) by {
        InsertAfterHeadSorted(s[1..], t);
        InsertAfterHeadBounded(s[1..], t, s[0].power);
        ConsSorted(s[0], rest);
      }
      assert multiset([s[0]] + rest) == multiset(s) + multiset{t} && |[s[0]] + rest| == |s| + 1 by {
        InsertAfterHeadMultiset(s[1..], t);
        assert s == [s[0]] + s[1..];
      }
    } else {
      assert AddTermSpec(s, t) == [t] + s;
      ConsSorted(t, s);
    }
  }

  /** The walk of addTerm stopping at index `k` splices the term at position `k`. */
  lemma AddTermAt(s: seq<Term>, t: Term, k: nat)
    requires s != [] && s[0].power >= t.power
    requires 1 <= k <= |s|
    requires forall j :: 1 <= j < k ==> s[j].power > t.power
    requires k < |s| ==> s[k].power <= t.power
    ensures AddTermSpec(s, t) == s[..k] + [t] + s[k..]
  {
    InsertAfterHeadAt(s[1..], t, k - 1);
    assert s[1..][..k - 1] == s[1..k];
    assert s[1..][k - 1..] == s[k..];
    assert s[..k] == [s[0]] + s[1..k];
  }

  /** A term of power greater than every power in a sorted list becomes the head. */
  lemma GreaterPowerBecomesHead(s: seq<Term>, t: Term)
    requires s == [] || s[0].power < t.power
    ensures AddTermSpec(s, t) == [t] + s
  {
  }

  class PolynomialList {
    var terms: seq<Term>

    ghost predicate Valid()
      reads this
    {
      Sorted(terms)
    }

    /** initPolynomialList: head = NULL. */
    constructor ()
      ensures Valid() && terms == []
    {
      terms := [];
    }

    /**
     * addTerm: a zero coefficient is ignored; otherwise the term is prepended
     * when the list is empty or the head's power is smaller, and spliced after
     * the last leading term of greater power otherwise.
     */
    method AddTerm(coefficient: int, power: int)
      requires Valid()
      modifies this
      ensures Valid()
      ensures coefficient == 0 ==> terms == old(terms)
      ensures coefficient != 0 ==> terms == AddTermSpec(old(terms), Term(coefficient, power))
      ensures coefficient != 0 ==> multiset(terms) == multiset(old(terms)) + multiset{Term(coefficient, power)}
    {
      if coefficient == 0 {
        return;
      }
      var newTerm := Term(coefficient, power);
      AddTermSpecSorted(terms, newTerm);
      if terms == [] || terms[0].power < power {
        terms := [newTerm] + terms;
        return;
      }
      var current := 0;
      while current + 1 < |terms| && terms[current + 1].power > power
        invariant 0 <= current < |terms|
        invariant forall j :: 1 <= j <= current ==> terms[j].power > power
      {
        current := current + 1;
      }
      AddTermAt(terms, newTerm, current + 1);
      terms := terms[..current + 1] + [newTerm] + terms[current + 1..];
    }
  }

  /**
   * main: add 3x^4, 0x^2 (ignored), 2x^3, 1x^0, 4x^1; the list reads
   * 3x^4, 2x^3, 4x^1, 1x^0.
   */
  method PolynomialDemo() returns (terms: seq<Term>)
    ensures terms == [Term(3, 4), Term(2, 3), Term(4, 1), Term(1, 0)]
  {
    var t34, t23, t10, t41 := Term(3, 4), Term(2, 3), Term(1, 0), Term(4, 1);
    assert AddTermSpec([], t34) == [t34];
    assert InsertAfterHead([], t23) == [t23];
    assert AddTermSpec([t34], t23) == [t34, t23];
    assert InsertAfterHead([], t10) == [t10];
    assert InsertAfterHead([t23], t10) == [t23, t10];
    assert AddTermSpec([t34, t23], t10) == [t34, t23, t10];
    assert InsertAfterHead([t10], t41) == [t41, t10];
    assert InsertAfterHead([t23, t10], t41) == [t23, t41, t10];
    assert AddTermSpec([t34, t23, t10], t41) == [t34, t23, t41, t10];
    var polyList := new PolynomialList();
    polyList.AddTerm(3, 4);
    polyList.AddTerm(0, 2);
    polyList.AddTerm(2, 3);
    polyList.AddTerm(1, 0);
    polyList.AddTerm(4, 1);
    terms := polyList.terms;
  }
}
