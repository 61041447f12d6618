/**
 * Finite sets of digits and the order in which the model walks them.
 *
 * The model walks every candidate set in ascending order. This is the
 * order of one cell's candidates in the program too, but not that of a
 * union of several cells' candidates, which follows first appearance.
 */
module Sets {

  lemma NoElementIsEmpty(s: set<int>)
    ensures (forall v :: v !in s) ==> s == {}
  {
    if forall v :: v !in s {
      assert forall v :: v in s <==> v in {};
    }
  }

  /** A non-empty set has an element: what `var v :| v in s` needs. */
  lemma NonEmptyHasElement(s: set<int>)
    requires s != {}
    ensures exists v :: v in s
  {
    NoElementIsEmpty(s);
  }

  /** A set of one element holds nothing else. */
  lemma OneElement(s: set<int>, x: int)
    requires |s| == 1 && x in s
    ensures s == {x}
  {
    assert |s - {x}| == 0;
    assert s - {x} == {};
    forall y | y in s ensures y == x {
      assert y !in s - {x};
    }
  }

  predicate IsMin(m: int, s: set<int>)
  {
    m in s && forall x :: x in s ==> m <= x
  }

  /** Every non-empty finite set of integers has a least element. */
  lemma {:induction false} MinExists(s: set<int>)
    requires s != {}
    ensures exists m :: IsMin(m, s)
    decreases |s|
  {
    NonEmptyHasElement(s);
    var x :| x in s;
    if s - {x} == {} {
      assert s == {x};
      assert IsMin(x, s);
    } else {
      MinExists(s - {x});
      var m :| IsMin(m, s - {x});
      var least := if x < m then x else m;
      forall y | y in s
        ensures least <= y
      {
        if y != x {
          assert y in s - {x};
        }
      }
      assert IsMin(least, s);
    }
  }

  lemma MinUnique(m: int, m': int, s: set<int>)
    requires IsMin(m, s) && IsMin(m', s)
    ensures m == m'
  {
    assert m <= m' && m' <= m;
  }

  ghost function Min(s: set<int>): (m: int)
    requires s != {}
    ensures IsMin(m, s)
  {
    MinExists(s);
    var m :| IsMin(m, s); m
  }

  predicate Increasing(xs: seq<int>)
  {
    forall j, k :: 0 <= j < k < |xs| ==> xs[j] < xs[k]
  }

  /** The elements of `s` in ascending order: the order the model iterates a HashSet in. */
  ghost function Sorted(s: set<int>): (xs: seq<int>)
    decreases |s|
  {
    if s == {} then [] else [Min(s)] + Sorted(s - {Min(s)})
  }

  /** Sorted(s) lists every element of `s` once, in increasing order. */
  lemma {:induction false} SortedMeaning(s: set<int>)
    ensures Increasing(Sorted(s)) && |Sorted(s)| == |s|
    ensures forall v :: v in Sorted(s) <==> v in s
    decreases |s|
  {
    if s != {} {
      var m := Min(s);
      var rest := Sorted(s - {m});
      SortedMeaning(s - {m});
      assert Sorted(s) == [m] + rest;
      assert forall k :: 0 <= k < |rest| ==> rest[k] in s - {m};
    }
  }

  /** The enumeration of a set starts with its least element. */
  lemma SortedUnfold(s: set<int>, m: int)
    requires IsMin(m, s)
    ensures Sorted(s) == [m] + Sorted(s - {m})
  {
    MinUnique(m, Min(s), s);
  }

  /**
   * A scan of Sorted(s) that stops at index `k` after `p` failed on every
   * earlier element has rejected every smaller element of `s`.
   */
  lemma SortedFirst(s: set<int>, p: int -> bool, k: nat)
    requires k < |Sorted(s)| && forall j :: 0 <= j < k ==> !p(Sorted(s)[j])
    ensures Sorted(s)[k] in s
    ensures forall w :: w in s && w < Sorted(s)[k] ==> !p(w)
  {
    var xs := Sorted(s);
    SortedMeaning(s);
    assert xs[k] in xs;
    forall w | w in s && w < xs[k] ensures !p(w) {
      assert w in xs;
      var j :| 0 <= j < |xs| && xs[j] == w;
    }
  }

  /** A scan of Sorted(s) on which `p` fails everywhere has rejected every element of `s`. */
  lemma SortedNone(s: set<int>, p: int -> bool)
    requires forall j :: 0 <= j < |Sorted(s)| ==> !p(Sorted(s)[j])
    ensures forall w :: w in s ==> !p(w)
  {
    var xs := Sorted(s);
    SortedMeaning(s);
    forall w | w in s ensures !p(w) {
      assert w in xs;
      var j :| 0 <= j < |xs| && xs[j] == w;
    }
  }

  /** Computes the ascending enumeration of `s`, one least element at a time. */
  method Ascending(s: set<int>) returns (xs: seq<int>)
    ensures xs == Sorted(s)
  {
    xs := [];
    var rest := s;
    while rest != {}
      invariant rest <= s
      invariant xs + Sorted(rest) == Sorted(s)
      decreases |rest|
    {
      MinExists(rest);
      var m :| IsMin(m, rest);
      SortedUnfold(rest, m);
      xs := xs + [m];
      rest := rest - {m};
    }
  }

  /** The digits 1..n. */
  function Digits(n: int): (ds: set<int>)
    ensures forall v :: v in ds <==> 1 <= v <= n
    decreases n
  {
    if n < 1 then {} else Digits(n - 1) + {n}
  }

  /** The sequence [1, 2, ..., n]. */
  function DigitSeq(n: nat): (ds: seq<int>)
    ensures |ds| == n
    ensures forall k :: 0 <= k < n ==> ds[k] == k + 1
  {
    seq(n, k => k + 1)
  }
}
