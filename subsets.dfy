/**
 * The subset deductions of StrategyHelper: naked subsets (a group of n empty
 * cells whose candidates all lie within one cell's n candidates) and hidden
 * subsets (n candidates that only n empty cells still hold).
 */
module Subsets {

  import opened Sets
  import opened Cells
  import opened Ranges
  import opened Tables
  import opened Edits
  import opened Combinatorics

  /**
   * The empty cells other than `c` whose candidates all lie within the
   * candidates of `c`.
   */
  function ContainedIn(g: Grid, e: Range, c: nat): (s: Range)
    requires InTable(g, e) && c < |g|
    ensures InTable(g, s)
  {
    Exclude(g, Select(g, e, (x: CellState) => x.ContainsAllValues(g[c].cands)), {c})
  }

  /** ContainedIn holds the other cells of `e` whose candidates are a subset of those of `c`. */
  lemma ContainedInMeaning(g: Grid, e: Range, c: nat)
    requires InTable(g, e) && c < |g|
    ensures forall j :: j in ContainedIn(g, e, c) <==> j in e && j != c && g[j].cands <= g[c].cands
  {
    forall j | j in e ensures g[j].ContainsAllValues(g[c].cands) <==> g[j].cands <= g[c].cands {
      if g[j].ContainsAllValues(g[c].cands) {
        assert forall v :: v in g[j].cands ==> v in g[c].cands;
      }
    }
  }

  /**
   * The loop of NakedStrategy stops at `c`: some other cell lies within it,
   * and together they are as many as `c` has candidates, and no more than
   * `maxDepth`.
   */
  predicate NakedAt(g: Grid, e: Range, c: nat, maxDepth: int)
    requires InTable(g, e) && c < |g|
  {
    var n := |ContainedIn(g, e, c)| + 1;
    n > 1 && n == |g[c].cands| && n <= maxDepth
  }

  /** The first cell of `cs` at which the loop of NakedStrategy stops. */
  function FirstNaked(g: Grid, e: Range, cs: Range, maxDepth: int): (found: Option<nat>)
    requires InTable(g, e) && InTable(g, cs)
    ensures found.Some? ==> found.value in cs && found.value < |g|
  {
    FirstWhere(cs, NakedTest(g, e, maxDepth))
  }

  /** NakedAt as the test of the cell loop. */
  function NakedTest(g: Grid, e: Range, maxDepth: int): nat -> bool
    requires InTable(g, e)
  {
    (c: nat) => c < |g| && NakedAt(g, e, c, maxDepth)
  }

  /** FirstNaked stops at the cell at index `k` of `cs`: the loop stops there and at no earlier cell. */
  lemma FirstNakedSome(g: Grid, e: Range, cs: Range, maxDepth: int) returns (k: nat)
    requires InTable(g, e) && InTable(g, cs) && FirstNaked(g, e, cs, maxDepth).Some?
    ensures k < |cs| && cs[k] == FirstNaked(g, e, cs, maxDepth).value && NakedAt(g, e, cs[k], maxDepth)
    ensures forall j :: 0 <= j < k ==> !NakedAt(g, e, cs[j], maxDepth)
  {
    k := FirstWhereSome(cs, NakedTest(g, e, maxDepth));
  }

  /** When FirstNaked finds nothing, the loop stops at no cell of `cs`. */
  lemma FirstNakedNone(g: Grid, e: Range, cs: Range, maxDepth: int)
    requires InTable(g, e) && InTable(g, cs) && FirstNaked(g, e, cs, maxDepth).None?
    ensures forall k :: 0 <= k < |cs| ==> !NakedAt(g, e, cs[k], maxDepth)
  {
    FirstWhereNone(cs, NakedTest(g, e, maxDepth));
  }


  /** The empty cells of the range outside the naked group of `c`. */
  function NakedTargets(g: Grid, e: Range, c: nat): (s: Range)
    requires InTable(g, e) && c < |g|
    ensures InTable(g, s)
  {
    Exclude(g, e, Positions(ContainedIn(g, e, c) + [c]))
  }

  /**
   * NakedStrategy: at the first empty cell `c` whose group of contained
   * cells is as large as its candidate set (and no larger than `maxDepth`),
   * the candidates of `c` are erased from the other empty cells of the
   * range; the step succeeds when that erased something.
   */
  ghost function NakedStep(g: Grid, r: Range, maxDepth: int): (o: Outcome)
    requires InTable(g, r)
  {
    var e := SelectEmptyCells(g, r);
    match FirstNaked(g, e, e, maxDepth)
    case None => Outcome(false, g)
    case Some(c) =>
      var h := Without(g, NakedTargets(g, e, c), g[c].cands);
      Outcome(CandCount(h) < CandCount(g), h)
  }

  /** The test of the cell loop of NakedStrategy at one cell: its group is as large as its candidate set. */
  method StopsAt(g: Grid, emptyCells: Range, cell: nat, maxDepth: int) returns (stop: bool)
    requires InTable(g, emptyCells) && cell < |g|
    ensures stop == NakedAt(g, emptyCells, cell, maxDepth)
  {
    var containingCells := ContainedIn(g, emptyCells, cell);
    if |containingCells| > 0 {
      containingCells := containingCells + [cell];
      if |containingCells| == |g[cell].cands| {
        if |containingCells| <= maxDepth {
          return true;
        }
      }
    }
    return false;
  }

  /** The loop of NakedStrategy over the empty cells: the first cell at which it stops. */
  method FindNaked(g: Grid, emptyCells: Range, maxDepth: int) returns (found: Option<nat>)
    requires InTable(g, emptyCells)
    ensures found == FirstNaked(g, emptyCells, emptyCells, maxDepth)
  {
    ghost var total := FirstNaked(g, emptyCells, emptyCells, maxDepth);
    assert emptyCells[0..] == emptyCells;
    var k := 0;
    while k < |emptyCells|
      invariant 0 <= k <= |emptyCells|
      invariant FirstNaked(g, emptyCells, emptyCells[k..], maxDepth) == total
    {
      var cell := emptyCells[k];
      var stop := StopsAt(g, emptyCells, cell, maxDepth);
      if stop {
        NakedStop(g, emptyCells, emptyCells, k, maxDepth);
        return Some(cell);
      }
      NakedSkip(g, emptyCells, emptyCells, k, maxDepth);
      k := k + 1;
    }
    assert emptyCells[k..] == [];
    return None;
  }

  /** The loop stops at a cell at which the naked test holds. */
  lemma NakedStop(g: Grid, e: Range, cs: Range, k: nat, maxDepth: int)
    requires InTable(g, e) && InTable(g, cs) && k < |cs| && NakedAt(g, e, cs[k], maxDepth)
    ensures FirstNaked(g, e, cs[k..], maxDepth) == Some(cs[k])
  {
    assert cs[k..][0] == cs[k];
  }

  /** A cell at which the loop does not stop is passed over. */
  lemma NakedSkip(g: Grid, e: Range, cs: Range, k: nat, maxDepth: int)
    requires InTable(g, e) && InTable(g, cs) && k < |cs| && !NakedAt(g, e, cs[k], maxDepth)
    ensures FirstNaked(g, e, cs[k..], maxDepth) == FirstNaked(g, e, cs[k + 1..], maxDepth)
  {
    assert cs[k..][1..] == cs[k + 1..];
  }

  /** NakedStep once the loop has stopped at `c`. */
  lemma NakedStepFound(g: Grid, r: Range, maxDepth: int, c: nat)
    requires InTable(g, r) && c < |g|
    requires FirstNaked(g, SelectEmptyCells(g, r), SelectEmptyCells(g, r), maxDepth) == Some(c)
    ensures var h := Without(g, NakedTargets(g, SelectEmptyCells(g, r), c), g[c].cands);
      NakedStep(g, r, maxDepth) == Outcome(CandCount(h) < CandCount(g), h)
  {
  }

  method NakedStrategy(t: Table, r: Range, maxDepth: int) returns (success: bool)
    requires t.Distinct() && InTable(t.Grid(), r)
    modifies t.CellSet()
    ensures Outcome(success, t.Grid()) == NakedStep(old(t.Grid()), r, maxDepth)
  {
    var g := t.Grid();
    var emptyCells := SelectEmptyCells(g, r);
    var found := FindNaked(g, emptyCells, maxDepth);
    if found.None? {
      return false;
    }
    var cell := found.value;
    var containingCells := ContainedIn(g, emptyCells, cell) + [cell];
    var candidateCells := Exclude(g, emptyCells, Positions(containingCells));
    ghost var h := Without(g, candidateCells, g[cell].cands);
    NakedStepFound(g, r, maxDepth, cell);
    var values := ToArray(g[cell].cands);
    assert t.Grid() == g;
    var count := RemoveProbableValues(t, candidateCells, values);
    return count > 0;
  }

  /** NakedPairsTriples: naked groups of up to three cells. */
  method NakedPairsTriples(t: Table, r: Range) returns (success: bool)
    requires t.Distinct() && InTable(t.Grid(), r)
    modifies t.CellSet()
    ensures Outcome(success, t.Grid()) == NakedStep(old(t.Grid()), r, 3)
  {
    success := NakedStrategy(t, r, 3);
  }

  /** NakedQuards: naked groups of up to four cells. */
  method NakedQuards(t: Table, r: Range) returns (success: bool)
    requires t.Distinct() && InTable(t.Grid(), r)
    modifies t.CellSet()
    ensures Outcome(success, t.Grid()) == NakedStep(old(t.Grid()), r, 4)
  {
    success := NakedStrategy(t, r, 4);
  }

  /**
   * `e[k]` is the cell NakedStrategy acts on: the first empty cell of the
   * range, in range order, at which its loop stops.
   */
  predicate NakedFirst(g: Grid, e: Range, k: int, maxDepth: int)
    requires InTable(g, e)
  {
    0 <= k < |e| && NakedAt(g, e, e[k], maxDepth) &&
    forall j :: 0 <= j < k ==> !NakedAt(g, e, e[j], maxDepth)
  }

  /**
   * What NakedStep does: the chosen cell `c` has a group of 2..maxDepth
   * cells whose candidates lie within its own, as many as its candidates;
   * its candidates leave every other empty cell of the range, and the step
   * succeeds exactly when that erased something. When no cell is chosen, or
   * the removal erased nothing, nothing changes.
   */
  lemma NakedMeaning(g: Grid, r: Range, maxDepth: int)
    requires InTable(g, r)
    ensures var o := NakedStep(g, r, maxDepth); var e := SelectEmptyCells(g, r);
      (o.success ==> exists k :: NakedFirst(g, e, k, maxDepth) &&
                                 2 <= |g[e[k]].cands| <= maxDepth &&
                                 o.grid == Without(g, NakedTargets(g, e, e[k]), g[e[k]].cands) &&
                                 CandCount(o.grid) < CandCount(g)) &&
      (!o.success ==> o.grid == g &&
                      forall k :: NakedFirst(g, e, k, maxDepth) ==>
                                  Without(g, NakedTargets(g, e, e[k]), g[e[k]].cands) == g)
  {
    var e := SelectEmptyCells(g, r);
    var found := FirstNaked(g, e, e, maxDepth);
    if found.Some? {
      var k := NakedChosen(g, e, maxDepth);
      forall k' | NakedFirst(g, e, k', maxDepth) ensures k' == k {
        NakedFirstUnique(g, e, maxDepth, k, k');
      }
      var c := found.value;
      var h := Without(g, NakedTargets(g, e, c), g[c].cands);
      WithoutRefines(g, NakedTargets(g, e, c), g[c].cands);
      ErasedIffChanged(h, g);
    } else {
      FirstNakedNone(g, e, e, maxDepth);
    }
  }

  /** The loop of NakedStrategy stops at the chosen cell. */
  lemma NakedChosen(g: Grid, e: Range, maxDepth: int) returns (k: int)
    requires InTable(g, e) && FirstNaked(g, e, e, maxDepth).Some?
    ensures NakedFirst(g, e, k, maxDepth) && e[k] == FirstNaked(g, e, e, maxDepth).value
    ensures 2 <= |g[e[k]].cands| <= maxDepth
  {
    k := FirstNakedSome(g, e, e, maxDepth);
  }

  /** At most one cell is chosen. */
  lemma NakedFirstUnique(g: Grid, e: Range, maxDepth: int, k: int, k': int)
    requires InTable(g, e) && NakedFirst(g, e, k, maxDepth) && NakedFirst(g, e, k', maxDepth)
    ensures k == k'
  {
  }

  /** The empty cells of `e` holding some value of `combo`. */
  function WithAnyOf(g: Grid, e: Range, combo: seq<int>): (s: Range)
    requires InTable(g, e)
    ensures InTable(g, s) && |s| <= |e|
    ensures forall j :: j in s <==> j in e && g[j].ContainsAnyValueOf(combo)
  {
    Select(g, e, (x: CellState) => x.ContainsAnyValueOf(combo))
  }

  /** The callback of HiddenStrategy applied to the combinations of one length, in order: the first hit is kept. */
  function FirstHidden(g: Grid, e: Range, combos: seq<seq<int>>, len: int): (found: Option<(Range, seq<int>)>)
    requires InTable(g, e)
    ensures found.Some? ==> InTable(g, found.value.0) && |found.value.0| == len && found.value.1 in combos
    ensures found.Some? ==> found.value.0 == WithAnyOf(g, e, found.value.1)
    decreases |combos|
  {
    if combos == [] then None
    else
      var candidateRange := WithAnyOf(g, e, combos[0]);
      if |candidateRange| == len then Some((candidateRange, combos[0]))
      else FirstHidden(g, e, combos[1..], len)
  }

  /** The hit HiddenStrategy keeps after trying the lengths 2 .. n - 1 in order. */
  ghost function HiddenBelow(g: Grid, e: Range, values: seq<int>, n: int): (found: Option<(Range, seq<int>)>)
    requires InTable(g, e)
    ensures found.Some? ==> InTable(g, found.value.0)
    decreases n
  {
    if n <= 2 then None
    else
      match HiddenBelow(g, e, values, n - 1)
      case Some(hit) => Some(hit)
      case None => FirstHidden(g, e, Combinations(values, n - 1), n - 1)
  }

  /**
   * HiddenStrategy: over the candidates of the empty cells (ascending),
   * the first combination of 2..maxDepth of them, shortest first, that
   * exactly as many empty cells hold; those cells keep only the
   * combination's values. The step succeeds when that erased something.
   */
  ghost function HiddenStep(g: Grid, r: Range, maxDepth: int): (o: Outcome)
    requires InTable(g, r)
  {
    var e := SelectEmptyCells(g, r);
    HiddenOn(g, e, Sorted(CandidateSet(g, e)), maxDepth)
  }

  /** HiddenStep for the empty cells `e` and their candidates `vs`. */
  ghost function HiddenOn(g: Grid, e: Range, vs: seq<int>, maxDepth: int): (o: Outcome)
    requires InTable(g, e)
  {
    match HiddenBelow(g, e, vs, maxDepth + 1)
    case None => Outcome(false, g)
    case Some((findRange, findCombination)) =>
      var h := Within(g, findRange, SetOf(findCombination));
      Outcome(CandCount(h) < CandCount(g), h)
  }

  /** Runs the callback of HiddenStrategy over the combinations of one length. */
  method HiddenPass(g: Grid, e: Range, combos: seq<seq<int>>, len: int, prior: Option<(Range, seq<int>)>)
    returns (found: Option<(Range, seq<int>)>)
    requires InTable(g, e)
    ensures found == if prior.Some? then prior else FirstHidden(g, e, combos, len)
  {
    found := prior;
    var k := 0;
    while k < |combos|
      invariant 0 <= k <= |combos|
      invariant prior.Some? ==> found == prior
      invariant prior.None? ==> FirstHidden(g, e, combos, len) ==
                                  if found.Some? then found else FirstHidden(g, e, combos[k..], len)
    {
      if found.None? {
        var candidateRange := WithAnyOf(g, e, combos[k]);
        if len == |candidateRange| {
          found := Some((candidateRange, combos[k]));
        }
      }
      assert combos[k..][1..] == combos[k + 1..];
      k := k + 1;
    }
  }

  /** The loop of HiddenStrategy over the combination lengths 2..maxDepth. */
  method FindHidden(g: Grid, emptyCells: Range, probableValues: seq<int>, maxDepth: int)
    returns (found: Option<(Range, seq<int>)>)
    requires InTable(g, emptyCells)
    ensures found == HiddenBelow(g, emptyCells, probableValues, maxDepth + 1)
  {
    found := None;
    var combinationLength := 2;
    while combinationLength <= maxDepth
      invariant 2 <= combinationLength <= if maxDepth < 2 then 2 else maxDepth + 1
      invariant found == HiddenBelow(g, emptyCells, probableValues, combinationLength)
    {
      var combinations := IterateCombinations(probableValues, combinationLength);
      found := HiddenPass(g, emptyCells, combinations, combinationLength, found);
      combinationLength := combinationLength + 1;
    }
  }

  /** HiddenStep once the search has settled on `found`. */
  lemma HiddenStepFound(g: Grid, r: Range, maxDepth: int, found: Option<(Range, seq<int>)>)
    requires InTable(g, r)
    requires found == HiddenBelow(g, SelectEmptyCells(g, r), Sorted(CandidateSet(g, SelectEmptyCells(g, r))), maxDepth + 1)
    ensures found.None? ==> HiddenStep(g, r, maxDepth) == Outcome(false, g)
    ensures found.Some? ==>
              InTable(g, found.value.0) &&
              var h := Within(g, found.value.0, SetOf(found.value.1));
              HiddenStep(g, r, maxDepth) == Outcome(CandCount(h) < CandCount(g), h)
  {
  }

  method HiddenStrategy(t: Table, r: Range, maxDepth: int) returns (success: bool)
    requires t.Distinct() && InTable(t.Grid(), r)
    modifies t.CellSet()
    ensures Outcome(success, t.Grid()) == HiddenStep(old(t.Grid()), r, maxDepth)
  {
    var g := t.Grid();
    var emptyCells := SelectEmptyCells(g, r);
    var probableValues := Ascending(CandidateSet(g, emptyCells));
    var found := FindHidden(g, emptyCells, probableValues, maxDepth);
    HiddenStepFound(g, r, maxDepth, found);
    if found.Some? {
      assert t.Grid() == g;
      var count := KeepProbableValues(t, found.value.0, found.value.1);
      return count > 0;
    }
    return false;
  }

  /** HiddenPairsTriples: hidden groups of two or three candidates. */
  method HiddenPairsTriples(t: Table, r: Range) returns (success: bool)
    requires t.Distinct() && InTable(t.Grid(), r)
    modifies t.CellSet()
    ensures Outcome(success, t.Grid()) == HiddenStep(old(t.Grid()), r, 3)
  {
    success := HiddenStrategy(t, r, 3);
  }

  /** HiddenQuards: hidden groups of two to four candidates. */
  method HiddenQuards(t: Table, r: Range) returns (success: bool)
    requires t.Distinct() && InTable(t.Grid(), r)
    modifies t.CellSet()
    ensures Outcome(success, t.Grid()) == HiddenStep(old(t.Grid()), r, 4)
  {
    success := HiddenStrategy(t, r, 4);
  }

  /** When FirstHidden finds nothing, no combination of `combos` is held by exactly `len` cells. */
  lemma {:induction false} FirstHiddenNone(g: Grid, e: Range, combos: seq<seq<int>>, len: int)
    requires InTable(g, e) && FirstHidden(g, e, combos, len).None?
    ensures forall k :: 0 <= k < |combos| ==> |WithAnyOf(g, e, combos[k])| != len
    decreases |combos|
  {
    if combos != [] {
      assert |WithAnyOf(g, e, combos[0])| != len;
      assert FirstHidden(g, e, combos, len) == FirstHidden(g, e, combos[1..], len);
      FirstHiddenNone(g, e, combos[1..], len);
      forall k | 0 <= k < |combos| ensures |WithAnyOf(g, e, combos[k])| != len {
        if k > 0 {
          assert combos[k] == combos[1..][k - 1];
        }
      }
    }
  }

  /** Exactly `m` empty cells hold a value of the `k`th combination of `m` of the values `vs`. */
  predicate HiddenHit(g: Grid, e: Range, vs: seq<int>, m: int, k: int)
    requires InTable(g, e)
  {
    2 <= m && 0 <= k < |Combinations(vs, m)| && |WithAnyOf(g, e, Combinations(vs, m)[k])| == m
  }

  /**
   * The `k`th combination of `m` of the values `vs` is the one HiddenStrategy
   * acts on: it is a hit, no earlier combination of that length is one and
   * no combination of a shorter length is one.
   */
  ghost predicate HiddenFirst(g: Grid, e: Range, vs: seq<int>, m: int, k: int)
    requires InTable(g, e)
  {
    HiddenHit(g, e, vs, m, k) &&
    (forall j :: 0 <= j < k ==> !HiddenHit(g, e, vs, m, j)) &&
    (forall m', j :: m' < m ==> !HiddenHit(g, e, vs, m', j))
  }

  /** The index of the combination FirstHidden keeps. */
  lemma {:induction false} FirstHiddenSome(g: Grid, e: Range, combos: seq<seq<int>>, len: int) returns (k: nat)
    requires InTable(g, e) && FirstHidden(g, e, combos, len).Some?
    ensures k < |combos| && combos[k] == FirstHidden(g, e, combos, len).value.1
    ensures forall j :: 0 <= j < k ==> |WithAnyOf(g, e, combos[j])| != len
    decreases |combos|
  {
    if |WithAnyOf(g, e, combos[0])| != len {
      assert FirstHidden(g, e, combos, len) == FirstHidden(g, e, combos[1..], len);
      var k' := FirstHiddenSome(g, e, combos[1..], len);
      k := k' + 1;
      assert combos[k] == combos[1..][k'];
      forall j | 0 <= j < k ensures |WithAnyOf(g, e, combos[j])| != len {
        if j > 0 { assert combos[j] == combos[1..][j - 1]; }
      }
    } else {
      k := 0;
    }
  }

  /** HiddenBelow(n) settles on the chosen combination, of a length below `n`. */
  lemma {:induction false} HiddenChosen(g: Grid, e: Range, values: seq<int>, n: int) returns (m: int, k: int)
    requires InTable(g, e) && HiddenBelow(g, e, values, n).Some?
    ensures m < n && HiddenFirst(g, e, values, m, k)
    ensures HiddenBelow(g, e, values, n).value == (WithAnyOf(g, e, Combinations(values, m)[k]), Combinations(values, m)[k])
    decreases n
  {
    if HiddenBelow(g, e, values, n - 1).Some? {
      m, k := HiddenChosen(g, e, values, n - 1);
    } else {
      m := n - 1;
      assert HiddenBelow(g, e, values, n) == FirstHidden(g, e, Combinations(values, m), m);
      k := HiddenChosenAt(g, e, values, m);
    }
  }

  /** When no shorter length has a hit, the pass over the combinations of length `m` keeps the chosen one. */
  lemma HiddenChosenAt(g: Grid, e: Range, values: seq<int>, m: int) returns (k: int)
    requires InTable(g, e) && 2 <= m && HiddenBelow(g, e, values, m).None?
    requires FirstHidden(g, e, Combinations(values, m), m).Some?
    ensures HiddenFirst(g, e, values, m, k)
    ensures FirstHidden(g, e, Combinations(values, m), m).value ==
              (WithAnyOf(g, e, Combinations(values, m)[k]), Combinations(values, m)[k])
  {
    HiddenNoneChosen(g, e, values, m);
    k := FirstHiddenSome(g, e, Combinations(values, m), m);
  }

  /** When HiddenBelow(n) finds nothing, no combination of a length below `n` is a hit. */
  lemma {:induction false} HiddenNoneChosen(g: Grid, e: Range, values: seq<int>, n: int)
    requires InTable(g, e) && HiddenBelow(g, e, values, n).None?
    ensures forall m, k :: m < n ==> !HiddenHit(g, e, values, m, k)
    ensures forall m, k :: m < n ==> !HiddenFirst(g, e, values, m, k)
    decreases n
  {
    if n > 2 {
      assert HiddenBelow(g, e, values, n - 1).None?;
      HiddenNoneChosen(g, e, values, n - 1);
      var combos := Combinations(values, n - 1);
      FirstHiddenNone(g, e, combos, n - 1);
      forall m, k | m < n ensures !HiddenHit(g, e, values, m, k) {
        if m == n - 1 && 0 <= k < |combos| {
          assert |WithAnyOf(g, e, combos[k])| != n - 1;
        }
      }
    }
  }


  /** At most one combination is chosen. */
  lemma HiddenFirstUnique(g: Grid, e: Range, vs: seq<int>, m: int, k: int, m': int, k': int)
    requires InTable(g, e) && HiddenFirst(g, e, vs, m, k) && HiddenFirst(g, e, vs, m', k')
    ensures m == m' && k == k'
  {
  }

  /**
   * What HiddenStep does (HiddenStep on a range is HiddenOn for its empty
   * cells `e` and their candidates `vs`, ascending): the cells holding a
   * value of the chosen combination of m candidates (2 <= m <= maxDepth)
   * keep only the combination's values, and the step succeeds exactly when
   * that erased something. When no combination is chosen, or the narrowing
   * erased nothing, nothing changes.
   */
  lemma HiddenMeaning(g: Grid, e: Range, vs: seq<int>, maxDepth: int)
    requires InTable(g, e)
    ensures var o := HiddenOn(g, e, vs, maxDepth);
      (o.success ==> exists m, k :: m <= maxDepth && HiddenFirst(g, e, vs, m, k) &&
                       o.grid == Within(g, WithAnyOf(g, e, Combinations(vs, m)[k]), SetOf(Combinations(vs, m)[k])) &&
                       CandCount(o.grid) < CandCount(g)) &&
      (!o.success ==> o.grid == g &&
                      forall m, k :: m <= maxDepth && HiddenFirst(g, e, vs, m, k) ==>
                        Within(g, WithAnyOf(g, e, Combinations(vs, m)[k]), SetOf(Combinations(vs, m)[k])) == g)
  {
    if HiddenBelow(g, e, vs, maxDepth + 1).Some? {
      HiddenFoundMeaning(g, e, vs, maxDepth);
    } else {
      HiddenNoneChosen(g, e, vs, maxDepth + 1);
    }
  }

  /** HiddenMeaning when the search finds a combination. */
  lemma HiddenFoundMeaning(g: Grid, e: Range, vs: seq<int>, maxDepth: int)
    requires InTable(g, e) && HiddenBelow(g, e, vs, maxDepth + 1).Some?
    ensures var o := HiddenOn(g, e, vs, maxDepth);
      (o.success ==> exists m, k :: m <= maxDepth && HiddenFirst(g, e, vs, m, k) &&
                       o.grid == Within(g, WithAnyOf(g, e, Combinations(vs, m)[k]), SetOf(Combinations(vs, m)[k])) &&
                       CandCount(o.grid) < CandCount(g)) &&
      (!o.success ==> o.grid == g &&
                      forall m, k :: m <= maxDepth && HiddenFirst(g, e, vs, m, k) ==>
                        Within(g, WithAnyOf(g, e, Combinations(vs, m)[k]), SetOf(Combinations(vs, m)[k])) == g)
  {
    var found := HiddenBelow(g, e, vs, maxDepth + 1);
    var m, k := HiddenChosen(g, e, vs, maxDepth + 1);
    forall m', k' | HiddenFirst(g, e, vs, m', k') ensures m' == m && k' == k {
      HiddenFirstUnique(g, e, vs, m, k, m', k');
    }
    var (cr, combo) := found.value;
    var h := Within(g, cr, SetOf(combo));
    WithinRefines(g, cr, SetOf(combo));
    ErasedIffChanged(h, g);
  }

  /**
   * When the search over the values `vs` finds nothing, no selection of m
   * of them (2 <= m <= maxDepth, at ascending positions) is held by exactly
   * m of the empty cells `e`: the enumeration misses no combination.
   */
  lemma HiddenNoneComplete(g: Grid, e: Range, vs: seq<int>, maxDepth: int, idx: seq<nat>)
    requires InTable(g, e) && HiddenBelow(g, e, vs, maxDepth + 1).None?
    requires 2 <= |idx| <= maxDepth && Ascends(idx) && forall j :: 0 <= j < |idx| ==> idx[j] < |vs|
    ensures |WithAnyOf(g, e, Pick(vs, idx))| != |idx|
  {
    var k := CombinationsComplete(vs, idx);
    HiddenNoneChosen(g, e, vs, maxDepth + 1);
    assert !HiddenHit(g, e, vs, |idx|, k);
  }

}
