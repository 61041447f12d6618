/**
 * Candidate edits: the only changes a deduction makes to a table besides
 * placing a value. A grid-level definition states each edit; methods
 * perform it cell by cell through the table's primitives.
 */
module Edits {

  import opened Sets
  import opened Cells
  import opened Ranges
  import opened Tables

  /** What a deduction reports (StrategyResult.Success) and the table it leaves. */
  datatype Outcome = Outcome(success: bool, grid: Grid)

  /** The elements of an int[] argument as a set. */
  function SetOf(vals: seq<int>): (s: set<int>)
    ensures forall v :: v in s <==> v in vals
  {
    set v | v in vals
  }

  /** Removing the values of the one-element list [v] is removing `v`. */
  lemma WithoutOne(g: Grid, r: Range, v: int)
    requires InTable(g, r)
    ensures Without(g, r, SetOf([v])) == Without(g, r, {v})
  {
    assert SetOf([v]) == {v};
  }

  /** The elements of a set as an array, in ascending order. */
  method ToArray(s: set<int>) returns (xs: seq<int>)
    ensures SetOf(xs) == s
  {
    xs := Ascending(s);
    SortedMeaning(s);
    assert forall v :: v in SetOf(xs) <==> v in s;
  }

  /** The total number of candidates over all cells. */
  function CandCount(g: Grid): nat
  {
    if g == [] then 0 else |g[0].cands| + CandCount(g[1..])
  }

  /** Replacing one cell changes the count by the difference of its candidate counts. */
  lemma {:induction false} CandCountUpdate(g: Grid, i: nat, c: CellState)
    requires i < |g|
    ensures CandCount(g[i := c]) == CandCount(g) - |g[i].cands| + |c.cands|
  {
    if i > 0 {
      assert g[i := c][1..] == g[1..][i - 1 := c];
      CandCountUpdate(g[1..], i - 1, c);
    } else {
      assert g[i := c][1..] == g[1..];
    }
  }

  lemma CardSplit(a: set<int>, s: set<int>)
    ensures |a| == |a - s| + |a * s|
  {
    assert a == (a - s) + (a * s);
    assert (a - s) * (a * s) == {};
  }

  /** `h` is `g` with some candidates erased and nothing else changed. */
  predicate Refines(h: Grid, g: Grid)
  {
    |h| == |g| &&
    forall i :: 0 <= i < |g| ==> h[i] == g[i].(cands := h[i].cands) && h[i].cands <= g[i].cands
  }

  /** Erasing candidates never raises the count, and keeps it only when nothing was erased. */
  lemma {:induction false} RefinesCount(h: Grid, g: Grid)
    requires Refines(h, g)
    ensures CandCount(h) <= CandCount(g)
    ensures CandCount(h) == CandCount(g) ==> h == g
  {
    if g != [] {
      assert Refines(h[1..], g[1..]) by {
        forall i | 0 <= i < |g| - 1 ensures h[1..][i] == g[1..][i].(cands := h[1..][i].cands) {
          assert h[i + 1] == g[i + 1].(cands := h[i + 1].cands);
        }
      }
      RefinesCount(h[1..], g[1..]);
      assert h[0] == g[0].(cands := h[0].cands);
      CardSplit(g[0].cands, h[0].cands);
      assert g[0].cands * h[0].cands == h[0].cands;
      if h[0].cands != g[0].cands {
        assert g[0].cands - h[0].cands != {};
      } else if CandCount(h) == CandCount(g) {
        assert h == [h[0]] + h[1..];
        assert g == [g[0]] + g[1..];
      }
    }
  }

  /** Every cell of `r` loses the candidates in `s`; nothing else changes. */
  function Without(g: Grid, r: Range, s: set<int>): (h: Grid)
    requires InTable(g, r)
    ensures |h| == |g|
    ensures forall i :: 0 <= i < |g| ==> h[i] == if i in r then g[i].(cands := g[i].cands - s) else g[i]
    decreases |r|
  {
    if r == [] then g
    else
      var h := Without(g, r[..|r| - 1], s);
      var p := r[|r| - 1];
      assert forall i :: i in r <==> i in r[..|r| - 1] || i == p by {
        assert r == r[..|r| - 1] + [p];
      }
      h[p := h[p].(cands := h[p].cands - s)]
  }

  /** Every cell of `r` keeps only the candidates in `s`; nothing else changes. */
  function Within(g: Grid, r: Range, s: set<int>): (h: Grid)
    requires InTable(g, r)
    ensures |h| == |g|
    ensures forall i :: 0 <= i < |g| ==> h[i] == if i in r then g[i].(cands := g[i].cands * s) else g[i]
    decreases |r|
  {
    if r == [] then g
    else
      var h := Within(g, r[..|r| - 1], s);
      var p := r[|r| - 1];
      assert forall i :: i in r <==> i in r[..|r| - 1] || i == p by {
        assert r == r[..|r| - 1] + [p];
      }
      h[p := h[p].(cands := h[p].cands * s)]
  }

  lemma WithoutRefines(g: Grid, r: Range, s: set<int>)
    requires InTable(g, r)
    ensures Refines(Without(g, r, s), g)
  {
  }

  lemma WithinRefines(g: Grid, r: Range, s: set<int>)
    requires InTable(g, r)
    ensures Refines(Within(g, r, s), g)
  {
  }

  /**
   * Removes each of `vals` from one cell's candidates, counting the removals
   * that succeeded (the inner loop of RemoveProbableValues).
   */
  method RemoveValues(cell: Cell, vals: seq<int>) returns (removed: nat)
    modifies cell
    ensures cell.State() == old(cell.State()).(cands := old(cell.cands) - SetOf(vals))
    ensures removed == |old(cell.cands) * SetOf(vals)|
  {
    ghost var c0 := cell.cands;
    ghost var s0 := cell.State();
    removed := 0;
    var m := 0;
    assert SetOf(vals[..0]) == {};
    while m < |vals|
      invariant 0 <= m <= |vals|
      invariant cell.State() == s0.(cands := cell.cands)
      invariant cell.cands == c0 - SetOf(vals[..m])
      invariant removed == |c0 * SetOf(vals[..m])|
    {
      assert SetOf(vals[..m + 1]) == SetOf(vals[..m]) + {vals[m]} by {
        assert vals[..m + 1] == vals[..m] + [vals[m]];
      }
      var present := vals[m] in cell.cands;
      cell.cands := cell.cands - {vals[m]};
      CountStep(c0, SetOf(vals[..m]), vals[m], present);
      if present {
        removed := removed + 1;
      }
      m := m + 1;
    }
    assert vals[..m] == vals;
  }

  /** RemoveValues on cell `i` of a table, stated on the table's grid. */
  method RemoveFromCell(t: Table, i: nat, vals: seq<int>) returns (removed: nat)
    requires t.Distinct() && i < |t.cells|
    modifies t.cells[i]
    ensures t.Grid() == old(t.Grid())[i := old(t.Grid())[i].(cands := old(t.Grid())[i].cands - SetOf(vals))]
    ensures removed == |old(t.Grid())[i].cands * SetOf(vals)|
  {
    removed := RemoveValues(t.cells[i], vals);
  }

  lemma CountStep(a: set<int>, done: set<int>, v: int, ok: bool)
    requires ok == (v in a - done)
    ensures |a * (done + {v})| == |a * done| + (if ok then 1 else 0)
  {
    if ok {
      assert a * (done + {v}) == a * done + {v};
    } else {
      assert a * (done + {v}) == a * done;
    }
  }

  /**
   * Keeps in one cell's candidates only those in `keep`, walking a snapshot of
   * the candidates in whatever order and counting
   * the removals (the inner loop of KeepProbableValues).
   */
  method KeepValues(cell: Cell, keep: set<int>) returns (removed: nat)
    modifies cell
    ensures cell.State() == old(cell.State()).(cands := old(cell.cands) * keep)
    ensures removed == |old(cell.cands) - keep|
  {
    ghost var c0 := cell.cands;
    ghost var s0 := cell.State();
    var rest := cell.cands;
    removed := 0;
    while rest != {}
      invariant rest <= c0
      invariant cell.State() == s0.(cands := c0 - ((c0 - rest) - keep))
      invariant removed == |c0 * ((c0 - rest) - keep)|
      decreases |rest|
    {
      NonEmptyHasElement(rest);
      var x :| x in rest;
      ghost var done := (c0 - rest) - keep;
      KeepStep(c0, rest, keep, x);
      if x !in keep {
        var present := cell.RemoveCandidate(x);
        CountStep(c0, done, x, present);
        MinusStep(c0, done, x);
        if present {
          removed := removed + 1;
        }
      }
      rest := rest - {x};
    }
    KeepDone(c0, keep);
  }

  lemma MinusStep(a: set<int>, done: set<int>, x: int)
    ensures (a - done) - {x} == a - (done + {x})
  {
  }

  /** Visiting `x` adds it to the dropped candidates exactly when `keep` lacks it. */
  lemma KeepStep(c0: set<int>, rest: set<int>, keep: set<int>, x: int)
    requires rest <= c0 && x in rest
    ensures x !in keep ==> (c0 - (rest - {x})) - keep == ((c0 - rest) - keep) + {x}
    ensures x in keep ==> (c0 - (rest - {x})) - keep == (c0 - rest) - keep
  {
  }

  /** Once every candidate is visited, the kept ones are `c0 * keep` and the dropped ones `c0 - keep`. */
  lemma KeepDone(c0: set<int>, keep: set<int>)
    ensures c0 - ((c0 - {}) - keep) == c0 * keep
    ensures c0 * ((c0 - {}) - keep) == c0 - keep
  {
  }

  /** KeepValues on cell `i` of a table, stated on the table's grid. */
  method KeepInCell(t: Table, i: nat, keep: set<int>) returns (removed: nat)
    requires t.Distinct() && i < |t.cells|
    modifies t.cells[i]
    ensures t.Grid() == old(t.Grid())[i := old(t.Grid())[i].(cands := old(t.Grid())[i].cands * keep)]
    ensures removed == |old(t.Grid())[i].cands - keep|
  {
    removed := KeepValues(t.cells[i], keep);
  }

  /**
   * Erases `vals` from every cell of the range and returns how many
   * candidates were erased: the whole drop of the candidate count.
   */
  method RemoveProbableValues(t: Table, r: Range, vals: seq<int>) returns (count: nat)
    requires t.Distinct() && InTable(t.Grid(), r)
    modifies t.CellSet()
    ensures t.Grid() == Without(old(t.Grid()), r, SetOf(vals))
    ensures count == CandCount(old(t.Grid())) - CandCount(t.Grid())
  {
    ghost var g0 := t.Grid();
    count := 0;
    var k := 0;
    while k < |r|
      invariant 0 <= k <= |r|
      invariant t.Distinct() && |t.cells| == |g0|
      invariant t.Grid() == Without(g0, r[..k], SetOf(vals))
      invariant count == CandCount(g0) - CandCount(t.Grid())
    {
      ghost var h := t.Grid();
      var removed := RemoveFromCell(t, r[k], vals);
      RemoveCount(h, r[k], SetOf(vals));
      WithoutStep(g0, r, k, SetOf(vals));
      count := count + removed;
      k := k + 1;
    }
    assert r[..k] == r;
  }

  /**
   * Keeps in every cell of the range only the candidates in `keepVals` and
   * returns how many candidates were erased.
   */
  method KeepProbableValues(t: Table, r: Range, keepVals: seq<int>) returns (count: nat)
    requires t.Distinct() && InTable(t.Grid(), r)
    modifies t.CellSet()
    ensures t.Grid() == Within(old(t.Grid()), r, SetOf(keepVals))
    ensures count == CandCount(old(t.Grid())) - CandCount(t.Grid())
  {
    ghost var g0 := t.Grid();
    var keep := SetOf(keepVals);
    count := 0;
    var k := 0;
    while k < |r|
      invariant 0 <= k <= |r|
      invariant t.Distinct() && |t.cells| == |g0|
      invariant t.Grid() == Within(g0, r[..k], keep)
      invariant count == CandCount(g0) - CandCount(t.Grid())
    {
      ghost var h := t.Grid();
      var removed := KeepInCell(t, r[k], keep);
      KeepCount(h, r[k], keep);
      WithinStep(g0, r, k, keep);
      count := count + removed;
      k := k + 1;
    }
    assert r[..k] == r;
  }

  /** Removing from one more cell of the range is one more single-cell removal. */
  lemma WithoutStep(g: Grid, r: Range, k: nat, s: set<int>)
    requires InTable(g, r) && k < |r|
    ensures var h := Without(g, r[..k], s);
      Without(g, r[..k + 1], s) == h[r[k] := h[r[k]].(cands := h[r[k]].cands - s)]
  {
    assert r[..k + 1][..k] == r[..k];
  }

  /** Keeping in one more cell of the range is one more single-cell intersection. */
  lemma WithinStep(g: Grid, r: Range, k: nat, s: set<int>)
    requires InTable(g, r) && k < |r|
    ensures var h := Within(g, r[..k], s);
      Within(g, r[..k + 1], s) == h[r[k] := h[r[k]].(cands := h[r[k]].cands * s)]
  {
    assert r[..k + 1][..k] == r[..k];
  }

  /** The count drop of a one-cell removal is the number of candidates it erased. */
  lemma RemoveCount(g: Grid, i: nat, s: set<int>)
    requires i < |g|
    ensures CandCount(g[i := g[i].(cands := g[i].cands - s)]) == CandCount(g) - |g[i].cands * s|
  {
    CandCountUpdate(g, i, g[i].(cands := g[i].cands - s));
    CardSplit(g[i].cands, s);
  }

  /** The count drop of a one-cell intersection is the number of candidates it erased. */
  lemma KeepCount(g: Grid, i: nat, s: set<int>)
    requires i < |g|
    ensures CandCount(g[i := g[i].(cands := g[i].cands * s)]) == CandCount(g) - |g[i].cands - s|
  {
    CandCountUpdate(g, i, g[i].(cands := g[i].cands * s));
    CardSplit(g[i].cands, s);
  }

  /** For an erasing edit, the count drops exactly when some candidate was erased. */
  lemma ErasedIffChanged(h: Grid, g: Grid)
    requires Refines(h, g)
    ensures CandCount(h) < CandCount(g) <==> h != g
  {
    RefinesCount(h, g);
  }
}
