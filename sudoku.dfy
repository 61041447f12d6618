/**
 * The solve loop of Sudoku: the initial candidates, then rounds that each
 * work on a clone of the last table, placing a solved cell or else running
 * the two filters over blocks, rows and columns, and keep every successful
 * clone as a new stage.
 */
module Solver {

  import opened Sets
  import opened Cells
  import opened Ranges
  import opened Tables
  import opened Edits
  import opened Singles

  /** The strategies, in the order of their priority. */
  datatype StrategyType =
    | CreateTable | InitializeProbableValues | SetValueToSolvedCell | HiddenSingles
    | NakedPairsTriples | HiddenPairsTriples | NakedQuards | HiddenQuards
    | PointingPairs | BoxLineReduction | XWing | SimpleColouring | YWing | Swordfish | XYZWing

  datatype StrategyResult = StrategyResult(strategyType: StrategyType, success: bool)

  /**
   * A stage: a snapshot of the table it was made from, and the result of the
   * strategy that made it (the solve loop records none).
   */
  datatype Stage = Stage(grid: Grid, result: Option<StrategyResult>)

  /** The two filters the solve loop runs (FilterProbableValues_1, FilterProbableValues_2). */
  datatype Filter = UniqueCandidate | SameCandidates

  /** The three kinds of scope, in the order the loops visit them. */
  datatype Scope = Blocks | Rows | Columns

  /** The index a cell has in a kind of scope. */
  function Coord(c: CellState, s: Scope): int
  {
    match s
    case Blocks => c.block
    case Rows => c.row
    case Columns => c.column
  }

  /** Block, row or column `x` (table.SelectBlock, SelectRow, SelectColumn). */
  function SelectScope(g: Grid, s: Scope, x: int): (r: Range)
    ensures Ordered(r) && InTable(g, r)
    ensures forall i :: i in r <==> 0 <= i < |g| && Coord(g[i], s) == x
  {
    match s
    case Blocks => SelectBlock(g, x)
    case Rows => SelectRow(g, x)
    case Columns => SelectColumn(g, x)
  }

  /** `h` holds the cells of `g` at the same places with the same values; only candidates may differ. */
  predicate SameCells(h: Grid, g: Grid)
  {
    |h| == |g| && forall i :: 0 <= i < |g| ==> h[i] == g[i].(cands := h[i].cands)
  }

  /** A scope depends only on where the cells are, not on their candidates. */
  lemma ScopeFrame(g: Grid, h: Grid, s: Scope, x: int)
    requires SameCells(h, g)
    ensures SelectScope(h, s, x) == SelectScope(g, s, x)
  {
    var all := AllCells(|g|);
    forall k | 0 <= k < |all| ensures h[all[k]] == g[all[k]].(cands := h[all[k]].cands) {
    }
    match s
    case Blocks =>
      SelectAgrees(h, g, all, (x': CellState) => x'.block == x, (x': CellState) => x'.block == x);
      assert SelectBlock(h, x) == Select(h, all, (x': CellState) => x'.block == x);
    case Rows =>
      SelectAgrees(h, g, all, (x': CellState) => x'.row == x, (x': CellState) => x'.row == x);
      assert SelectRow(h, x) == Select(h, all, (x': CellState) => x'.row == x);
    case Columns =>
      SelectAgrees(h, g, all, (x': CellState) => x'.column == x, (x': CellState) => x'.column == x);
      assert SelectColumn(h, x) == Select(h, all, (x': CellState) => x'.column == x);
  }

  // ---------------------------------------------------------------------
  // ClearProbableValue and SetProbableValue
  // ---------------------------------------------------------------------

  /** Removes `v` from the candidates of every cell of the range and changes nothing else. */
  method ClearProbableValue(t: Table, r: Range, v: int)
    requires t.Distinct() && InTable(t.Grid(), r)
    modifies t.CellSet()
    ensures t.Grid() == Without(old(t.Grid()), r, {v})
  {
    ghost var g0 := t.Grid();
    var k := 0;
    while k < |r|
      invariant 0 <= k <= |r|
      invariant t.Distinct() && |t.cells| == |g0|
      invariant t.Grid() == Without(g0, r[..k], {v})
    {
      var removed := t.RemoveCandidate(r[k], v);
      assert r[..k + 1][..k] == r[..k];
      k := k + 1;
    }
    assert r[..k] == r;
  }

  /** Erasing `v` over two ranges that differ at most in a cell without candidates gives the same grid. */
  lemma SameErase(h: Grid, r1: Range, r2: Range, i: nat, v: int)
    requires InTable(h, r1) && InTable(h, r2) && i < |h| && h[i].cands == {}
    requires forall j :: 0 <= j < |h| && j != i ==> (j in r1 <==> j in r2)
    ensures Without(h, r1, {v}) == Without(h, r2, {v})
  {
    var a := Without(h, r1, {v});
    var b := Without(h, r2, {v});
    assert h[i].(cands := h[i].cands - {v}) == h[i];
    forall j | 0 <= j < |h| ensures a[j] == b[j] {
    }
  }

  /** Erasing candidates keeps every cell where it was, with its value. */
  lemma WithoutSameCells(h: Grid, g: Grid, r: Range, s: set<int>)
    requires SameCells(h, g) && InTable(h, r)
    ensures SameCells(Without(h, r, s), g)
  {
  }

  /** The block of a cell without candidates, cleared of `v`, is the cell's block peers cleared of `v`. */
  lemma BlockIsPeers(p: Grid, h: Grid, i: nat, v: int)
    requires SameCells(h, p) && i < |p| && h[i].cands == {}
    ensures Without(h, SelectBlock(h, p[i].block), {v}) == Without(h, BlockPeers(p, AllCells(|p|), i), {v})
  {
    SameErase(h, SelectBlock(h, p[i].block), BlockPeers(p, AllCells(|p|), i), i, v);
  }

  /** The same for the row of the cell. */
  lemma RowIsPeers(p: Grid, h: Grid, i: nat, v: int)
    requires SameCells(h, p) && i < |p| && h[i].cands == {}
    ensures Without(h, SelectRow(h, p[i].row), {v}) == Without(h, RowPeers(p, AllCells(|p|), i), {v})
  {
    SameErase(h, SelectRow(h, p[i].row), RowPeers(p, AllCells(|p|), i), i, v);
  }

  /** The same for the column of the cell. */
  lemma ColumnIsPeers(p: Grid, h: Grid, i: nat, v: int)
    requires SameCells(h, p) && i < |p| && h[i].cands == {}
    ensures Without(h, SelectColumn(h, p[i].column), {v}) == Without(h, ColumnPeers(p, AllCells(|p|), i), {v})
  {
    SameErase(h, SelectColumn(h, p[i].column), ColumnPeers(p, AllCells(|p|), i), i, v);
  }

  /** The grid left by clearing `v` from the block, then the row, then the column of cell `i`. */
  ghost function ClearScopes(p: Grid, i: nat, v: int): (h: Grid)
    requires i < |p|
  {
    var h1 := Without(p, SelectBlock(p, p[i].block), {v});
    var h2 := Without(h1, SelectRow(h1, p[i].row), {v});
    Without(h2, SelectColumn(h2, p[i].column), {v})
  }

  /**
   * Clearing the value from the whole block, row and column of a cell that
   * already lost its candidates is the same as clearing it from the cell's
   * peers, as SetValueToSolvedCell does over the whole table.
   */
  lemma ScopesArePeers(p: Grid, i: nat, v: int)
    requires i < |p| && p[i].cands == {}
    ensures ClearScopes(p, i, v) == ErasePeers(p, AllCells(|p|), i, v)
  {
    var all := AllCells(|p|);
    var h1 := Without(p, SelectBlock(p, p[i].block), {v});
    BlockIsPeers(p, p, i, v);
    WithoutSameCells(p, p, SelectBlock(p, p[i].block), {v});
    var h2 := Without(h1, SelectRow(h1, p[i].row), {v});
    RowIsPeers(p, h1, i, v);
    WithoutSameCells(h1, p, SelectRow(h1, p[i].row), {v});
    ColumnIsPeers(p, h2, i, v);
  }

  /** When cell `i` is the first with a single candidate `v`, SetValueToSolvedCell over all cells places it and clears its scopes. */
  lemma SolvedOverAll(g: Grid, i: nat, v: int)
    requires FindSolved(g, AllCells(|g|)) == Some(i) && i < |g| && g[i].cands == {v}
    ensures SolvedCellStep(g, AllCells(|g|)) ==
            Outcome(true, ClearScopes(g[i := g[i].(value := Some(v), cands := {})], i, v))
  {
    assert Sole(g[i].cands) == v;
    ScopesArePeers(g[i := g[i].(value := Some(v), cands := {})], i, v);
  }

  /** The three ClearProbableValue calls of SetProbableValue, each on a scope taken from the current table. */
  method ClearScopesOf(t: Table, i: nat, v: int)
    requires t.Distinct() && i < |t.cells|
    modifies t.CellSet()
    ensures t.Grid() == ClearScopes(old(t.Grid()), i, v)
  {
    var cell := t.cells[i];
    var block := SelectBlock(t.Grid(), cell.block);
    ClearProbableValue(t, block, v);
    var row := SelectRow(t.Grid(), cell.row);
    ClearProbableValue(t, row, v);
    var column := SelectColumn(t.Grid(), cell.column);
    ClearProbableValue(t, column, v);
  }

  /**
   * SetProbableValue: the first cell of the table with a single candidate
   * takes it as its value, loses its candidates, and the value is cleared
   * from its block, its row and its column. This is SetValueToSolvedCell
   * over the range of all cells.
   */
  method SetProbableValue(t: Table) returns (success: bool)
    requires t.Distinct()
    modifies t.CellSet()
    ensures Outcome(success, t.Grid()) == SolvedCellStep(old(t.Grid()), AllCells(|old(t.Grid())|))
  {
    var g := t.Grid();
    var found := FindSingle(g);
    if found.None? {
      return false;
    }
    var (i, value) := found.value;
    ghost var placed := g[i := g[i].(value := Some(value), cands := {})];
    PlaceSole(t, i, value);
    assert t.Grid() == placed;
    ClearScopesOf(t, i, value);
    assert t.Grid() == ClearScopes(placed, i, value);
    SolvedOverAll(g, i, value);
    success := true;
  }

  /** The first cell of the table with a single candidate, with that candidate (GetFirstProbableValue). */
  method FindSingle(g: Grid) returns (found: Option<(nat, int)>)
    ensures found.None? ==> FindSolved(g, AllCells(|g|)).None? && SolvedCellStep(g, AllCells(|g|)) == Outcome(false, g)
    ensures found.Some? ==> found.value.0 < |g| && FindSolved(g, AllCells(|g|)) == Some(found.value.0) &&
                            g[found.value.0].cands == {found.value.1}
  {
    var cell := FindSolved(g, AllCells(|g|));
    if cell.None? {
      return None;
    }
    var cands := g[cell.value].cands;
    NonEmptyHasElement(cands);
    var value :| value in cands;
    SingletonOf(cands, value);
    found := Some((cell.value, value));
  }

  /** A placed single removes its own candidate and erases others only, so the count falls. */
  lemma SolvedCellShrinks(g: Grid, r: Range)
    requires InTable(g, r)
    ensures SolvedCellStep(g, r).success ==> CandCount(SolvedCellStep(g, r).grid) < CandCount(g)
  {
    var found := FindSolved(g, r);
    if found.Some? {
      var i := found.value;
      var v := Sole(g[i].cands);
      var p := g[i := g[i].(value := Some(v), cands := {})];
      CandCountUpdate(g, i, p[i]);
      var h1 := Without(p, BlockPeers(p, r, i), {v});
      var h2 := Without(h1, RowPeers(p, r, i), {v});
      var h3 := Without(h2, ColumnPeers(p, r, i), {v});
      WithoutRefines(p, BlockPeers(p, r, i), {v});
      WithoutRefines(h1, RowPeers(p, r, i), {v});
      WithoutRefines(h2, ColumnPeers(p, r, i), {v});
      RefinesCount(h1, p);
      RefinesCount(h2, h1);
      RefinesCount(h3, h2);
    }
  }

  // ---------------------------------------------------------------------
  // SetInitialProbabledValues and FilterInitialProbableValues
  // ---------------------------------------------------------------------

  /** The first loop of SetInitialProbabledValues on one cell: every digit 1..L if it is empty, none if it is filled. */
  function ResetState(c: CellState, L: int): CellState
  {
    c.(cands := if c.IsEmpty() then Digits(L) else {})
  }

  /** The first loop of SetInitialProbabledValues on every cell. */
  ghost function Reset(g: Grid, L: int): (h: Grid)
    ensures |h| == |g| && forall i :: 0 <= i < |g| ==> h[i] == ResetState(g[i], L)
  {
    seq(|g|, i requires 0 <= i < |g| => ResetState(g[i], L))
  }

  /** The innermost loop: adds the digits 1..n to the candidates of a cell. */
  method AddDigits(cell: Cell, n: nat)
    modifies cell
    ensures cell.State() == old(cell.State()).(cands := old(cell.cands) + Digits(n))
  {
    ghost var c0 := cell.cands;
    assert Digits(0) == {};
    var v := 1;
    while v <= n
      invariant 1 <= v <= n + 1
      invariant cell.State() == old(cell.State()).(cands := c0 + Digits(v - 1))
    {
      cell.cands := cell.cands + {v};
      v := v + 1;
    }
  }

  /** The body of the first loop for one cell: clear its candidates, then give it every digit if it is empty. */
  method ResetCell(cell: Cell, n: nat)
    modifies cell
    ensures cell.State() == old(cell.State()).(cands := if old(cell.value).None? then Digits(n) else {})
  {
    cell.cands := {};
    if cell.value == None {
      AddDigits(cell, n);
      assert {} + Digits(n) == Digits(n);
    }
  }

  /** Every cell loses its candidates; an empty one then gets all the digits. */
  method ResetCandidates(t: Table)
    requires t.Distinct()
    modifies t.CellSet()
    ensures t.Grid() == Reset(old(t.Grid()), t.length)
  {
    ghost var g0 := t.Grid();
    var n := |t.cells|;
    var k := 0;
    while k < n
      invariant 0 <= k <= n && |t.cells| == |g0| == n
      invariant forall i :: 0 <= i < n ==> t.cells[i].State() == if i < k then ResetState(g0[i], t.length) else g0[i]
    {
      ResetCell(t.cells[k], t.length);
      k := k + 1;
    }
  }

  /** FilterInitialProbableValues on a grid: the empty cells of the range lose every value placed in the range. */
  ghost function FilterInitial(g: Grid, r: Range): (h: Grid)
    requires InTable(g, r)
    ensures |h| == |g|
  {
    Without(g, SelectEmptyCells(g, r), ValuesSet(g, r))
  }

  method FilterInitialProbableValues(t: Table, r: Range)
    requires t.Distinct() && InTable(t.Grid(), r)
    modifies t.CellSet()
    ensures t.Grid() == FilterInitial(old(t.Grid()), r)
  {
    var g := t.Grid();
    var existsValues := ToArray(ValuesSet(g, r));
    var emptyCells := SelectEmptyCells(g, r);
    var count := RemoveProbableValues(t, emptyCells, existsValues);
  }

  /** The values placed in scope `x` of kind `s`. */
  function ScopeValues(g: Grid, s: Scope, x: int): set<int>
  {
    ValuesSet(g, SelectScope(g, s, x))
  }

  /**
   * `h` is `g` after FilterInitialProbableValues on the scopes 0..n-1 of
   * kind `s`: an empty cell in one of them has lost the values placed in
   * its scope, and nothing else changed.
   */
  ghost predicate Passed(h: Grid, g: Grid, s: Scope, n: int)
  {
    SameCells(h, g) &&
    forall i :: 0 <= i < |g| ==>
      h[i].cands == (if g[i].IsEmpty() && 0 <= Coord(g[i], s) < n
                     then g[i].cands - ScopeValues(g, s, Coord(g[i], s))
                     else g[i].cands)
  }

  /** FilterInitial at one cell. */
  lemma FilterInitialAt(g: Grid, r: Range, i: nat)
    requires InTable(g, r) && i < |g|
    ensures FilterInitial(g, r)[i] ==
      if i in r && g[i].IsEmpty() then g[i].(cands := g[i].cands - ValuesSet(g, r)) else g[i]
  {
    assert i in SelectEmptyCells(g, r) <==> i in r && g[i].IsEmpty();
  }

  /** Placed values depend only on where the cells are and what they hold, not on candidates. */
  lemma {:induction false} ValuesFrame(g: Grid, h: Grid, r: Range)
    requires InTable(g, r) && SameCells(h, g)
    ensures ValuesSet(h, r) == ValuesSet(g, r)
  {
    if r != [] {
      ValuesFrame(g, h, r[1..]);
    }
  }

  /** Neither scopes nor their values change while only candidates do. */
  lemma ScopeValuesFrame(g: Grid, h: Grid, s: Scope, x: int)
    requires SameCells(h, g)
    ensures SelectScope(h, s, x) == SelectScope(g, s, x)
    ensures ScopeValues(h, s, x) == ScopeValues(g, s, x)
  {
    ScopeFrame(g, h, s, x);
    ValuesFrame(g, h, SelectScope(g, s, x));
  }

  /** Filtering scope `n`, taken from the current grid, extends the filtered scopes to 0..n. */
  lemma PassNext(g: Grid, q: Grid, s: Scope, n: nat)
    requires Passed(q, g, s, n)
    ensures Passed(FilterInitial(q, SelectScope(q, s, n)), g, s, n + 1)
  {
    var p := FilterInitial(q, SelectScope(q, s, n));
    forall i | 0 <= i < |g|
      ensures p[i] == g[i].(cands := p[i].cands)
      ensures p[i].cands == (if g[i].IsEmpty() && 0 <= Coord(g[i], s) < n + 1
                             then g[i].cands - ScopeValues(g, s, Coord(g[i], s))
                             else g[i].cands)
    {
      PassNextAt(g, q, s, n, i);
    }
  }

  /** PassNext at one cell. */
  lemma PassNextAt(g: Grid, q: Grid, s: Scope, n: nat, i: nat)
    requires SameCells(q, g) && i < |g|
    requires q[i].cands == (if g[i].IsEmpty() && 0 <= Coord(g[i], s) < n
                            then g[i].cands - ScopeValues(g, s, Coord(g[i], s))
                            else g[i].cands)
    ensures var p := FilterInitial(q, SelectScope(q, s, n));
      p[i] == g[i].(cands := p[i].cands) &&
      p[i].cands == (if g[i].IsEmpty() && 0 <= Coord(g[i], s) < n + 1
                     then g[i].cands - ScopeValues(g, s, Coord(g[i], s))
                     else g[i].cands)
  {
    var r := SelectScope(q, s, n);
    ScopeValuesFrame(g, q, s, n);
    FilterInitialAt(q, r, i);
    assert q[i] == g[i].(cands := q[i].cands);
    assert i in r <==> Coord(g[i], s) == n;
  }

  /** One of the three filtering loops of SetInitialProbabledValues: scopes 0..Length-1 of kind `s`. */
  method FilterAllInitial(t: Table, s: Scope)
    requires t.Distinct()
    modifies t.CellSet()
    ensures Passed(t.Grid(), old(t.Grid()), s, t.length)
  {
    ghost var g0 := t.Grid();
    var x := 0;
    while x < t.length
      invariant 0 <= x <= t.length && t.Distinct()
      invariant Passed(t.Grid(), g0, s, x)
    {
      ghost var q := t.Grid();
      var range := SelectScope(t.Grid(), s, x);
      FilterInitialProbableValues(t, range);
      PassNext(g0, q, s, x);
      x := x + 1;
    }
  }

  /** The candidates SetInitialProbabledValues gives an empty cell: the digits not placed in its block, its row or its column. */
  function InitialCandidates(g: Grid, i: nat, L: int): set<int>
    requires i < |g|
  {
    Digits(L) - ScopeValues(g, Blocks, g[i].block) - ScopeValues(g, Rows, g[i].row) -
    ScopeValues(g, Columns, g[i].column)
  }

  /** `h` is `g` with the candidates SetInitialProbabledValues computes, and nothing else changed. */
  ghost predicate Initialized(h: Grid, g: Grid, L: int)
  {
    SameCells(h, g) &&
    forall i :: 0 <= i < |g| ==> h[i].cands == if g[i].IsEmpty() then InitialCandidates(g, i, L) else {}
  }

  /** The three passes after the reset leave every empty cell the digits its scopes do not hold. */
  lemma InitialPasses(g: Grid, B: nat, h0: Grid, h1: Grid, h2: Grid, h3: Grid)
    requires WellFormed(g, B) && h0 == Reset(g, B * B)
    requires Passed(h1, h0, Blocks, B * B) && Passed(h2, h1, Rows, B * B) && Passed(h3, h2, Columns, B * B)
    ensures Initialized(h3, g, B * B)
  {
    var L := B * B;
    assert SameCells(h0, g);
    forall i | 0 <= i < |g|
      ensures h3[i] == g[i].(cands := h3[i].cands)
      ensures h3[i].cands == if g[i].IsEmpty() then InitialCandidates(g, i, L) else {}
    {
      assert Placed(g[i].block, g[i].row, g[i].column, i, B);
      ScopeValuesFrame(g, h0, Blocks, g[i].block);
      ScopeValuesFrame(h0, h1, Rows, g[i].row);
      ScopeValuesFrame(g, h0, Rows, g[i].row);
      ScopeValuesFrame(h1, h2, Columns, g[i].column);
      ScopeValuesFrame(h0, h1, Columns, g[i].column);
      ScopeValuesFrame(g, h0, Columns, g[i].column);
    }
  }

  /** SetInitialProbabledValues: all digits for the empty cells, then the blocks, rows and columns filter them. */
  method SetInitialProbabledValues(t: Table)
    requires t.Valid()
    modifies t.CellSet()
    ensures Initialized(t.Grid(), old(t.Grid()), t.length)
  {
    ghost var g := t.Grid();
    t.GridWellFormed();
    ResetCandidates(t);
    ghost var h0 := t.Grid();
    FilterAllInitial(t, Blocks);
    ghost var h1 := t.Grid();
    FilterAllInitial(t, Rows);
    ghost var h2 := t.Grid();
    FilterAllInitial(t, Columns);
    InitialPasses(g, t.blockLength, h0, h1, h2, t.Grid());
  }

  /** No cell sharing the block, the row or the column of cell `i` holds `v`. */
  ghost predicate FreeAt(g: Grid, i: nat, v: int)
    requires i < |g|
  {
    forall j :: 0 <= j < |g| && Peers(g[j], g[i]) ==> g[j].value != Some(v)
  }

  /** A digit is an initial candidate of a cell exactly when no cell of its block, row or column holds it. */
  lemma InitialCandidatesMeaning(g: Grid, i: nat, L: int, v: int)
    requires i < |g|
    ensures v in InitialCandidates(g, i, L) <==> 1 <= v <= L && FreeAt(g, i, v)
  {
    var b := SelectScope(g, Blocks, g[i].block);
    var r := SelectScope(g, Rows, g[i].row);
    var c := SelectScope(g, Columns, g[i].column);
    if v in InitialCandidates(g, i, L) {
      forall j | 0 <= j < |g| && Peers(g[j], g[i]) ensures g[j].value != Some(v) {
        if g[j].block == g[i].block {
          var k :| 0 <= k < |b| && b[k] == j;
        } else if g[j].row == g[i].row {
          var k :| 0 <= k < |r| && r[k] == j;
        } else {
          var k :| 0 <= k < |c| && c[k] == j;
        }
      }
    } else if 1 <= v <= L {
      if v in ValuesSet(g, b) {
        var k :| 0 <= k < |b| && g[b[k]].value == Some(v);
        assert Peers(g[b[k]], g[i]);
      } else if v in ValuesSet(g, r) {
        var k :| 0 <= k < |r| && g[r[k]].value == Some(v);
        assert Peers(g[r[k]], g[i]);
      } else {
        var k :| 0 <= k < |c| && g[c[k]].value == Some(v);
        assert Peers(g[c[k]], g[i]);
      }
    }
  }

  // ---------------------------------------------------------------------
  // FilterProbableValues_1: a digit only one empty cell can take
  // ---------------------------------------------------------------------

  /**
   * FilterProbableValues_1 on a grid: the first digit of 1..L that exactly
   * one empty cell of the range has as a candidate becomes that cell's only
   * candidate.
   */
  ghost function UniqueStep(g: Grid, r: Range, L: nat): (o: Outcome)
    requires InTable(g, r)
  {
    var e := SelectEmptyCells(g, r);
    match FirstUnique(g, e, DigitSeq(L))
    case None => Outcome(false, g)
    case Some((i, v)) => Outcome(true, g[i := g[i].(cands := {v})])
  }

  /** The inner loop: how many empty cells have candidate `v`, and the first of them (repeatCount, candidateCell). */
  method CountCandidate(g: Grid, e: Range, v: int) returns (repeatCount: nat, candidateCell: Option<nat>)
    requires InTable(g, e)
    ensures repeatCount == |WithCandidate(g, e, v)|
    ensures repeatCount > 0 ==> candidateCell == Some(WithCandidate(g, e, v)[0])
  {
    repeatCount := 0;
    candidateCell := None;
    ghost var seen: Range := [];
    var k := 0;
    while k < |e|
      invariant 0 <= k <= |e|
      invariant seen == WithCandidate(g, e[..k], v)
      invariant repeatCount == |seen|
      invariant repeatCount == 0 <==> candidateCell.None?
      invariant repeatCount > 0 ==> candidateCell == Some(seen[0])
    {
      WithCandidateStep(g, e, k, v);
      if v in g[e[k]].cands {
        if candidateCell.None? {
          candidateCell := Some(e[k]);
        }
        repeatCount := repeatCount + 1;
        seen := seen + [e[k]];
      }
      k := k + 1;
    }
    assert e[..k] == e;
  }

  /** The cells holding `v` among the first k + 1 positions: those among the first k, then position k if it holds `v`. */
  lemma WithCandidateStep(g: Grid, e: Range, k: nat, v: int)
    requires InTable(g, e) && k < |e|
    ensures WithCandidate(g, e[..k + 1], v) == WithCandidate(g, e[..k], v) + (if v in g[e[k]].cands then [e[k]] else [])
  {
    assert e[..k + 1] == e[..k] + [e[k]];
    SelectSnoc(g, e[..k], e[k], (x: CellState) => v in x.cands);
  }

  /** The outer loop over v = 1..L, stopping at the first digit with a single cell. */
  method FindUniqueDigit(g: Grid, e: Range, L: nat) returns (found: Option<(nat, int)>)
    requires InTable(g, e)
    ensures found == FirstUnique(g, e, DigitSeq(L))
  {
    ghost var digits := DigitSeq(L);
    var v := 1;
    while v <= L
      invariant 1 <= v <= L + 1
      invariant FirstUnique(g, e, digits[v - 1..]) == FirstUnique(g, e, digits)
    {
      ghost var rest := digits[v - 1..];
      assert rest[0] == v && rest[1..] == digits[v..];
      var repeatCount, candidateCell := CountCandidate(g, e, v);
      if repeatCount == 1 {
        return Some((candidateCell.value, v));
      }
      v := v + 1;
    }
    assert digits[v - 1..] == [];
    return None;
  }

  method FilterUniqueCandidate(t: Table, r: Range) returns (success: bool)
    requires t.Distinct() && InTable(t.Grid(), r)
    modifies t.CellSet()
    ensures Outcome(success, t.Grid()) == UniqueStep(old(t.Grid()), r, t.length)
  {
    var g := t.Grid();
    var emptyCells := SelectEmptyCells(g, r);
    var found := FindUniqueDigit(g, emptyCells, t.length);
    if found.None? {
      return false;
    }
    var (i, v) := found.value;
    SetSoleCandidate(t, i, v);
    return true;
  }

  /**
   * FilterProbableValues_1 succeeds exactly when some digit of 1..L is a
   * candidate of exactly one empty cell of the range; the least such digit
   * then becomes that cell's only candidate and nothing else changes.
   */
  lemma UniqueMeaning(g: Grid, r: Range, L: nat)
    requires InTable(g, r)
    ensures var o := UniqueStep(g, r, L); var e := SelectEmptyCells(g, r);
      (o.success ==> exists i: nat, v: int :: 1 <= v <= L && i < |g| && v in g[i].cands &&
                       WithCandidate(g, e, v) == [i] && o.grid == g[i := g[i].(cands := {v})] &&
                       forall w :: 1 <= w < v ==> |WithCandidate(g, e, w)| != 1) &&
      (!o.success ==> o.grid == g && forall v :: 1 <= v <= L ==> |WithCandidate(g, e, v)| != 1)
  {
    var e := SelectEmptyCells(g, r);
    var ds := DigitSeq(L);
    FirstUniqueMeaning(g, e, ds);
    var found := FirstUnique(g, e, ds);
    if found.Some? {
      var (i, v) := found.value;
      var k :| 0 <= k < |ds| && ds[k] == v && WithCandidate(g, e, ds[k]) == [i] &&
               forall j :: 0 <= j < k ==> |WithCandidate(g, e, ds[j])| != 1;
      assert i in WithCandidate(g, e, v);
      forall w | 1 <= w < v ensures |WithCandidate(g, e, w)| != 1 {
        assert ds[w - 1] == w;
      }
    } else {
      forall v | 1 <= v <= L ensures |WithCandidate(g, e, v)| != 1 {
        assert ds[v - 1] == v;
      }
    }
  }

  /** A set holding some element and not of size one holds at least two. */
  lemma NotSingle(s: set<int>, v: int)
    requires v in s && |s| != 1
    ensures |s| >= 2
  {
    assert |s - {v}| + 1 == |s|;
  }

  /**
   * Once no cell has a single candidate, FilterProbableValues_1 can only
   * succeed by shrinking a cell: the candidate count strictly falls.
   */
  lemma UniqueShrinks(g: Grid, r: Range, L: nat)
    requires InTable(g, r) && FindSolved(g, AllCells(|g|)).None?
    ensures UniqueStep(g, r, L).success ==> CandCount(UniqueStep(g, r, L).grid) < CandCount(g)
  {
    var e := SelectEmptyCells(g, r);
    var found := FirstUnique(g, e, DigitSeq(L));
    if found.Some? {
      var (i, v) := found.value;
      UniqueMeaning(g, r, L);
      assert i in WithCandidate(g, e, v) by {
        FirstUniqueMeaning(g, e, DigitSeq(L));
      }
      assert AllCells(|g|)[i] == i;
      NotSingle(g[i].cands, v);
      CandCountUpdate(g, i, g[i].(cands := {v}));
    }
  }

  // ---------------------------------------------------------------------
  // FilterProbableValues_2: cells sharing one candidate set
  // ---------------------------------------------------------------------

  /** The other cells of `e` whose candidates equal those of `c`, followed by `c` itself (similarCells). */
  function SimilarCells(g: Grid, e: Range, c: nat): (s: Range)
    requires InTable(g, e) && c < |g|
    ensures InTable(g, s)
  {
    Exclude(g, Select(g, e, (x: CellState) => x.cands == g[c].cands), {c}) + [c]
  }

  /** As many cells of `e` share `c`'s candidate set as that set has candidates. */
  predicate GroupAt(g: Grid, e: Range, c: nat)
    requires InTable(g, e) && c < |g|
  {
    |g[c].cands| == |SimilarCells(g, e, c)|
  }

  /** The first position from `k` on, below `end`, whose element passes `test`. */
  function FirstIndex<A>(xs: seq<A>, test: A -> bool, k: nat, end: nat): (found: Option<nat>)
    requires end <= |xs|
    ensures found.Some? ==> k <= found.value < end && test(xs[found.value]) &&
                            forall j :: k <= j < found.value ==> !test(xs[j])
    ensures found.None? ==> forall j :: k <= j < end ==> !test(xs[j])
    decreases end - k
  {
    if k >= end then None
    else if test(xs[k]) then Some(k)
    else FirstIndex(xs, test, k + 1, end)
  }

  /** GroupAt as the test of the outer loop. */
  function GroupTest(g: Grid, e: Range): nat -> bool
    requires InTable(g, e)
  {
    (c: nat) => c < |g| && GroupAt(g, e, c)
  }

  /** The first position k < |e| - 1 from `k` on whose cell closes a group (the outer loop). */
  function FirstGroup(g: Grid, e: Range, k: nat): (found: Option<nat>)
    requires InTable(g, e)
    ensures found.Some? ==> k <= found.value < |e| - 1 && GroupAt(g, e, e[found.value]) &&
                            forall j :: k <= j < found.value ==> !GroupAt(g, e, e[j])
    ensures found.None? ==> forall j :: k <= j < |e| - 1 ==> !GroupAt(g, e, e[j])
  {
    FirstIndex(e, GroupTest(g, e), k, if |e| == 0 then 0 else |e| - 1)
  }

  /** The empty cells outside the group of `c` (filteredCells). */
  function Others(g: Grid, e: Range, c: nat): (s: Range)
    requires InTable(g, e) && c < |g|
    ensures InTable(g, s)
  {
    Exclude(g, e, Positions(SimilarCells(g, e, c)))
  }

  /**
   * FilterProbableValues_2 on a grid: at the first cell (but the last) of the
   * range's empty cells whose candidate set is shared by as many empty cells
   * as it has candidates, every other empty cell loses those candidates; the
   * filter succeeds when this erased something.
   */
  ghost function SameStep(g: Grid, r: Range): (o: Outcome)
    requires InTable(g, r)
  {
    var e := SelectEmptyCells(g, r);
    match FirstGroup(g, e, 0)
    case None => Outcome(false, g)
    case Some(k) =>
      var h := Without(g, Others(g, e, e[k]), g[e[k]].cands);
      Outcome(h != g, h)
  }

  /** The outer loop of FilterProbableValues_2, as a search over the empty cells. */
  method FindGroup(g: Grid, e: Range) returns (found: Option<nat>)
    requires InTable(g, e)
    ensures found == FirstGroup(g, e, 0)
  {
    var k := 0;
    while k + 1 < |e|
      invariant 0 <= k
      invariant FirstGroup(g, e, k) == FirstGroup(g, e, 0)
    {
      var similarCells := SimilarCells(g, e, e[k]);
      if |g[e[k]].cands| == |similarCells| {
        return Some(k);
      }
      k := k + 1;
    }
    return None;
  }

  /** The count of erased candidates is positive exactly when the erasure changed the grid. */
  lemma ClearCountMeaning(g: Grid, r: Range, s: set<int>, count: nat)
    requires InTable(g, r) && count == CandCount(g) - CandCount(Without(g, r, s))
    ensures count > 0 <==> Without(g, r, s) != g
  {
    WithoutRefines(g, r, s);
    ErasedIffChanged(Without(g, r, s), g);
  }

  method FilterSameCandidates(t: Table, r: Range) returns (success: bool)
    requires t.Distinct() && InTable(t.Grid(), r)
    modifies t.CellSet()
    ensures Outcome(success, t.Grid()) == SameStep(old(t.Grid()), r)
  {
    var g := t.Grid();
    var emptyCells := SelectEmptyCells(g, r);
    var found := FindGroup(g, emptyCells);
    if found.None? {
      return false;
    }
    var cell := emptyCells[found.value];
    var filteredCells := Others(g, emptyCells, cell);
    var values := ToArray(g[cell].cands);
    var clearCount := RemoveProbableValues(t, filteredCells, values);
    assert t.Grid() == Without(g, filteredCells, g[cell].cands);
    ClearCountMeaning(g, filteredCells, g[cell].cands, clearCount);
    success := clearCount > 0;
  }

  /** A sequence without repeated positions has as many elements as positions. */
  lemma {:induction false} DistinctCard(s: Range)
    requires forall j, k :: 0 <= j < k < |s| ==> s[j] != s[k]
    ensures |Positions(s)| == |s|
  {
    if s != [] {
      DistinctCard(s[1..]);
      assert Positions(s) == Positions(s[1..]) + {s[0]};
      assert s[0] !in Positions(s[1..]);
    }
  }

  /** The cells of `e` (an ordered range holding `c`) whose candidate set is that of `c`. */
  function Twins(g: Grid, e: Range, c: nat): (p: set<nat>)
    requires InTable(g, e) && c < |g|
    ensures forall i :: i in p <==> i in e && g[i].cands == g[c].cands
  {
    set i | i in e && g[i].cands == g[c].cands
  }

  /**
   * similarCells views exactly the cells of the range with `c`'s candidate
   * set, each once; the cells outside it are the others.
   */
  lemma SimilarMeaning(g: Grid, e: Range, c: nat)
    requires InTable(g, e) && Ordered(e) && c in e
    ensures Positions(SimilarCells(g, e, c)) == Twins(g, e, c)
    ensures |SimilarCells(g, e, c)| == |Twins(g, e, c)|
    ensures forall i :: i in Others(g, e, c) <==> i in e && g[i].cands != g[c].cands
  {
    var s := SimilarCells(g, e, c);
    var x := Exclude(g, Select(g, e, (x: CellState) => x.cands == g[c].cands), {c});
    assert s == x + [c];
    assert Positions(s) == Twins(g, e, c);
    forall j, k | 0 <= j < k < |s| ensures s[j] != s[k] {
      if k == |s| - 1 {
        assert s[j] in x;
      }
    }
    DistinctCard(s);
  }

  /**
   * FilterProbableValues_2 succeeds exactly when, at the first empty cell c
   * (not the last) whose candidate set is shared by as many empty cells of
   * the range as it has candidates, some other empty cell of the range still
   * holds one of those candidates; then exactly the empty cells with a
   * different candidate set lose c's candidates. On failure the grid is
   * unchanged.
   */
  lemma SameMeaning(g: Grid, r: Range)
    requires InTable(g, r) && Ordered(r)
    ensures var o := SameStep(g, r); var e := SelectEmptyCells(g, r);
      (o.success ==> exists k :: 0 <= k < |e| - 1 && |g[e[k]].cands| == |Twins(g, e, e[k])| &&
                       (forall j :: 0 <= j < k ==> |g[e[j]].cands| != |Twins(g, e, e[j])|) &&
                       Others(g, e, e[k]) != [] &&
                       o.grid == Without(g, Others(g, e, e[k]), g[e[k]].cands) && o.grid != g) &&
      (!o.success ==> o.grid == g)
  {
    var e := SelectEmptyCells(g, r);
    var found := FirstGroup(g, e, 0);
    if found.Some? {
      GroupFound(g, e, found.value);
    }
  }

  /** The first group of the search, restated through Twins. */
  lemma GroupFound(g: Grid, e: Range, k: nat)
    requires InTable(g, e) && Ordered(e) && FirstGroup(g, e, 0) == Some(k)
    ensures k < |e| - 1 && |g[e[k]].cands| == |Twins(g, e, e[k])|
    ensures forall j :: 0 <= j < k ==> |g[e[j]].cands| != |Twins(g, e, e[j])|
    ensures Without(g, Others(g, e, e[k]), g[e[k]].cands) != g ==> Others(g, e, e[k]) != []
  {
    forall j | 0 <= j <= k ensures GroupAt(g, e, e[j]) <==> |g[e[j]].cands| == |Twins(g, e, e[j])| {
      SimilarMeaning(g, e, e[j]);
    }
  }

  /** A successful FilterProbableValues_2 strictly lowers the candidate count. */
  lemma SameShrinks(g: Grid, r: Range)
    requires InTable(g, r)
    ensures SameStep(g, r).success ==> CandCount(SameStep(g, r).grid) < CandCount(g)
  {
    var e := SelectEmptyCells(g, r);
    var found := FirstGroup(g, e, 0);
    if found.Some? {
      var c := e[found.value];
      WithoutRefines(g, Others(g, e, c), g[c].cands);
      ErasedIffChanged(Without(g, Others(g, e, c), g[c].cands), g);
    }
  }

  // ---------------------------------------------------------------------
  // FilterProbableValues: the filters over every block, row and column
  // ---------------------------------------------------------------------

  /** One filter applied to one range. */
  ghost function FilterOn(f: Filter, g: Grid, r: Range, L: nat): (o: Outcome)
    requires InTable(g, r)
  {
    match f
    case UniqueCandidate => UniqueStep(g, r, L)
    case SameCandidates => SameStep(g, r)
  }

  /** A filter that fails leaves the grid as it was. */
  lemma FilterFailKeeps(f: Filter, g: Grid, r: Range, L: nat)
    requires InTable(g, r)
    ensures !FilterOn(f, g, r, L).success ==> FilterOn(f, g, r, L).grid == g
  {
  }

  /** The outcomes of a filter on scopes 0, 1, ..., L - 1 of one kind, each on the same grid. */
  ghost function ScopeOutcomes(f: Filter, g: Grid, s: Scope, L: nat): (os: seq<Outcome>)
    ensures |os| == L
    ensures forall y :: 0 <= y < L ==> os[y] == FilterOn(f, g, SelectScope(g, s, y), L)
  {
    seq(L, y => FilterOn(f, g, SelectScope(g, s, y), L))
  }

  /** The first successful attempt from position x on; failing throughout leaves `g`. */
  function FirstSuccess(g: Grid, os: seq<Outcome>, x: nat): (o: Outcome)
    ensures !o.success ==> o.grid == g
    ensures !o.success <==> forall j :: x <= j < |os| ==> !os[j].success
    ensures o.success ==> exists j :: x <= j < |os| && os[j] == o &&
                                      forall i :: x <= i < j ==> !os[i].success
    decreases |os| - x
  {
    if x >= |os| then Outcome(false, g)
    else if os[x].success then os[x]
    else FirstSuccess(g, os, x + 1)
  }

  /** Trying one list of attempts and then another is trying their concatenation. */
  lemma {:induction false} FirstSuccessAppend(g: Grid, a: seq<Outcome>, b: seq<Outcome>, x: nat)
    requires x <= |a|
    ensures FirstSuccess(g, a + b, x) ==
            (if FirstSuccess(g, a, x).success then FirstSuccess(g, a, x) else FirstSuccess(g, b, 0))
    decreases |a| - x
  {
    if x < |a| {
      assert (a + b)[x] == a[x];
      FirstSuccessAppend(g, a, b, x + 1);
    } else {
      FirstSuccessTail(g, a, b, 0);
    }
  }

  lemma {:induction false} FirstSuccessTail(g: Grid, a: seq<Outcome>, b: seq<Outcome>, y: nat)
    ensures FirstSuccess(g, a + b, |a| + y) == FirstSuccess(g, b, y)
    decreases |b| - y
  {
    if y < |b| {
      assert (a + b)[|a| + y] == b[y];
      FirstSuccessTail(g, a, b, y + 1);
    }
  }

  /** One of the three loops of FilterProbableValues on a grid. */
  ghost function TryScopes(f: Filter, g: Grid, s: Scope, L: nat): (o: Outcome)
  {
    FirstSuccess(g, ScopeOutcomes(f, g, s, L), 0)
  }

  /** Every attempt of FilterProbableValues in order: per filter, its blocks, rows and columns. */
  ghost function Attempts(g: Grid, fs: seq<Filter>, L: nat): (os: seq<Outcome>)
    decreases |fs|
  {
    if fs == [] then []
    else
      ScopeOutcomes(fs[0], g, Blocks, L) + (ScopeOutcomes(fs[0], g, Rows, L) +
      (ScopeOutcomes(fs[0], g, Columns, L) + Attempts(g, fs[1..], L)))
  }

  /** FilterProbableValues on a grid: the first attempt that succeeds. */
  ghost function FilterStep(g: Grid, fs: seq<Filter>, L: nat): (o: Outcome)
  {
    FirstSuccess(g, Attempts(g, fs, L), 0)
  }

  /** The first filter's three loops come before the remaining filters. */
  lemma FilterStepUnfold(g: Grid, fs: seq<Filter>, L: nat)
    requires fs != []
    ensures FilterStep(g, fs, L) ==
      if TryScopes(fs[0], g, Blocks, L).success then TryScopes(fs[0], g, Blocks, L)
      else if TryScopes(fs[0], g, Rows, L).success then TryScopes(fs[0], g, Rows, L)
      else if TryScopes(fs[0], g, Columns, L).success then TryScopes(fs[0], g, Columns, L)
      else FilterStep(g, fs[1..], L)
  {
    var rest := Attempts(g, fs[1..], L);
    var c := ScopeOutcomes(fs[0], g, Columns, L);
    var r := ScopeOutcomes(fs[0], g, Rows, L);
    FirstSuccessAppend(g, c, rest, 0);
    FirstSuccessAppend(g, r, c + rest, 0);
    FirstSuccessAppend(g, ScopeOutcomes(fs[0], g, Blocks, L), r + (c + rest), 0);
  }

  /** One scope loop fails exactly when the filter fails on every scope of its kind. */
  lemma TryScopesMeaning(f: Filter, g: Grid, s: Scope, L: nat)
    ensures var o := TryScopes(f, g, s, L);
      (!o.success <==> forall y :: 0 <= y < L ==> !FilterOn(f, g, SelectScope(g, s, y), L).success) &&
      (!o.success ==> o.grid == g) &&
      (o.success ==> exists y :: 0 <= y < L && o == FilterOn(f, g, SelectScope(g, s, y), L))
  {
    var os := ScopeOutcomes(f, g, s, L);
    var o := TryScopes(f, g, s, L);
    if o.success {
      var j :| 0 <= j < |os| && os[j] == o && forall i :: 0 <= i < j ==> !os[i].success;
      assert o == FilterOn(f, g, SelectScope(g, s, j), L);
    } else {
      forall y | 0 <= y < L ensures !FilterOn(f, g, SelectScope(g, s, y), L).success {
        assert !os[y].success;
      }
    }
  }

  /** The delegate call sudokuFilter(range). */
  method ApplyFilter(t: Table, f: Filter, r: Range) returns (success: bool)
    requires t.Distinct() && InTable(t.Grid(), r)
    modifies t.CellSet()
    ensures Outcome(success, t.Grid()) == FilterOn(f, old(t.Grid()), r, t.length)
  {
    match f
    case UniqueCandidate =>
      success := FilterUniqueCandidate(t, r);
    case SameCandidates =>
      success := FilterSameCandidates(t, r);
  }

  /** One of the three loops of FilterProbableValues: the filter on scopes 0..length - 1 of one kind. */
  method FilterScopes(t: Table, f: Filter, s: Scope) returns (success: bool)
    requires t.Distinct()
    modifies t.CellSet()
    ensures Outcome(success, t.Grid()) == TryScopes(f, old(t.Grid()), s, t.length)
  {
    ghost var g := t.Grid();
    ghost var os := ScopeOutcomes(f, g, s, t.length);
    var x := 0;
    while x < t.length
      invariant 0 <= x <= t.length
      invariant t.Grid() == g
      invariant FirstSuccess(g, os, x) == FirstSuccess(g, os, 0)
    {
      var range := SelectScope(t.Grid(), s, x);
      success := ApplyFilter(t, f, range);
      if success {
        return;
      }
      FilterFailKeeps(f, g, range, t.length);
      x := x + 1;
    }
    return false;
  }

  method FilterProbableValues(t: Table, filters: seq<Filter>) returns (success: bool)
    requires t.Distinct()
    modifies t.CellSet()
    ensures Outcome(success, t.Grid()) == FilterStep(old(t.Grid()), filters, t.length)
  {
    ghost var g := t.Grid();
    var k := 0;
    while k < |filters|
      invariant 0 <= k <= |filters|
      invariant t.Grid() == g
      invariant FilterStep(g, filters[k..], t.length) == FilterStep(g, filters, t.length)
    {
      assert filters[k..][1..] == filters[k + 1..];
      FilterStepUnfold(g, filters[k..], t.length);
      success := FilterScopes(t, filters[k], Blocks);
      if success {
        return;
      }
      success := FilterScopes(t, filters[k], Rows);
      if success {
        return;
      }
      success := FilterScopes(t, filters[k], Columns);
      if success {
        return;
      }
      k := k + 1;
    }
    assert filters[k..] == [];
    return false;
  }

  /**
   * FilterProbableValues fails exactly when every filter fails on every
   * block, row and column, and then leaves the grid as it was; when it
   * succeeds its outcome is that of one filter on one scope.
   */
  lemma FilterStepMeaning(g: Grid, fs: seq<Filter>, L: nat)
    ensures var o := FilterStep(g, fs, L);
      (!o.success <==> forall k, s, y :: 0 <= k < |fs| && 0 <= y < L ==> !FilterOn(fs[k], g, SelectScope(g, s, y), L).success) &&
      (!o.success ==> o.grid == g) &&
      (o.success ==> exists k, s, y :: 0 <= k < |fs| && 0 <= y < L && o == FilterOn(fs[k], g, SelectScope(g, s, y), L))
  {
    FilterStepFails(g, fs, L);
    FilterStepSucceeds(g, fs, L);
  }

  /** When FilterProbableValues fails, every filter failed on every scope and the grid is untouched. */
  lemma {:induction false} FilterStepFails(g: Grid, fs: seq<Filter>, L: nat)
    ensures var o := FilterStep(g, fs, L);
      !o.success ==> o.grid == g && forall k, s, y :: 0 <= k < |fs| && 0 <= y < L ==> !FilterOn(fs[k], g, SelectScope(g, s, y), L).success
    decreases |fs|
  {
    if fs == [] {
      assert Attempts(g, fs, L) == [];
    } else if !FilterStep(g, fs, L).success {
      FilterStepFails(g, fs[1..], L);
      FilterStepUnfold(g, fs, L);
      AllScopesFail(fs[0], g, L);
      FiltersFail(g, fs, L);
    }
  }

  /** When the first filter and all the others fail everywhere, every filter does. */
  lemma FiltersFail(g: Grid, fs: seq<Filter>, L: nat)
    requires fs != [] && forall s, y :: 0 <= y < L ==> !FilterOn(fs[0], g, SelectScope(g, s, y), L).success
    requires forall k, s, y :: 0 <= k < |fs[1..]| && 0 <= y < L ==> !FilterOn(fs[1..][k], g, SelectScope(g, s, y), L).success
    ensures forall k, s, y :: 0 <= k < |fs| && 0 <= y < L ==> !FilterOn(fs[k], g, SelectScope(g, s, y), L).success
  {
    forall k, s, y | 0 <= k < |fs| && 0 <= y < L ensures !FilterOn(fs[k], g, SelectScope(g, s, y), L).success {
      if k > 0 {
        assert fs[k] == fs[1..][k - 1];
      }
    }
  }

  /** A filter whose three loops all fail fails on every block, row and column. */
  lemma AllScopesFail(f: Filter, g: Grid, L: nat)
    requires !TryScopes(f, g, Blocks, L).success && !TryScopes(f, g, Rows, L).success
    requires !TryScopes(f, g, Columns, L).success
    ensures forall s, y :: 0 <= y < L ==> !FilterOn(f, g, SelectScope(g, s, y), L).success
  {
    TryScopesMeaning(f, g, Blocks, L);
    TryScopesMeaning(f, g, Rows, L);
    TryScopesMeaning(f, g, Columns, L);
    forall s, y | 0 <= y < L ensures !FilterOn(f, g, SelectScope(g, s, y), L).success {
      match s
      case Blocks =>
      case Rows =>
      case Columns =>
    }
  }

  /**
   * `o` is the outcome of filter k on one scope, and every earlier filter
   * failed on every scope.
   */
  ghost predicate FirstFilterOutcome(g: Grid, fs: seq<Filter>, L: nat, o: Outcome)
  {
    exists k, s, y :: (0 <= k < |fs| && 0 <= y < L && o == FilterOn(fs[k], g, SelectScope(g, s, y), L) &&
      forall k', s', y' :: 0 <= k' < k && 0 <= y' < L ==> !FilterOn(fs[k'], g, SelectScope(g, s', y'), L).success)
  }

  /**
   * When FilterProbableValues succeeds, its outcome is the first successful
   * attempt in the driver's order (filters in turn, each over blocks, rows
   * and columns in index order): that of one filter on one scope, every
   * earlier filter having failed on every scope.
   */
  lemma {:induction false} FilterStepSucceeds(g: Grid, fs: seq<Filter>, L: nat)
    ensures FilterStep(g, fs, L).success ==> FirstFilterOutcome(g, fs, L, FilterStep(g, fs, L))
    decreases |fs|
  {
    var o := FilterStep(g, fs, L);
    if fs == [] {
      assert Attempts(g, fs, L) == [];
    } else if o.success {
      FilterStepUnfold(g, fs, L);
      if TryScopes(fs[0], g, Blocks, L).success {
        FirstFilterHit(g, fs, L, Blocks);
      } else if TryScopes(fs[0], g, Rows, L).success {
        FirstFilterHit(g, fs, L, Rows);
      } else if TryScopes(fs[0], g, Columns, L).success {
        FirstFilterHit(g, fs, L, Columns);
      } else {
        FilterStepSucceeds(g, fs[1..], L);
        AllScopesFail(fs[0], g, L);
        LaterFilterHit(g, fs, L, o);
      }
    }
  }

  /** `o` is an attempt of `os` with only failures before it. */
  ghost predicate FirstOfAttempts(os: seq<Outcome>, o: Outcome)
  {
    exists j :: 0 <= j < |os| && os[j] == o && forall i :: 0 <= i < j ==> !os[i].success
  }

  /**
   * A successful FilterProbableValues returns the first successful attempt
   * in the driver's order, every earlier attempt having failed.
   */
  lemma FilterStepFirst(g: Grid, fs: seq<Filter>, L: nat)
    ensures FilterStep(g, fs, L).success ==> FirstOfAttempts(Attempts(g, fs, L), FilterStep(g, fs, L))
  {
    FirstAttempt(g, Attempts(g, fs, L));
  }

  /** The first success of a list of attempts is one of them, with only failures before it. */
  lemma FirstAttempt(g: Grid, os: seq<Outcome>)
    ensures FirstSuccess(g, os, 0).success ==> FirstOfAttempts(os, FirstSuccess(g, os, 0))
  {
  }


  /** A success of the first filter on scope `s` is a success with no earlier filter. */
  lemma FirstFilterHit(g: Grid, fs: seq<Filter>, L: nat, s: Scope)
    requires fs != [] && TryScopes(fs[0], g, s, L).success
    ensures FirstFilterOutcome(g, fs, L, TryScopes(fs[0], g, s, L))
  {
    TryScopesMeaning(fs[0], g, s, L);
    var y :| 0 <= y < L && TryScopes(fs[0], g, s, L) == FilterOn(fs[0], g, SelectScope(g, s, y), L);
    assert 0 <= 0 < |fs| && TryScopes(fs[0], g, s, L) == FilterOn(fs[0], g, SelectScope(g, s, y), L);
  }

  /** A success of a later filter, after the first failed everywhere, is a success of the whole list. */
  lemma LaterFilterHit(g: Grid, fs: seq<Filter>, L: nat, o: Outcome)
    requires fs != [] && forall s, y :: 0 <= y < L ==> !FilterOn(fs[0], g, SelectScope(g, s, y), L).success
    requires FirstFilterOutcome(g, fs[1..], L, o)
    ensures FirstFilterOutcome(g, fs, L, o)
  {
    var k, s, y :| 0 <= k < |fs[1..]| && 0 <= y < L && o == FilterOn(fs[1..][k], g, SelectScope(g, s, y), L) &&
      forall k', s', y' :: 0 <= k' < k && 0 <= y' < L ==> !FilterOn(fs[1..][k'], g, SelectScope(g, s', y'), L).success;
    assert fs[1..][k] == fs[k + 1];
    EarlierFiltersFail(g, fs, L, k);
    assert o == FilterOn(fs[k + 1], g, SelectScope(g, s, y), L);
  }

  /** Filters failing everywhere: the first, then the next `k`, make the first k + 1. */
  lemma EarlierFiltersFail(g: Grid, fs: seq<Filter>, L: nat, k: nat)
    requires k < |fs| - 1 && forall s, y :: 0 <= y < L ==> !FilterOn(fs[0], g, SelectScope(g, s, y), L).success
    requires forall k', s', y' :: 0 <= k' < k && 0 <= y' < L ==> !FilterOn(fs[1..][k'], g, SelectScope(g, s', y'), L).success
    ensures forall k', s', y' :: 0 <= k' < k + 1 && 0 <= y' < L ==> !FilterOn(fs[k'], g, SelectScope(g, s', y'), L).success
  {
    forall k', s', y' | 0 <= k' < k + 1 && 0 <= y' < L ensures !FilterOn(fs[k'], g, SelectScope(g, s', y'), L).success {
      if k' > 0 {
        assert fs[k'] == fs[1..][k' - 1];
      }
    }
  }



  // ---------------------------------------------------------------------
  // One round of the solve loop, and the stages
  // ---------------------------------------------------------------------

  /** The filters of the solve loop, in the order it passes them. */
  const SolveFilters: seq<Filter> := [UniqueCandidate, SameCandidates]

  /** A failed SetProbableValue leaves the grid as it was. */
  lemma SolvedCellFailKeeps(g: Grid)
    ensures !SolvedCellStep(g, AllCells(|g|)).success ==> SolvedCellStep(g, AllCells(|g|)).grid == g
  {
  }

  /** One round on a grid: place a solved cell, or else run the filters. */
  ghost function RoundStep(g: Grid, L: nat): (o: Outcome)
  {
    var placed := SolvedCellStep(g, AllCells(|g|));
    if placed.success then placed else FilterStep(g, SolveFilters, L)
  }

  /** Every successful round strictly lowers the total candidate count: the solve loop terminates. */
  lemma RoundShrinks(g: Grid, L: nat)
    ensures RoundStep(g, L).success ==> CandCount(RoundStep(g, L).grid) < CandCount(g)
  {
    var all := AllCells(|g|);
    var placed := SolvedCellStep(g, all);
    if placed.success {
      SolvedCellShrinks(g, all);
    } else {
      var o := FilterStep(g, SolveFilters, L);
      FilterStepMeaning(g, SolveFilters, L);
      if o.success {
        var k, s, y :| 0 <= k < |SolveFilters| && 0 <= y < L &&
                       o == FilterOn(SolveFilters[k], g, SelectScope(g, s, y), L);
        assert FindSolved(g, all).None?;
        if k == 0 {
          UniqueShrinks(g, SelectScope(g, s, y), L);
        } else {
          SameShrinks(g, SelectScope(g, s, y));
        }
      }
    }
  }

  /** The round of the solve loop on an `L`-by-`L` table, as a step on grids. */
  ghost function RoundOf(L: nat): Grid -> Outcome
  {
    g => RoundStep(g, L)
  }

  /** Each stage of `ss` but the last is one `step` succeeds on, and the next stage is what `step` makes of it. */
  ghost predicate Rounds(ss: seq<Stage>, step: Grid -> Outcome)
  {
    forall j :: 0 <= j < |ss| - 1 ==> step(ss[j].grid) == Outcome(true, ss[j + 1].grid)
  }

  /** The rounds of `ss`, ending at a stage `step` fails on: where the solve loop stops. */
  ghost predicate Finished(ss: seq<Stage>, step: Grid -> Outcome)
  {
    Rounds(ss, step) && ss != [] && !step(ss[|ss| - 1].grid).success
  }

  /** A round on `g` either makes `h` of it, with fewer candidates, or leaves `g` as a stage it fails on. */
  lemma RoundOutcome(g: Grid, L: nat, success: bool, h: Grid)
    requires Outcome(success, h) == RoundStep(g, L)
    ensures success ==> Rounds([Stage(g, None), Stage(h, None)], RoundOf(L)) && CandCount(h) < CandCount(g)
    ensures !success ==> Finished([Stage(g, None)], RoundOf(L))
  {
    RoundShrinks(g, L);
    assert [Stage(g, None), Stage(h, None)][0].grid == g;
    assert [Stage(g, None)][0].grid == g;
  }

  /** A step that succeeds on the last stage, making `h`, extends the chain by `h`. */
  lemma RoundsSnoc(ss: seq<Stage>, ts: seq<Stage>, step: Grid -> Outcome, h: Grid)
    requires Rounds(ss, step) && ss != [] && Rounds([Stage(ss[|ss| - 1].grid, None), Stage(h, None)], step)
    requires ts == ss + [Stage(h, None)]
    ensures Rounds(ts, step)
  {
    var pair := [Stage(ss[|ss| - 1].grid, None), Stage(h, None)];
    assert pair[0].grid == ss[|ss| - 1].grid && pair[1].grid == h;
    forall j | 0 <= j < |ts| - 1 ensures step(ts[j].grid) == Outcome(true, ts[j + 1].grid) {
      assert ts[j] == ss[j];
      if j + 1 < |ss| {
        assert ts[j + 1] == ss[j + 1];
      } else {
        assert ts[j + 1].grid == h;
      }
    }
  }

  /** A chain whose last stage the step fails on is finished. */
  lemma FinishRounds(ss: seq<Stage>, n0: nat, step: Grid -> Outcome)
    requires n0 < |ss| && Rounds(ss[n0..], step) && Finished([Stage(ss[|ss| - 1].grid, None)], step)
    ensures Finished(ss[n0..], step)
  {
    assert ss[n0..][|ss[n0..]| - 1] == ss[|ss| - 1];
  }

  /** Slicing a sequence with one element appended. */
  lemma SliceSnoc<T>(s: seq<T>, n: nat, x: T)
    requires n <= |s|
    ensures (s + [x])[n..] == s[n..] + [x]
    ensures n < |s| ==> s[n..][|s[n..]| - 1] == s[|s| - 1]
  {
  }

  /** Prefixes of a sequence with one element appended, and of a prefix. */
  lemma PrefixSnoc<T>(s: seq<T>, x: T, n: nat)
    requires n <= |s|
    ensures (s + [x])[..|s|] == s
    ensures (s + [x])[..n] == s[..n]
  {
  }

  lemma PrefixOfPrefix<T>(s: seq<T>, n: nat, m: nat)
    requires n <= m <= |s|
    ensures s[..m][..n] == s[..n]
  {
  }

  /** Appending the stage `x` to `ss`, as seen from `n0` on. */
  lemma AppendStage(ss: seq<Stage>, ts: seq<Stage>, n0: nat, x: Stage)
    requires n0 < |ss| && ts == ss + [x] && x.result == None
    requires forall j :: n0 <= j < |ss| ==> ss[j].result == None
    ensures |ts| >= |ss| && ts[..|ss|] == ss
    ensures forall j :: n0 <= j < |ts| ==> ts[j].result == None
    ensures |ts| == |ss| + 1 && ts[|ts| - 1] == x
    ensures ts[n0..] == ss[n0..] + [x] && ss[n0..][|ss[n0..]| - 1] == ss[|ss| - 1]
  {
    assert ts[n0..] == ss[n0..] + [x];
  }

  /**
   * Appending `h`, what a successful round makes of the last of the stages
   * `ss`: the chain from `n0` goes on.
   */
  lemma ExtendRounds(ss: seq<Stage>, ts: seq<Stage>, n0: nat, step: Grid -> Outcome, h: Grid)
    requires n0 < |ss| && Rounds(ss[n0..], step) && forall j :: n0 <= j < |ss| ==> ss[j].result == None
    requires Rounds([Stage(ss[|ss| - 1].grid, None), Stage(h, None)], step)
    requires ts == ss + [Stage(h, None)]
    ensures |ts| >= |ss| && ts[..|ss|] == ss
    ensures Rounds(ts[n0..], step)
    ensures forall j :: n0 <= j < |ts| ==> ts[j].result == None
    ensures |ts| == |ss| + 1 && ts[|ts| - 1].grid == h
  {
    AppendStage(ss, ts, n0, Stage(h, None));
    RoundsSnoc(ss[n0..], ts[n0..], step, h);
  }

  /** The body of the solve loop on the fresh clone: SetProbableValue, or else FilterProbableValues. */
  method Round(t: Table, ghost g: Grid, ghost L: nat) returns (success: bool)
    requires t.Distinct() && t.Grid() == g && t.length == L
    modifies t.CellSet()
    ensures Outcome(success, t.Grid()) == RoundStep(g, L)
  {
    success := SetProbableValue(t);
    if success {
      return;
    }
    SolvedCellFailKeeps(g);
    success := FilterProbableValues(t, SolveFilters);
  }

  /**
   * One pass of the solve loop on a copy of the stage grid `g`
   * (CloneLastTable, then SetProbableValue or FilterProbableValues):
   * whether the round succeeds, and the snapshot of the table it leaves.
   */
  method NextGrid(g: Grid, B: nat) returns (success: bool, h: Grid)
    requires WellFormed(g, B)
    ensures success ==> Rounds([Stage(g, None), Stage(h, None)], RoundOf(B * B)) && CandCount(h) < CandCount(g)
    ensures !success ==> Finished([Stage(g, None)], RoundOf(B * B))
    ensures WellFormed(h, B)
  {
    var table := new Table(B, false);
    table.InitializeCellsFromStates(g);
    success := Round(table, g, B * B);
    table.GridWellFormed();
    h := table.Grid();
    RoundOutcome(g, B * B, success, h);
  }

  /**
   * The solve loop from the last of the stages `ss`: one stage per
   * successful round, appended until a round fails. The stages of `ss` stay
   * as they were.
   */
  method SolveLoop(ss: seq<Stage>, B: nat) returns (ts: seq<Stage>)
    requires ss != [] && ss[|ss| - 1].result == None
    requires forall j :: 0 <= j < |ss| ==> WellFormed(ss[j].grid, B)
    ensures |ts| >= |ss| && ts[..|ss|] == ss
    ensures forall j :: 0 <= j < |ts| ==> WellFormed(ts[j].grid, B)
    ensures Finished(ts[|ss| - 1..], RoundOf(B * B))
    ensures forall j :: |ss| - 1 <= j < |ts| ==> ts[j].result == None
  {
    ghost var n0 := |ss| - 1;
    ts := ss;
    assert ts[n0..] == [ss[n0]];
    while true
      invariant |ts| >= |ss| && ts[..|ss|] == ss
      invariant forall j :: 0 <= j < |ts| ==> WellFormed(ts[j].grid, B)
      invariant Rounds(ts[n0..], RoundOf(B * B))
      invariant forall j :: n0 <= j < |ts| ==> ts[j].result == None
      decreases CandCount(ts[|ts| - 1].grid)
    {
      var success, h := NextGrid(ts[|ts| - 1].grid, B);
      if !success {
        FinishRounds(ts, n0, RoundOf(B * B));
        break;
      }
      ghost var before := ts;
      ts := ts + [Stage(h, None)];
      ExtendRounds(before, ts, n0, RoundOf(B * B), h);
      PrefixOfPrefix(ts, |ss|, |before|);
    }
  }

  /**
   * The stages of a puzzle (Sudoku). A stage keeps a snapshot of its table:
   * the engine never changes a table once it is a stage, and every round
   * works on a fresh copy of the last one.
   */
  class Sudoku {
    const blockLength: nat
    var stages: seq<Stage>

    /** Every stage is a snapshot of a table with this block length. */
    ghost predicate Valid()
      reads this
    {
      forall j :: 0 <= j < |stages| ==> WellFormed(stages[j].grid, blockLength)
    }

    constructor (blockLength: nat)
      ensures Valid() && this.blockLength == blockLength && stages == []
    {
      this.blockLength := blockLength;
      stages := [];
    }

    /** A fresh table holding the last stage's cells (CloneLastTable). */
    method CloneLastTable() returns (table: Table)
      requires Valid() && stages != []
      ensures fresh(table) && fresh(table.matrix) && fresh(table.CellSet())
      ensures table.Valid() && table.blockLength == blockLength
      ensures table.Grid() == stages[|stages| - 1].grid
    {
      var last := stages[|stages| - 1].grid;
      table := new Table(blockLength, false);
      table.InitializeCellsFromStates(last);
      assert unchanged(this);
    }

    /** Appends a stage for `table`; the stage records no strategy result (AddStage). */
    method AddStage(table: Table)
      requires Valid() && table.Valid() && table.blockLength == blockLength
      modifies this
      ensures stages == old(stages) + [Stage(old(table.Grid()), None)]
      ensures Valid()
    {
      table.GridWellFormed();
      stages := stages + [Stage(table.Grid(), None)];
    }

    /** Forgets every stage (Clear). */
    method Clear()
      modifies this
      ensures stages == [] && Valid()
    {
      stages := [];
    }

    /** The first step of Solve: a stage holding the initial candidates of a copy of the last table. */
    method Initialize()
      requires Valid() && stages != []
      modifies this
      ensures Valid() && |stages| == |old(stages)| + 1 && stages[..|old(stages)|] == old(stages)
      ensures Initialized(stages[|stages| - 1].grid, old(stages)[|old(stages)| - 1].grid, blockLength * blockLength)
      ensures stages[|stages| - 1].result == None
    {
      ghost var g := stages[|stages| - 1].grid;
      var table := CloneLastTable();
      assert table.Grid() == g && table.length == blockLength * blockLength;
      SetInitialProbabledValues(table);
      ghost var h := table.Grid();
      assert Initialized(h, g, blockLength * blockLength);
      AddStage(table);
      assert stages == old(stages) + [Stage(h, None)];
    }

    /**
     * Solve: a stage with the initial candidates, then one stage per
     * successful round, until a round fails. Earlier stages stay as they were.
     */
    method Solve()
      requires Valid() && stages != []
      modifies this
      ensures Valid() && |stages| > |old(stages)| && stages[..|old(stages)|] == old(stages)
      ensures Initialized(stages[|old(stages)|].grid, old(stages)[|old(stages)| - 1].grid, blockLength * blockLength)
      ensures Finished(stages[|old(stages)|..], RoundOf(blockLength * blockLength))
      ensures forall j :: |old(stages)| <= j < |stages| ==> stages[j].result == None
    {
      ghost var n0 := |stages|;
      Initialize();
      ghost var initialized := stages;
      stages := SolveLoop(stages, blockLength);
      PrefixOfPrefix(stages, n0, |initialized|);
    }

    /**
     * Load once the puzzle is read: the stages restart from `table`, the
     * table holding the givens, and the puzzle is solved.
     */
    method Load(table: Table)
      requires table.Valid() && table.blockLength == blockLength
      modifies this
      ensures Valid() && |stages| >= 2 && stages[0] == Stage(old(table.Grid()), None)
      ensures Initialized(stages[1].grid, stages[0].grid, blockLength * blockLength)
      ensures Finished(stages[1..], RoundOf(blockLength * blockLength))
    {
      ghost var g := table.Grid();
      Clear();
      AddStage(table);
      assert stages == [Stage(g, None)];
      Solve();
      assert stages[0] == Stage(g, None) by {
        assert stages[..1] == [Stage(g, None)];
      }
    }
  }
}
