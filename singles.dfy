/**
 * The two single-cell deductions (StrategyHelper.SetValueToSolvedCell and
 * StrategyHelper.HiddenSingles): a grid-level definition of each step, the
 * method that performs it on a table, and what the step means.
 */
module Singles {

  import opened Sets
  import opened Cells
  import opened Ranges
  import opened Tables
  import opened Edits

  lemma SingletonOf(s: set<int>, v: int)
    requires |s| == 1 && v in s
    ensures s == {v}
  {
    assert s == (s - {v}) + {v};
    assert |s - {v}| == 0;
  }

  /** The candidate of a cell that has exactly one. */
  ghost function Sole(s: set<int>): (v: int)
    requires |s| == 1
    ensures s == {v}
  {
    NonEmptyHasElement(s);
    var v :| v in s;
    SingletonOf(s, v);
    v
  }

  /** The first cell of the range with exactly one candidate. */
  function FindSolved(g: Grid, r: Range): (found: Option<nat>)
    requires InTable(g, r)
    ensures found.Some? ==> found.value < |g| && |g[found.value].cands| == 1
    ensures found.Some? ==> exists k :: 0 <= k < |r| && r[k] == found.value &&
                                        forall j :: 0 <= j < k ==> |g[r[j]].cands| != 1
    ensures found.None? ==> forall k :: 0 <= k < |r| ==> |g[r[k]].cands| != 1
  {
    Find(g, r, (x: CellState) => |x.cands| == 1)
  }

  /** The cells of `r` other than `i` in `i`'s block. */
  function BlockPeers(g: Grid, r: Range, i: nat): (s: Range)
    requires InTable(g, r) && i < |g|
    ensures InTable(g, s)
    ensures forall j :: j in s <==> j in r && j != i && g[j].block == g[i].block
  {
    Exclude(g, BlockPart(g, r, g[i].block), {i})
  }

  /** The cells of `r` other than `i` in `i`'s row. */
  function RowPeers(g: Grid, r: Range, i: nat): (s: Range)
    requires InTable(g, r) && i < |g|
    ensures InTable(g, s)
    ensures forall j :: j in s <==> j in r && j != i && g[j].row == g[i].row
  {
    Exclude(g, RowPart(g, r, g[i].row), {i})
  }

  /** The cells of `r` other than `i` in `i`'s column. */
  function ColumnPeers(g: Grid, r: Range, i: nat): (s: Range)
    requires InTable(g, r) && i < |g|
    ensures InTable(g, s)
    ensures forall j :: j in s <==> j in r && j != i && g[j].column == g[i].column
  {
    Exclude(g, ColumnPart(g, r, g[i].column), {i})
  }

  /** Erasing candidates moves no cell, so the peer ranges stay the same. */
  lemma PeersFrame(g: Grid, h: Grid, r: Range, i: nat)
    requires InTable(g, r) && i < |g| && Refines(h, g)
    ensures BlockPeers(h, r, i) == BlockPeers(g, r, i)
    ensures RowPeers(h, r, i) == RowPeers(g, r, i)
    ensures ColumnPeers(h, r, i) == ColumnPeers(g, r, i)
  {
    assert h[i] == g[i].(cands := h[i].cands);
    forall k | 0 <= k < |r| ensures h[r[k]] == g[r[k]].(cands := h[r[k]].cands) {
    }
    BlockPartFrame(g, h, r, g[i].block);
    RowPartFrame(g, h, r, g[i].row);
    ColumnPartFrame(g, h, r, g[i].column);
    ExcludeAnyGrid(g, h, BlockPart(g, r, g[i].block), {i});
    ExcludeAnyGrid(g, h, RowPart(g, r, g[i].row), {i});
    ExcludeAnyGrid(g, h, ColumnPart(g, r, g[i].column), {i});
  }

  /** The cells of `r` other than `i` that share `i`'s block, row or column each lose `v`. */
  ghost function ErasePeers(g: Grid, r: Range, i: nat, v: int): (h: Grid)
    requires InTable(g, r) && i < |g|
    ensures |h| == |g|
  {
    var h1 := Without(g, BlockPeers(g, r, i), {v});
    var h2 := Without(h1, RowPeers(g, r, i), {v});
    Without(h2, ColumnPeers(g, r, i), {v})
  }

  /**
   * SetValueToSolvedCell: the first cell with a single candidate takes it
   * as its value and loses its candidates; then the value is erased from the
   * other cells of the range in its block, its row and its column.
   */
  ghost function SolvedCellStep(g: Grid, r: Range): (o: Outcome)
    requires InTable(g, r)
    ensures |o.grid| == |g|
  {
    match FindSolved(g, r)
    case None => Outcome(false, g)
    case Some(i) =>
      var v := Sole(g[i].cands);
      Outcome(true, ErasePeers(g[i := g[i].(value := Some(v), cands := {})], r, i, v))
  }

  /** Gives cell `i` the value `v` and empties its candidates. */
  method PlaceSole(t: Table, i: nat, v: int)
    requires t.Distinct() && i < |t.cells|
    modifies t.cells[i]
    ensures t.Grid() == old(t.Grid())[i := old(t.Grid())[i].(value := Some(v), cands := {})]
  {
    ghost var g := t.Grid();
    t.PlaceValue(i, v);
    ghost var g1 := t.Grid();
    t.ClearCandidates(i);
    assert g1[i := g1[i].(cands := {})] == g[i := g[i].(value := Some(v), cands := {})];
  }

  /** The three RemoveProbableValues calls, each on a range taken from the current table. */
  method ErasePeersOf(t: Table, r: Range, i: nat, v: int)
    requires t.Distinct() && InTable(t.Grid(), r) && i < |t.cells|
    modifies t.CellSet()
    ensures t.Grid() == ErasePeers(old(t.Grid()), r, i, v)
  {
    ghost var g0 := t.Grid();
    assert SetOf([v]) == {v};
    var g := t.Grid();
    var removed := RemoveProbableValues(t, BlockPeers(g, r, i), [v]);
    ghost var h1 := t.Grid();
    WithoutRefines(g0, BlockPeers(g0, r, i), {v});
    g := t.Grid();
    PeersFrame(g0, g, r, i);
    removed := RemoveProbableValues(t, RowPeers(g, r, i), [v]);
    WithoutRefines(h1, RowPeers(g0, r, i), {v});
    g := t.Grid();
    PeersFrame(h1, g, r, i);
    removed := RemoveProbableValues(t, ColumnPeers(g, r, i), [v]);
  }

  method SetValueToSolvedCell(t: Table, r: Range) returns (success: bool)
    requires t.Distinct() && InTable(t.Grid(), r)
    modifies t.CellSet()
    ensures Outcome(success, t.Grid()) == SolvedCellStep(old(t.Grid()), r)
  {
    var g := t.Grid();
    var found := FindSolved(g, r);
    if found.None? {
      return false;
    }
    var i := found.value;
    var cell := t.cells[i];
    NonEmptyHasElement(cell.cands);
    var value :| value in cell.cands;
    SingletonOf(cell.cands, value);
    assert value == Sole(g[i].cands);
    PlaceSole(t, i, value);
    ErasePeersOf(t, r, i, value);
    success := true;
  }

  /** What SetValueToSolvedCell leaves once cell `i` took its sole candidate `v`. */
  ghost predicate SolvedAt(g: Grid, r: Range, i: nat, v: int, h: Grid)
    requires i < |g|
  {
    |h| == |g| &&
    h[i] == g[i].(value := Some(v), cands := {}) &&
    forall j :: 0 <= j < |g| && j != i ==>
      h[j] == if j in r && Peers(g[j], g[i]) then g[j].(cands := g[j].cands - {v}) else g[j]
  }

  /** ErasePeers at one cell `j`. */
  lemma ErasePeersAt(g: Grid, r: Range, i: nat, v: int, j: nat)
    requires InTable(g, r) && i < |g| && j < |g|
    ensures ErasePeers(g, r, i, v)[j] ==
            if j != i && j in r && Peers(g[j], g[i]) then g[j].(cands := g[j].cands - {v}) else g[j]
  {
    var h1 := Without(g, BlockPeers(g, r, i), {v});
    var h2 := Without(h1, RowPeers(g, r, i), {v});
    var h3 := Without(h2, ColumnPeers(g, r, i), {v});
    var erased := g[j].(cands := g[j].cands - {v});
    assert erased.(cands := erased.cands - {v}) == erased;
    assert h1[j] == if j in BlockPeers(g, r, i) then erased else g[j];
    assert h2[j] == if j in RowPeers(g, r, i) then h1[j].(cands := h1[j].cands - {v}) else h1[j];
    assert h3[j] == if j in ColumnPeers(g, r, i) then h2[j].(cands := h2[j].cands - {v}) else h2[j];
  }

  /** Erasing `v` from the peers of `i` inside `r`, cell by cell. */
  lemma ErasePeersMeaning(g: Grid, r: Range, i: nat, v: int)
    requires InTable(g, r) && i < |g|
    ensures var h := ErasePeers(g, r, i, v);
      h[i] == g[i] &&
      forall j :: 0 <= j < |g| && j != i ==>
        h[j] == if j in r && Peers(g[j], g[i]) then g[j].(cands := g[j].cands - {v}) else g[j]
  {
    forall j | 0 <= j < |g| {
      ErasePeersAt(g, r, i, v, j);
    }
  }

  /** When a cell of the range has a single candidate, the step places it at the first such cell. */
  lemma SolvedCellFound(g: Grid, r: Range, k: nat)
    requires InTable(g, r) && k < |r| && |g[r[k]].cands| == 1
    requires forall j :: 0 <= j < k ==> |g[r[j]].cands| != 1
    ensures SolvedCellStep(g, r).success
    ensures SolvedAt(g, r, r[k], Sole(g[r[k]].cands), SolvedCellStep(g, r).grid)
  {
    var found := FindSolved(g, r);
    assert found.Some?;
    var k' :| 0 <= k' < |r| && r[k'] == found.value && forall j :: 0 <= j < k' ==> |g[r[j]].cands| != 1;
    assert k' == k;
    var i := r[k];
    var v := Sole(g[i].cands);
    var placed := g[i := g[i].(value := Some(v), cands := {})];
    ErasePeersMeaning(placed, r, i, v);
  }

  /** When no cell of the range has a single candidate, the step fails and changes nothing. */
  lemma SolvedCellNotFound(g: Grid, r: Range)
    requires InTable(g, r)
    requires forall k :: 0 <= k < |r| ==> |g[r[k]].cands| != 1
    ensures SolvedCellStep(g, r) == Outcome(false, g)
  {
  }

  /**
   * The first digit of `vs` that exactly one cell of `e` has as a
   * candidate, with that cell.
   */
  function FirstUnique(g: Grid, e: Range, vs: seq<int>): (found: Option<(nat, int)>)
    requires InTable(g, e)
    ensures found.Some? ==> found.value.0 in e && found.value.0 < |g|
    decreases |vs|
  {
    if vs == [] then None
    else
      var hits := WithCandidate(g, e, vs[0]);
      if |hits| == 1 then
        assert hits[0] in hits;
        Some((hits[0], vs[0]))
      else
        FirstUnique(g, e, vs[1..])
  }

  /** FirstUnique finds the first digit held by exactly one cell, or reports that there is none. */
  lemma {:induction false} FirstUniqueMeaning(g: Grid, e: Range, vs: seq<int>)
    requires InTable(g, e)
    ensures var found := FirstUnique(g, e, vs);
      (found.Some? ==> exists k :: 0 <= k < |vs| && vs[k] == found.value.1 &&
                                   WithCandidate(g, e, vs[k]) == [found.value.0] &&
                                   forall j :: 0 <= j < k ==> |WithCandidate(g, e, vs[j])| != 1) &&
      (found.None? ==> forall k :: 0 <= k < |vs| ==> |WithCandidate(g, e, vs[k])| != 1)
    decreases |vs|
  {
    if vs != [] {
      var hits := WithCandidate(g, e, vs[0]);
      if |hits| == 1 {
        assert hits == [hits[0]];
      } else {
        FirstUniqueMeaning(g, e, vs[1..]);
        var rest := FirstUnique(g, e, vs[1..]);
        if rest.Some? {
          var k :| 0 <= k < |vs| - 1 && vs[1..][k] == rest.value.1 &&
                   WithCandidate(g, e, vs[1..][k]) == [rest.value.0] &&
                   forall j :: 0 <= j < k ==> |WithCandidate(g, e, vs[1..][j])| != 1;
          assert vs[k + 1] == rest.value.1;
          assert forall j :: 1 <= j < k + 1 ==> vs[j] == vs[1..][j - 1];
        } else {
          assert forall k :: 1 <= k < |vs| ==> vs[k] == vs[1..][k - 1];
        }
      }
    }
  }

  /**
   * HiddenSingles: among the candidates of the empty cells, walked in
   * ascending order, the first one held by exactly one empty cell becomes
   * that cell's only candidate.
   */
  ghost function HiddenSinglesStep(g: Grid, r: Range): (o: Outcome)
    requires InTable(g, r)
  {
    var e := SelectEmptyCells(g, r);
    match FirstUnique(g, e, Sorted(CandidateSet(g, e)))
    case None => Outcome(false, g)
    case Some((i, v)) => Outcome(true, g[i := g[i].(cands := {v})])
  }

  method HiddenSingles(t: Table, r: Range) returns (success: bool)
    requires t.Distinct() && InTable(t.Grid(), r)
    modifies t.CellSet()
    ensures Outcome(success, t.Grid()) == HiddenSinglesStep(old(t.Grid()), r)
  {
    var g := t.Grid();
    var emptyCells := SelectEmptyCells(g, r);
    var values := Ascending(CandidateSet(g, emptyCells));
    ghost var step := HiddenSinglesStep(g, r);
    assert step == match FirstUnique(g, emptyCells, values)
                   case None => Outcome(false, g)
                   case Some((i, v)) => Outcome(true, g[i := g[i].(cands := {v})]);
    var k := 0;
    while k < |values|
      invariant 0 <= k <= |values|
      invariant t.Distinct() && t.Grid() == g
      invariant FirstUnique(g, emptyCells, values[k..]) == FirstUnique(g, emptyCells, values)
    {
      var candidateRange := WithCandidate(g, emptyCells, values[k]);
      if |candidateRange| == 1 {
        var i := candidateRange[0];
        assert FirstUnique(g, emptyCells, values[k..]) == Some((i, values[k]));
        SetSoleCandidate(t, i, values[k]);
        assert step == Outcome(true, t.Grid());
        return true;
      }
      assert values[k..][1..] == values[k + 1..];
      k := k + 1;
    }
    assert FirstUnique(g, emptyCells, values) == None;
    assert step == Outcome(false, t.Grid());
    return false;
  }

  /** Leaves `v` as the only candidate of cell `i`: its candidates are cleared, then `v` is added. */
  method SetSoleCandidate(t: Table, i: nat, v: int)
    requires t.Distinct() && i < |t.cells|
    modifies t.cells[i]
    ensures t.Grid() == old(t.Grid())[i := old(t.Grid())[i].(cands := {v})]
  {
    ghost var g := t.Grid();
    t.ClearCandidates(i);
    t.AddCandidate(i, v);
    assert g[i].(cands := {}).(cands := {} + {v}) == g[i].(cands := {v});
    assert g[i := g[i].(cands := {})][i := g[i].(cands := {v})] == g[i := g[i].(cands := {v})];
  }

  /** A digit no empty cell has as a candidate is held by no cell of the selection. */
  lemma AbsentDigit(g: Grid, e: Range, v: int)
    requires InTable(g, e) && v !in CandidateSet(g, e)
    ensures WithCandidate(g, e, v) == []
  {
  }

  /**
   * HiddenSingles succeeds exactly when some digit is a candidate of exactly
   * one empty cell of the range; it then gives the least such digit to that
   * cell as its only candidate and changes nothing else.
   */
  lemma HiddenSinglesMeaning(g: Grid, r: Range)
    requires InTable(g, r)
    ensures var o := HiddenSinglesStep(g, r); var e := SelectEmptyCells(g, r);
      (o.success ==> exists i, v :: i in e && v in g[i].cands && WithCandidate(g, e, v) == [i] &&
                                    o.grid == g[i := g[i].(cands := {v})] &&
                                    forall w :: w < v ==> |WithCandidate(g, e, w)| != 1) &&
      (!o.success ==> o.grid == g && forall v :: |WithCandidate(g, e, v)| != 1)
  {
    var e := SelectEmptyCells(g, r);
    var vs := Sorted(CandidateSet(g, e));
    FirstUniqueMeaning(g, e, vs);
    match FirstUnique(g, e, vs)
    case Some((i, v)) =>
      var k :| 0 <= k < |vs| && vs[k] == v && WithCandidate(g, e, vs[k]) == [i] &&
               forall j :: 0 <= j < k ==> |WithCandidate(g, e, vs[j])| != 1;
      HiddenFound(g, e, vs, k, i);
    case None =>
      forall w ensures |WithCandidate(g, e, w)| != 1 {
        NotUniqueBefore(g, e, vs, |vs|, w);
      }
  }

  /** The `k`-th digit of the ascending walk, the first held by exactly one cell `i`, is a hidden single of `i`. */
  lemma HiddenFound(g: Grid, e: Range, vs: seq<int>, k: nat, i: nat)
    requires InTable(g, e) && vs == Sorted(CandidateSet(g, e)) && k < |vs|
    requires WithCandidate(g, e, vs[k]) == [i]
    requires forall j :: 0 <= j < k ==> |WithCandidate(g, e, vs[j])| != 1
    ensures i in e && vs[k] in g[i].cands
    ensures forall w :: w < vs[k] ==> |WithCandidate(g, e, w)| != 1
  {
    assert i in WithCandidate(g, e, vs[k]);
    forall w | w < vs[k] ensures |WithCandidate(g, e, w)| != 1 {
      NotUniqueBefore(g, e, vs, k, w);
    }
  }

  /**
   * Walking the candidates of `e` in ascending order: a digit below the
   * `k`-th one, when none of the first `k` is held by exactly one cell, is
   * not held by exactly one cell either.
   */
  lemma NotUniqueBefore(g: Grid, e: Range, vs: seq<int>, k: nat, w: int)
    requires InTable(g, e) && vs == Sorted(CandidateSet(g, e)) && k <= |vs|
    requires forall j :: 0 <= j < k ==> |WithCandidate(g, e, vs[j])| != 1
    requires k < |vs| ==> w < vs[k]
    ensures |WithCandidate(g, e, w)| != 1
  {
    SortedMeaning(CandidateSet(g, e));
    if w in CandidateSet(g, e) {
      var j :| 0 <= j < |vs| && vs[j] == w;
      assert j < k;
    } else {
      AbsentDigit(g, e, w);
    }
  }
}
