/**
 * The intersection deductions of StrategyHelper: pointing pairs and
 * box/line reduction (a candidate confined to where a block and a line
 * meet) and the X-wing (a candidate confined to the same two columns, or
 * rows, in two lines).
 */
module Intersections {

  import opened Sets
  import opened Cells
  import opened Ranges
  import opened Tables
  import opened Edits

  /** The cells of `s` outside block `b`. */
  function OutsideBlock(g: Grid, s: Range, b: int): (o: Range)
    requires InTable(g, s)
    ensures InTable(g, o)
    ensures forall i :: i in o <==> i in s && g[i].block != b
  {
    Select(g, s, (x: CellState) => x.block != b)
  }

  /**
   * The loop body of PointingPairs for candidate `v`: when the empty cells
   * of the block holding `v` share one row (or else one column), the cells
   * of that row (column) outside the block.
   */
  function PointingAt(g: Grid, e: Range, b: int, v: int): (cells: Option<Range>)
    requires InTable(g, e)
    ensures cells.Some? ==> InTable(g, cells.value)
  {
    var checkRange := WithCandidate(g, e, v);
    if |RowsSet(g, checkRange)| == 1 then
      Some(OutsideBlock(g, SelectRow(g, g[checkRange[0]].row), b))
    else if |ColumnsSet(g, checkRange)| == 1 then
      Some(OutsideBlock(g, SelectColumn(g, g[checkRange[0]].column), b))
    else
      None
  }

  /** The first candidate of `vs` at which the loop of PointingPairs stops, with its cells. */
  function FirstPointing(g: Grid, e: Range, b: int, vs: seq<int>): (found: Option<(int, Range)>)
    requires InTable(g, e)
    ensures found.Some? ==> InTable(g, found.value.1)
  {
    FirstOf(vs, PointingTest(g, e, b))
  }

  /** PointingAt as the test of the candidate loop. */
  function PointingTest(g: Grid, e: Range, b: int): int -> Option<Range>
    requires InTable(g, e)
  {
    v => PointingAt(g, e, b, v)
  }

  /**
   * PointingPairs on a block: for the first candidate (ascending) whose
   * empty cells in the block lie in one row, or else in one column, that
   * candidate leaves the rest of the line outside the block. The step
   * succeeds when that erased something.
   */
  ghost function PointingStep(g: Grid, r: Range): (o: Outcome)
    requires InTable(g, r) && |r| > 0
  {
    var e := SelectEmptyCells(g, r);
    match FirstPointing(g, e, g[r[0]].block, Sorted(CandidateSet(g, e)))
    case None => Outcome(false, g)
    case Some((v, cells)) =>
      var h := Without(g, cells, {v});
      Outcome(CandCount(h) < CandCount(g), h)
  }

  /** The loop of PointingPairs over the candidates. */
  method FindPointing(g: Grid, e: Range, b: int, values: seq<int>) returns (found: Option<(int, Range)>)
    requires InTable(g, e)
    ensures found == FirstPointing(g, e, b, values)
  {
    var k := 0;
    while k < |values|
      invariant 0 <= k <= |values|
      invariant FirstPointing(g, e, b, values[k..]) == FirstPointing(g, e, b, values)
    {
      var pValue := values[k];
      ghost var rest := values[k..];
      assert rest[0] == pValue && rest[1..] == values[k + 1..];
      var candidateCells := PointingAt(g, e, b, pValue);
      if candidateCells.Some? {
        return Some((pValue, candidateCells.value));
      }
      k := k + 1;
    }
    return None;
  }

  /** PointingStep once the search has settled on `found`. */
  lemma PointingStepFound(g: Grid, r: Range, found: Option<(int, Range)>)
    requires InTable(g, r) && |r| > 0
    requires found == FirstPointing(g, SelectEmptyCells(g, r), g[r[0]].block, Sorted(CandidateSet(g, SelectEmptyCells(g, r))))
    ensures found.None? ==> PointingStep(g, r) == Outcome(false, g)
    ensures found.Some? ==>
              InTable(g, found.value.1) &&
              var h := Without(g, found.value.1, {found.value.0});
              PointingStep(g, r) == Outcome(CandCount(h) < CandCount(g), h)
  {
  }

  method PointingPairs(t: Table, r: Range) returns (success: bool)
    requires t.Distinct() && InTable(t.Grid(), r) && |r| > 0
    modifies t.CellSet()
    ensures Outcome(success, t.Grid()) == PointingStep(old(t.Grid()), r)
  {
    var g := t.Grid();
    var blockIndex := g[r[0]].block;
    var emptyCells := SelectEmptyCells(g, r);
    var values := Ascending(CandidateSet(g, emptyCells));
    var found := FindPointing(g, emptyCells, blockIndex, values);
    PointingStepFound(g, r, found);
    if found.Some? {
      WithoutOne(g, found.value.1, found.value.0);
      assert t.Grid() == g;
      var count := RemoveProbableValues(t, found.value.1, [found.value.0]);
      PointingCommit(g, r, found, t.Grid(), count);
      return count > 0;
    }
    return false;
  }

  /** Removing the found candidate completes PointingStep: it succeeds exactly when the removal erased something. */
  lemma PointingCommit(g: Grid, r: Range, found: Option<(int, Range)>, h: Grid, count: int)
    requires InTable(g, r) && |r| > 0
    requires found == FirstPointing(g, SelectEmptyCells(g, r), g[r[0]].block, Sorted(CandidateSet(g, SelectEmptyCells(g, r))))
    requires found.Some? && h == Without(g, found.value.1, {found.value.0})
    requires count == CandCount(g) - CandCount(h)
    ensures Outcome(count > 0, h) == PointingStep(g, r)
  {
    PointingStepFound(g, r, found);
  }

  /**
   * PointingAt stops exactly when the cells with candidate `v` lie in one
   * row, or else in one column, and then names the other cells of that line
   * outside the block.
   */
  lemma PointingAtMeaning(g: Grid, e: Range, b: int, v: int)
    requires InTable(g, e)
    ensures var w := WithCandidate(g, e, v); var p := PointingAt(g, e, b, v);
      (p.Some? <==> OneRow(g, w) || OneColumn(g, w)) &&
      (OneRow(g, w) ==>
         forall i :: i in p.value <==> 0 <= i < |g| && g[i].row == g[w[0]].row && g[i].block != b) &&
      (!OneRow(g, w) && OneColumn(g, w) ==>
         forall i :: i in p.value <==> 0 <= i < |g| && g[i].column == g[w[0]].column && g[i].block != b)
  {
    var w := WithCandidate(g, e, v);
    RowsSetOne(g, w);
    ColumnsSetOne(g, w);
  }

  /** When FirstPointing finds nothing, PointingAt stops at no candidate of `vs`. */
  lemma FirstPointingNone(g: Grid, e: Range, b: int, vs: seq<int>)
    requires InTable(g, e) && FirstPointing(g, e, b, vs).None?
    ensures forall k :: 0 <= k < |vs| ==> PointingAt(g, e, b, vs[k]).None?
  {
    FirstOfNone(vs, PointingTest(g, e, b));
  }

  /** FirstPointing stops at the first candidate of `vs` where PointingAt does; `k` is its index. */
  lemma FirstPointingSome(g: Grid, e: Range, b: int, vs: seq<int>) returns (k: nat)
    requires InTable(g, e) && FirstPointing(g, e, b, vs).Some?
    ensures var found := FirstPointing(g, e, b, vs);
      PointingAt(g, e, b, found.value.0) == Some(found.value.1) &&
      k < |vs| && vs[k] == found.value.0 && forall j :: 0 <= j < k ==> PointingAt(g, e, b, vs[j]).None?
  {
    k := FirstOfSome(vs, PointingTest(g, e, b));
  }

  /**
   * `v` is the candidate PointingPairs acts on: the least candidate of the
   * block's empty cells `e` whose cells in the block lie in one row or one
   * column.
   */
  ghost predicate PointsFirst(g: Grid, e: Range, b: int, v: int)
    requires InTable(g, e)
  {
    v in CandidateSet(g, e) && PointingAt(g, e, b, v).Some? &&
    forall w :: w in CandidateSet(g, e) && w < v ==> PointingAt(g, e, b, w).None?
  }

  /** The candidate loop of PointingPairs stops at the chosen candidate, which is the only one. */
  lemma PointingChosen(g: Grid, e: Range, b: int) returns (v: int)
    requires InTable(g, e) && FirstPointing(g, e, b, Sorted(CandidateSet(g, e))).Some?
    ensures var found := FirstPointing(g, e, b, Sorted(CandidateSet(g, e)));
      v == found.value.0 && PointingAt(g, e, b, v) == Some(found.value.1)
    ensures PointsFirst(g, e, b, v)
  {
    var cs := CandidateSet(g, e);
    var vs := Sorted(cs);
    var k := FirstPointingSome(g, e, b, vs);
    v := FirstPointing(g, e, b, vs).value.0;
    SortedFirst(cs, (w: int) => PointingAt(g, e, b, w).Some?, k);
  }

  /** At most one candidate is chosen. */
  lemma PointsFirstUnique(g: Grid, e: Range, b: int, v: int, u: int)
    requires InTable(g, e) && PointsFirst(g, e, b, v) && PointsFirst(g, e, b, u)
    ensures u == v
  {
  }

  /** When the candidate loop of PointingPairs runs out, no candidate is chosen. */
  lemma PointingNoneChosen(g: Grid, e: Range, b: int)
    requires InTable(g, e) && FirstPointing(g, e, b, Sorted(CandidateSet(g, e))).None?
    ensures forall v :: !PointsFirst(g, e, b, v)
  {
    var cs := CandidateSet(g, e);
    FirstPointingNone(g, e, b, Sorted(cs));
    SortedNone(cs, (w: int) => PointingAt(g, e, b, w).Some?);
  }

  /**
   * PointingPairs removes the chosen candidate `v` from the rest of its line
   * outside the block, and succeeds exactly when that erased something.
   * When no candidate is chosen, or the removal erased nothing, nothing
   * changes.
   */
  lemma PointingMeaning(g: Grid, r: Range)
    requires InTable(g, r) && |r| > 0
    ensures var o := PointingStep(g, r); var e := SelectEmptyCells(g, r); var b := g[r[0]].block;
      (o.success ==> exists v :: PointsFirst(g, e, b, v) &&
                                 o.grid == Without(g, PointingAt(g, e, b, v).value, {v}) &&
                                 CandCount(o.grid) < CandCount(g)) &&
      (!o.success ==> o.grid == g &&
                      forall v :: PointsFirst(g, e, b, v) ==> Without(g, PointingAt(g, e, b, v).value, {v}) == g)
  {
    var e := SelectEmptyCells(g, r);
    var b := g[r[0]].block;
    var found := FirstPointing(g, e, b, Sorted(CandidateSet(g, e)));
    PointingStepFound(g, r, found);
    if found.None? {
      PointingNoneChosen(g, e, b);
    } else {
      var v := PointingChosen(g, e, b);
      forall u | PointsFirst(g, e, b, u) ensures u == v {
        PointsFirstUnique(g, e, b, v, u);
      }
      var h := Without(g, found.value.1, {v});
      WithoutRefines(g, found.value.1, {v});
      ErasedIffChanged(h, g);
    }
  }

  /** The row of a cell when `isRow`, else its column. */
  function LineOf(c: CellState, isRow: bool): int
  {
    if isRow then c.row else c.column
  }

  /** The cells of row `x` of the table when `isRow`, else of column `x` (SelectRow / SelectColumn). */
  function SelectLine(g: Grid, isRow: bool, x: int): (s: Range)
    ensures InTable(g, s)
    ensures forall i :: i in s <==> 0 <= i < |g| && LineOf(g[i], isRow) == x
  {
    if isRow then SelectRow(g, x) else SelectColumn(g, x)
  }

  /** The block's empty cells on line `x` with candidate `v` (probableBlockCells). */
  function LinePart(g: Grid, eb: Range, isRow: bool, x: int, v: int): (s: Range)
    requires InTable(g, eb)
    ensures InTable(g, s)
    ensures forall i :: i in s <==> i in eb && LineOf(g[i], isRow) == x && v in g[i].cands
  {
    Select(g, eb, (c: CellState) => LineOf(c, isRow) == x && v in c.cands)
  }

  /** The cells of line `x` outside block `b` that hold `v` as value or candidate (otherCells). */
  function LineOthers(g: Grid, b: int, isRow: bool, x: int, v: int): (s: Range)
    ensures InTable(g, s)
    ensures forall i :: i in s <==>
      0 <= i < |g| && LineOf(g[i], isRow) == x && g[i].block != b && g[i].ContainsAnyValueOf([v])
  {
    Select(g, SelectLine(g, isRow, x), (c: CellState) => c.block != b && c.ContainsAnyValueOf([v]))
  }

  /** The block's empty cells off line `x` with candidate `v` (removeValueRange). */
  function OffLine(g: Grid, eb: Range, isRow: bool, x: int, v: int): (s: Range)
    requires InTable(g, eb)
    ensures InTable(g, s)
    ensures forall i :: i in s <==> i in eb && LineOf(g[i], isRow) != x && v in g[i].cands
  {
    Select(g, eb, (c: CellState) => LineOf(c, isRow) != x && v in c.cands)
  }

  /** Line `x` meets the block in cells with candidate `v`, and nowhere else holds `v`. */
  predicate LineHit(g: Grid, eb: Range, b: int, isRow: bool, x: int, v: int)
    requires InTable(g, eb)
  {
    |LinePart(g, eb, isRow, x, v)| > 0 && |LineOthers(g, b, isRow, x, v)| == 0
  }

  /** The variables of the line loops of BoxLineReduction: hits, rowOrColumn and candidateCells. */
  datatype LineScan = LineScan(hits: nat, rowOrColumn: bool, cells: Range)

  /** A scan state whose candidate cells are cells of the table, and are set once a hit occurred. */
  predicate GoodScan(g: Grid, st: LineScan)
  {
    InTable(g, st.cells) && (st.hits > 0 ==> |st.cells| > 0)
  }

  /** One pass of the line loop over the lines `xs`, in order, from state `st`. */
  function Scan(g: Grid, eb: Range, b: int, v: int, isRow: bool, xs: seq<int>, st: LineScan): (res: LineScan)
    requires InTable(g, eb) && GoodScan(g, st)
    ensures GoodScan(g, res)
    decreases |xs|
  {
    if xs == [] then st
    else
      var next := if LineHit(g, eb, b, isRow, xs[0], v)
                  then LineScan(st.hits + 1, isRow, LinePart(g, eb, isRow, xs[0], v))
                  else st;
      Scan(g, eb, b, v, isRow, xs[1..], next)
  }

  /** The state after the row loop and then the column loop for candidate `v`. */
  ghost function BoxLineScan(g: Grid, eb: Range, b: int, v: int): (st: LineScan)
    requires InTable(g, eb)
    ensures GoodScan(g, st)
  {
    var afterRows := Scan(g, eb, b, v, true, Sorted(RowsSet(g, eb)), LineScan(0, false, []));
    Scan(g, eb, b, v, false, Sorted(ColumnsSet(g, eb)), afterRows)
  }

  /**
   * The decision of BoxLineReduction for candidate `v`: exactly one hit,
   * and block cells off that line still hold `v`.
   */
  ghost function BoxLineAt(g: Grid, eb: Range, b: int, v: int): (remove: Option<Range>)
    requires InTable(g, eb)
    ensures remove.Some? ==> InTable(g, remove.value)
  {
    var st := BoxLineScan(g, eb, b, v);
    if st.hits == 1 then
      var remove := OffLine(g, eb, st.rowOrColumn, LineOf(g[st.cells[0]], st.rowOrColumn), v);
      if |remove| > 0 then Some(remove) else None
    else None
  }

  /** The first candidate of `vs` at which the loop of BoxLineReduction stops, with its cells. */
  ghost function FirstBoxLine(g: Grid, eb: Range, b: int, vs: seq<int>): (found: Option<(int, Range)>)
    requires InTable(g, eb)
    ensures found.Some? ==> InTable(g, found.value.1)
  {
    FirstOf(vs, BoxLineTest(g, eb, b))
  }

  /** BoxLineAt as the test of the candidate loop. */
  ghost function BoxLineTest(g: Grid, eb: Range, b: int): int -> Option<Range>
    requires InTable(g, eb)
  {
    v => BoxLineAt(g, eb, b, v)
  }

  /**
   * BoxLineReduction on a block: for the first candidate (ascending) found
   * on exactly one line of the block and nowhere else on that line, the
   * candidate leaves the block's cells off that line.
   */
  ghost function BoxLineStep(g: Grid, r: Range): (o: Outcome)
    requires InTable(g, r) && |r| > 0
  {
    var eb := SelectEmptyCells(g, r);
    match FirstBoxLine(g, eb, g[r[0]].block, Sorted(CandidateSet(g, eb)))
    case None => Outcome(false, g)
    case Some((v, cells)) =>
      var h := Without(g, cells, {v});
      Outcome(CandCount(h) < CandCount(g), h)
  }

  /** One line loop of BoxLineReduction. */
  method ScanLines(g: Grid, eb: Range, b: int, v: int, isRow: bool, xs: seq<int>, st0: LineScan)
    returns (st: LineScan)
    requires InTable(g, eb) && GoodScan(g, st0)
    ensures st == Scan(g, eb, b, v, isRow, xs, st0)
  {
    st := st0;
    var k := 0;
    while k < |xs|
      invariant 0 <= k <= |xs| && GoodScan(g, st)
      invariant Scan(g, eb, b, v, isRow, xs[k..], st) == Scan(g, eb, b, v, isRow, xs, st0)
    {
      ghost var rest := xs[k..];
      assert rest[0] == xs[k] && rest[1..] == xs[k + 1..];
      var probableBlockCells := LinePart(g, eb, isRow, xs[k], v);
      if |probableBlockCells| > 0 {
        var otherCells := LineOthers(g, b, isRow, xs[k], v);
        if |otherCells| == 0 {
          st := LineScan(st.hits + 1, isRow, probableBlockCells);
        }
      }
      k := k + 1;
    }
  }

  /** The body of the candidate loop of BoxLineReduction: both line loops, then the decision. */
  method BoxLineCandidate(g: Grid, eb: Range, b: int, v: int, rows: seq<int>, columns: seq<int>)
    returns (remove: Option<Range>)
    requires InTable(g, eb) && rows == Sorted(RowsSet(g, eb)) && columns == Sorted(ColumnsSet(g, eb))
    ensures remove == BoxLineAt(g, eb, b, v)
  {
    var st := ScanLines(g, eb, b, v, true, rows, LineScan(0, false, []));
    st := ScanLines(g, eb, b, v, false, columns, st);
    if st.hits == 1 {
      var line := LineOf(g[st.cells[0]], st.rowOrColumn);
      var removeValueRange := OffLine(g, eb, st.rowOrColumn, line, v);
      if |removeValueRange| > 0 {
        return Some(removeValueRange);
      }
    }
    return None;
  }

  /** The loop of BoxLineReduction over the candidates. */
  method FindBoxLine(g: Grid, eb: Range, b: int, values: seq<int>) returns (found: Option<(int, Range)>)
    requires InTable(g, eb)
    ensures found == FirstBoxLine(g, eb, b, values)
  {
    var rows := Ascending(RowsSet(g, eb));
    var columns := Ascending(ColumnsSet(g, eb));
    var k := 0;
    while k < |values|
      invariant 0 <= k <= |values|
      invariant FirstBoxLine(g, eb, b, values[k..]) == FirstBoxLine(g, eb, b, values)
    {
      var pValue := values[k];
      ghost var rest := values[k..];
      assert rest[0] == pValue && rest[1..] == values[k + 1..];
      var removeValueRange := BoxLineCandidate(g, eb, b, pValue, rows, columns);
      if removeValueRange.Some? {
        return Some((pValue, removeValueRange.value));
      }
      k := k + 1;
    }
    return None;
  }

  /** BoxLineStep once the search has settled on `found`. */
  lemma BoxLineStepFound(g: Grid, r: Range, found: Option<(int, Range)>)
    requires InTable(g, r) && |r| > 0
    requires found == FirstBoxLine(g, SelectEmptyCells(g, r), g[r[0]].block, Sorted(CandidateSet(g, SelectEmptyCells(g, r))))
    ensures found.None? ==> BoxLineStep(g, r) == Outcome(false, g)
    ensures found.Some? ==>
              InTable(g, found.value.1) &&
              var h := Without(g, found.value.1, {found.value.0});
              BoxLineStep(g, r) == Outcome(CandCount(h) < CandCount(g), h)
  {
  }

  method BoxLineReduction(t: Table, r: Range) returns (success: bool)
    requires t.Distinct() && InTable(t.Grid(), r) && |r| > 0
    modifies t.CellSet()
    ensures Outcome(success, t.Grid()) == BoxLineStep(old(t.Grid()), r)
  {
    var g := t.Grid();
    var blockIndex := g[r[0]].block;
    var emptyBlockCells := SelectEmptyCells(g, r);
    var values := Ascending(CandidateSet(g, emptyBlockCells));
    var found := FindBoxLine(g, emptyBlockCells, blockIndex, values);
    BoxLineStepFound(g, r, found);
    if found.Some? {
      WithoutOne(g, found.value.1, found.value.0);
      assert t.Grid() == g;
      var count := RemoveProbableValues(t, found.value.1, [found.value.0]);
      BoxLineCommit(g, r, found, t.Grid(), count);
      return count > 0;
    }
    return false;
  }

  /** Removing the found candidate completes BoxLineStep: it succeeds exactly when the removal erased something. */
  lemma BoxLineCommit(g: Grid, r: Range, found: Option<(int, Range)>, h: Grid, count: int)
    requires InTable(g, r) && |r| > 0
    requires found == FirstBoxLine(g, SelectEmptyCells(g, r), g[r[0]].block, Sorted(CandidateSet(g, SelectEmptyCells(g, r))))
    requires found.Some? && h == Without(g, found.value.1, {found.value.0})
    requires count == CandCount(g) - CandCount(h)
    ensures Outcome(count > 0, h) == BoxLineStep(g, r)
  {
    BoxLineStepFound(g, r, found);
  }

  /** The lines of `xs` that are hits for `v`, in order: an independent account of the line loop. */
  function HitLines(g: Grid, eb: Range, b: int, v: int, isRow: bool, xs: seq<int>): (hs: seq<int>)
    requires InTable(g, eb)
    ensures forall x :: x in hs <==> x in xs && LineHit(g, eb, b, isRow, x, v)
    decreases |xs|
  {
    if xs == [] then []
    else
      var rest := HitLines(g, eb, b, v, isRow, xs[1..]);
      assert forall x :: x in xs <==> x == xs[0] || x in xs[1..];
      if LineHit(g, eb, b, isRow, xs[0], v) then [xs[0]] + rest else rest
  }

  /**
   * The line loop counts the hits, and once there is one it holds the
   * block cells of the last hit line.
   */
  lemma {:induction false} ScanMeaning(g: Grid, eb: Range, b: int, v: int, isRow: bool, xs: seq<int>, st: LineScan)
    requires InTable(g, eb) && GoodScan(g, st)
    ensures var res := Scan(g, eb, b, v, isRow, xs, st); var hs := HitLines(g, eb, b, v, isRow, xs);
      res.hits == st.hits + |hs| &&
      (hs == [] ==> res == st) &&
      (hs != [] ==> res.rowOrColumn == isRow && res.cells == LinePart(g, eb, isRow, hs[|hs| - 1], v))
    decreases |xs|
  {
    if xs != [] {
      var next := if LineHit(g, eb, b, isRow, xs[0], v)
                  then LineScan(st.hits + 1, isRow, LinePart(g, eb, isRow, xs[0], v))
                  else st;
      ScanMeaning(g, eb, b, v, isRow, xs[1..], next);
    }
  }

  /**
   * BoxLineReduction acts on candidate `v` exactly when one row or column
   * through the block is a hit, and block cells off that line hold `v`;
   * those are the cells it names.
   */
  lemma BoxLineAtMeaning(g: Grid, eb: Range, b: int, v: int)
    requires InTable(g, eb)
    ensures var rs := HitLines(g, eb, b, v, true, Sorted(RowsSet(g, eb)));
            var cs := HitLines(g, eb, b, v, false, Sorted(ColumnsSet(g, eb)));
            var p := BoxLineAt(g, eb, b, v);
      (p.Some? ==> |rs| + |cs| == 1) &&
      (|rs| == 1 && |cs| == 0 ==> p == (var o := OffLine(g, eb, true, rs[0], v); if |o| > 0 then Some(o) else None)) &&
      (|rs| == 0 && |cs| == 1 ==> p == (var o := OffLine(g, eb, false, cs[0], v); if |o| > 0 then Some(o) else None))
  {
    var rows := Sorted(RowsSet(g, eb));
    var columns := Sorted(ColumnsSet(g, eb));
    var st0 := LineScan(0, false, []);
    ScanMeaning(g, eb, b, v, true, rows, st0);
    var afterRows := Scan(g, eb, b, v, true, rows, st0);
    ScanMeaning(g, eb, b, v, false, columns, afterRows);
    var st := Scan(g, eb, b, v, false, columns, afterRows);
    var rs := HitLines(g, eb, b, v, true, rows);
    var cs := HitLines(g, eb, b, v, false, columns);
    if |rs| == 1 && |cs| == 0 {
      HitCellOnLine(g, eb, true, rs[0], v, st.cells);
    } else if |rs| == 0 && |cs| == 1 {
      HitCellOnLine(g, eb, false, cs[0], v, st.cells);
    }
  }

  /** The first of the candidate cells a hit on line `x` records lies on line `x`. */
  lemma HitCellOnLine(g: Grid, eb: Range, isRow: bool, x: int, v: int, cells: Range)
    requires InTable(g, eb) && cells == LinePart(g, eb, isRow, x, v) && |cells| > 0
    ensures cells[0] < |g| && LineOf(g[cells[0]], isRow) == x
  {
    assert cells[0] in cells;
  }

  /**
   * `v` is the candidate BoxLineReduction acts on: the least candidate of
   * the block's empty cells `eb` for which BoxLineAt names cells.
   */
  ghost predicate BoxLineFirst(g: Grid, eb: Range, b: int, v: int)
    requires InTable(g, eb)
  {
    v in CandidateSet(g, eb) && BoxLineAt(g, eb, b, v).Some? &&
    forall w :: w in CandidateSet(g, eb) && w < v ==> BoxLineAt(g, eb, b, w).None?
  }

  /** The candidate loop of BoxLineReduction stops at the chosen candidate, which is the only one. */
  lemma BoxLineChosen(g: Grid, eb: Range, b: int) returns (v: int)
    requires InTable(g, eb) && FirstBoxLine(g, eb, b, Sorted(CandidateSet(g, eb))).Some?
    ensures var found := FirstBoxLine(g, eb, b, Sorted(CandidateSet(g, eb)));
      v == found.value.0 && BoxLineAt(g, eb, b, v) == Some(found.value.1)
    ensures BoxLineFirst(g, eb, b, v) && forall u :: BoxLineFirst(g, eb, b, u) ==> u == v
  {
    var cs := CandidateSet(g, eb);
    var vs := Sorted(cs);
    var k := FirstBoxLineSome(g, eb, b, vs);
    v := FirstBoxLine(g, eb, b, vs).value.0;
    SortedFirst(cs, (w: int) => BoxLineAt(g, eb, b, w).Some?, k);
  }

  /** When the candidate loop of BoxLineReduction runs out, no candidate is chosen. */
  lemma BoxLineNoneChosen(g: Grid, eb: Range, b: int)
    requires InTable(g, eb) && FirstBoxLine(g, eb, b, Sorted(CandidateSet(g, eb))).None?
    ensures forall v :: !BoxLineFirst(g, eb, b, v)
  {
    var cs := CandidateSet(g, eb);
    FirstBoxLineNone(g, eb, b, Sorted(cs));
    SortedNone(cs, (w: int) => BoxLineAt(g, eb, b, w).Some?);
  }

  /**
   * BoxLineReduction acts on the chosen candidate `v`: it sits in the block
   * on one row or column `x` that holds `v` nowhere outside the block, and
   * `v` leaves the block's cells off that line. The step succeeds exactly
   * when that erased something. When no candidate is chosen, or the removal
   * erased nothing, nothing changes.
   */
  lemma BoxLineMeaning(g: Grid, r: Range)
    requires InTable(g, r) && |r| > 0
    ensures var o := BoxLineStep(g, r); var eb := SelectEmptyCells(g, r); var b := g[r[0]].block;
      (o.success ==> exists v, isRow, x :: BoxLineFirst(g, eb, b, v) && LineHit(g, eb, b, isRow, x, v) &&
                                          BoxLineAt(g, eb, b, v) == Some(OffLine(g, eb, isRow, x, v)) &&
                                          o.grid == Without(g, OffLine(g, eb, isRow, x, v), {v}) &&
                                          CandCount(o.grid) < CandCount(g)) &&
      (!o.success ==> o.grid == g &&
                      forall v :: BoxLineFirst(g, eb, b, v) ==> Without(g, BoxLineAt(g, eb, b, v).value, {v}) == g)
  {
    var eb := SelectEmptyCells(g, r);
    var b := g[r[0]].block;
    var found := FirstBoxLine(g, eb, b, Sorted(CandidateSet(g, eb)));
    BoxLineStepFound(g, r, found);
    if found.None? {
      BoxLineNoneChosen(g, eb, b);
    } else {
      var v := BoxLineChosen(g, eb, b);
      var isRow, x := BoxLineAtHit(g, eb, b, v);
      var h := Without(g, found.value.1, {v});
      WithoutRefines(g, found.value.1, {v});
      ErasedIffChanged(h, g);
    }
  }

  /** When BoxLineAt names cells for `v`, they are the block's cells off a hit line `x`. */
  lemma BoxLineAtHit(g: Grid, eb: Range, b: int, v: int) returns (isRow: bool, x: int)
    requires InTable(g, eb) && BoxLineAt(g, eb, b, v).Some?
    ensures LineHit(g, eb, b, isRow, x, v) && BoxLineAt(g, eb, b, v) == Some(OffLine(g, eb, isRow, x, v))
  {
    BoxLineAtMeaning(g, eb, b, v);
    var rs := HitLines(g, eb, b, v, true, Sorted(RowsSet(g, eb)));
    var cs := HitLines(g, eb, b, v, false, Sorted(ColumnsSet(g, eb)));
    isRow := |rs| == 1;
    x := if isRow then rs[0] else cs[0];
    assert x in (if isRow then rs else cs);
  }

  /** When FirstBoxLine finds nothing, BoxLineAt names cells for no candidate of `vs`. */
  lemma FirstBoxLineNone(g: Grid, eb: Range, b: int, vs: seq<int>)
    requires InTable(g, eb) && FirstBoxLine(g, eb, b, vs).None?
    ensures forall k :: 0 <= k < |vs| ==> BoxLineAt(g, eb, b, vs[k]).None?
  {
    FirstOfNone(vs, BoxLineTest(g, eb, b));
  }

  /** FirstBoxLine stops at the first candidate of `vs` where BoxLineAt does; `k` is its index. */
  lemma FirstBoxLineSome(g: Grid, eb: Range, b: int, vs: seq<int>) returns (k: nat)
    requires InTable(g, eb) && FirstBoxLine(g, eb, b, vs).Some?
    ensures var found := FirstBoxLine(g, eb, b, vs);
      BoxLineAt(g, eb, b, found.value.0) == Some(found.value.1) &&
      k < |vs| && vs[k] == found.value.0 && forall j :: 0 <= j < k ==> BoxLineAt(g, eb, b, vs[j]).None?
  {
    k := FirstOfSome(vs, BoxLineTest(g, eb, b));
  }

  /**
   * The cells outside the four corners of a wing, on the cross lines of
   * `c1` and `c2` (their columns when the wing's lines are rows), still
   * holding `v`.
   */
  function WingTargets(g: Grid, isRow: bool, c1: nat, c2: nat, o1: nat, o2: nat, v: int): (s: Range)
    requires c1 < |g| && c2 < |g|
    ensures InTable(g, s)
  {
    var x1 := LineOf(g[c1], !isRow);
    var x2 := LineOf(g[c2], !isRow);
    var crossing := Select(g, AllCells(|g|), (x: CellState) => (LineOf(x, !isRow) == x1 || LineOf(x, !isRow) == x2) && v in x.cands);
    Exclude(g, crossing, {c1, c2, o1, o2})
  }

  /** The wing's targets are the non-corner cells of its two cross lines that hold `v`. */
  lemma WingTargetsMeaning(g: Grid, isRow: bool, c1: nat, c2: nat, o1: nat, o2: nat, v: int)
    requires c1 < |g| && c2 < |g|
    ensures forall i :: i in WingTargets(g, isRow, c1, c2, o1, o2, v) <==>
      0 <= i < |g| && i != c1 && i != c2 && i != o1 && i != o2 &&
      (LineOf(g[i], !isRow) == LineOf(g[c1], !isRow) || LineOf(g[i], !isRow) == LineOf(g[c2], !isRow)) &&
      v in g[i].cands
  {
  }

  /**
   * The cells among positions 0..n-1 on line `line` that hold candidate `v`,
   * in table order; with n = |g| these are the cells of that row (or
   * column) of the table that hold `v`.
   */
  function LineCandidates(g: Grid, isRow: bool, line: int, v: int, n: nat): (s: Range)
    requires n <= |g|
    ensures InTable(g, s)
  {
    if n == 0 then []
    else
      var rest := LineCandidates(g, isRow, line, v, n - 1);
      if LineOf(g[n - 1], isRow) == line && v in g[n - 1].cands then rest + [n - 1] else rest
  }

  /** LineCandidates lists, in table order, exactly the cells of the line holding `v`. */
  lemma {:induction false} LineCandidatesMeaning(g: Grid, isRow: bool, line: int, v: int, n: nat)
    requires n <= |g|
    ensures Ordered(LineCandidates(g, isRow, line, v, n))
    ensures forall i :: i in LineCandidates(g, isRow, line, v, n) <==>
      0 <= i < n && LineOf(g[i], isRow) == line && v in g[i].cands
  {
    if n > 0 {
      LineCandidatesMeaning(g, isRow, line, v, n - 1);
      var rest := LineCandidates(g, isRow, line, v, n - 1);
      if LineOf(g[n - 1], isRow) == line && v in g[n - 1].cands {
        var s := rest + [n - 1];
        assert LineCandidates(g, isRow, line, v, n) == s;
        forall j, k | 0 <= j < k < |s| ensures s[j] < s[k] {
          assert s[j] == rest[j] && rest[j] in rest;
          if k < |rest| {
            assert s[k] == rest[k];
          }
        }
        forall i ensures i in s <==> i in rest || i == n - 1 {
        }
      } else {
        assert LineCandidates(g, isRow, line, v, n) == rest;
      }
    }
  }

  /**
   * The body of the line loop of XWing at line `line`: another line whose
   * only two cells with candidate `v` sit on the cross lines of `c1` and
   * `c2`, in that order, makes a wing; its two cells are the other corners
   * (otherCell1, otherCell2).
   */
  function WingAt(g: Grid, isRow: bool, c1: nat, c2: nat, v: int, line: int): (w: Option<(nat, nat)>)
    requires c1 < |g| && c2 < |g|
  {
    if line == LineOf(g[c1], isRow) then None
    else
      var lineCells := LineCandidates(g, isRow, line, v, |g|);
      if |lineCells| == 2 && LineOf(g[c1], !isRow) == LineOf(g[lineCells[0]], !isRow) &&
         LineOf(g[c2], !isRow) == LineOf(g[lineCells[1]], !isRow)
      then Some((lineCells[0], lineCells[1]))
      else None
  }

  /**
   * The corners of the last wing among the lines 0..n-1: the line loop
   * overwrites candidateRange at every wing, so the last one wins.
   */
  function LastWing(g: Grid, isRow: bool, c1: nat, c2: nat, v: int, n: nat): (w: Option<(nat, nat)>)
    requires c1 < |g| && c2 < |g|
  {
    if n == 0 then None
    else
      match WingAt(g, isRow, c1, c2, v, n - 1)
      case Some(w) => Some(w)
      case None => LastWing(g, isRow, c1, c2, v, n - 1)
  }

  /** The first candidate of `vs` for which a wing exists among lines 0..L-1, with its other corners. */
  function FirstWing(g: Grid, isRow: bool, c1: nat, c2: nat, L: nat, vs: seq<int>): (found: Option<(int, (nat, nat))>)
    requires c1 < |g| && c2 < |g|
  {
    FirstOf(vs, WingTest(g, isRow, c1, c2, L))
  }

  /** LastWing as the test of the candidate loop. */
  function WingTest(g: Grid, isRow: bool, c1: nat, c2: nat, L: nat): int -> Option<(nat, nat)>
    requires c1 < |g| && c2 < |g|
  {
    v => LastWing(g, isRow, c1, c2, v, L)
  }

  /**
   * The search of XWing over the empty cells `e` of a line of a table of
   * side L: when the line has exactly two empty cells sharing exactly two
   * candidates, the first candidate forming a wing with another line, and
   * the wing's targets.
   */
  ghost function WingSearch(g: Grid, e: Range, L: nat): (found: Option<(int, Range)>)
    requires InTable(g, e)
    ensures found.Some? ==> InTable(g, found.value.1)
  {
    if |e| == 2 && |CandidateSet(g, e)| == 2 then
      var isRow := |RowsSet(g, e)| == 1;
      match FirstWing(g, isRow, e[0], e[1], L, Sorted(CandidateSet(g, e)))
      case None => None
      case Some((v, (o1, o2))) => Some((v, WingTargets(g, isRow, e[0], e[1], o1, o2, v)))
    else None
  }

  /** XWing on a row or column: the wing's candidate leaves the cross lines outside the corners. */
  ghost function XWingStep(g: Grid, r: Range, L: nat): (o: Outcome)
    requires InTable(g, r)
  {
    match WingSearch(g, SelectEmptyCells(g, r), L)
    case None => Outcome(false, g)
    case Some((v, cells)) =>
      var h := Without(g, cells, {v});
      Outcome(CandCount(h) < CandCount(g), h)
  }

  /** The line loop of XWing for candidate `v`. */
  method FindWing(g: Grid, isRow: bool, c1: nat, c2: nat, v: int, L: nat) returns (corners: Option<(nat, nat)>)
    requires c1 < |g| && c2 < |g|
    ensures corners == LastWing(g, isRow, c1, c2, v, L)
  {
    corners := None;
    for line := 0 to L
      invariant corners == LastWing(g, isRow, c1, c2, v, line)
    {
      var w := WingAt(g, isRow, c1, c2, v, line);
      if w.Some? {
        corners := w;
      }
    }
  }

  /** The candidate loop of XWing. */
  method FindXWing(g: Grid, isRow: bool, c1: nat, c2: nat, L: nat, values: seq<int>)
    returns (found: Option<(int, (nat, nat))>)
    requires c1 < |g| && c2 < |g|
    ensures found == FirstWing(g, isRow, c1, c2, L, values)
  {
    var k := 0;
    while k < |values|
      invariant 0 <= k <= |values|
      invariant FirstWing(g, isRow, c1, c2, L, values[k..]) == FirstWing(g, isRow, c1, c2, L, values)
    {
      var pValue := values[k];
      ghost var rest := values[k..];
      assert rest[0] == pValue && rest[1..] == values[k + 1..];
      var corners := FindWing(g, isRow, c1, c2, pValue, L);
      if corners.Some? {
        return Some((pValue, corners.value));
      }
      k := k + 1;
    }
    return None;
  }

  /** The guards of XWing, its candidate loop and the wing's targets (candidateRange). */
  method SearchWing(g: Grid, emptyCells: Range, L: nat) returns (found: Option<(int, Range)>)
    requires InTable(g, emptyCells)
    ensures found == WingSearch(g, emptyCells, L)
  {
    if |emptyCells| != 2 {
      return None;
    }
    var probableValues := CandidateSet(g, emptyCells);
    if |probableValues| != 2 {
      return None;
    }
    var isRowOrColumn := |RowsSet(g, emptyCells)| == 1;
    var values := Ascending(probableValues);
    var wing := FindXWing(g, isRowOrColumn, emptyCells[0], emptyCells[1], L, values);
    if wing.Some? {
      var v := wing.value.0;
      var (otherCell1, otherCell2) := wing.value.1;
      var candidateRange := WingTargets(g, isRowOrColumn, emptyCells[0], emptyCells[1], otherCell1, otherCell2, v);
      return Some((v, candidateRange));
    }
    return None;
  }

  /** XWingStep once the search has settled on `found`. */
  lemma XWingStepFound(g: Grid, r: Range, L: nat, found: Option<(int, Range)>)
    requires InTable(g, r) && found == WingSearch(g, SelectEmptyCells(g, r), L)
    ensures found.None? ==> XWingStep(g, r, L) == Outcome(false, g)
    ensures found.Some? ==>
              InTable(g, found.value.1) &&
              var h := Without(g, found.value.1, {found.value.0});
              XWingStep(g, r, L) == Outcome(CandCount(h) < CandCount(g), h)
  {
  }

  method XWing(t: Table, r: Range) returns (success: bool)
    requires t.Distinct() && InTable(t.Grid(), r)
    modifies t.CellSet()
    ensures Outcome(success, t.Grid()) == XWingStep(old(t.Grid()), r, t.length)
  {
    var g := t.Grid();
    var emptyCells := SelectEmptyCells(g, r);
    var found := SearchWing(g, emptyCells, t.length);
    XWingStepFound(g, r, t.length, found);
    if found.Some? {
      WithoutOne(g, found.value.1, found.value.0);
      assert t.Grid() == g;
      var count := RemoveProbableValues(t, found.value.1, [found.value.0]);
      return count > 0;
    }
    return false;
  }

  /**
   * Line `line` (other than the line of `c1`) forms a wing with the line of
   * `c1` and `c2` for candidate `v`: exactly its cells `o1` < `o2` hold
   * `v`, and they lie on the cross lines of `c1` and `c2`.
   */
  predicate Wing(g: Grid, isRow: bool, c1: nat, c2: nat, v: int, line: int, o1: nat, o2: nat)
    requires c1 < |g| && c2 < |g|
  {
    line != LineOf(g[c1], isRow) && o1 < o2 < |g| &&
    (forall i :: 0 <= i < |g| ==> (LineOf(g[i], isRow) == line && v in g[i].cands <==> i == o1 || i == o2)) &&
    LineOf(g[o1], !isRow) == LineOf(g[c1], !isRow) && LineOf(g[o2], !isRow) == LineOf(g[c2], !isRow)
  }

  /** An ordered range holding exactly two positions is those two, in order. */
  lemma OrderedPair(s: Range, o1: nat, o2: nat)
    requires Ordered(s) && o1 < o2
    requires forall i :: i in s <==> i == o1 || i == o2
    ensures s == [o1, o2]
  {
    assert o1 in s && o2 in s;
    var j :| 0 <= j < |s| && s[j] == o1;
    var k :| 0 <= k < |s| && s[k] == o2;
    assert j < k;
    forall i | 0 <= i < |s| ensures s[i] == o1 || s[i] == o2 {
      assert s[i] in s;
    }
    assert j == 0 && k == |s| - 1;
    assert s[1] == o2;
    assert |s| == 2;
  }

  /** WingAt names the corners `o1`, `o2` exactly when its line forms a wing with them. */
  lemma WingAtMeaning(g: Grid, isRow: bool, c1: nat, c2: nat, v: int, line: int, o1: nat, o2: nat)
    requires c1 < |g| && c2 < |g|
    ensures WingAt(g, isRow, c1, c2, v, line) == Some((o1, o2)) <==> Wing(g, isRow, c1, c2, v, line, o1, o2)
  {
    var lineCells := LineCandidates(g, isRow, line, v, |g|);
    LineCandidatesMeaning(g, isRow, line, v, |g|);
    if WingAt(g, isRow, c1, c2, v, line) == Some((o1, o2)) {
      assert forall i :: i in lineCells <==> i == lineCells[0] || i == lineCells[1];
      assert lineCells[0] < lineCells[1];
    }
    if Wing(g, isRow, c1, c2, v, line, o1, o2) {
      OrderedPair(lineCells, o1, o2);
    }
  }

  /** LastWing keeps the last line below `n` at which WingAt finds a wing; `line` is that line. */
  lemma {:induction false} LastWingSome(g: Grid, isRow: bool, c1: nat, c2: nat, v: int, n: nat) returns (line: nat)
    requires c1 < |g| && c2 < |g| && LastWing(g, isRow, c1, c2, v, n).Some?
    ensures line < n && WingAt(g, isRow, c1, c2, v, line) == LastWing(g, isRow, c1, c2, v, n)
    ensures forall l :: line < l < n ==> WingAt(g, isRow, c1, c2, v, l).None?
  {
    if WingAt(g, isRow, c1, c2, v, n - 1).None? {
      assert LastWing(g, isRow, c1, c2, v, n) == LastWing(g, isRow, c1, c2, v, n - 1);
      line := LastWingSome(g, isRow, c1, c2, v, n - 1);
    } else {
      line := n - 1;
    }
  }

  /** When LastWing finds nothing, WingAt finds a wing at no line below `n`. */
  lemma {:induction false} LastWingNone(g: Grid, isRow: bool, c1: nat, c2: nat, v: int, n: nat)
    requires c1 < |g| && c2 < |g| && LastWing(g, isRow, c1, c2, v, n).None?
    ensures forall l :: 0 <= l < n ==> WingAt(g, isRow, c1, c2, v, l).None?
  {
    if n > 0 {
      assert WingAt(g, isRow, c1, c2, v, n - 1).None?;
      LastWingNone(g, isRow, c1, c2, v, n - 1);
    }
  }

  /** FirstWing stops at the first candidate of `vs` for which LastWing finds a wing; `k` is its index. */
  lemma FirstWingSome(g: Grid, isRow: bool, c1: nat, c2: nat, L: nat, vs: seq<int>) returns (k: nat)
    requires c1 < |g| && c2 < |g| && FirstWing(g, isRow, c1, c2, L, vs).Some?
    ensures var found := FirstWing(g, isRow, c1, c2, L, vs);
      LastWing(g, isRow, c1, c2, found.value.0, L) == Some(found.value.1) &&
      k < |vs| && vs[k] == found.value.0 && forall j :: 0 <= j < k ==> LastWing(g, isRow, c1, c2, vs[j], L).None?
  {
    k := FirstOfSome(vs, WingTest(g, isRow, c1, c2, L));
  }

  /** When FirstWing finds nothing, LastWing finds no wing for any candidate of `vs`. */
  lemma FirstWingNone(g: Grid, isRow: bool, c1: nat, c2: nat, L: nat, vs: seq<int>)
    requires c1 < |g| && c2 < |g| && FirstWing(g, isRow, c1, c2, L, vs).None?
    ensures forall k :: 0 <= k < |vs| ==> LastWing(g, isRow, c1, c2, vs[k], L).None?
  {
    FirstOfNone(vs, WingTest(g, isRow, c1, c2, L));
  }

  /**
   * The wing XWing acts on, for the empty cells `e` of a line of a table of
   * side L: the line has exactly two empty cells sharing exactly two
   * candidates; `v` is the least of them for which some other line forms a
   * wing; `line` is the last such line, and `o1`, `o2` its corners.
   */
  ghost predicate ChosenWing(g: Grid, e: Range, L: nat, v: int, line: int, o1: nat, o2: nat)
    requires InTable(g, e)
  {
    |e| == 2 && |CandidateSet(g, e)| == 2 &&
    var isRow := |RowsSet(g, e)| == 1;
    v in CandidateSet(g, e) && 0 <= line < L && Wing(g, isRow, e[0], e[1], v, line, o1, o2) &&
    (forall l :: line < l < L ==> WingAt(g, isRow, e[0], e[1], v, l).None?) &&
    (forall w, l :: w in CandidateSet(g, e) && w < v && 0 <= l < L ==> WingAt(g, isRow, e[0], e[1], w, l).None?)
  }

  /** A successful search of XWing names the chosen wing. */
  lemma WingChosen(g: Grid, e: Range, L: nat) returns (v: int, line: int, o1: nat, o2: nat)
    requires InTable(g, e) && WingSearch(g, e, L).Some?
    ensures ChosenWing(g, e, L, v, line, o1, o2)
    ensures WingSearch(g, e, L).value == (v, WingTargets(g, |RowsSet(g, e)| == 1, e[0], e[1], o1, o2, v))
  {
    var cs := CandidateSet(g, e);
    var isRow := |RowsSet(g, e)| == 1;
    var vs := Sorted(cs);
    var wing := FirstWing(g, isRow, e[0], e[1], L, vs);
    var k := FirstWingSome(g, isRow, e[0], e[1], L, vs);
    v := wing.value.0;
    o1, o2 := wing.value.1.0, wing.value.1.1;
    NoEarlierWing(g, isRow, e[0], e[1], L, cs, k);
    line := LastWingSome(g, isRow, e[0], e[1], v, L);
    WingAtMeaning(g, isRow, e[0], e[1], v, line, o1, o2);
    assert ChosenWing(g, e, L, v, line, o1, o2);
  }

  /** The candidates the scan of XWing passed before index `k` form a wing with no line. */
  lemma NoEarlierWing(g: Grid, isRow: bool, c1: nat, c2: nat, L: nat, cs: set<int>, k: nat)
    requires c1 < |g| && c2 < |g| && k < |Sorted(cs)|
    requires forall j :: 0 <= j < k ==> LastWing(g, isRow, c1, c2, Sorted(cs)[j], L).None?
    ensures Sorted(cs)[k] in cs
    ensures forall w, l :: w in cs && w < Sorted(cs)[k] && 0 <= l < L ==> WingAt(g, isRow, c1, c2, w, l).None?
  {
    SortedFirst(cs, (w: int) => LastWing(g, isRow, c1, c2, w, L).Some?, k);
    forall w | w in cs && w < Sorted(cs)[k] ensures forall l :: 0 <= l < L ==> WingAt(g, isRow, c1, c2, w, l).None? {
      LastWingNone(g, isRow, c1, c2, w, L);
    }
  }

  /** At most one wing is chosen. */
  lemma ChosenWingUnique(g: Grid, e: Range, L: nat, v: int, line: int, o1: nat, o2: nat,
                         v': int, line': int, o1': nat, o2': nat)
    requires InTable(g, e) && ChosenWing(g, e, L, v, line, o1, o2) && ChosenWing(g, e, L, v', line', o1', o2')
    ensures v' == v && line' == line && o1' == o1 && o2' == o2
  {
    var isRow := |RowsSet(g, e)| == 1;
    WingAtMeaning(g, isRow, e[0], e[1], v, line, o1, o2);
    WingAtMeaning(g, isRow, e[0], e[1], v', line', o1', o2');
  }

  /** A search of XWing that finds nothing leaves no wing to choose. */
  lemma WingNoneChosen(g: Grid, e: Range, L: nat)
    requires InTable(g, e) && WingSearch(g, e, L).None?
    ensures forall v, line, o1, o2 :: !ChosenWing(g, e, L, v, line, o1, o2)
  {
    if |e| == 2 && |CandidateSet(g, e)| == 2 {
      var cs := CandidateSet(g, e);
      var isRow := |RowsSet(g, e)| == 1;
      var vs := Sorted(cs);
      FirstWingNone(g, isRow, e[0], e[1], L, vs);
      SortedNone(cs, (w: int) => LastWing(g, isRow, e[0], e[1], w, L).Some?);
      forall v, line, o1, o2 ensures !ChosenWing(g, e, L, v, line, o1, o2) {
        if v in cs && 0 <= line < L {
          LastWingNone(g, isRow, e[0], e[1], v, L);
          WingAtMeaning(g, isRow, e[0], e[1], v, line, o1, o2);
        }
      }
    }
  }

  /**
   * XWing removes the chosen wing's candidate from the wing's cross lines
   * outside its corners, and succeeds exactly when that erased something.
   * When no wing is chosen, or its removal erased nothing, nothing changes.
   */
  lemma XWingMeaning(g: Grid, r: Range, L: nat)
    requires InTable(g, r)
    ensures var o := XWingStep(g, r, L); var e := SelectEmptyCells(g, r); var isRow := |RowsSet(g, e)| == 1;
      (o.success ==> exists v: int, line: int, o1: nat, o2: nat :: ChosenWing(g, e, L, v, line, o1, o2) &&
                       o.grid == Without(g, WingTargets(g, isRow, e[0], e[1], o1, o2, v), {v}) &&
                       CandCount(o.grid) < CandCount(g)) &&
      (!o.success ==> o.grid == g &&
                      forall v: int, line: int, o1: nat, o2: nat :: ChosenWing(g, e, L, v, line, o1, o2) ==>
                        Without(g, WingTargets(g, isRow, e[0], e[1], o1, o2, v), {v}) == g)
  {
    var e := SelectEmptyCells(g, r);
    var found := WingSearch(g, e, L);
    XWingStepFound(g, r, L, found);
    if found.None? {
      WingNoneChosen(g, e, L);
    } else {
      var v, line, o1, o2 := WingChosen(g, e, L);
      forall v', line', o1', o2' | ChosenWing(g, e, L, v', line', o1', o2')
        ensures v' == v && line' == line && o1' == o1 && o2' == o2
      {
        ChosenWingUnique(g, e, L, v, line, o1, o2, v', line', o1', o2');
      }
      var h := Without(g, found.value.1, {found.value.0});
      WithoutRefines(g, found.value.1, {found.value.0});
      ErasedIffChanged(h, g);
    }
  }
}
