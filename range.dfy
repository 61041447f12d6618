/**
 * Ranges: ordered, non-owning views of some of a table's cells.
 *
 * A grid is the state of every cell of a table, in the table's cell order; a
 * range is a sequence of positions into that order. Every query here is a
 * function of a grid, so no query can change a cell.
 */
module Ranges {

  import opened Cells
  import opened Sets

  type Grid = seq<CellState>

  /** A range: positions in the table's cell list of the cells it views. */
  type Range = seq<nat>

  predicate InTable(g: Grid, r: Range)
  {
    forall k :: 0 <= k < |r| ==> r[k] < |g|
  }

  /** The positions of a range as a set (the membership test of List.Contains). */
  function Positions(r: Range): (s: set<nat>)
    ensures forall i :: i in s <==> i in r
  {
    set i | i in r
  }

  /** Strictly ascending positions, as every range taken from a table has. */
  predicate Ordered(r: Range)
  {
    forall j, k :: 0 <= j < k < |r| ==> r[j] < r[k]
  }

  /** The range's cells satisfying `p`, kept in their order (List.FindAll). */
  function Select(g: Grid, r: Range, p: CellState -> bool): (s: Range)
    requires InTable(g, r)
    ensures InTable(g, s) && |s| <= |r|
    ensures forall i :: i in s <==> i in r && i < |g| && p(g[i])
    ensures Ordered(r) ==> Ordered(s)
  {
    if r == [] then []
    else
      var rest := Select(g, r[1..], p);
      assert forall i :: i in r <==> i == r[0] || i in r[1..];
      assert Ordered(r) ==> forall k :: 0 <= k < |rest| ==> r[0] < rest[k] by {
        if Ordered(r) {
          forall k | 0 <= k < |rest| ensures r[0] < rest[k] {
            assert rest[k] in r[1..];
          }
        }
      }
      if p(g[r[0]]) then [r[0]] + rest else rest
  }

  /** The range without the positions in `out`, kept in their order. */
  function Exclude(g: Grid, r: Range, out: set<nat>): (s: Range)
    requires InTable(g, r)
    ensures InTable(g, s) && |s| <= |r|
    ensures forall i :: i in s <==> i in r && i !in out
    ensures Ordered(r) ==> Ordered(s)
  {
    if r == [] then []
    else
      var rest := Exclude(g, r[1..], out);
      assert forall i :: i in r <==> i == r[0] || i in r[1..];
      assert Ordered(r) ==> forall k :: 0 <= k < |rest| ==> r[0] < rest[k] by {
        if Ordered(r) {
          forall k | 0 <= k < |rest| ensures r[0] < rest[k] {
            assert rest[k] in r[1..];
          }
        }
      }
      if r[0] in out then rest else [r[0]] + rest
  }

  /** The first cell of the range satisfying `p` (List.Find). */
  function Find(g: Grid, r: Range, p: CellState -> bool): (found: Option<nat>)
    requires InTable(g, r)
    ensures found.Some? ==> exists k :: 0 <= k < |r| && r[k] == found.value && p(g[r[k]]) &&
                                        forall j :: 0 <= j < k ==> !p(g[r[j]])
    ensures found.None? ==> forall k :: 0 <= k < |r| ==> !p(g[r[k]])
  {
    if r == [] then None
    else if p(g[r[0]]) then Some(r[0])
    else
      var rest := Find(g, r[1..], p);
      if rest.Some? then
        var k :| 0 <= k < |r| - 1 && r[1..][k] == rest.value && p(g[r[1..][k]]) &&
                 forall j :: 0 <= j < k ==> !p(g[r[1..][j]]);
        assert r[k + 1] == rest.value;
        rest
      else
        rest
  }

  function SelectEmptyCells(g: Grid, r: Range): (s: Range)
    requires InTable(g, r)
  {
    Select(g, r, (x: CellState) => x.IsEmpty())
  }

  function SelectFilledCells(g: Grid, r: Range): (s: Range)
    requires InTable(g, r)
  {
    Select(g, r, (x: CellState) => !x.IsEmpty())
  }

  /** The empty and the filled cells split the range: each cell falls in exactly one part. */
  lemma {:induction false} EmptyFilledPartition(g: Grid, r: Range)
    requires InTable(g, r)
    ensures forall i :: i in r ==> (i in SelectEmptyCells(g, r) <==> i !in SelectFilledCells(g, r))
    ensures |SelectEmptyCells(g, r)| + |SelectFilledCells(g, r)| == |r|
  {
    if r != [] {
      EmptyFilledPartition(g, r[1..]);
    }
  }

  /** The placed values of the range (GetValuesHashSet). */
  function ValuesSet(g: Grid, r: Range): (s: set<int>)
    requires InTable(g, r)
    ensures forall v :: v in s <==> exists k :: 0 <= k < |r| && g[r[k]].value == Some(v)
  {
    if r == [] then {}
    else
      var c := g[r[0]];
      var rest := ValuesSet(g, r[1..]);
      assert forall v :: v in rest <==> exists k :: 1 <= k < |r| && g[r[k]].value == Some(v) by {
        forall v | v in rest ensures exists k :: 1 <= k < |r| && g[r[k]].value == Some(v) {
          var k :| 0 <= k < |r| - 1 && g[r[1..][k]].value == Some(v);
          assert g[r[k + 1]].value == Some(v);
        }
        forall v | exists k :: 1 <= k < |r| && g[r[k]].value == Some(v) ensures v in rest {
          var k :| 1 <= k < |r| && g[r[k]].value == Some(v);
          assert g[r[1..][k - 1]].value == Some(v);
        }
      }
      if c.value.Some? then {c.value.value} + rest else rest
  }

  /** The union of the candidate sets of the range (GetProbableValuesHashSet). */
  function CandidateSet(g: Grid, r: Range): (s: set<int>)
    requires InTable(g, r)
    ensures forall v :: v in s <==> exists k :: 0 <= k < |r| && v in g[r[k]].cands
  {
    if r == [] then {}
    else
      var rest := CandidateSet(g, r[1..]);
      assert forall v :: v in rest <==> exists k :: 1 <= k < |r| && v in g[r[k]].cands by {
        forall v | v in rest ensures exists k :: 1 <= k < |r| && v in g[r[k]].cands {
          var k :| 0 <= k < |r| - 1 && v in g[r[1..][k]].cands;
          assert v in g[r[k + 1]].cands;
        }
        forall v | exists k :: 1 <= k < |r| && v in g[r[k]].cands ensures v in rest {
          var k :| 1 <= k < |r| && v in g[r[k]].cands;
          assert v in g[r[1..][k - 1]].cands;
        }
      }
      g[r[0]].cands + rest
  }

  /** Placed values and candidates together (GetAnyValueHashSet). */
  function AnyValueSet(g: Grid, r: Range): (s: set<int>)
    requires InTable(g, r)
    ensures forall v :: v in s <==> exists k :: 0 <= k < |r| && g[r[k]].ContainsAnyValue({v})
  {
    var s := ValuesSet(g, r) + CandidateSet(g, r);
    assert forall v :: v in s <==> exists k :: 0 <= k < |r| && g[r[k]].ContainsAnyValue({v}) by {
      forall v | v in s ensures exists k :: 0 <= k < |r| && g[r[k]].ContainsAnyValue({v}) {
        if v in ValuesSet(g, r) {
          var k :| 0 <= k < |r| && g[r[k]].value == Some(v);
          assert g[r[k]].ContainsAnyValue({v});
        } else {
          var k :| 0 <= k < |r| && v in g[r[k]].cands;
          assert g[r[k]].ContainsAnyValue({v});
        }
      }
      forall v | exists k :: 0 <= k < |r| && g[r[k]].ContainsAnyValue({v}) ensures v in s {
        var k :| 0 <= k < |r| && g[r[k]].ContainsAnyValue({v});
        if g[r[k]].value != Some(v) {
          var w :| w in g[r[k]].cands && w in {v};
          assert v in CandidateSet(g, r);
        }
      }
    }
    s
  }

  /** The row indices of the range's cells (GetRowsHashSet). */
  function RowsSet(g: Grid, r: Range): (s: set<int>)
    requires InTable(g, r)
    ensures forall x :: x in s <==> exists k :: 0 <= k < |r| && g[r[k]].row == x
  {
    if r == [] then {}
    else
      var rest := RowsSet(g, r[1..]);
      assert forall x :: x in rest <==> exists k :: 1 <= k < |r| && g[r[k]].row == x by {
        forall x | x in rest ensures exists k :: 1 <= k < |r| && g[r[k]].row == x {
          var k :| 0 <= k < |r| - 1 && g[r[1..][k]].row == x;
          assert g[r[k + 1]].row == x;
        }
        forall x | exists k :: 1 <= k < |r| && g[r[k]].row == x ensures x in rest {
          var k :| 1 <= k < |r| && g[r[k]].row == x;
          assert g[r[1..][k - 1]].row == x;
        }
      }
      {g[r[0]].row} + rest
  }

  /** The column indices of the range's cells (GetColumnsHashSet). */
  function ColumnsSet(g: Grid, r: Range): (s: set<int>)
    requires InTable(g, r)
    ensures forall x :: x in s <==> exists k :: 0 <= k < |r| && g[r[k]].column == x
  {
    if r == [] then {}
    else
      var rest := ColumnsSet(g, r[1..]);
      assert forall x :: x in rest <==> exists k :: 1 <= k < |r| && g[r[k]].column == x by {
        forall x | x in rest ensures exists k :: 1 <= k < |r| && g[r[k]].column == x {
          var k :| 0 <= k < |r| - 1 && g[r[1..][k]].column == x;
          assert g[r[k + 1]].column == x;
        }
        forall x | exists k :: 1 <= k < |r| && g[r[k]].column == x ensures x in rest {
          var k :| 1 <= k < |r| && g[r[k]].column == x;
          assert g[r[1..][k - 1]].column == x;
        }
      }
      {g[r[0]].column} + rest
  }

  /** Some cell of the range has candidate `v`. */
  predicate ContainsProbableValue(g: Grid, r: Range, v: int)
    requires InTable(g, r)
  {
    exists k :: 0 <= k < |r| && v in g[r[k]].cands
  }

  /** Some cell of the range has value `v`, or else has candidate `v`. */
  predicate ContainsAnyValue(g: Grid, r: Range, v: int)
    requires InTable(g, r)
  {
    (exists k :: 0 <= k < |r| && g[r[k]].value == Some(v)) || ContainsProbableValue(g, r, v)
  }

  /** The two searches agree with the aggregate sets. */
  lemma ContainsMeaning(g: Grid, r: Range, v: int)
    requires InTable(g, r)
    ensures ContainsProbableValue(g, r, v) <==> v in CandidateSet(g, r)
    ensures ContainsAnyValue(g, r, v) <==> v in ValuesSet(g, r) + CandidateSet(g, r)
  {
  }

  /** No two cells of the range hold the same placed value. */
  predicate DistinctValues(g: Grid, r: Range)
    requires InTable(g, r)
  {
    forall j, k :: 0 <= j < k < |r| && g[r[j]].value.Some? ==> g[r[j]].value != g[r[k]].value
  }

  /** Counts the empty cells of the range in one pass (GetEmptyCellsCount). */
  method GetEmptyCellsCount(g: Grid, r: Range) returns (count: nat)
    requires InTable(g, r)
    ensures count == |SelectEmptyCells(g, r)|
  {
    count := 0;
    var i := 0;
    while i < |r|
      invariant 0 <= i <= |r|
      invariant count + |SelectEmptyCells(g, r[i..])| == |SelectEmptyCells(g, r)|
    {
      assert r[i..][1..] == r[i + 1..];
      if g[r[i]].value.None? {
        count := count + 1;
      }
      i := i + 1;
    }
  }

  /** Whether no placed value repeats in the range, remembering the values seen (GetIsCorrect). */
  method GetIsCorrect(g: Grid, r: Range) returns (ok: bool)
    requires InTable(g, r)
    ensures ok <==> DistinctValues(g, r)
  {
    var seen: set<int> := {};
    var i := 0;
    while i < |r|
      invariant 0 <= i <= |r|
      invariant forall v :: v in seen <==> exists k :: 0 <= k < i && g[r[k]].value == Some(v)
      invariant forall j, k :: 0 <= j < k < i && g[r[j]].value.Some? ==> g[r[j]].value != g[r[k]].value
    {
      if g[r[i]].value.Some? {
        var v := g[r[i]].value.value;
        if v in seen {
          var j :| 0 <= j < i && g[r[j]].value == Some(v);
          assert g[r[j]].value.Some? && g[r[j]].value == g[r[i]].value;
          return false;
        }
        forall j | 0 <= j < i && g[r[j]].value.Some?
          ensures g[r[j]].value != g[r[i]].value
        {
          var w := g[r[j]].value.value;
          assert 0 <= j < i && g[r[j]].value == Some(w);
          assert w in seen;
        }
        seen := seen + {v};
      }
      i := i + 1;
    }
    return true;
  }

  /** The cells of the range in block `b`. */
  function BlockPart(g: Grid, r: Range, b: int): (s: Range)
    requires InTable(g, r)
    ensures InTable(g, s) && (Ordered(r) ==> Ordered(s))
    ensures forall i :: i in s <==> i in r && g[i].block == b
  {
    Select(g, r, (x: CellState) => x.block == b)
  }

  /** The cells of the range in row `x`. */
  function RowPart(g: Grid, r: Range, x: int): (s: Range)
    requires InTable(g, r)
    ensures InTable(g, s) && (Ordered(r) ==> Ordered(s))
    ensures forall i :: i in s <==> i in r && g[i].row == x
  {
    Select(g, r, (c: CellState) => c.row == x)
  }

  /** The cells of the range in column `x`. */
  function ColumnPart(g: Grid, r: Range, x: int): (s: Range)
    requires InTable(g, r)
    ensures InTable(g, s) && (Ordered(r) ==> Ordered(s))
    ensures forall i :: i in s <==> i in r && g[i].column == x
  {
    Select(g, r, (c: CellState) => c.column == x)
  }

  /** The cells of the range with candidate `v`. */
  function WithCandidate(g: Grid, r: Range, v: int): (s: Range)
    requires InTable(g, r)
    ensures InTable(g, s) && |s| <= |r| && (Ordered(r) ==> Ordered(s))
    ensures forall i :: i in s <==> i in r && v in g[i].cands
  {
    Select(g, r, (x: CellState) => v in x.cands)
  }

  /** Selecting from a range extended by one position extends the selection by at most that position. */
  lemma {:induction false} SelectSnoc(g: Grid, r: Range, i: nat, p: CellState -> bool)
    requires InTable(g, r) && i < |g|
    ensures Select(g, r + [i], p) == Select(g, r, p) + (if p(g[i]) then [i] else [])
  {
    if r != [] {
      assert (r + [i])[1..] == r[1..] + [i];
      SelectSnoc(g, r[1..], i, p);
    }
  }

  /** Two selections agree when their filters agree on every position of the range. */
  lemma {:induction false} SelectAgrees(g: Grid, h: Grid, r: Range, p: CellState -> bool, q: CellState -> bool)
    requires InTable(g, r) && InTable(h, r)
    requires forall k :: 0 <= k < |r| ==> p(g[r[k]]) == q(h[r[k]])
    ensures Select(g, r, p) == Select(h, r, q)
  {
    if r != [] {
      SelectAgrees(g, h, r[1..], p, q);
    }
  }

  /** Selecting by block depends only on the blocks of the range's cells. */
  lemma BlockPartFrame(g: Grid, h: Grid, r: Range, b: int)
    requires InTable(g, r) && |h| == |g|
    requires forall k :: 0 <= k < |r| ==> h[r[k]].block == g[r[k]].block
    ensures BlockPart(h, r, b) == BlockPart(g, r, b)
  {
    SelectAgrees(h, g, r, (x: CellState) => x.block == b, (x: CellState) => x.block == b);
  }

  /** Selecting by row depends only on the rows of the range's cells. */
  lemma RowPartFrame(g: Grid, h: Grid, r: Range, x: int)
    requires InTable(g, r) && |h| == |g|
    requires forall k :: 0 <= k < |r| ==> h[r[k]].row == g[r[k]].row
    ensures RowPart(h, r, x) == RowPart(g, r, x)
  {
    SelectAgrees(h, g, r, (c: CellState) => c.row == x, (c: CellState) => c.row == x);
  }

  /** Selecting by column depends only on the columns of the range's cells. */
  lemma ColumnPartFrame(g: Grid, h: Grid, r: Range, x: int)
    requires InTable(g, r) && |h| == |g|
    requires forall k :: 0 <= k < |r| ==> h[r[k]].column == g[r[k]].column
    ensures ColumnPart(h, r, x) == ColumnPart(g, r, x)
  {
    SelectAgrees(h, g, r, (c: CellState) => c.column == x, (c: CellState) => c.column == x);
  }

  /** The grid an exclusion is taken over names only the table; the result is the same. */
  lemma {:induction false} ExcludeAnyGrid(g: Grid, h: Grid, r: Range, out: set<nat>)
    requires InTable(g, r) && InTable(h, r)
    ensures Exclude(g, r, out) == Exclude(h, r, out)
  {
    if r != [] {
      ExcludeAnyGrid(g, h, r[1..], out);
    }
  }

  /** The range is not empty and all its cells lie in one row. */
  predicate OneRow(g: Grid, r: Range)
    requires InTable(g, r)
  {
    r != [] && forall k :: 0 <= k < |r| ==> g[r[k]].row == g[r[0]].row
  }

  /** The range is not empty and all its cells lie in one column. */
  predicate OneColumn(g: Grid, r: Range)
    requires InTable(g, r)
  {
    r != [] && forall k :: 0 <= k < |r| ==> g[r[k]].column == g[r[0]].column
  }

  /** A set of rows with one element says exactly that the cells share one row. */
  lemma RowsSetOne(g: Grid, r: Range)
    requires InTable(g, r)
    ensures |RowsSet(g, r)| == 1 <==> OneRow(g, r)
  {
    var s := RowsSet(g, r);
    if OneRow(g, r) {
      assert s == {g[r[0]].row};
    } else if |s| == 1 {
      NonEmptyHasElement(s);
      var x :| x in s;
      assert r != [];
      assert g[r[0]].row in s;
      OneElement(s, g[r[0]].row);
      forall k | 0 <= k < |r| ensures g[r[k]].row == g[r[0]].row {
        assert g[r[k]].row in s;
      }
    }
  }

  /** A set of columns with one element says exactly that the cells share one column. */
  lemma ColumnsSetOne(g: Grid, r: Range)
    requires InTable(g, r)
    ensures |ColumnsSet(g, r)| == 1 <==> OneColumn(g, r)
  {
    var s := ColumnsSet(g, r);
    if OneColumn(g, r) {
      assert s == {g[r[0]].column};
    } else if |s| == 1 {
      NonEmptyHasElement(s);
      var x :| x in s;
      assert r != [];
      assert g[r[0]].column in s;
      OneElement(s, g[r[0]].column);
      forall k | 0 <= k < |r| ensures g[r[k]].column == g[r[0]].column {
        assert g[r[k]].column in s;
      }
    }
  }
}
