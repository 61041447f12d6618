/**
 * The Sudoku table: Length = B*B rows and columns of cells, split into
 * Length blocks of B*B cells each. Cells are kept twice, as a row-major
 * list and in a Length x Length matrix that indexes the same objects.
 */
module Tables {

  import opened Sets
  import opened Cells
  import opened Ranges

  /** The block of a position: blocks are numbered row-major, B per band. */
  function BlockIndex(row: int, column: int, B: int): int
    requires B > 0
  {
    (row / B) * B + column / B
  }

  /** The indices a cell holds when it sits at position `i` of the row-major list. */
  predicate Placed(block: int, row: int, column: int, i: int, B: nat)
  {
    var L := B * B;
    B > 0 && 0 <= row < L && 0 <= column < L && row * L + column == i &&
    block == BlockIndex(row, column, B) && 0 <= block < L
  }

  /** A snapshot of a table with block length B: one cell per position, in row-major order. */
  ghost predicate WellFormed(g: Grid, B: nat)
  {
    |g| == (B * B) * (B * B) &&
    forall i :: 0 <= i < |g| ==> Placed(g[i].block, g[i].row, g[i].column, i, B)
  }

  lemma MulNonNegative(a: int, b: int)
    requires a >= 0 && b >= 0
    ensures a * b >= 0
  {
  }

  /** A row-major position lies inside the table. */
  lemma PositionBound(r: int, c: int, L: int)
    requires 0 <= r < L && 0 <= c < L
    ensures 0 <= r * L + c < L * L
  {
    MulNonNegative(r, L);
    MulNonNegative(L - r - 1, L);
    assert (L - r - 1) * L == L * L - r * L - L;
  }

  /** A row-major position determines its row and column. */
  lemma PositionUnique(r1: int, c1: int, r2: int, c2: int, L: int)
    requires 0 <= r1 && 0 <= r2 && 0 <= c1 < L && 0 <= c2 < L
    requires r1 * L + c1 == r2 * L + c2
    ensures r1 == r2 && c1 == c2
  {
    if r1 > r2 {
      MulNonNegative(r1 - r2 - 1, L);
    } else if r2 > r1 {
      MulNonNegative(r2 - r1 - 1, L);
    }
  }

  /** The row and column of a position inside the table. */
  lemma Unflatten(i: int, L: int)
    requires L > 0 && 0 <= i < L * L
    ensures 0 <= i / L < L && 0 <= i % L < L && (i / L) * L + i % L == i
  {
    if i / L >= L {
      MulNonNegative(i / L - L, L);
    }
  }

  /** Every block index lies in 0..Length-1. */
  lemma BlockInRange(r: int, c: int, B: int)
    requires B > 0 && 0 <= r < B * B && 0 <= c < B * B
    ensures 0 <= BlockIndex(r, c, B) < B * B
  {
    Unflatten(r, B);
    Unflatten(c, B);
    PositionBound(r / B, c / B, B);
  }

  /** Positions 0..n-1: every cell of a table, in its list order. */
  function AllCells(n: nat): (r: Range)
    ensures |r| == n && forall k :: 0 <= k < n ==> r[k] == k
    ensures forall i :: i in r <==> 0 <= i < n
    ensures Ordered(r)
  {
    if n == 0 then [] else AllCells(n - 1) + [n - 1]
  }

  /** The cells of block `b`, in row-major order (SelectBlock). */
  function SelectBlock(g: Grid, b: int): (s: Range)
    ensures Ordered(s) && InTable(g, s)
    ensures forall i :: i in s <==> 0 <= i < |g| && g[i].block == b
  {
    Select(g, AllCells(|g|), (x: CellState) => x.block == b)
  }

  /** The cells of row `r`, in row-major order (SelectRow). */
  function SelectRow(g: Grid, r: int): (s: Range)
    ensures Ordered(s) && InTable(g, s)
    ensures forall i :: i in s <==> 0 <= i < |g| && g[i].row == r
  {
    Select(g, AllCells(|g|), (x: CellState) => x.row == r)
  }

  /** The cells of column `c`, in row-major order (SelectColumn). */
  function SelectColumn(g: Grid, c: int): (s: Range)
    ensures Ordered(s) && InTable(g, s)
    ensures forall i :: i in s <==> 0 <= i < |g| && g[i].column == c
  {
    Select(g, AllCells(|g|), (x: CellState) => x.column == c)
  }

  /** Every block, row and column of the table is free of repeated values. */
  predicate IsCorrectGrid(g: Grid, L: int)
  {
    (forall b :: 0 <= b < L ==> DistinctValues(g, SelectBlock(g, b))) &&
    (forall r :: 0 <= r < L ==> DistinctValues(g, SelectRow(g, r))) &&
    (forall c :: 0 <= c < L ==> DistinctValues(g, SelectColumn(g, c)))
  }

  /** Two cells share a block, a row or a column. */
  predicate Peers(x: CellState, y: CellState)
  {
    x.block == y.block || x.row == y.row || x.column == y.column
  }

  /** The Latin-square condition: no two peers hold the same value. */
  predicate PeerDistinct(g: Grid)
  {
    forall i, j :: 0 <= i < j < |g| && g[i].value.Some? && Peers(g[i], g[j]) ==> g[i].value != g[j].value
  }

  /** Positions of two members of an ordered range keep their order in it. */
  lemma OrderedPositions(s: Range, i: nat, j: nat)
    requires Ordered(s) && i in s && j in s && i < j
    ensures exists p, q :: 0 <= p < q < |s| && s[p] == i && s[q] == j
  {
    var p :| 0 <= p < |s| && s[p] == i;
    var q :| 0 <= q < |s| && s[q] == j;
  }

  /** Two distinct members of one ordered range make DistinctValues apply to them. */
  lemma DistinctPair(g: Grid, s: Range, i: nat, j: nat)
    requires InTable(g, s) && Ordered(s) && DistinctValues(g, s)
    requires i in s && j in s && i < j && g[i].value.Some?
    ensures g[i].value != g[j].value
  {
    OrderedPositions(s, i, j);
    var p, q :| 0 <= p < q < |s| && s[p] == i && s[q] == j;
  }

  /** IsCorrect is the Latin-square condition on a well-formed table. */
  lemma IsCorrectMeaning(g: Grid, B: nat)
    requires WellFormed(g, B)
    ensures IsCorrectGrid(g, B * B) <==> PeerDistinct(g)
  {
    var L := B * B;
    if IsCorrectGrid(g, L) {
      forall i, j | 0 <= i < j < |g| && g[i].value.Some? && Peers(g[i], g[j])
        ensures g[i].value != g[j].value
      {
        assert Placed(g[i].block, g[i].row, g[i].column, i, B);
        if g[i].block == g[j].block {
          DistinctPair(g, SelectBlock(g, g[i].block), i, j);
        } else if g[i].row == g[j].row {
          DistinctPair(g, SelectRow(g, g[i].row), i, j);
        } else {
          DistinctPair(g, SelectColumn(g, g[i].column), i, j);
        }
      }
    }
    if PeerDistinct(g) {
      forall b | 0 <= b < L ensures DistinctValues(g, SelectBlock(g, b)) {
        var s := SelectBlock(g, b);
        forall p, q | 0 <= p < q < |s| && g[s[p]].value.Some? ensures g[s[p]].value != g[s[q]].value {
          assert s[p] in s && s[q] in s;
        }
      }
      forall r | 0 <= r < L ensures DistinctValues(g, SelectRow(g, r)) {
        var s := SelectRow(g, r);
        forall p, q | 0 <= p < q < |s| && g[s[p]].value.Some? ensures g[s[p]].value != g[s[q]].value {
          assert s[p] in s && s[q] in s;
        }
      }
      forall c | 0 <= c < L ensures DistinctValues(g, SelectColumn(g, c)) {
        var s := SelectColumn(g, c);
        forall p, q | 0 <= p < q < |s| && g[s[p]].value.Some? ensures g[s[p]].value != g[s[q]].value {
          assert s[p] in s && s[q] in s;
        }
      }
    }
  }

  /** The states of a list of cells, in order. */
  function States(cs: seq<Cell>): (g: Grid)
    reads set c | c in cs
    ensures |g| == |cs| && forall i :: 0 <= i < |cs| ==> g[i] == cs[i].State()
  {
    if cs == [] then [] else [cs[0].State()] + States(cs[1..])
  }

  class Table {
    const blockLength: nat
    const length: nat
    /** The cells in row-major order (cellsList). */
    var cells: seq<Cell>
    /** The same cells by row and column (cellsMatrix). */
    const matrix: array2<Cell?>

    ghost function CellSet(): set<Cell>
      reads this
    {
      set c | c in cells
    }

    /** No cell appears twice in the list: editing one cell changes one position of the grid. */
    ghost predicate Distinct()
      reads this
    {
      forall i, j :: 0 <= i < j < |cells| ==> cells[i] != cells[j]
    }

    ghost predicate Valid()
      reads this, matrix
    {
      length == blockLength * blockLength &&
      matrix.Length0 == length && matrix.Length1 == length &&
      |cells| == length * length &&
      (forall i :: 0 <= i < |cells| ==> Placed(cells[i].block, cells[i].row, cells[i].column, i, blockLength)) &&
      Distinct() &&
      (forall i :: 0 <= i < |cells| ==> matrix[cells[i].row, cells[i].column] == cells[i])
    }

    /** The state of every cell, in row-major order. */
    function Grid(): (g: Grid)
      reads this, CellSet()
      ensures |g| == |cells| && forall i :: 0 <= i < |cells| ==> g[i] == cells[i].State()
    {
      States(cells)
    }

    lemma GridWellFormed()
      requires Valid()
      ensures WellFormed(Grid(), blockLength)
    {
    }

    /** An unfilled table: just the block length and an empty matrix (Table(blockLength, false)). */
    constructor (blockLength: nat, initialize: bool)
      ensures this.blockLength == blockLength && length == blockLength * blockLength
      ensures fresh(matrix) && matrix.Length0 == length && matrix.Length1 == length
      ensures !initialize ==> cells == []
      ensures initialize ==> Valid() && fresh(CellSet())
      ensures initialize ==> forall i :: 0 <= i < |cells| ==>
                cells[i].value == None && cells[i].cands == {} && !cells[i].isDefault
    {
      this.blockLength := blockLength;
      length := blockLength * blockLength;
      matrix := new Cell?[blockLength * blockLength, blockLength * blockLength]((r, c) => null);
      cells := [];
      new;
      if initialize {
        InitializeCells();
      }
    }

    /** Creates the cells row by row, each with its block index, then fills the matrix. */
    method InitializeCells()
      requires cells == [] && length == blockLength * blockLength
      requires matrix.Length0 == length && matrix.Length1 == length
      modifies this, matrix
      ensures Valid() && fresh(CellSet())
      ensures forall i :: 0 <= i < |cells| ==>
                cells[i].value == None && cells[i].cands == {} && !cells[i].isDefault
    {
      var r := 0;
      while r < length
        invariant 0 <= r <= length
        invariant |cells| == r * length
        invariant forall i :: 0 <= i < |cells| ==> Placed(cells[i].block, cells[i].row, cells[i].column, i, blockLength)
        invariant forall i, j :: 0 <= i < j < |cells| ==> cells[i] != cells[j]
        invariant forall i :: 0 <= i < |cells| ==> fresh(cells[i])
        invariant forall i :: 0 <= i < |cells| ==>
                    cells[i].value == None && cells[i].cands == {} && !cells[i].isDefault
      {
        var c := 0;
        while c < length
          invariant 0 <= c <= length
          invariant |cells| == r * length + c
          invariant forall i :: 0 <= i < |cells| ==> Placed(cells[i].block, cells[i].row, cells[i].column, i, blockLength)
          invariant forall i, j :: 0 <= i < j < |cells| ==> cells[i] != cells[j]
          invariant forall i :: 0 <= i < |cells| ==> fresh(cells[i])
          invariant forall i :: 0 <= i < |cells| ==>
                      cells[i].value == None && cells[i].cands == {} && !cells[i].isDefault
        {
          BlockInRange(r, c, blockLength);
          var cell := new Cell(BlockIndex(r, c, blockLength), r, c);
          cells := cells + [cell];
          c := c + 1;
        }
        assert (r + 1) * length == r * length + length;
        r := r + 1;
      }
      InitializeMatrix();
    }

    /** A fresh clone of every cell of `src`, in order. */
    static method CloneCells(src: seq<Cell>) returns (copies: seq<Cell>)
      ensures |copies| == |src| && forall i :: 0 <= i < |src| ==> copies[i].State() == src[i].State()
      ensures forall i, j :: 0 <= i < j < |copies| ==> copies[i] != copies[j]
      ensures forall i :: 0 <= i < |copies| ==> fresh(copies[i])
    {
      copies := [];
      var k := 0;
      while k < |src|
        invariant 0 <= k <= |src| && |copies| == k
        invariant forall i :: 0 <= i < k ==> copies[i].State() == src[i].State()
        invariant forall i, j :: 0 <= i < j < |copies| ==> copies[i] != copies[j]
        invariant forall i :: 0 <= i < |copies| ==> fresh(copies[i])
      {
        var copy := src[k].Clone();
        copies := copies + [copy];
        k := k + 1;
      }
    }

    /** Copies every cell of `src` in order, then fills the matrix (InitializeCells(srcCellList)). */
    method InitializeCellsFrom(src: seq<Cell>)
      requires cells == [] && length == blockLength * blockLength
      requires matrix.Length0 == length && matrix.Length1 == length
      requires |src| == length * length
      requires forall i :: 0 <= i < |src| ==> Placed(src[i].block, src[i].row, src[i].column, i, blockLength)
      modifies this, matrix
      ensures Valid() && fresh(CellSet())
      ensures Grid() == States(src)
    {
      cells := CloneCells(src);
      InitializeMatrix();
    }

    /** Rebuilds the cells from a snapshot, each a fresh cell holding its recorded state, then fills the matrix. */
    method InitializeCellsFromStates(src: Grid)
      requires cells == [] && length == blockLength * blockLength
      requires matrix.Length0 == length && matrix.Length1 == length
      requires WellFormed(src, blockLength)
      modifies this, matrix
      ensures Valid() && fresh(CellSet())
      ensures Grid() == src
    {
      var k := 0;
      while k < |src|
        invariant 0 <= k <= |src| && |cells| == k
        invariant forall i :: 0 <= i < k ==> cells[i].State() == src[i]
        invariant forall i, j :: 0 <= i < j < |cells| ==> cells[i] != cells[j]
        invariant forall i :: 0 <= i < |cells| ==> fresh(cells[i])
      {
        var s := src[k];
        var cell := new Cell(s.block, s.row, s.column);
        cell.value, cell.cands, cell.isDefault := s.value, s.cands, s.isDefault;
        cells := cells + [cell];
        k := k + 1;
      }
      InitializeMatrix();
    }

    /** Stores every listed cell at its row and column of the matrix. */
    method InitializeMatrix()
      requires length == blockLength * blockLength
      requires matrix.Length0 == length && matrix.Length1 == length
      requires |cells| == length * length
      requires forall i :: 0 <= i < |cells| ==> Placed(cells[i].block, cells[i].row, cells[i].column, i, blockLength)
      requires forall i, j :: 0 <= i < j < |cells| ==> cells[i] != cells[j]
      modifies matrix
      ensures Valid()
    {
      var k := 0;
      while k < |cells|
        invariant 0 <= k <= |cells|
        invariant forall i :: 0 <= i < k ==> matrix[cells[i].row, cells[i].column] == cells[i]
      {
        var cell := cells[k];
        matrix[cell.row, cell.column] := cell;
        k := k + 1;
      }
    }

    /** The cell at row `r` and column `c` (this[row, column]). */
    function At(r: int, c: int): (cell: Cell)
      requires Valid() && 0 <= r < length && 0 <= c < length
      reads this, matrix
      ensures cell in cells && cell.row == r && cell.column == c
    {
      PositionBound(r, c, length);
      var i := r * length + c;
      assert Placed(cells[i].block, cells[i].row, cells[i].column, i, blockLength);
      PositionUnique(cells[i].row, cells[i].column, r, c, length);
      matrix[r, c]
    }

    /** Whether every cell has a value (IsFilled). */
    function IsFilled(): (filled: bool)
      reads this, CellSet()
      ensures filled <==> SelectEmptyCells(Grid(), AllCells(|cells|)) == []
    {
      var g := Grid();
      var all := AllCells(|cells|);
      assert forall i :: 0 <= i < |cells| ==> i in all by {
        forall i | 0 <= i < |cells| ensures i in all {
          assert all[i] == i;
        }
      }
      var empty := SelectEmptyCells(g, all);
      assert empty != [] ==> empty[0] in empty;
      forall i :: 0 <= i < |cells| ==> cells[i].value.Some?
    }

    /** Whether every block, every row and every column is free of repeated values (IsCorrect). */
    method IsCorrect() returns (ok: bool)
      ensures ok <==> IsCorrectGrid(Grid(), length)
    {
      ok := GridIsCorrect(Grid(), length);
    }

    /** A deep copy in fresh cells (Clone). */
    method Clone() returns (copy: Table)
      requires Valid()
      ensures fresh(copy) && fresh(copy.matrix) && fresh(copy.CellSet())
      ensures copy.Valid() && copy.blockLength == blockLength && copy.Grid() == Grid()
    {
      copy := new Table(blockLength, false);
      copy.InitializeCellsFrom(cells);
    }

    /** Places `v` in cell `i` (cell.Value = v). */
    method PlaceValue(i: nat, v: int)
      requires Distinct() && i < |cells|
      modifies cells[i]
      ensures Grid() == old(Grid())[i := old(Grid())[i].(value := Some(v))]
    {
      cells[i].value := Some(v);
    }

    /** Empties the candidate set of cell `i`. */
    method ClearCandidates(i: nat)
      requires Distinct() && i < |cells|
      modifies cells[i]
      ensures Grid() == old(Grid())[i := old(Grid())[i].(cands := {})]
    {
      cells[i].cands := {};
    }

    /** Adds candidate `v` to cell `i`. */
    method AddCandidate(i: nat, v: int)
      requires Distinct() && i < |cells|
      modifies cells[i]
      ensures Grid() == old(Grid())[i := old(Grid())[i].(cands := old(Grid())[i].cands + {v})]
    {
      cells[i].cands := cells[i].cands + {v};
    }

    /** Removes candidate `v` from cell `i`, telling whether it was there. */
    method RemoveCandidate(i: nat, v: int) returns (removed: bool)
      requires Distinct() && i < |cells|
      modifies cells[i]
      ensures removed == (v in old(Grid())[i].cands)
      ensures Grid() == old(Grid())[i := old(Grid())[i].(cands := old(Grid())[i].cands - {v})]
    {
      removed := v in cells[i].cands;
      cells[i].cands := cells[i].cands - {v};
    }
  }

  /** Whether every block, then every row, then every column passes GetIsCorrect; the loops of IsCorrect. */
  method GridIsCorrect(g: Grid, length: nat) returns (ok: bool)
    ensures ok <==> IsCorrectGrid(g, length)
  {
    var b := 0;
    while b < length
      invariant 0 <= b <= length
      invariant forall b' :: 0 <= b' < b ==> DistinctValues(g, SelectBlock(g, b'))
    {
      ok := GetIsCorrect(g, SelectBlock(g, b));
      if !ok {
        return;
      }
      b := b + 1;
    }
    var r := 0;
    while r < length
      invariant 0 <= r <= length
      invariant forall r' :: 0 <= r' < r ==> DistinctValues(g, SelectRow(g, r'))
    {
      ok := GetIsCorrect(g, SelectRow(g, r));
      if !ok {
        return;
      }
      r := r + 1;
    }
    var c := 0;
    while c < length
      invariant 0 <= c <= length
      invariant forall c' :: 0 <= c' < c ==> DistinctValues(g, SelectColumn(g, c'))
    {
      ok := GetIsCorrect(g, SelectColumn(g, c));
      if !ok {
        return;
      }
      c := c + 1;
    }
    return true;
  }

  /** Changing a clone leaves the original table as it was. */
  method CloneIsIndependent(t: Table)
    requires t.Valid() && |t.cells| > 0
    ensures t.Grid() == old(t.Grid())
  {
    ghost var g := t.Grid();
    var copy := t.Clone();
    var first := copy.cells[0];
    assert first in copy.CellSet() && fresh(first);
    assert first !in t.CellSet();
    copy.ClearCandidates(0);
    assert t.Grid() == g;
    copy.PlaceValue(0, 1);
    assert t.Grid() == g;
  }
}
