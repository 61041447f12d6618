/**
 * A cell of the Sudoku table: its fixed position (block, row, column) and its
 * mutable state, an optional placed value, a set of candidate digits and the
 * flag that marks a given of the puzzle.
 */
module Cells {

  import opened Sets

  datatype Option<T> = None | Some(value: T)

  /**
   * The first element of `xs` on which `test` answers, with its answer: the
   * shape of every candidate loop of the strategies that stops at its first
   * hit.
   */
  function FirstOf<A, T>(xs: seq<A>, test: A -> Option<T>): (found: Option<(A, T)>)
    ensures found.Some? ==> test(found.value.0) == Some(found.value.1)
    decreases |xs|
  {
    if xs == [] then None
    else
      match test(xs[0])
      case Some(t) => Some((xs[0], t))
      case None => FirstOf(xs[1..], test)
  }

  /** The first element of `xs` that passes `test`. */
  function FirstWhere<A>(xs: seq<A>, test: A -> bool): (found: Option<A>)
    ensures found.Some? ==> found.value in xs && test(found.value)
    decreases |xs|
  {
    if xs == [] then None
    else if test(xs[0]) then Some(xs[0])
    else FirstWhere(xs[1..], test)
  }

  /** FirstWhere stops at index `k`: the element there passes and no earlier one does. */
  lemma {:induction false} FirstWhereSome<A>(xs: seq<A>, test: A -> bool) returns (k: nat)
    requires FirstWhere(xs, test).Some?
    ensures k < |xs| && xs[k] == FirstWhere(xs, test).value
    ensures forall j :: 0 <= j < k ==> !test(xs[j])
    decreases |xs|
  {
    if !test(xs[0]) {
      var k' := FirstWhereSome(xs[1..], test);
      k := k' + 1;
      forall j | 0 <= j < k ensures !test(xs[j]) {
        if j > 0 {
          assert xs[j] == xs[1..][j - 1];
        }
      }
    } else {
      k := 0;
    }
  }

  /** When FirstWhere finds nothing, no element passes. */
  lemma {:induction false} FirstWhereNone<A>(xs: seq<A>, test: A -> bool)
    requires FirstWhere(xs, test).None?
    ensures forall k :: 0 <= k < |xs| ==> !test(xs[k])
    decreases |xs|
  {
    if xs != [] {
      FirstWhereNone(xs[1..], test);
      forall k | 0 <= k < |xs| ensures !test(xs[k]) {
        if k > 0 {
          assert xs[k] == xs[1..][k - 1];
        }
      }
    }
  }

  /** FirstOf stops at index `k`: the test answers there and at no earlier element. */
  lemma {:induction false} FirstOfSome<A, T>(xs: seq<A>, test: A -> Option<T>) returns (k: nat)
    requires FirstOf(xs, test).Some?
    ensures k < |xs| && xs[k] == FirstOf(xs, test).value.0
    ensures forall j :: 0 <= j < k ==> test(xs[j]).None?
    decreases |xs|
  {
    if test(xs[0]).None? {
      var k' := FirstOfSome(xs[1..], test);
      k := k' + 1;
      forall j | 0 <= j < k ensures test(xs[j]).None? {
        if j > 0 {
          assert xs[j] == xs[1..][j - 1];
        }
      }
    } else {
      k := 0;
    }
  }

  /** When FirstOf finds nothing, the test answers on no element. */
  lemma {:induction false} FirstOfNone<A, T>(xs: seq<A>, test: A -> Option<T>)
    requires FirstOf(xs, test).None?
    ensures forall k :: 0 <= k < |xs| ==> test(xs[k]).None?
    decreases |xs|
  {
    if xs != [] {
      FirstOfNone(xs[1..], test);
      forall k | 0 <= k < |xs| ensures test(xs[k]).None? {
        if k > 0 {
          assert xs[k] == xs[1..][k - 1];
        }
      }
    }
  }

  /** The value of a cell at one moment: what a snapshot of the table holds. */
  datatype CellState = CellState(
    block: int, row: int, column: int,
    value: Option<int>, cands: set<int>, isDefault: bool)
  {
    predicate IsEmpty() { value.None? }

    /** Whether the placed value or some candidate is one of `values`. */
    predicate ContainsAnyValue(values: set<int>)
    {
      (value.Some? && value.value in values) || exists v :: v in cands && v in values
    }

    /** The `params int[]` overload of ContainsAnyValue. */
    predicate ContainsAnyValueOf(values: seq<int>)
    {
      (value.Some? && value.value in values) || exists k :: 0 <= k < |values| && values[k] in cands
    }

    /** Whether every candidate is one of `values`. */
    predicate ContainsAllValues(values: set<int>)
    {
      forall v :: v in cands ==> v in values
    }

    /** The `params int[]` overload of ContainsAllValues. */
    predicate ContainsAllValuesOf(values: seq<int>)
    {
      forall v :: v in cands ==> v in values
    }
  }

  /** The array overloads answer as the set overloads do on the set of the array's elements. */
  lemma OverloadsAgree(c: CellState, values: seq<int>)
    ensures c.ContainsAnyValueOf(values) == c.ContainsAnyValue(set v | v in values)
    ensures c.ContainsAllValuesOf(values) == c.ContainsAllValues(set v | v in values)
  {
    var s := set v | v in values;
    if exists k :: 0 <= k < |values| && values[k] in c.cands {
      var k :| 0 <= k < |values| && values[k] in c.cands;
      assert values[k] in c.cands && values[k] in s;
    }
    if exists v :: v in c.cands && v in s {
      var v :| v in c.cands && v in s;
      var k :| 0 <= k < |values| && values[k] == v;
    }
  }

  class Cell {
    const block: int
    const row: int
    const column: int

    var value: Option<int>
    var cands: set<int>
    var isDefault: bool

    /** The state this cell holds now. */
    function State(): CellState
      reads this
    {
      CellState(block, row, column, value, cands, isDefault)
    }

    /** A new cell: the given indices, no value, no candidates, not a given. */
    constructor (blockIndex: int, rowIndex: int, columnIndex: int)
      ensures State() == CellState(blockIndex, rowIndex, columnIndex, None, {}, false)
    {
      block, row, column := blockIndex, rowIndex, columnIndex;
      value := None;
      cands := {};
      isDefault := false;
    }

    /** A deep copy: a fresh cell whose state equals this one's. */
    method Clone() returns (copy: Cell)
      ensures fresh(copy)
      ensures copy.State() == State()
    {
      copy := new Cell(block, row, column);
      copy.value := value;
      copy.isDefault := isDefault;
      var rest := cands;
      while rest != {}
        invariant rest <= cands
        invariant copy.State() == State().(cands := cands - rest)
        decreases rest
      {
        NonEmptyHasElement(rest);
        var v :| v in rest;
        copy.cands := copy.cands + {v};
        rest := rest - {v};
      }
    }

    /**
     * Whether the placed value or some candidate is one of `values`: the
     * value is tested first, then the candidates one by one until a hit.
     */
    method ContainsAnyValue(values: set<int>) returns (found: bool)
      ensures found <==> (value.Some? && value.value in values) || cands * values != {}
      ensures found == State().ContainsAnyValue(values)
    {
      if value.Some? {
        if value.value in values {
          return true;
        }
      }
      var rest := cands;
      while rest != {}
        invariant rest <= cands
        invariant (cands - rest) * values == {}
        decreases rest
      {
        NonEmptyHasElement(rest);
        var v :| v in rest;
        if v in values {
          assert v in cands * values;
          return true;
        }
        rest := rest - {v};
      }
      assert cands - rest == cands;
      return false;
    }

    /** Whether every candidate is one of `values`: the candidates are tested one by one until a miss. */
    method ContainsAllValues(values: set<int>) returns (all: bool)
      ensures all <==> cands <= values
      ensures all == State().ContainsAllValues(values)
    {
      var rest := cands;
      while rest != {}
        invariant rest <= cands
        invariant cands - rest <= values
        decreases rest
      {
        NonEmptyHasElement(rest);
        var v :| v in rest;
        if v !in values {
          return false;
        }
        rest := rest - {v};
      }
      assert cands - rest == cands;
      return true;
    }

    /** Removes `v` from the candidates, telling whether it was one (the Remove of the candidate set). */
    method RemoveCandidate(v: int) returns (present: bool)
      modifies this
      ensures State() == old(State()).(cands := old(cands) - {v})
      ensures present == (v in old(cands))
    {
      present := v in cands;
      cands := cands - {v};
    }

    /** Forgets the value and the candidates; position and given flag stay. */
    method Clear()
      modifies this
      ensures State() == old(State()).(value := None, cands := {})
    {
      value := None;
      cands := {};
    }
  }

  /** Changing a copy leaves the original as it was. */
  method CloneIsIndependent(c: Cell, s: set<int>)
    ensures c.State() == old(c.State())
  {
    var copy := c.Clone();
    copy.cands := s;
    copy.Clear();
  }
}
