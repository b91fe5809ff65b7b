/** One student's row of the grid: identity plus a fixed-length array of cells. */
module Students {
  import opened Errors
  import opened CellStates

  /** The number of cells of `cells` equal to `x`. */
  function Occurrences(cells: seq<CellState>, x: CellState): (r: nat)
    ensures r <= |cells|
  {
    if cells == [] then 0
    else Occurrences(cells[..|cells| - 1], x) + (if cells[|cells| - 1] == x then 1 else 0)
  }

  /** The positions below `n` holding `x`. */
  ghost function Holding(cells: seq<CellState>, x: CellState, n: nat): set<nat>
    requires n <= |cells|
  {
    set i | 0 <= i < n && cells[i] == x
  }

  lemma {:induction false} OccurrencesBelow(cells: seq<CellState>, x: CellState, n: nat)
    requires n <= |cells|
    ensures Occurrences(cells[..n], x) == |Holding(cells, x, n)|
  {
    if n > 0 {
      OccurrencesBelow(cells, x, n - 1);
      assert cells[..n][..n - 1] == cells[..n - 1];
      if cells[n - 1] == x {
        assert Holding(cells, x, n) == Holding(cells, x, n - 1) + {n - 1};
      } else {
        assert Holding(cells, x, n) == Holding(cells, x, n - 1);
      }
    }
  }

  /** `Occurrences` agrees with the size of the set of positions holding `x`. */
  lemma OccurrencesIsCardinality(cells: seq<CellState>, x: CellState)
    ensures Occurrences(cells, x) == |set i | 0 <= i < |cells| && cells[i] == x|
  {
    OccurrencesBelow(cells, x, |cells|);
    assert cells[..|cells|] == cells;
  }

  /** No occurrence at all exactly when no position holds `x`. */
  lemma {:induction false} OccurrencesZero(cells: seq<CellState>, x: CellState)
    ensures Occurrences(cells, x) == 0 <==> forall i :: 0 <= i < |cells| ==> cells[i] != x
  {
    if cells != [] {
      var m := |cells| - 1;
      OccurrencesZero(cells[..m], x);
      assert forall i :: 0 <= i < m ==> cells[..m][i] == cells[i];
    }
  }

  /** Writing one cell changes the count by what was removed and what was written. */
  lemma {:induction false} OccurrencesUpdate(cells: seq<CellState>, i: nat, v: CellState, x: CellState)
    requires i < |cells|
    ensures Occurrences(cells[i := v], x)
         == Occurrences(cells, x) - (if cells[i] == x then 1 else 0) + (if v == x then 1 else 0)
  {
    var m := |cells| - 1;
    if i < m {
      OccurrencesUpdate(cells[..m], i, v, x);
      assert cells[i := v][..m] == cells[..m][i := v];
    } else {
      assert cells[i := v][..m] == cells[..m];
    }
  }

  /** A student: `Id`, `Name` and the cell array, whose length never changes. */
  class StudentRecord {
    var id: string
    var name: string
    const cells: array<CellState>

    /** Allocation of a record whose cells all start as `None`. */
    constructor (id: string, name: string, testsCount: nat)
      ensures this.id == id && this.name == name
      ensures fresh(cells) && cells.Length == testsCount
      ensures forall i :: 0 <= i < testsCount ==> cells[i] == None
    {
      this.id := id;
      this.name := name;
      cells := new CellState[testsCount](_ => None);
    }

    /** The C# constructor: a null id becomes "", a null name is rejected,
        and a negative length fails when the array is allocated. */
    static method Create(id: Nullable<string>, name: Nullable<string>, testsCount: int)
      returns (r: Result<StudentRecord>)
      ensures r.Err? <==> name.Null? || testsCount < 0
      ensures r.Err? ==> r.error == (if name.Null? then ArgumentNull else Overflow)
      ensures r.Ok? ==> fresh(r.value) && fresh(r.value.cells)
      ensures r.Ok? ==> r.value.id == (if id.Null? then "" else id.value)
      ensures r.Ok? ==> r.value.name == name.value && r.value.TestsCount() == testsCount
      ensures r.Ok? ==> forall i :: 0 <= i < testsCount ==> r.value.cells[i] == None
    {
      var theId := if id.Null? then "" else id.value;
      if name.Null? {
        return Err(ArgumentNull);
      }
      if testsCount < 0 {
        return Err(Overflow);
      }
      var s := new StudentRecord(theId, name.value, testsCount);
      return Ok(s);
    }

    function TestsCount(): nat {
      cells.Length
    }

    /** The indexer's getter: the cell at `i`, or a failure outside the array. */
    function At(i: int): (r: Result<CellState>)
      reads cells
      ensures r.Ok? <==> 0 <= i < TestsCount()
      ensures r.Ok? ==> r.value == cells[i]
      ensures r.Err? ==> r.error == IndexOutOfRange
    {
      if 0 <= i < cells.Length then Ok(cells[i]) else Err(IndexOutOfRange)
    }

    /** The indexer's setter: writes cell `i` unless it already holds `v`;
        an index outside the array fails before anything is written. */
    method Set(i: int, v: CellState) returns (r: Outcome)
      modifies cells
      ensures r == if 0 <= i < TestsCount() then Pass else Fail(IndexOutOfRange)
      ensures cells[..] == if 0 <= i < TestsCount() then old(cells[..])[i := v] else old(cells[..])
    {
      if !(0 <= i < cells.Length) {
        return Fail(IndexOutOfRange);
      }
      r := Pass;
      if cells[i] == v {
        return;
      }
      cells[i] := v;
    }

    /** The number of `Graded` cells, the only state that counts toward E. */
    function GradedCount(): (r: nat)
      reads cells
      ensures r <= TestsCount()
      ensures r == |set i | 0 <= i < cells.Length && cells[i] == Graded|
    {
      OccurrencesIsCardinality(cells[..], Graded);
      assert (set i | 0 <= i < |cells[..]| && cells[..][i] == Graded)
          == (set i | 0 <= i < cells.Length && cells[i] == Graded);
      Occurrences(cells[..], Graded)
    }

    /** The largest index holding `Graded`, or -1 when there is none. */
    method LastGradedIndex() returns (r: int)
      ensures -1 <= r < TestsCount()
      ensures r >= 0 ==> cells[r] == Graded
      ensures forall j :: r < j < TestsCount() ==> cells[j] != Graded
      ensures r == -1 <==> GradedCount() == 0
    {
      OccurrencesZero(cells[..], Graded);
      var i := cells.Length - 1;
      while i >= 0
        invariant -1 <= i < cells.Length
        invariant forall j :: i < j < cells.Length ==> cells[j] != Graded
      {
        if cells[i] == Graded {
          return i;
        }
        i := i - 1;
      }
      return -1;
    }
  }
}
