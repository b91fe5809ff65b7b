/** A class document: the parameters T, K, E and the ordered list of students. */
module Documents {
  import opened Errors
  import opened CellStates
  import opened Students

  /** One student's row as a value. */
  datatype Row = Row(id: string, name: string, cells: seq<CellState>)

  /** A whole document as a value. */
  datatype Sheet = Sheet(className: string, T: int, K: int, E: int, rows: seq<Row>)

  /** Every row holds exactly `T` cells. */
  predicate RowsHaveLength(rows: seq<Row>, T: int) {
    forall i :: 0 <= i < |rows| ==> |rows[i].cells| == T
  }

  /** What `Validate` reports: the first failing check in the order T, K, E, rows. */
  function Validation(T: int, K: int, E: int, rows: seq<Row>): (r: Outcome)
    ensures r == Pass <==> T > 0 && K >= 0 && E >= 0 && RowsHaveLength(rows, T)
    ensures r == Fail(InvalidOperation(TNotPositive)) <==> T <= 0
    ensures r == Fail(InvalidOperation(KNegative)) <==> T > 0 && K < 0
    ensures r == Fail(InvalidOperation(ENegative)) <==> T > 0 && K >= 0 && E < 0
    ensures r == Fail(InvalidOperation(RowLengthMismatch))
        <==> T > 0 && K >= 0 && E >= 0 && !RowsHaveLength(rows, T)
  {
    if T <= 0 then Fail(InvalidOperation(TNotPositive))
    else if K < 0 then Fail(InvalidOperation(KNegative))
    else if E < 0 then Fail(InvalidOperation(ENegative))
    else if !RowsHaveLength(rows, T) then Fail(InvalidOperation(RowLengthMismatch))
    else Pass
  }

  predicate ValidSheet(d: Sheet) {
    Validation(d.T, d.K, d.E, d.rows) == Pass
  }

  class UtsDocument {
    var className: string
    var T: int
    var K: int
    var E: int
    var students: seq<StudentRecord>

    /** A new document: named "Unnamed", all parameters zero, no students;
        it does not pass validation until T is set. */
    constructor ()
      ensures className == "Unnamed" && T == 0 && K == 0 && E == 0 && students == []
      ensures Wf()
      ensures Validation(T, K, E, Rows()) == Fail(InvalidOperation(TNotPositive))
    {
      className := "Unnamed";
      T, K, E := 0, 0, 0;
      students := [];
    }

    /** Distinct students own distinct cell arrays. */
    ghost predicate Wf()
      reads this
    {
      forall i, j :: 0 <= i < j < |students| ==> students[i].cells != students[j].cells
    }

    ghost function Arrays(): set<array<CellState>>
      reads this
    {
      set s | s in students :: s.cells
    }

    /** The students' rows as values, in document order. */
    ghost function Rows(): (rs: seq<Row>)
      reads this, students, Arrays()
      ensures |rs| == |students|
      ensures forall i :: 0 <= i < |students| ==>
        rs[i] == Row(students[i].id, students[i].name, students[i].cells[..])
    {
      seq(|students|, i requires 0 <= i < |students| reads this, students, Arrays() =>
        Row(students[i].id, students[i].name, students[i].cells[..]))
    }

    ghost function Value(): Sheet
      reads this, students, Arrays()
    {
      Sheet(className, T, K, E, Rows())
    }

    /** The read-only check loop; it changes nothing. */
    method Validate() returns (r: Outcome)
      ensures r == Validation(T, K, E, Rows())
    {
      if T <= 0 {
        return Fail(InvalidOperation(TNotPositive));
      }
      if K < 0 {
        return Fail(InvalidOperation(KNegative));
      }
      if E < 0 {
        return Fail(InvalidOperation(ENegative));
      }
      var i := 0;
      while i < |students|
        invariant 0 <= i <= |students|
        invariant forall j :: 0 <= j < i ==> students[j].TestsCount() == T
      {
        if students[i].TestsCount() != T {
          return Fail(InvalidOperation(RowLengthMismatch));
        }
        i := i + 1;
      }
      return Pass;
    }
  }
}
