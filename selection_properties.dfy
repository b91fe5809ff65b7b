/** What a regeneration promises about the grid, stated on the relation
    `Regenerated` between the rows before and after the call. */
module SelectionProperties {
  import opened CellStates
  import opened Documents
  import opened SelectionSpec

  /** The students whose cell `t` holds `x`. */
  ghost function StudentsAt(rows: seq<Row>, t: int, x: CellState): set<nat>
    requires HasColumn(rows, t)
  {
    set i | 0 <= i < |rows| && rows[i].cells[t] == x
  }

  lemma StudentsAtCount(rows: seq<Row>, t: int, x: CellState)
    requires HasColumn(rows, t)
    ensures ColumnCount(rows, t, x) == |StudentsAt(rows, t, x)|
  {
    ColumnCountIsCardinality(rows, t, x);
  }

  /** Every selected student is eligible in the cleared grid. */
  lemma SelectedAreEligible(before: seq<Row>, after: seq<Row>, K: int, E: int, t: int, selected: set<nat>)
    requires HasColumn(before, t) && Regenerated(before, after, K, E, t, selected)
    ensures forall i :: i in selected ==> i < |before| && Eligible(Cleared(before, t)[i].cells[t])
  {
    var cleared := Cleared(before, t);
    var eligible := EligibleIndices(cleared, t, |cleared|);
    forall i | i in selected
      ensures i < |before| && Eligible(cleared[i].cells[t])
    {
      assert i in eligible;
      var m :| 0 <= m < |eligible| && eligible[m] == i;
    }
  }

  /** Only column `t` changes: ids, names, row lengths and every other cell stay. */
  lemma OtherCellsKept(before: seq<Row>, after: seq<Row>, K: int, E: int, t: int, selected: set<nat>)
    requires HasColumn(before, t) && Regenerated(before, after, K, E, t, selected)
    ensures |after| == |before|
    ensures forall i :: 0 <= i < |before| ==>
      && after[i].id == before[i].id && after[i].name == before[i].name
      && |after[i].cells| == |before[i].cells|
    ensures forall i, j :: 0 <= i < |before| && 0 <= j < |before[i].cells| && j != t ==>
      after[i].cells[j] == before[i].cells[j]
  {
  }

  /** Column `t` after the call: Absent, Graded and Locked cells are kept; a
      cell ends up Recommended exactly when its student was selected and it
      held None or Recommended before; every other such cell ends up None. */
  lemma ColumnAfter(before: seq<Row>, after: seq<Row>, K: int, E: int, t: int, selected: set<nat>)
    requires HasColumn(before, t) && Regenerated(before, after, K, E, t, selected)
    ensures |after| == |before| && HasColumn(after, t)
    ensures forall i :: 0 <= i < |before| && before[i].cells[t] in {Absent, Graded, Locked} ==>
      after[i].cells[t] == before[i].cells[t]
    ensures forall i :: 0 <= i < |before| ==>
      (after[i].cells[t] == Recommended <==>
        i in selected && (before[i].cells[t] == None || before[i].cells[t] == Recommended))
    ensures forall i :: 0 <= i < |before| ==>
      (after[i].cells[t] == None <==>
        i !in selected && (before[i].cells[t] == None || before[i].cells[t] == Recommended))
  {
  }

  /** A regeneration neither adds nor removes a grade. */
  lemma GradesKept(before: seq<Row>, after: seq<Row>, K: int, E: int, t: int, selected: set<nat>)
    requires HasColumn(before, t) && Regenerated(before, after, K, E, t, selected)
    ensures HasColumn(after, t) && ColumnCount(after, t, Graded) == ColumnCount(before, t, Graded)
    ensures ColumnCount(Cleared(before, t), t, Graded) == ColumnCount(before, t, Graded)
  {
    ColumnAfter(before, after, K, E, t, selected);
    var cleared := Cleared(before, t);
    StudentsAtCount(before, t, Graded);
    StudentsAtCount(after, t, Graded);
    StudentsAtCount(cleared, t, Graded);
    assert StudentsAt(after, t, Graded) == StudentsAt(before, t, Graded);
    assert StudentsAt(cleared, t, Graded) == StudentsAt(before, t, Graded);
  }

  /** The Recommended cells of column `t` after the call are the selected
      students whose cleared cell was None: their number is `recommendedAdded`. */
  lemma RecommendedAreWritten(before: seq<Row>, after: seq<Row>, K: int, E: int, t: int, selected: set<nat>)
    requires HasColumn(before, t) && Regenerated(before, after, K, E, t, selected)
    ensures HasColumn(after, t)
    ensures ColumnCount(after, t, Recommended) == NoneCount(Cleared(before, t), t, selected)
  {
    var cleared := Cleared(before, t);
    ColumnAfter(before, after, K, E, t, selected);
    SelectedAreEligible(before, after, K, E, t, selected);
    StudentsAtCount(after, t, Recommended);
    assert StudentsAt(after, t, Recommended) == selected * NoneAt(cleared, t);
  }

  lemma IntersectionSize(s: set<nat>, n: set<nat>)
    ensures |s * n| <= |s|
    ensures s <= n ==> |s * n| == |s|
  {
    assert s == (s * n) + (s - n);
    assert (s * n) * (s - n) == {};
    if s <= n {
      assert s * n == s;
    }
  }

  /** The number of recommendations written is at most min(slots, eligible),
      and exactly that when column `t` holds no Locked cell. */
  lemma AddedBound(before: seq<Row>, after: seq<Row>, K: int, E: int, t: int, selected: set<nat>)
    requires HasColumn(before, t) && Regenerated(before, after, K, E, t, selected)
    ensures var cleared := Cleared(before, t);
      var room := Min(Slots(K, ColumnCount(cleared, t, Graded)), |EligibleIndices(cleared, t, |cleared|)|);
      && NoneCount(cleared, t, selected) <= room
      && ((forall i :: 0 <= i < |before| ==> before[i].cells[t] != Locked) ==> NoneCount(cleared, t, selected) == room)
  {
    var cleared := Cleared(before, t);
    var none := NoneAt(cleared, t);
    IntersectionSize(selected, none);
    if forall i :: 0 <= i < |before| ==> before[i].cells[t] != Locked {
      SelectedAreEligible(before, after, K, E, t, selected);
      assert selected <= none;
    }
  }

  /** The column never holds more than K grades and recommendations together,
      unless the grades alone already exceed K. */
  lemma AtMostK(before: seq<Row>, after: seq<Row>, K: int, E: int, t: int, selected: set<nat>)
    requires HasColumn(before, t) && Regenerated(before, after, K, E, t, selected)
    ensures HasColumn(after, t)
    ensures var graded := ColumnCount(before, t, Graded);
      ColumnCount(after, t, Recommended) + ColumnCount(after, t, Graded) <= if K >= graded then K else graded
  {
    GradesKept(before, after, K, E, t, selected);
    RecommendedAreWritten(before, after, K, E, t, selected);
    AddedBound(before, after, K, E, t, selected);
  }

  /** With grades already filling the quota, the call recommends nobody. */
  lemma FullColumnUnchanged(before: seq<Row>, after: seq<Row>, K: int, E: int, t: int, selected: set<nat>)
    requires HasColumn(before, t) && Regenerated(before, after, K, E, t, selected)
    requires K <= ColumnCount(before, t, Graded)
    ensures selected == {}
    ensures forall i :: 0 <= i < |after| ==> after[i].cells[t] != Recommended
  {
    GradesKept(before, after, K, E, t, selected);
    ColumnAfter(before, after, K, E, t, selected);
  }

  /** The first min(slots, mandatory) mandatory students end up Recommended,
      unless their cell is Locked. */
  lemma MandatoryServed(before: seq<Row>, after: seq<Row>, K: int, E: int, t: int, selected: set<nat>)
    requires HasColumn(before, t) && Regenerated(before, after, K, E, t, selected)
    ensures var cleared := Cleared(before, t);
      var ms := MandatoryStudents(CandidatesOf(cleared, E, t, EligibleIndices(cleared, t, |cleared|)));
      var slots := Slots(K, ColumnCount(cleared, t, Graded));
      forall k :: 0 <= k < Min(slots, |ms|) ==>
        ms[k] < |after| && (after[ms[k]].cells[t] == Recommended || after[ms[k]].cells[t] == Locked)
  {
    var cleared := Cleared(before, t);
    var ms := MandatoryStudents(CandidatesOf(cleared, E, t, EligibleIndices(cleared, t, |cleared|)));
    var slots := Slots(K, ColumnCount(cleared, t, Graded));
    SelectedAreEligible(before, after, K, E, t, selected);
    ColumnAfter(before, after, K, E, t, selected);
    forall k | 0 <= k < Min(slots, |ms|)
      ensures ms[k] < |after| && (after[ms[k]].cells[t] == Recommended || after[ms[k]].cells[t] == Locked)
    {
      assert ms[k] in selected;
    }
  }
}
