/** The main window's model: the cell-click transitions, the diagnostics
    panel (warnings and the students below E) and the column-generation
    command. */
module ViewModel {
  import opened Errors
  import opened CellStates
  import opened Students
  import opened Documents
  import opened SelectionSpec
  import SelectionEngine

  // ---------------------------------------------------------------- clicks

  /** A left click toggles absence: Absent becomes None, anything else Absent. */
  function LeftClick(c: CellState): CellState {
    if c == Absent then None else Absent
  }

  /** A right click cycles None, Recommended, Graded; Absent stays, Locked is released. */
  function RightClick(c: CellState): CellState {
    match c
    case None => Recommended
    case Recommended => Graded
    case Graded => None
    case Absent => Absent
    case Locked => None
  }

  /** Two left clicks restore None and Absent; any other state ends up None. */
  lemma LeftClickTwice(c: CellState)
    ensures LeftClick(LeftClick(c)) == (if c == Absent then Absent else None)
    ensures c == None || c == Absent ==> LeftClick(LeftClick(c)) == c
  {
  }

  /** Three right clicks bring None, Recommended and Graded back to themselves. */
  lemma RightClickCycle(c: CellState)
    requires c == None || c == Recommended || c == Graded
    ensures RightClick(c) != c && RightClick(RightClick(RightClick(c))) == c
  {
  }

  /** Absent is the only state a right click keeps; Locked is released to None,
      and no click ever locks a cell. */
  lemma ClickFixedPoints(c: CellState)
    ensures RightClick(c) == c <==> c == Absent
    ensures RightClick(Locked) == None
    ensures RightClick(c) != Locked && LeftClick(c) != Locked
  {
  }

  // ---------------------------------------------------------------- students below E

  /** One line of the "below E" panel: the name, the grades so far and how many are missing. */
  datatype BelowEItem = BelowEItem(name: string, graded: nat, missing: int)

  function GradesOf(r: Row): nat {
    Occurrences(r.cells, Graded)
  }

  function ItemOf(r: Row, E: int): BelowEItem {
    BelowEItem(r.name, GradesOf(r), E - GradesOf(r))
  }

  /** The panel built in document order, one item per student with fewer than E grades. */
  function BelowEOf(rows: seq<Row>, E: int): (items: seq<BelowEItem>)
    ensures |items| <= |rows|
  {
    if rows == [] then []
    else
      var last := rows[|rows| - 1];
      BelowEOf(rows[..|rows| - 1], E) + (if GradesOf(last) < E then [ItemOf(last, E)] else [])
  }

  /** The positions of the students with fewer than E grades. */
  function BelowIndices(rows: seq<Row>, E: int): (idx: seq<nat>)
    ensures |idx| <= |rows|
    ensures forall k :: 0 <= k < |idx| ==> idx[k] < |rows|
  {
    if rows == [] then []
    else
      var m := |rows| - 1;
      BelowIndices(rows[..m], E) + (if GradesOf(rows[m]) < E then [m] else [])
  }

  /** The positions are increasing, and they are exactly the students below E. */
  lemma {:induction false} BelowIndicesExact(rows: seq<Row>, E: int)
    ensures StrictlyIncreasing(BelowIndices(rows, E))
    ensures forall i :: 0 <= i < |rows| ==> (i in BelowIndices(rows, E) <==> GradesOf(rows[i]) < E)
  {
    if rows != [] {
      var m := |rows| - 1;
      var idx, prevIdx := BelowIndices(rows, E), BelowIndices(rows[..m], E);
      BelowIndicesExact(rows[..m], E);
      assert forall i :: 0 <= i < m ==> rows[..m][i] == rows[i];
      if GradesOf(rows[m]) < E {
        assert idx == prevIdx + [m];
      } else {
        assert idx == prevIdx;
      }
    }
  }

  /** The panel lists exactly the students below E, in document order: its
      k-th item is the student at the k-th position of `BelowIndices`. */
  lemma {:induction false} BelowEIsFilter(rows: seq<Row>, E: int)
    ensures |BelowEOf(rows, E)| == |BelowIndices(rows, E)|
    ensures forall k :: 0 <= k < |BelowEOf(rows, E)| ==>
      BelowEOf(rows, E)[k] == ItemOf(rows[BelowIndices(rows, E)[k]], E)
  {
    if rows != [] {
      var m := |rows| - 1;
      var items, idx := BelowEOf(rows, E), BelowIndices(rows, E);
      var prev, prevIdx := BelowEOf(rows[..m], E), BelowIndices(rows[..m], E);
      BelowEIsFilter(rows[..m], E);
      if GradesOf(rows[m]) < E {
        assert items == prev + [ItemOf(rows[m], E)] && idx == prevIdx + [m];
      } else {
        assert items == prev && idx == prevIdx;
      }
      forall k | 0 <= k < |items|
        ensures items[k] == ItemOf(rows[idx[k]], E)
      {
        if k < |prev| {
          assert items[k] == prev[k] && idx[k] == prevIdx[k];
          assert rows[..m][prevIdx[k]] == rows[prevIdx[k]];
        }
      }
    }
  }

  /** Every item of the panel misses at least one grade, and `missing` is E minus the grades. */
  lemma BelowEMissing(rows: seq<Row>, E: int)
    ensures forall k :: 0 <= k < |BelowEOf(rows, E)| ==>
      BelowEOf(rows, E)[k].missing >= 1 && BelowEOf(rows, E)[k].missing == E - BelowEOf(rows, E)[k].graded
  {
    BelowEIsFilter(rows, E);
    BelowIndicesExact(rows, E);
  }

  // ---------------------------------------------------------------- the window model

  /** The `GlobalInfeasible` warning the window always shows, followed by the
      engine's warnings, is the engine's global warning repeated. */
  lemma GlobalWarningTwice(T: int, K: int, E: int, rows: seq<Row>, t: int)
    requires HasColumn(rows, t)
    ensures var w := GlobalWarnings(T, K, |rows|, E) + ExpectedWarnings(T, K, E, rows, t);
      GloballyInfeasible(T, K, |rows|, E) ==> |w| >= 2 && w[0] == w[1] && w[0].GlobalInfeasible?
    ensures var w := GlobalWarnings(T, K, |rows|, E) + ExpectedWarnings(T, K, E, rows, t);
      !GloballyInfeasible(T, K, |rows|, E) ==> w == ColumnWarnings(K, E, rows, t)
  {
  }

  /** The warnings list: the global warning when T*K < n*E, then the engine's
      warnings one by one. */
  method WarningsOf(doc: UtsDocument, engineWarnings: seq<Warning>) returns (w: seq<Warning>)
    ensures w == GlobalWarnings(doc.T, doc.K, |doc.students|, doc.E) + engineWarnings
  {
    var n := |doc.students|;
    w := [];
    if GloballyInfeasible(doc.T, doc.K, n, doc.E) {
      w := w + [GlobalInfeasible(Wrap32(doc.T * doc.K), Wrap32(n * doc.E))];
    }
    ghost var global := w;
    for j := 0 to |engineWarnings|
      invariant w == global + engineWarnings[..j]
    {
      w := w + [engineWarnings[j]];
    }
    assert engineWarnings[..|engineWarnings|] == engineWarnings;
  }

  /** The "below E" panel, filled student by student in document order. */
  method BelowEList(doc: UtsDocument, ghost rows: seq<Row>) returns (items: seq<BelowEItem>)
    requires rows == doc.Rows()
    ensures items == BelowEOf(rows, doc.E)
  {
    var E := doc.E;
    items := [];
    for k := 0 to |doc.students|
      invariant items == BelowEOf(rows[..k], E)
    {
      var s := doc.students[k];
      var graded := s.GradedCount();
      assert rows[..k + 1][..k] == rows[..k];
      assert graded == GradesOf(rows[k]);
      if graded < E {
        items := items + [BelowEItem(s.name, graded, E - graded)];
      }
    }
    assert rows[..|doc.students|] == rows;
  }

  class MainViewModel {
    var document: UtsDocument?
    var warnings: seq<Warning>
    var belowE: seq<BelowEItem>

    constructor ()
      ensures document == null && warnings == [] && belowE == []
    {
      document := null;
      warnings := [];
      belowE := [];
    }

    /** The panel shows the state of the document: the global warning when
        T*K < n*E, then the given engine warnings, and the students below E. */
    ghost predicate Shows(engineWarnings: seq<Warning>)
      reads this, document
      reads if document != null then document.students else []
      reads if document != null then document.Arrays() else {}
    {
      if document == null then warnings == []
      else
        && warnings == GlobalWarnings(document.T, document.K, |document.students|, document.E) + engineWarnings
        && belowE == BelowEOf(document.Rows(), document.E)
    }

    /** The `Document` setter: assigning the open document again changes
        nothing; another document (or none) is installed and the panel refreshed. */
    method SetDocument(value: UtsDocument?)
      modifies this
      ensures document == value
      ensures value == old(document) ==> warnings == old(warnings) && belowE == old(belowE)
      ensures value != old(document) ==> Shows([])
      ensures value != old(document) && value == null ==> belowE == old(belowE)
    {
      if value == document {
        return;
      }
      document := value;
      RecomputeDiagnostics([]);
    }

    /** Clears and refills the warnings, then the "below E" panel; without a
        document only the warnings are cleared. */
    method RecomputeDiagnostics(engineWarnings: seq<Warning>)
      modifies this
      ensures document == old(document) && Shows(engineWarnings)
      ensures document == null ==> belowE == old(belowE)
      ensures document != null ==> document.Rows() == old(document.Rows())
    {
      if document == null {
        warnings := [];
        return;
      }
      var doc := document;
      ghost var rows := doc.Rows();
      var E := doc.E;
      var w := WarningsOf(doc, engineWarnings);
      var items := BelowEList(doc, rows);
      warnings, belowE := w, items;
      assert doc.Rows() == rows && doc.E == E && document == doc;
      assert belowE == BelowEOf(rows, E);
    }

    /** The left click on cell `testIndex` of `s`: toggles absence and
        refreshes the panel; an index outside the row fails first. */
    method HandleLeftClick(s: StudentRecord, testIndex: int) returns (r: Outcome)
      modifies this, s.cells
      ensures r == if 0 <= testIndex < s.TestsCount() then Pass else Fail(IndexOutOfRange)
      ensures r.Fail? ==> s.cells[..] == old(s.cells[..]) && warnings == old(warnings) && belowE == old(belowE)
      ensures r.Pass? ==> s.cells[..] == old(s.cells[..])[testIndex := LeftClick(old(s.cells[testIndex]))]
      ensures document == old(document)
      ensures r.Pass? ==> Shows([])
      ensures r.Pass? && document == null ==> belowE == old(belowE)
    {
      var current := s.At(testIndex);
      if current.Err? {
        return Fail(current.error);
      }
      r := s.Set(testIndex, LeftClick(current.value));
      RecomputeDiagnostics([]);
    }

    /** The right click on cell `testIndex` of `s`: steps the cycle and
        refreshes the panel; an index outside the row fails first. */
    method HandleRightClick(s: StudentRecord, testIndex: int) returns (r: Outcome)
      modifies this, s.cells
      ensures r == if 0 <= testIndex < s.TestsCount() then Pass else Fail(IndexOutOfRange)
      ensures r.Fail? ==> s.cells[..] == old(s.cells[..]) && warnings == old(warnings) && belowE == old(belowE)
      ensures r.Pass? ==> s.cells[..] == old(s.cells[..])[testIndex := RightClick(old(s.cells[testIndex]))]
      ensures document == old(document)
      ensures r.Pass? ==> Shows([])
      ensures r.Pass? && document == null ==> belowE == old(belowE)
    {
      var current := s.At(testIndex);
      if current.Err? {
        return Fail(current.error);
      }
      r := s.Set(testIndex, RightClick(current.value));
      RecomputeDiagnostics([]);
    }

    /** The column-generation command: nothing happens without a document;
        otherwise the engine regenerates column `testIndex` and the panel
        shows its warnings after the window's own global warning. */
    method GenerateColumn(testIndex: int) returns (r: Outcome, ghost selected: set<nat>)
      requires document != null ==> document.Wf()
      modifies this, if document != null then document.Arrays() else {}
      ensures document == old(document)
      ensures document == null ==> r == Pass && warnings == old(warnings) && belowE == old(belowE)
      ensures document != null ==>
        (r == Pass <==> Validation(document.T, document.K, document.E, old(document.Rows())) == Pass
                        && 0 <= testIndex < document.T)
      ensures document != null && r.Fail? ==>
        && document.Rows() == old(document.Rows()) && warnings == old(warnings) && belowE == old(belowE)
      ensures document != null && r == Pass ==>
        && HasColumn(old(document.Rows()), testIndex)
        && Regenerated(old(document.Rows()), document.Rows(), document.K, document.E, testIndex, selected)
        && Shows(ExpectedWarnings(document.T, document.K, document.E, Cleared(old(document.Rows()), testIndex), testIndex))
    {
      selected := {};
      if document == null {
        return Pass, selected;
      }
      r, selected := Generate(testIndex, document.Rows());
    }

    /** The command once a document is open, with `before` its grid at the call. */
    method Generate(testIndex: int, ghost before: seq<Row>) returns (r: Outcome, ghost selected: set<nat>)
      requires document != null && document.Wf() && before == document.Rows()
      modifies this, document.Arrays()
      ensures document == old(document)
      ensures r == Pass <==> Validation(document.T, document.K, document.E, before) == Pass && 0 <= testIndex < document.T
      ensures r.Fail? ==> document.Rows() == before && warnings == old(warnings) && belowE == old(belowE)
      ensures r == Pass ==>
        && HasColumn(before, testIndex)
        && Regenerated(before, document.Rows(), document.K, document.E, testIndex, selected)
        && Shows(ExpectedWarnings(document.T, document.K, document.E, Cleared(before, testIndex), testIndex))
    {
      var doc := document;
      var result;
      result, selected := SelectionEngine.RegenerateColumn(doc, testIndex);
      if result.Err? {
        return Fail(result.error), selected;
      }
      RecomputeDiagnostics(result.value.warnings);
      r := Pass;
    }
  }
}
