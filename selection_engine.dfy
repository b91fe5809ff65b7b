/** The selection engine: regenerates the recommendations of one column in place. */
module SelectionEngine {
  import opened Errors
  import opened CellStates
  import opened Students
  import opened Documents
  import opened SelectionSpec

  /** The distinct members of a sequence. */
  function Elements(s: seq<nat>): (r: set<nat>)
    ensures forall x :: x in r <==> x in s
  {
    set x | x in s
  }

  lemma ElementsSnoc(p: seq<nat>, y: nat)
    ensures Elements(p + [y]) == Elements(p) + {y}
  {
    assert forall x :: x in p + [y] <==> x in p || x == y;
  }

  /** A strictly increasing sequence has as many distinct members as entries. */
  lemma {:induction false} DistinctCardinality(s: seq<nat>)
    requires StrictlyIncreasing(s)
    ensures |Elements(s)| == |s|
  {
    if s != [] {
      var m := |s| - 1;
      var p := s[..m];
      assert StrictlyIncreasing(p);
      DistinctCardinality(p);
      assert s[m] !in p by {
        forall a | 0 <= a < |p|
          ensures p[a] != s[m]
        {
          assert p[a] == s[a];
        }
      }
      assert s == p + [s[m]];
      ElementsSnoc(p, s[m]);
    }
  }

  /** Every finite set has subsets of every size up to its own. */
  lemma {:induction false} SubsetOfSize<T>(pool: set<T>, k: nat)
    requires k <= |pool|
    ensures exists s :: s <= pool && |s| == k
  {
    if k > 0 {
      var x :| x in pool;
      SubsetOfSize(pool - {x}, k - 1);
      var s :| s <= pool - {x} && |s| == k - 1;
      assert s + {x} <= pool && |s + {x}| == k;
    } else {
      assert {} <= pool;
    }
  }

  /** The weighted random draw without replacement, abstracted to any choice of
      `k` distinct members of the pool (all of it when the pool is smaller). */
  method SampleByKeys<T>(pool: set<T>, k: nat) returns (chosen: set<T>)
    ensures chosen <= pool
    ensures |chosen| == Min(k, |pool|)
  {
    SubsetOfSize(pool, Min(k, |pool|));
    chosen :| chosen <= pool && |chosen| == Min(k, |pool|);
  }

  /** Counts the opportunities of a row from column `from` to its end. */
  method CountOpportunities(s: StudentRecord, from: int) returns (count: nat)
    requires 0 <= from <= s.TestsCount()
    ensures count == Opportunities(s.cells[from..])
  {
    count := 0;
    var j := from;
    while j < s.cells.Length
      invariant from <= j <= s.cells.Length
      invariant count == Opportunities(s.cells[from..j])
    {
      assert s.cells[from..j + 1][..j - from] == s.cells[from..j];
      if s.cells[j] != Absent && s.cells[j] != Graded {
        count := count + 1;
      }
      j := j + 1;
    }
    assert s.cells[from..j] == s.cells[from..];
  }

  /** The statistics of one eligible student `s`, who sits at position `i`:
      its deficit, whether it is mandatory at `t`, and whether E is out of reach. */
  method Evaluate(s: StudentRecord, i: nat, t: int, E: int) returns (c: Candidate, unreachable: bool)
    requires 0 <= t <= s.TestsCount()
    ensures c == Candidate(i, Deficit(E, s.cells[..]), Mandatory(E, s.cells[..], t))
    ensures unreachable == Unreachable(E, s.cells[..])
  {
    var graded := s.GradedCount();
    var deficit := if E - graded > 0 then E - graded else 0;
    var remainingFromT := CountOpportunities(s, t);
    var remainingTotal := CountOpportunities(s, 0);
    assert s.cells[0..] == s.cells[..];
    assert s.cells[..][t..] == s.cells[t..];
    unreachable := graded + remainingTotal < E;
    var mandatory := deficit > 0 && deficit == remainingFromT;
    c := Candidate(i, deficit, mandatory);
  }

  /** Step 1: every `Recommended` cell of column `t` becomes `None`. */
  method ClearColumn(doc: UtsDocument, t: int, ghost before: seq<Row>)
    requires doc.Wf() && before == doc.Rows() && HasColumn(before, t)
    modifies doc.Arrays()
    ensures doc.Rows() == Cleared(before, t)
  {
    var i := 0;
    while i < |doc.students|
      invariant 0 <= i <= |doc.students|
      invariant forall j :: 0 <= j < |doc.students| ==>
        doc.students[j].cells[..] == (if j < i then Cleared(before, t)[j].cells else before[j].cells)
    {
      var s := doc.students[i];
      if s.cells[t] == Recommended {
        var done := s.Set(t, None);
      }
      i := i + 1;
    }
    assert forall j :: 0 <= j < |doc.students| ==> doc.Rows()[j] == Cleared(before, t)[j];
  }

  /** Step 2: the number of students already `Graded` in column `t`; `rows`
      is the grid as values. */
  method CountFixedGraded(doc: UtsDocument, t: int, ghost rows: seq<Row>) returns (fixedGraded: nat)
    requires rows == doc.Rows() && HasColumn(rows, t)
    ensures fixedGraded == ColumnCount(rows, t, Graded)
  {
    ghost var col := Column(rows, t);
    fixedGraded := 0;
    var i := 0;
    while i < |doc.students|
      invariant 0 <= i <= |doc.students|
      invariant fixedGraded == Occurrences(col[..i], Graded)
    {
      assert col[..i + 1][..i] == col[..i];
      if doc.students[i].cells[t] == Graded {
        fixedGraded := fixedGraded + 1;
      }
      i := i + 1;
    }
    assert col[..i] == col;
  }

  /** Step 3: the students whose cell `t` is neither `Absent` nor `Graded`, in order. */
  method EligibleStudents(doc: UtsDocument, t: int, ghost rows: seq<Row>) returns (eligible: seq<nat>)
    requires rows == doc.Rows() && HasColumn(rows, t)
    ensures eligible == EligibleIndices(rows, t, |rows|)
  {
    eligible := [];
    var i := 0;
    while i < |doc.students|
      invariant 0 <= i <= |doc.students|
      invariant eligible == EligibleIndices(rows, t, i)
    {
      var c := doc.students[i].cells[t];
      assert c == rows[i].cells[t];
      if c != Absent && c != Graded {
        eligible := eligible + [i];
      }
      i := i + 1;
    }
  }

  lemma UnreachableWarningsSnoc(rows: seq<Row>, E: int, idx: seq<nat>, k: nat)
    requires Positions(rows, idx) && k < |idx|
    ensures UnreachableWarnings(rows, E, idx[..k + 1]) == UnreachableWarnings(rows, E, idx[..k])
      + (if Unreachable(E, rows[idx[k]].cells) then [UnreachableMinimum(rows[idx[k]].name, E)] else [])
  {
    assert idx[..k + 1][..k] == idx[..k];
  }

  /** Step 4: each eligible student's deficit and mandatory flag, and one
      warning per student who can no longer reach E. */
  method BuildCandidates(doc: UtsDocument, t: int, ghost rows: seq<Row>, eligible: seq<nat>, warnings: seq<Warning>)
    returns (candidates: seq<Candidate>, warningsOut: seq<Warning>)
    requires rows == doc.Rows() && HasColumn(rows, t) && Positions(rows, eligible)
    ensures candidates == CandidatesOf(rows, doc.E, t, eligible)
    ensures warningsOut == warnings + UnreachableWarnings(rows, doc.E, eligible)
  {
    var E := doc.E;
    candidates := [];
    warningsOut := warnings;
    var k := 0;
    while k < |eligible|
      invariant 0 <= k <= |eligible|
      invariant |candidates| == k
      invariant forall m :: 0 <= m < k ==> candidates[m] == CandidateOf(rows, E, t, eligible[m])
      invariant warningsOut == warnings + UnreachableWarnings(rows, E, eligible[..k])
    {
      var s := doc.students[eligible[k]];
      assert rows[eligible[k]] == Row(s.id, s.name, s.cells[..]);
      var c, unreachable := Evaluate(s, eligible[k], t, E);
      UnreachableWarningsSnoc(rows, E, eligible, k);
      warningsOut := warningsOut + if unreachable then [UnreachableMinimum(s.name, E)] else [];
      candidates := candidates + [c];
      k := k + 1;
    }
    assert eligible[..k] == eligible;
  }

  /** The mandatory students before position `k` all precede candidate `k`. */
  lemma MandatoryStudentsBelow(cs: seq<Candidate>, k: nat)
    requires IncreasingStudents(cs) && k < |cs|
    ensures forall x :: x in MandatoryStudents(cs[..k]) ==> x < cs[k].student
  {
    MandatoryStudentsSound(cs[..k]);
    forall x | x in MandatoryStudents(cs[..k])
      ensures x < cs[k].student
    {
      var m :| 0 <= m < k && cs[..k][m].mandatory && cs[..k][m].student == x;
      assert cs[m] == cs[..k][m];
    }
  }

  /** Step 5: mandatory students in candidate order until the slots are full. */
  method SelectMandatory(candidates: seq<Candidate>, slots: nat) returns (selected: set<nat>)
    requires IncreasingStudents(candidates)
    ensures var ms := MandatoryStudents(candidates);
      selected == Elements(ms[..Min(slots, |ms|)]) && |selected| == Min(slots, |ms|)
  {
    ghost var ms := MandatoryStudents(candidates);
    selected := {};
    var k := 0;
    while k < |candidates|
      invariant 0 <= k <= |candidates|
      invariant selected == Elements(MandatoryStudents(candidates[..k]))
      invariant |selected| == |MandatoryStudents(candidates[..k])| <= slots
    {
      ghost var before := MandatoryStudents(candidates[..k]);
      assert candidates[..k + 1][..k] == candidates[..k];
      var c := candidates[k];
      if c.mandatory {
        if |selected| >= slots {
          MandatoryStudentsPrefix(candidates, k);
          break;
        }
        MandatoryStudentsBelow(candidates, k);
        assert c.student !in selected;
        assert MandatoryStudents(candidates[..k + 1]) == before + [c.student];
        ElementsSnoc(before, c.student);
        selected := selected + {c.student};
      } else {
        assert MandatoryStudents(candidates[..k + 1]) == before;
      }
      k := k + 1;
    }
    if k == |candidates| {
      assert candidates[..k] == candidates;
      assert ms[..|ms|] == ms;
    }
  }

  /** Counting one more written student: moving `i` out of `rest` adds one to the
      count of selected `None` cells exactly when `i`'s cell was `None`. */
  lemma CountStep(before: seq<Row>, t: int, selected: set<nat>, rest: set<nat>, i: nat, added: nat, written: bool)
    requires HasColumn(before, t) && i < |before| && i in rest && rest <= selected
    requires added == NoneCount(before, t, selected - rest)
    requires written <==> before[i].cells[t] == None
    ensures selected - (rest - {i}) == (selected - rest) + {i}
    ensures added + (if written then 1 else 0) == NoneCount(before, t, selected - (rest - {i}))
  {
    var n := NoneAt(before, t);
    var done := selected - rest;
    assert selected - (rest - {i}) == done + {i};
    if written {
      assert (done + {i}) * n == done * n + {i};
    } else {
      assert (done + {i}) * n == done * n;
    }
  }

  /** One pass of the write-back loop: student `i`'s cell `t` becomes
      `Recommended` if it is `None`, given the grid so far is the grid `before`
      the loop with the students `done` written back. */
  method WriteOne(doc: UtsDocument, t: int, i: nat, ghost before: seq<Row>, ghost done: set<nat>)
    returns (written: bool)
    requires doc.Wf() && HasColumn(before, t) && i < |before| && i !in done
    requires doc.Rows() == WrittenRows(before, t, done)
    modifies doc.students[i].cells
    ensures written <==> before[i].cells[t] == None
    ensures doc.Rows() == WrittenRows(before, t, done + {i})
  {
    var s := doc.students[i];
    assert s.cells[..][t] == before[i].cells[t];
    written := s.cells[t] == None;
    if written {
      var done := s.Set(t, Recommended);
    }
    assert forall j :: 0 <= j < |doc.students| && j != i ==> doc.students[j].cells != s.cells;
    assert forall j :: 0 <= j < |doc.students| ==> doc.Rows()[j] == WrittenRows(before, t, done + {i})[j];
  }

  /** Step 6: every selected `None` cell of column `t` becomes `Recommended`;
      returns how many cells were written. */
  method WriteRecommendations(doc: UtsDocument, t: int, ghost before: seq<Row>, selected: set<nat>) returns (added: nat)
    requires doc.Wf() && before == doc.Rows() && HasColumn(before, t)
    requires forall i :: i in selected ==> i < |doc.students|
    modifies doc.Arrays()
    ensures doc.Rows() == WrittenRows(before, t, selected)
    ensures added == NoneCount(before, t, selected)
  {
    added := 0;
    var rest := selected;
    assert (selected - rest) * NoneAt(before, t) == {};
    assert NoneCount(before, t, selected - rest) == 0;
    assert forall j :: 0 <= j < |before| ==> WrittenRows(before, t, {})[j] == before[j];
    while rest != {}
      invariant rest <= selected
      invariant doc.Rows() == WrittenRows(before, t, selected - rest)
      invariant added == NoneCount(before, t, selected - rest)
      decreases |rest|
    {
      var i :| i in rest;
      assert doc.students[i] in doc.students;
      var written := WriteOne(doc, t, i, before, selected - rest);
      CountStep(before, t, selected, rest, i, added, written);
      added := added + if written then 1 else 0;
      rest := rest - {i};
    }
    assert selected - rest == selected;
  }
  /** The candidates of `eligible`, in the same order. */
  predicate CandidatesFor(candidates: seq<Candidate>, eligible: seq<nat>) {
    |candidates| == |eligible| && forall m :: 0 <= m < |eligible| ==> candidates[m].student == eligible[m]
  }

  /** The mandatory students are eligible students, no more of them than candidates. */
  lemma MandatoryAreEligible(candidates: seq<Candidate>, eligible: seq<nat>)
    requires CandidatesFor(candidates, eligible)
    ensures var ms := MandatoryStudents(candidates);
      |ms| <= |eligible| && forall x :: x in ms ==> x in eligible
  {
    MandatoryStudentsSound(candidates);
    forall x | x in MandatoryStudents(candidates)
      ensures x in eligible
    {
      var m :| 0 <= m < |candidates| && candidates[m].mandatory && candidates[m].student == x;
      assert eligible[m] == x;
    }
  }

  /** The students left for the random draw: eligible and not yet selected. */
  lemma PoolSize(eligible: seq<nat>, selected: set<nat>)
    requires StrictlyIncreasing(eligible) && selected <= Elements(eligible)
    ensures |Elements(eligible) - selected| == |eligible| - |selected|
  {
    DistinctCardinality(eligible);
  }

  /** Steps 5 and 6 of the selection: the mandatory students first, then a
      random draw from the other eligible students until min(slots, eligible)
      students are chosen. */
  method ChooseStudents(candidates: seq<Candidate>, eligible: seq<nat>, slots: nat) returns (chosen: set<nat>)
    requires StrictlyIncreasing(eligible) && CandidatesFor(candidates, eligible)
    ensures forall i :: i in chosen ==> i in eligible
    ensures |chosen| == Min(slots, |eligible|)
    ensures var ms := MandatoryStudents(candidates);
      forall k :: 0 <= k < Min(slots, |ms|) ==> ms[k] in chosen
  {
    assert IncreasingStudents(candidates);
    chosen := SelectMandatory(candidates, slots);
    ghost var ms := MandatoryStudents(candidates);
    MandatoryAreEligible(candidates, eligible);
    assert forall k :: 0 <= k < Min(slots, |ms|) ==> ms[k] in ms[..Min(slots, |ms|)];
    var need := Min(slots, |eligible|) - |chosen|;
    if need > 0 {
      var pool := Elements(eligible) - chosen;
      PoolSize(eligible, chosen);
      var drawn := SampleByKeys(pool, need);
      chosen := chosen + drawn;
    }
  }

  /** Steps 2 and 3 on the cleared grid `rows`: the fixed grades, the free
      slots, the eligible students and the warnings about them. */
  method CountSlots(doc: UtsDocument, t: int, ghost rows: seq<Row>)
    returns (fixedGraded: nat, slots: nat, eligible: seq<nat>, warnings: seq<Warning>)
    requires rows == doc.Rows() && HasColumn(rows, t)
    ensures fixedGraded == ColumnCount(rows, t, Graded)
    ensures slots == Slots(doc.K, fixedGraded)
    ensures eligible == EligibleIndices(rows, t, |rows|)
    ensures warnings == (if doc.K - fixedGraded < 0 then [FixedGradedExceedsK(t + 1, fixedGraded, doc.K)] else [])
                        + (if |eligible| < slots then [TooFewEligible(t + 1, |eligible|, slots)] else [])
  {
    fixedGraded := CountFixedGraded(doc, t, rows);
    var free := doc.K - fixedGraded;
    warnings := if free < 0 then [FixedGradedExceedsK(t + 1, fixedGraded, doc.K)] else [];
    slots := if free < 0 then 0 else free;

    assert rows == doc.Rows();
    eligible := EligibleStudents(doc, t, rows);
    warnings := warnings + if |eligible| < slots then [TooFewEligible(t + 1, |eligible|, slots)] else [];
  }

  /** Steps 2 to 4 on the cleared grid `rows`: the fixed grades, the free
      slots, the eligible students, their statistics and the column's warnings. */
  method Analyse(doc: UtsDocument, t: int, ghost rows: seq<Row>)
    returns (fixedGraded: nat, slots: nat, eligible: seq<nat>, candidates: seq<Candidate>, warnings: seq<Warning>)
    requires rows == doc.Rows() && HasColumn(rows, t)
    ensures fixedGraded == ColumnCount(rows, t, Graded)
    ensures slots == Slots(doc.K, fixedGraded)
    ensures eligible == EligibleIndices(rows, t, |rows|)
    ensures candidates == CandidatesOf(rows, doc.E, t, eligible)
    ensures warnings == StepWarnings(t, doc.K, fixedGraded, |eligible|, UnreachableWarnings(rows, doc.E, eligible),
                                     |MandatoryStudents(candidates)|)
  {
    fixedGraded, slots, eligible, warnings := CountSlots(doc, t, rows);
    assert rows == doc.Rows();
    candidates, warnings := BuildCandidates(doc, t, rows, eligible, warnings);
    warnings := warnings + if |MandatoryStudents(candidates)| > slots then [MandatoryOverflow(t + 1)] else [];
  }

  /** Steps 2 to 6 on the cleared grid `rows`: the column's statistics and
      warnings, and a valid choice of students to recommend. */
  method Plan(doc: UtsDocument, t: int, ghost rows: seq<Row>)
    returns (fixedGraded: nat, warnings: seq<Warning>, chosen: set<nat>)
    requires rows == doc.Rows() && HasColumn(rows, t)
    ensures fixedGraded == ColumnCount(rows, t, Graded)
    ensures warnings == ColumnWarnings(doc.K, doc.E, rows, t)
    ensures ValidSelection(rows, doc.K, doc.E, t, chosen)
    ensures forall i :: i in chosen ==> i < |rows|
  {
    var slots, eligible, candidates;
    fixedGraded, slots, eligible, candidates, warnings := Analyse(doc, t, rows);
    chosen := ChooseStudents(candidates, eligible, slots);
    assert warnings == ColumnWarnings(doc.K, doc.E, rows, t);
  }

  /** Steps 2 to 7 on the cleared grid `rows`: plan the column, then write
      the recommendations. */
  method Recommend(doc: UtsDocument, t: int, ghost rows: seq<Row>)
    returns (fixedGraded: nat, warnings: seq<Warning>, added: nat, ghost selected: set<nat>)
    requires doc.Wf() && rows == doc.Rows() && HasColumn(rows, t)
    modifies doc.Arrays()
    ensures fixedGraded == ColumnCount(rows, t, Graded)
    ensures warnings == ColumnWarnings(doc.K, doc.E, rows, t)
    ensures ValidSelection(rows, doc.K, doc.E, t, selected)
    ensures doc.Rows() == WrittenRows(rows, t, selected)
    ensures added == NoneCount(rows, t, selected)
  {
    var chosen;
    fixedGraded, warnings, chosen := Plan(doc, t, rows);
    selected := chosen;
    assert doc.Rows() == rows;
    added := WriteRecommendations(doc, t, rows, chosen);
  }

  /** One regeneration of a valid document's column `t`. */
  method Regenerate(doc: UtsDocument, t: int, ghost before: seq<Row>) returns (res: GenerationResult, ghost selected: set<nat>)
    requires doc.Wf() && before == doc.Rows()
    requires Validation(doc.T, doc.K, doc.E, before) == Pass && 0 <= t < doc.T
    modifies doc.Arrays()
    ensures HasColumn(before, t)
    ensures Regenerated(before, doc.Rows(), doc.K, doc.E, t, selected)
    ensures var cleared := Cleared(before, t);
      res == GenerationResult(t, ColumnCount(cleared, t, Graded), NoneCount(cleared, t, selected),
                              ExpectedWarnings(doc.T, doc.K, doc.E, cleared, t))
  {
    var global := GlobalWarnings(doc.T, doc.K, |doc.students|, doc.E);
    ghost var cleared := Cleared(before, t);
    ClearColumn(doc, t, before);
    var fixedGraded, columnWarnings, added;
    fixedGraded, columnWarnings, added, selected := Recommend(doc, t, cleared);
    res := GenerationResult(t, fixedGraded, added, global + columnWarnings);
  }

  /** The engine's entry point: the document must validate and `t` must name
      one of its columns; otherwise the grid is left as it was. */
  method RegenerateColumn(doc: UtsDocument, t: int) returns (r: Result<GenerationResult>, ghost selected: set<nat>)
    requires doc.Wf()
    modifies doc.Arrays()
    ensures r.Ok? <==> Validation(doc.T, doc.K, doc.E, old(doc.Rows())) == Pass && 0 <= t < doc.T
    ensures Validation(doc.T, doc.K, doc.E, old(doc.Rows())).Fail? ==>
      r == Err(Validation(doc.T, doc.K, doc.E, old(doc.Rows())).error)
    ensures Validation(doc.T, doc.K, doc.E, old(doc.Rows())) == Pass && !(0 <= t < doc.T) ==>
      r == Err(ArgumentOutOfRange)
    ensures r.Err? ==> doc.Rows() == old(doc.Rows())
    ensures r.Ok? ==>
      && HasColumn(old(doc.Rows()), t)
      && Regenerated(old(doc.Rows()), doc.Rows(), doc.K, doc.E, t, selected)
      && var cleared := Cleared(old(doc.Rows()), t);
         r.value == GenerationResult(t, ColumnCount(cleared, t, Graded), NoneCount(cleared, t, selected),
                                     ExpectedWarnings(doc.T, doc.K, doc.E, cleared, t))
  {
    selected := {};
    var valid := doc.Validate();
    if valid.Fail? {
      return Err(valid.error), selected;
    }
    if t < 0 || t >= doc.T {
      return Err(ArgumentOutOfRange), selected;
    }
    var res;
    res, selected := Regenerate(doc, t, old(doc.Rows()));
    r := Ok(res);
  }
}
