/** What one regeneration of a column computes, stated on document values:
    eligibility, the per-student statistics, the mandatory students, the
    warnings, and the relation between the grid before and after the call. */
module SelectionSpec {
  import opened Errors
  import opened CellStates
  import opened Students
  import opened Documents

  /** An advisory warning of the engine; the human-readable text is left out,
      each kind keeps the numbers or the name its message shows. */
  datatype Warning =
    | GlobalInfeasible(capacity: int, demand: int)           // T*K and n*E as computed
    | FixedGradedExceedsK(column: int, fixedGraded: nat, k: int)
    | TooFewEligible(column: int, eligible: nat, slots: nat)
    | UnreachableMinimum(name: string, e: int)
    | MandatoryOverflow(column: int)

  /** The record the engine returns. */
  datatype GenerationResult =
    GenerationResult(testIndex: int, fixedGraded: nat, recommendedAdded: nat, warnings: seq<Warning>)

  /** A student's statistics for the column being regenerated; the recency
      term that only feeds the random weights is left out. */
  datatype Candidate = Candidate(student: nat, deficit: nat, mandatory: bool)

  function Min(a: int, b: int): int {
    if a <= b then a else b
  }

  // ---------------------------------------------------------------- 32-bit products

  const INT32_MIN: int := -0x8000_0000
  const INT32_MAX: int := 0x7fff_ffff

  /** C#'s unchecked `int` arithmetic: the value reduced into the 32-bit range. */
  function Wrap32(x: int): (r: int)
    ensures INT32_MIN <= r <= INT32_MAX
    ensures INT32_MIN <= x <= INT32_MAX ==> r == x
    ensures (r - x) % 0x1_0000_0000 == 0
  {
    (x - INT32_MIN) % 0x1_0000_0000 + INT32_MIN
  }

  /** The global feasibility test `T*K < n*E` as the C# code evaluates it. */
  predicate GloballyInfeasible(T: int, K: int, n: int, E: int) {
    Wrap32(T * K) < Wrap32(n * E)
  }

  /** When both products fit in 32 bits, the test is the mathematical one. */
  lemma GlobalCheckExact(T: int, K: int, n: int, E: int)
    requires INT32_MIN <= T * K <= INT32_MAX && INT32_MIN <= n * E <= INT32_MAX
    ensures GloballyInfeasible(T, K, n, E) <==> T * K < n * E
  {
  }

  /** The products wrap: 65536 tests of quota 65536 read as zero capacity. */
  lemma GlobalCheckWraps()
    ensures GloballyInfeasible(65536, 65536, 1, 1)
  {
    assert 65536 * 65536 == 0x1_0000_0000;
  }

  /** In general: a capacity `T*K` between 2^31 and 2^32 wraps to a negative
      number, so the check fires for every demand `n*E` that fits, although
      the capacity exceeds it. */
  lemma GlobalCheckWrapsNegative(T: int, K: int, n: int, E: int)
    requires INT32_MAX < T * K < 0x1_0000_0000
    requires 0 <= n * E <= INT32_MAX
    ensures GloballyInfeasible(T, K, n, E) && n * E < T * K
  {
    var capacity, demand := T * K, n * E;
    assert Wrap32(capacity) == capacity - 0x1_0000_0000 by {
      assert (capacity - INT32_MIN) % 0x1_0000_0000 == capacity - INT32_MIN - 0x1_0000_0000;
    }
    assert Wrap32(demand) == demand;
  }

  // ---------------------------------------------------------------- one student

  /** A cell that is still an opportunity: neither Absent nor Graded. */
  predicate Eligible(c: CellState) {
    c != Absent && c != Graded
  }

  /** The number of opportunities among `cells`. */
  function Opportunities(cells: seq<CellState>): (r: nat)
    ensures r <= |cells|
  {
    if cells == [] then 0
    else Opportunities(cells[..|cells| - 1]) + (if Eligible(cells[|cells| - 1]) then 1 else 0)
  }

  /** Opportunities plus Absent and Graded cells make up the whole row. */
  lemma {:induction false} OpportunitiesComplement(cells: seq<CellState>)
    ensures Opportunities(cells) + Occurrences(cells, Absent) + Occurrences(cells, Graded) == |cells|
  {
    if cells != [] {
      OpportunitiesComplement(cells[..|cells| - 1]);
    }
  }

  /** How many more grades the student needs to reach E. */
  function Deficit(E: int, cells: seq<CellState>): nat {
    if E - Occurrences(cells, Graded) > 0 then E - Occurrences(cells, Graded) else 0
  }

  /** Every remaining opportunity from column `t` on must be used to reach E. */
  predicate Mandatory(E: int, cells: seq<CellState>, t: nat)
    requires t <= |cells|
  {
    Deficit(E, cells) > 0 && Deficit(E, cells) == Opportunities(cells[t..])
  }

  /** Even if every opportunity of the row were graded, E would not be reached. */
  predicate Unreachable(E: int, cells: seq<CellState>) {
    Occurrences(cells, Graded) + Opportunities(cells) < E
  }

  // ---------------------------------------------------------------- one column

  predicate HasColumn(rows: seq<Row>, t: int) {
    0 <= t && forall i :: 0 <= i < |rows| ==> t < |rows[i].cells|
  }

  function Column(rows: seq<Row>, t: int): (col: seq<CellState>)
    requires HasColumn(rows, t)
    ensures |col| == |rows|
    ensures forall i :: 0 <= i < |rows| ==> col[i] == rows[i].cells[t]
  {
    seq(|rows|, i requires 0 <= i < |rows| => rows[i].cells[t])
  }

  /** The number of cells of column `t` holding `x`. */
  function ColumnCount(rows: seq<Row>, t: int, x: CellState): nat
    requires HasColumn(rows, t)
  {
    Occurrences(Column(rows, t), x)
  }

  /** `ColumnCount` is the number of students whose cell `t` holds `x`. */
  lemma ColumnCountIsCardinality(rows: seq<Row>, t: int, x: CellState)
    requires HasColumn(rows, t)
    ensures ColumnCount(rows, t, x) == |set i | 0 <= i < |rows| && rows[i].cells[t] == x|
  {
    var col := Column(rows, t);
    OccurrencesIsCardinality(col, x);
    assert (set i | 0 <= i < |col| && col[i] == x) == (set i | 0 <= i < |rows| && rows[i].cells[t] == x);
  }

  /** The free capacity of the column: K minus the fixed grades, never negative. */
  function Slots(K: int, fixedGraded: nat): nat {
    if K - fixedGraded < 0 then 0 else K - fixedGraded
  }

  predicate StrictlyIncreasing(s: seq<nat>) {
    forall a, b :: 0 <= a < b < |s| ==> s[a] < s[b]
  }

  /** The students among the first `n` whose cell `t` is eligible, in document order. */
  function EligibleIndices(rows: seq<Row>, t: int, n: nat): (idx: seq<nat>)
    requires HasColumn(rows, t) && n <= |rows|
    ensures |idx| <= n
    ensures forall m :: 0 <= m < |idx| ==> idx[m] < n && Eligible(rows[idx[m]].cells[t])
    ensures forall i :: 0 <= i < n && Eligible(rows[i].cells[t]) ==> i in idx
    ensures StrictlyIncreasing(idx)
  {
    if n == 0 then []
    else EligibleIndices(rows, t, n - 1) + (if Eligible(rows[n - 1].cells[t]) then [n - 1] else [])
  }

  /** A list of student positions, each within the document. */
  predicate Positions(rows: seq<Row>, idx: seq<nat>) {
    forall m :: 0 <= m < |idx| ==> idx[m] < |rows|
  }

  /** The statistics the engine records for student `i` at column `t`. */
  function CandidateOf(rows: seq<Row>, E: int, t: int, i: nat): Candidate
    requires HasColumn(rows, t) && i < |rows|
  {
    Candidate(i, Deficit(E, rows[i].cells), Mandatory(E, rows[i].cells, t))
  }

  /** The engine's candidate list: one entry per student of `idx`, in that order. */
  function CandidatesOf(rows: seq<Row>, E: int, t: int, idx: seq<nat>): (cs: seq<Candidate>)
    requires HasColumn(rows, t) && Positions(rows, idx)
    ensures |cs| == |idx|
    ensures forall m :: 0 <= m < |idx| ==> cs[m] == CandidateOf(rows, E, t, idx[m])
  {
    seq(|idx|, m requires 0 <= m < |idx| => CandidateOf(rows, E, t, idx[m]))
  }

  /** Candidates listed in strictly increasing document order. */
  predicate IncreasingStudents(cs: seq<Candidate>) {
    forall a, b :: 0 <= a < b < |cs| ==> cs[a].student < cs[b].student
  }

  /** The mandatory candidates' students, in candidate order. */
  function MandatoryStudents(cs: seq<Candidate>): (r: seq<nat>)
    ensures |r| <= |cs|
    ensures forall m :: 0 <= m < |cs| && cs[m].mandatory ==> cs[m].student in r
  {
    if cs == [] then []
    else
      var m := |cs| - 1;
      MandatoryStudents(cs[..m]) + (if cs[m].mandatory then [cs[m].student] else [])
  }

  /** Every listed student comes from a mandatory candidate. */
  lemma {:induction false} MandatoryStudentsSound(cs: seq<Candidate>)
    ensures forall x :: x in MandatoryStudents(cs) ==>
      exists m :: 0 <= m < |cs| && cs[m].mandatory && cs[m].student == x
  {
    if cs != [] {
      var m := |cs| - 1;
      MandatoryStudentsSound(cs[..m]);
      forall x | x in MandatoryStudents(cs)
        ensures exists j :: 0 <= j < |cs| && cs[j].mandatory && cs[j].student == x
      {
        if x in MandatoryStudents(cs[..m]) {
          var j :| 0 <= j < m && cs[..m][j].mandatory && cs[..m][j].student == x;
          assert cs[j] == cs[..m][j];
        } else {
          assert cs[m].mandatory && cs[m].student == x;
        }
      }
    }
  }

  /** Increasing candidates give strictly increasing mandatory students. */
  lemma {:induction false} MandatoryStudentsIncreasing(cs: seq<Candidate>)
    requires IncreasingStudents(cs)
    ensures StrictlyIncreasing(MandatoryStudents(cs))
  {
    if cs != [] {
      var m := |cs| - 1;
      var p := MandatoryStudents(cs[..m]);
      MandatoryStudentsIncreasing(cs[..m]);
      MandatoryStudentsSound(cs[..m]);
      forall a | 0 <= a < |p|
        ensures p[a] < cs[m].student
      {
        assert p[a] in p;
        var j :| 0 <= j < m && cs[..m][j].mandatory && cs[..m][j].student == p[a];
        assert cs[j] == cs[..m][j];
      }
    }
  }

  /** The mandatory students of a prefix are a prefix of the mandatory students. */
  lemma {:induction false} MandatoryStudentsPrefix(cs: seq<Candidate>, k: nat)
    requires k <= |cs|
    ensures |MandatoryStudents(cs[..k])| <= |MandatoryStudents(cs)|
    ensures MandatoryStudents(cs[..k]) == MandatoryStudents(cs)[..|MandatoryStudents(cs[..k])|]
  {
    if k < |cs| {
      var m := |cs| - 1;
      assert cs[..m][..k] == cs[..k];
      MandatoryStudentsPrefix(cs[..m], k);
    } else {
      assert cs[..k] == cs;
    }
  }

  /** One warning per student of `idx` who can no longer reach E, in the order of `idx`. */
  function UnreachableWarnings(rows: seq<Row>, E: int, idx: seq<nat>): seq<Warning>
    requires Positions(rows, idx)
  {
    if idx == [] then []
    else
      var m := |idx| - 1;
      UnreachableWarnings(rows, E, idx[..m])
      + (if Unreachable(E, rows[idx[m]].cells) then [UnreachableMinimum(rows[idx[m]].name, E)] else [])
  }

  /** `Recommended` cells of column `t` become `None`. */
  function Clear(c: CellState): CellState {
    if c == Recommended then None else c
  }

  function Cleared(rows: seq<Row>, t: int): (r: seq<Row>)
    requires HasColumn(rows, t)
    ensures |r| == |rows| && HasColumn(r, t)
    ensures forall i :: 0 <= i < |rows| ==>
      r[i] == rows[i].(cells := rows[i].cells[t := Clear(rows[i].cells[t])])
  {
    seq(|rows|, i requires 0 <= i < |rows| =>
      rows[i].(cells := rows[i].cells[t := Clear(rows[i].cells[t])]))
  }

  /** The write-back: a selected cell is recommended only if it is `None`. */
  function Written(c: CellState, selected: bool): CellState {
    if selected && c == None then Recommended else c
  }

  /** The grid after the write-back: in column `t`, the `None` cells of the
      students in `selected` become `Recommended`. */
  function WrittenRows(rows: seq<Row>, t: int, selected: set<nat>): (r: seq<Row>)
    requires HasColumn(rows, t)
    ensures |r| == |rows| && HasColumn(r, t)
    ensures forall i :: 0 <= i < |rows| ==>
      r[i] == rows[i].(cells := rows[i].cells[t := Written(rows[i].cells[t], i in selected)])
  {
    seq(|rows|, i requires 0 <= i < |rows| =>
      rows[i].(cells := rows[i].cells[t := Written(rows[i].cells[t], i in selected)]))
  }

  /** The students whose cell `t` is `None`. */
  function NoneAt(rows: seq<Row>, t: int): (r: set<nat>)
    requires HasColumn(rows, t)
    ensures forall i :: i in r <==> 0 <= i < |rows| && rows[i].cells[t] == None
  {
    set i | 0 <= i < |rows| && rows[i].cells[t] == None
  }

  /** How many students of `s` have a `None` cell `t`. */
  function NoneCount(rows: seq<Row>, t: int, s: set<nat>): nat
    requires HasColumn(rows, t)
  {
    |s * NoneAt(rows, t)|
  }

  /** Writing back one more student is writing back the larger selection. */
  lemma WrittenRowsStep(rows: seq<Row>, t: int, selected: set<nat>, i: nat)
    requires HasColumn(rows, t) && i !in selected
    ensures WrittenRows(WrittenRows(rows, t, selected), t, {i}) == WrittenRows(rows, t, selected + {i})
  {
    var a := WrittenRows(WrittenRows(rows, t, selected), t, {i});
    var b := WrittenRows(rows, t, selected + {i});
    forall j | 0 <= j < |rows|
      ensures a[j] == b[j]
    {
      assert a[j].cells == b[j].cells;
    }
  }

  /** The warning of the global feasibility test, if it fails. */
  function GlobalWarnings(T: int, K: int, n: int, E: int): seq<Warning> {
    if GloballyInfeasible(T, K, n, E) then [GlobalInfeasible(Wrap32(T * K), Wrap32(n * E))] else []
  }

  /** The warnings about column `t` in detection order, from the column's
      statistics: fixed grades over K, too few eligible students for the free
      slots, the unreachable students, more mandatory students than slots. */
  function StepWarnings(t: int, K: int, fixedGraded: nat, eligibleCount: nat,
                        unreachable: seq<Warning>, mandatoryCount: nat): seq<Warning>
  {
    var slots := Slots(K, fixedGraded);
    (if K - fixedGraded < 0 then [FixedGradedExceedsK(t + 1, fixedGraded, K)] else [])
    + (if eligibleCount < slots then [TooFewEligible(t + 1, eligibleCount, slots)] else [])
    + unreachable
    + (if mandatoryCount > slots then [MandatoryOverflow(t + 1)] else [])
  }

  /** The warnings about column `t`, computed on the grid whose column `t`
      has been cleared. */
  function ColumnWarnings(K: int, E: int, rows: seq<Row>, t: int): seq<Warning>
    requires HasColumn(rows, t)
  {
    var eligible := EligibleIndices(rows, t, |rows|);
    StepWarnings(t, K, ColumnCount(rows, t, Graded), |eligible|, UnreachableWarnings(rows, E, eligible),
                 |MandatoryStudents(CandidatesOf(rows, E, t, eligible))|)
  }

  /** All warnings of one regeneration, in detection order. */
  function ExpectedWarnings(T: int, K: int, E: int, rows: seq<Row>, t: int): seq<Warning>
    requires HasColumn(rows, t)
  {
    GlobalWarnings(T, K, |rows|, E) + ColumnWarnings(K, E, rows, t)
  }

  /** A selection the engine may make on the grid `rows` (column `t` already
      cleared): min(slots, eligible) students, all eligible, including the
      first mandatory students up to `slots`. */
  ghost predicate ValidSelection(rows: seq<Row>, K: int, E: int, t: int, selected: set<nat>)
    requires HasColumn(rows, t)
  {
    var eligible := EligibleIndices(rows, t, |rows|);
    var mandatory := MandatoryStudents(CandidatesOf(rows, E, t, eligible));
    var slots := Slots(K, ColumnCount(rows, t, Graded));
    && (forall i :: i in selected ==> i in eligible)
    && |selected| == Min(slots, |eligible|)
    && (forall k :: 0 <= k < Min(slots, |mandatory|) ==> mandatory[k] in selected)
  }

  /** The relation between the rows `before` and `after` a regeneration of column
      `t` that selected the students `selected`: recommendations of column `t`
      are cleared, a valid selection is made on the cleared grid, and the
      selected `None` cells become `Recommended`; nothing else changes. */
  ghost predicate Regenerated(before: seq<Row>, after: seq<Row>, K: int, E: int, t: int, selected: set<nat>)
    requires HasColumn(before, t)
  {
    var cleared := Cleared(before, t);
    ValidSelection(cleared, K, E, t, selected) && after == WrittenRows(cleared, t, selected)
  }
}
