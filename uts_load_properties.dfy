/** What `Load` accepts, stated independently of the reading loop: the
    checks it makes on the file and the students it builds from it. */
module UtsLoadProperties {
  import opened Errors
  import opened CellStates
  import opened Documents
  import opened CsvLine
  import opened UtsFormat

  /** A field that holds exactly one cell symbol. */
  predicate CellToken(f: string) {
    |f| == 1 && f[0] in SYMBOLS
  }

  /** A student line of a document with `T` tests: it parses, has `2 + T`
      fields, and every field after the id and the name is a cell symbol. */
  predicate WellFormedRow(line: string, T: int) {
    && ParseLine(line).Ok?
    && T >= 0
    && |ParseLine(line).value| == 2 + T
    && forall j :: 2 <= j < |ParseLine(line).value| ==> CellToken(ParseLine(line).value[j])
  }

  /** `r` is the student read from the fields of its line. */
  predicate RowReads(fields: seq<string>, r: Row) {
    && |fields| >= 2
    && r.id == fields[0] && r.name == fields[1]
    && |r.cells| == |fields| - 2
    && forall j :: 0 <= j < |r.cells| ==> |fields[2 + j]| == 1 && FromChar(fields[2 + j][0]) == Ok(r.cells[j])
  }

  /** The lines from `i` on that are not blank, in file order. */
  function NonBlankLines(lines: seq<string>, i: nat): seq<string>
    decreases |lines| - i
  {
    if i >= |lines| then [] else (if Blank(lines[i]) then [] else [lines[i]]) + NonBlankLines(lines, i + 1)
  }

  /** The cells from field `j` on are read exactly when every one is a
      single symbol, and then each is that symbol's state. */
  lemma {:induction false} DecodeCellsRead(row: seq<string>, j: nat, acc: seq<CellState>)
    requires j <= |row|
    ensures DecodeCells(row, j, acc).Ok? <==> forall m :: j <= m < |row| ==> CellToken(row[m])
    ensures DecodeCells(row, j, acc).Ok? ==>
      var cells := DecodeCells(row, j, acc).value;
      && |cells| == |acc| + |row| - j && cells[..|acc|] == acc
      && forall m :: j <= m < |row| ==> FromChar(row[m][0]) == Ok(cells[|acc| + m - j])
    decreases |row| - j
  {
    if j < |row| {
      if |row[j]| == 1 && FromChar(row[j][0]).Ok? {
        var c := FromChar(row[j][0]).value;
        DecodeCellsRead(row, j + 1, acc + [c]);
        if DecodeCells(row, j, acc).Ok? {
          var cells := DecodeCells(row, j, acc).value;
          assert cells[..|acc| + 1] == acc + [c];
          assert cells[..|acc|] == (acc + [c])[..|acc|];
        }
      }
    }
  }

  /** A one-character cell field outside the Basic Multilingual Plane has C#
      length 2, so it fails as an invalid cell token, before any symbol test:
      `a,b,` followed by an emoji, say. */
  lemma SupplementaryTokenRejected(row: seq<string>, j: nat, acc: seq<CellState>)
    requires j < |row| && |row[j]| == 1 && row[j][0] as int >= 0x1_0000
    ensures DecodeCells(row, j, acc) == Err(Format(InvalidCellToken))
  {
    Utf16LengthOne(row[j]);
  }

  /** A line of at least two fields becomes a student exactly when its cell
      fields are single symbols; the student is then read from the fields. */
  lemma DecodeRecordRead(row: seq<string>)
    requires |row| >= 2
    ensures DecodeRecord(row).Ok? <==> forall m :: 2 <= m < |row| ==> CellToken(row[m])
    ensures DecodeRecord(row).Ok? ==> RowReads(row, DecodeRecord(row).value)
  {
    DecodeCellsRead(row, 2, []);
  }

  /** The student lines are accepted exactly when every non-blank line is a
      well-formed row; the students are then the non-blank lines, in order. */
  lemma {:induction false} DecodeRowsRead(lines: seq<string>, i: nat, T: int, acc: seq<Row>)
    ensures DecodeRows(lines, i, T, acc).Ok? <==>
      forall k :: i <= k < |lines| && !Blank(lines[k]) ==> WellFormedRow(lines[k], T)
    ensures DecodeRows(lines, i, T, acc).Ok? ==>
      var rows, rest := DecodeRows(lines, i, T, acc).value, NonBlankLines(lines, i);
      && |rows| == |acc| + |rest| && rows[..|acc|] == acc
      && forall k :: 0 <= k < |rest| ==>
           ParseLine(rest[k]).Ok? && RowReads(ParseLine(rest[k]).value, rows[|acc| + k])
    decreases |lines| - i
  {
    if i < |lines| {
      var line := lines[i];
      if Blank(line) {
        DecodeRowsRead(lines, i + 1, T, acc);
        assert NonBlankLines(lines, i) == NonBlankLines(lines, i + 1);
      } else if ParseLine(line).Ok? && |ParseLine(line).value| == 2 + T && T >= 0 {
        var row := ParseLine(line).value;
        DecodeRecordRead(row);
        if DecodeRecord(row).Ok? {
          var r := DecodeRecord(row).value;
          DecodeRowsRead(lines, i + 1, T, acc + [r]);
          assert WellFormedRow(line, T);
          if DecodeRows(lines, i, T, acc).Ok? {
            var rows, rest := DecodeRows(lines, i, T, acc).value, NonBlankLines(lines, i + 1);
            assert NonBlankLines(lines, i) == [line] + rest;
            assert rows[..|acc| + 1] == acc + [r];
            assert rows[..|acc|] == (acc + [r])[..|acc|];
          }
        } else {
          assert !WellFormedRow(line, T);
        }
      } else {
        assert !WellFormedRow(line, T);
      }
    }
  }

  /** What a file must look like for `Load` to accept it: at least two lines,
      a first line starting with `UTS,1`, a header of `2 + T` fields and a
      well-formed row on every non-blank line after it. The students are
      those lines in file order, and the document passes validation. */
  lemma DecodeAccepted(lines: seq<string>, parseInt: string -> Result<int>)
    ensures Decode(lines, parseInt).Ok? ==>
      var d := Decode(lines, parseInt).value;
      && |lines| >= 2
      && ParseLine(lines[0]).Ok? && |ParseLine(lines[0]).value| >= 2
      && ParseLine(lines[0]).value[0] == "UTS" && ParseLine(lines[0]).value[1] == "1"
      && ParseLine(lines[1]).Ok? && |ParseLine(lines[1]).value| == 2 + d.T
      && (forall k :: 2 <= k < |lines| && !Blank(lines[k]) ==> WellFormedRow(lines[k], d.T))
      && |d.rows| == |NonBlankLines(lines, 2)|
      && (forall k :: 0 <= k < |d.rows| ==>
            ParseLine(NonBlankLines(lines, 2)[k]).Ok? && RowReads(ParseLine(NonBlankLines(lines, 2)[k]).value, d.rows[k]))
      && ValidSheet(d)
  {
    if Decode(lines, parseInt).Ok? {
      var meta := ParseLine(lines[0]).value;
      var className := Lookup(meta, "ClassName", "Unnamed").value;
      assert Decode(lines, parseInt) == DecodeBody(lines, meta, className, parseInt);
      BodyAccepted(lines, meta, className, parseInt);
    }
  }

  /** From the parameters on: the header width, the student lines and the
      validation of what is accepted. */
  lemma BodyAccepted(lines: seq<string>, meta: seq<string>, className: string, parseInt: string -> Result<int>)
    requires |lines| >= 2
    ensures DecodeBody(lines, meta, className, parseInt).Ok? ==>
      var d := DecodeBody(lines, meta, className, parseInt).value;
      && ParseLine(lines[1]).Ok? && |ParseLine(lines[1]).value| == 2 + d.T
      && (forall k :: 2 <= k < |lines| && !Blank(lines[k]) ==> WellFormedRow(lines[k], d.T))
      && |d.rows| == |NonBlankLines(lines, 2)|
      && (forall k :: 0 <= k < |d.rows| ==>
            ParseLine(NonBlankLines(lines, 2)[k]).Ok? && RowReads(ParseLine(NonBlankLines(lines, 2)[k]).value, d.rows[k]))
      && ValidSheet(d)
  {
    if DecodeBody(lines, meta, className, parseInt).Ok? {
      var d := DecodeBody(lines, meta, className, parseInt).value;
      assert ReadParameter(meta, "T", parseInt) == Ok(d.T);
      assert ParseLine(lines[1]).Ok? && |ParseLine(lines[1]).value| == 2 + d.T;
      assert DecodeRows(lines, 2, d.T, []) == Ok(d.rows);
      RowsAccepted(lines, d.T, d.rows);
    }
  }

  /** The students read from the lines after the header are the non-blank
      lines, each a well-formed row, in file order. */
  lemma RowsAccepted(lines: seq<string>, T: int, rows: seq<Row>)
    requires DecodeRows(lines, 2, T, []) == Ok(rows)
    ensures forall k :: 2 <= k < |lines| && !Blank(lines[k]) ==> WellFormedRow(lines[k], T)
    ensures |rows| == |NonBlankLines(lines, 2)|
    ensures forall k :: 0 <= k < |rows| ==>
      ParseLine(NonBlankLines(lines, 2)[k]).Ok? && RowReads(ParseLine(NonBlankLines(lines, 2)[k]).value, rows[k])
  {
    DecodeRowsRead(lines, 2, T, []);
  }
}
