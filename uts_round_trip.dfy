/** Reading back what `Save` writes: every valid document survives a
    save followed by a load, given an integer parser that reads decimal
    numerals correctly. */
module UtsRoundTrip {
  import opened Errors
  import opened CellStates
  import opened Documents
  import opened CsvLine
  import opened UtsFormat

  lemma {:induction false} JoinSnoc(fs: seq<string>, x: string)
    requires |fs| >= 1
    ensures Join(fs + [x]) == Join(fs) + [','] + x
    decreases |fs|
  {
    if |fs| == 1 {
      assert (fs + [x])[1..] == [x];
    } else {
      assert (fs + [x])[1..] == fs[1..] + [x];
      JoinSnoc(fs[1..], x);
    }
  }

  // ---------------------------------------------------------------- header

  /** `,x0` up to `,x(n-1)`: fields appended to a line one at a time. */
  function Commas(xs: seq<string>): string {
    if xs == [] then "" else Commas(xs[..|xs| - 1]) + [','] + xs[|xs| - 1]
  }

  /** Appending fields one comma at a time is joining them. */
  lemma {:induction false} CommasJoin(pre: seq<string>, xs: seq<string>)
    requires |pre| >= 1
    ensures Join(pre) + Commas(xs) == Join(pre + xs)
    decreases |xs|
  {
    if xs == [] {
      assert pre + xs == pre;
      assert Join(pre) + Commas(xs) == Join(pre);
    } else {
      var init := xs[..|xs| - 1];
      CommasJoin(pre, init);
      assert pre + xs == (pre + init) + [xs[|xs| - 1]];
      JoinSnoc(pre + init, xs[|xs| - 1]);
    }
  }

  /** `Test1` up to `Testn`. */
  function TestNames(n: int): (r: seq<string>)
    ensures |r| == (if n <= 0 then 0 else n)
    decreases n
  {
    if n <= 0 then [] else TestNames(n - 1) + [TestName(n)]
  }

  lemma {:induction false} TestNamesPlain(n: int)
    ensures forall i :: 0 <= i < |TestNames(n)| ==> Plain(TestNames(n)[i])
    decreases n
  {
    if n > 0 {
      TestNamesPlain(n - 1);
      assert forall i :: 0 <= i < n - 1 ==> TestNames(n)[i] == TestNames(n - 1)[i];
    }
  }

  lemma {:induction false} TestColumnsCommas(n: int)
    ensures TestColumns(n) == Commas(TestNames(n))
    decreases n
  {
    if n > 0 {
      TestColumnsCommas(n - 1);
      assert TestNames(n)[..n - 1] == TestNames(n - 1);
    }
  }

  lemma HeaderStart()
    ensures Join(["StudentId", "StudentName"]) == "StudentId,StudentName"
  {
    var base := ["StudentId", "StudentName"];
    assert base[1..] == ["StudentName"];
  }

  /** The header of `T >= 0` tests reads back as `2 + T` fields. */
  lemma HeaderWidth(T: int)
    requires T >= 0
    ensures ParseLine(HeaderLine(T)).Ok? && |ParseLine(HeaderLine(T)).value| == 2 + T
  {
    var fs := ["StudentId", "StudentName"] + TestNames(T);
    HeaderStart();
    TestColumnsCommas(T);
    CommasJoin(["StudentId", "StudentName"], TestNames(T));
    TestNamesPlain(T);
    assert forall i :: 0 <= i < |fs| ==> Plain(fs[i]) by {
      assert Plain("StudentId") && Plain("StudentName");
    }
    EscPlain(fs);
    RoundTrip(fs);
  }

  // ---------------------------------------------------------------- metadata

  function MetaFields(d: Sheet): seq<string>
    requires d.T >= 0 && d.K >= 0 && d.E >= 0
  {
    ["UTS", "1", "ClassName", d.className, "T", NatToString(d.T), "K", NatToString(d.K), "E", NatToString(d.E)]
  }

  lemma MetaRead(d: Sheet)
    requires d.T >= 0 && d.K >= 0 && d.E >= 0
    ensures ParseLine(MetaLine(d)) == Ok(MetaFields(d))
  {
    var fs := MetaFields(d);
    assert Plain("UTS") && Plain("1") && Plain("ClassName") && Plain("T") && Plain("K") && Plain("E");
    assert EscAll(fs) == ["UTS", "1", "ClassName", Esc(d.className), "T", IntToString(d.T),
                          "K", IntToString(d.K), "E", IntToString(d.E)];
    RoundTrip(fs);
  }

  /** Each key sits at its own even position, so a class name such as `T`
      cannot shadow a parameter. */
  lemma MetaLookups(d: Sheet)
    requires d.T >= 0 && d.K >= 0 && d.E >= 0
    ensures Lookup(MetaFields(d), "ClassName", "Unnamed") == Ok(d.className)
    ensures Lookup(MetaFields(d), "T", "0") == Ok(NatToString(d.T))
    ensures Lookup(MetaFields(d), "K", "0") == Ok(NatToString(d.K))
    ensures Lookup(MetaFields(d), "E", "0") == Ok(NatToString(d.E))
  {
    var m := MetaFields(d);
    assert forall j :: 0 <= j < 8 && j % 2 == 0 ==> m[j] in {"UTS", "ClassName", "T", "K"};
    LookupFound(m, "ClassName", "Unnamed", 2);
    LookupFound(m, "T", "0", 4);
    LookupFound(m, "K", "0", 6);
    LookupFound(m, "E", "0", 8);
  }

  // ---------------------------------------------------------------- student lines

  /** One single-symbol field per cell. */
  function Symbols(cells: seq<CellState>): (r: seq<string>)
    ensures |r| == |cells|
    ensures forall i :: 0 <= i < |r| ==> r[i] == [ToChar(cells[i])] && Plain(r[i])
  {
    seq(|cells|, i requires 0 <= i < |cells| => [ToChar(cells[i])])
  }

  lemma {:induction false} CellSymbolsCommas(cells: seq<CellState>)
    ensures CellSymbols(cells) == Commas(Symbols(cells))
    decreases |cells|
  {
    if cells != [] {
      var m := |cells| - 1;
      CellSymbolsCommas(cells[..m]);
      assert Symbols(cells)[..m] == Symbols(cells[..m]);
      assert CellSymbols(cells) == CellSymbols(cells[..m]) + [','] + [ToChar(cells[m])];
    }
  }

  function RowFields(r: Row): seq<string> {
    [r.id, r.name] + Symbols(r.cells)
  }

  /** A student line reads back as the id, the name and one symbol per cell. */
  lemma RowRead(r: Row)
    ensures ParseLine(RowLine(r)) == Ok(RowFields(r))
  {
    var fs := RowFields(r);
    assert EscAll(fs) == [Esc(r.id), Esc(r.name)] + Symbols(r.cells);
    CellSymbolsCommas(r.cells);
    CommasJoin([Esc(r.id), Esc(r.name)], Symbols(r.cells));
    assert Join([Esc(r.id), Esc(r.name)]) == Esc(r.id) + "," + Esc(r.name);
    RoundTrip(fs);
  }

  lemma {:induction false} DecodeSymbols(row: seq<string>, cells: seq<CellState>, j: nat)
    requires |row| == 2 + |cells| && j <= |cells|
    requires forall i :: 0 <= i < |cells| ==> row[2 + i] == [ToChar(cells[i])]
    ensures DecodeCells(row, 2 + j, cells[..j]) == Ok(cells)
    decreases |cells| - j
  {
    if j == |cells| {
      assert cells[..j] == cells;
    } else {
      FromCharToChar(cells[j]);
      assert cells[..j] + [cells[j]] == cells[..j + 1];
      DecodeSymbols(row, cells, j + 1);
    }
  }

  /** A student line is never skipped as blank: it holds a comma. */
  lemma RowNotBlank(r: Row)
    ensures !Blank(RowLine(r))
  {
    assert RowLine(r)[|Esc(r.id)|] == ',';
  }

  /** A student line of a document with `T` tests is read back as that student. */
  lemma RowDecoded(r: Row, T: int)
    requires |r.cells| == T
    ensures !Blank(RowLine(r)) && ParseLine(RowLine(r)) == Ok(RowFields(r))
    ensures |RowFields(r)| == 2 + T && DecodeRecord(RowFields(r)) == Ok(r)
  {
    RowNotBlank(r);
    RowRead(r);
    DecodeSymbols(RowFields(r), r.cells, 0);
    assert r.cells[..0] == [];
  }

  lemma {:induction false} RowsRead(lines: seq<string>, rows: seq<Row>, T: int, k: nat, acc: seq<Row>)
    requires RowsHaveLength(rows, T) && k <= |rows|
    requires |lines| == 2 + |rows| && forall j :: 0 <= j < |rows| ==> lines[2 + j] == RowLine(rows[j])
    ensures DecodeRows(lines, 2 + k, T, acc) == Ok(acc + rows[k..])
    decreases |rows| - k
  {
    if k == |rows| {
      assert acc + rows[k..] == acc;
    } else {
      RowDecoded(rows[k], T);
      RowsRead(lines, rows, T, k + 1, acc + [rows[k]]);
      assert acc + [rows[k]] + rows[k + 1..] == acc + rows[k..];
    }
  }

  // ---------------------------------------------------------------- the whole file

  /** The metadata line reads back as the document's name and parameters. */
  lemma MetaDecoded(d: Sheet, parseInt: string -> Result<int>)
    requires d.T >= 0 && d.K >= 0 && d.E >= 0
    requires forall n: nat :: parseInt(NatToString(n)) == Ok(n)
    ensures ParseLine(MetaLine(d)) == Ok(MetaFields(d))
    ensures Lookup(MetaFields(d), "ClassName", "Unnamed") == Ok(d.className)
    ensures ReadParameter(MetaFields(d), "T", parseInt) == Ok(d.T)
    ensures ReadParameter(MetaFields(d), "K", parseInt) == Ok(d.K)
    ensures ReadParameter(MetaFields(d), "E", parseInt) == Ok(d.E)
  {
    MetaRead(d);
    MetaLookups(d);
  }

  /** Loading the lines a valid document is saved as gives back that document,
      when the integer parser reads every decimal numeral as its value. */
  lemma DecodeEncode(d: Sheet, parseInt: string -> Result<int>)
    requires ValidSheet(d)
    requires forall n: nat :: parseInt(NatToString(n)) == Ok(n)
    ensures Decode(Encode(d), parseInt) == Ok(d)
  {
    var lines := Encode(d);
    var meta := MetaFields(d);
    MetaDecoded(d, parseInt);
    BodyDecoded(d, lines, meta, parseInt);
  }

  lemma BodyDecoded(d: Sheet, lines: seq<string>, meta: seq<string>, parseInt: string -> Result<int>)
    requires ValidSheet(d) && lines == Encode(d)
    requires ReadParameter(meta, "T", parseInt) == Ok(d.T)
    requires ReadParameter(meta, "K", parseInt) == Ok(d.K)
    requires ReadParameter(meta, "E", parseInt) == Ok(d.E)
    ensures DecodeBody(lines, meta, d.className, parseInt) == Ok(d)
  {
    HeaderWidth(d.T);
    RowsRead(lines, d.rows, d.T, 0, []);
    assert [] + d.rows[0..] == d.rows;
  }

  /** Whatever `Load` accepts passes `Validate`. */
  lemma DecodeValid(lines: seq<string>, parseInt: string -> Result<int>)
    ensures Decode(lines, parseInt).Ok? ==> ValidSheet(Decode(lines, parseInt).value)
  {
    if Decode(lines, parseInt).Ok? {
      var meta := ParseLine(lines[0]).value;
      var className := Lookup(meta, "ClassName", "Unnamed").value;
      assert DecodeBody(lines, meta, className, parseInt).Ok?;
    }
  }
}
