/** The `.uts` file as text: `Save` writes each line followed by a line
    terminator, and `Load` splits the text back into lines with
    `File.ReadAllLines`. The CSV dialect has no multi-line fields, so the
    lines survive exactly when no class name, id or name holds a line
    break. */
module UtsFile {
  import opened Errors
  import opened CellStates
  import opened Documents
  import opened CsvLine
  import opened UtsFormat
  import opened UtsRoundTrip

  /** A terminator `StreamWriter.WriteLine` may write (`Environment.NewLine`). */
  predicate NewLine(nl: string) {
    nl == "\r\n" || nl == "\n"
  }

  /** A string that holds no line-break character. */
  predicate SingleLine(s: string) {
    '\n' !in s && '\r' !in s
  }

  /** The class name and every id and name are free of line breaks. */
  predicate LineSafe(d: Sheet) {
    && SingleLine(d.className)
    && forall i :: 0 <= i < |d.rows| ==> SingleLine(d.rows[i].id) && SingleLine(d.rows[i].name)
  }

  // ---------------------------------------------------------------- the text

  /** The text written for `lines`: each line followed by the terminator. */
  function WrittenText(lines: seq<string>, nl: string): (text: string)
    requires NewLine(nl)
    ensures |text| >= |lines|
  {
    if lines == [] then "" else lines[0] + nl + WrittenText(lines[1..], nl)
  }

  /** `File.ReadAllLines` from some point of the text on, where `line` holds
      the characters of the current line read so far: `\r\n`, `\n` and `\r`
      each end a line, and a final terminator starts no further line. */
  function ReadLinesFrom(text: string, line: string): (r: seq<string>)
    decreases |text|
  {
    if text == [] then (if line == "" then [] else [line])
    else if text[0] == '\r' then
      [line] + ReadLinesFrom(if |text| > 1 && text[1] == '\n' then text[2..] else text[1..], "")
    else if text[0] == '\n' then [line] + ReadLinesFrom(text[1..], "")
    else ReadLinesFrom(text[1..], line + [text[0]])
  }

  function ReadAllLines(text: string): (r: seq<string>) {
    ReadLinesFrom(text, "")
  }

  /** Every line read from a text is free of line breaks. */
  lemma {:induction false} ReadLinesSingle(text: string, line: string)
    requires SingleLine(line)
    ensures forall k :: 0 <= k < |ReadLinesFrom(text, line)| ==> SingleLine(ReadLinesFrom(text, line)[k])
    decreases |text|
  {
    if text != [] {
      if text[0] == '\r' {
        ReadLinesSingle(if |text| > 1 && text[1] == '\n' then text[2..] else text[1..], "");
      } else if text[0] == '\n' {
        ReadLinesSingle(text[1..], "");
      } else {
        ReadLinesSingle(text[1..], line + [text[0]]);
      }
    }
  }

  /** A line without line breaks, then a terminator, reads as that line. */
  lemma {:induction false} ReadLineOf(l: string, nl: string, rest: string, line: string)
    requires SingleLine(l) && NewLine(nl)
    ensures ReadLinesFrom(l + nl + rest, line) == [line + l] + ReadLinesFrom(rest, "")
    decreases |l|
  {
    if l == [] {
      assert l + nl + rest == nl + rest && line + l == line;
      if nl == "\r\n" {
        assert (nl + rest)[2..] == rest;
      } else {
        assert (nl + rest)[1..] == rest;
      }
    } else {
      assert l[0] in l;
      assert (l + nl + rest)[1..] == l[1..] + nl + rest;
      assert forall c :: c in l[1..] ==> c in l;
      ReadLineOf(l[1..], nl, rest, line + [l[0]]);
      assert line + [l[0]] + l[1..] == line + l;
    }
  }

  /** Reading back the written text gives the lines, when none holds a line break. */
  lemma {:induction false} ReadWritten(lines: seq<string>, nl: string)
    requires NewLine(nl)
    requires forall k :: 0 <= k < |lines| ==> SingleLine(lines[k])
    ensures ReadAllLines(WrittenText(lines, nl)) == lines
    decreases |lines|
  {
    if lines != [] {
      ReadLineOf(lines[0], nl, WrittenText(lines[1..], nl), "");
      ReadWritten(lines[1..], nl);
      assert "" + lines[0] == lines[0];
      assert [lines[0]] + lines[1..] == lines;
    }
  }

  // ---------------------------------------------------------------- the lines Save writes

  /** Quote-doubling keeps exactly the characters of the field. */
  lemma {:induction false} DoubleChars(s: string, c: char)
    ensures c in Double(s) <==> c in s
    decreases |s|
  {
    if s != [] {
      DoubleChars(s[1..], c);
      assert s == [s[0]] + s[1..];
      if s[0] == '"' {
        assert Double(s) == "\"\"" + Double(s[1..]);
      } else {
        assert Double(s) == [s[0]] + Double(s[1..]);
      }
    }
  }

  /** An escaped field holds a line break exactly when the field does. */
  lemma EscSingle(s: string)
    ensures SingleLine(Esc(s)) <==> SingleLine(s)
  {
    DoubleChars(s, '\n');
    DoubleChars(s, '\r');
  }

  /** Joined fields hold a line break exactly when one of the fields does. */
  lemma {:induction false} JoinSingle(fs: seq<string>)
    requires |fs| >= 1
    ensures SingleLine(Join(fs)) <==> forall i :: 0 <= i < |fs| ==> SingleLine(fs[i])
    decreases |fs|
  {
    if |fs| > 1 {
      JoinSingle(fs[1..]);
      assert Join(fs) == fs[0] + ([','] + Join(fs[1..]));
      assert forall i :: 1 <= i < |fs| ==> fs[i] == fs[1..][i - 1];
    }
  }

  lemma {:induction false} NatToStringSingle(n: nat)
    ensures SingleLine(NatToString(n))
    decreases n
  {
    var digits := "0123456789";
    assert forall d :: 0 <= d < 10 ==> digits[d] != '\n' && digits[d] != '\r';
    if n >= 10 {
      NatToStringSingle(n / 10);
    }
  }

  lemma IntToStringSingle(n: int)
    ensures SingleLine(IntToString(n))
  {
    NatToStringSingle(if n < 0 then -n else n);
  }

  /** The metadata line holds a line break exactly when the class name does. */
  lemma MetaLineSingle(d: Sheet)
    ensures SingleLine(MetaLine(d)) <==> SingleLine(d.className)
  {
    var fs := ["UTS", "1", "ClassName", Esc(d.className), "T", IntToString(d.T), "K", IntToString(d.K), "E", IntToString(d.E)];
    JoinSingle(fs);
    EscSingle(d.className);
    IntToStringSingle(d.T);
    IntToStringSingle(d.K);
    IntToStringSingle(d.E);
    assert fs[3] == Esc(d.className);
  }

  lemma {:induction false} TestColumnsSingle(n: int)
    ensures SingleLine(TestColumns(n))
    decreases n
  {
    if n > 0 {
      TestColumnsSingle(n - 1);
      NatToStringSingle(n);
    }
  }

  lemma {:induction false} CellSymbolsSingle(cells: seq<CellState>)
    ensures SingleLine(CellSymbols(cells))
    decreases |cells|
  {
    if cells != [] {
      CellSymbolsSingle(cells[..|cells| - 1]);
      assert ToChar(cells[|cells| - 1]) in SYMBOLS;
    }
  }

  /** A student line holds a line break exactly when the id or the name does. */
  lemma RowLineSingle(r: Row)
    ensures SingleLine(RowLine(r)) <==> SingleLine(r.id) && SingleLine(r.name)
  {
    EscSingle(r.id);
    EscSingle(r.name);
    CellSymbolsSingle(r.cells);
    assert RowLine(r) == Esc(r.id) + ("," + Esc(r.name) + CellSymbols(r.cells));
    assert "," + Esc(r.name) + CellSymbols(r.cells) == "," + (Esc(r.name) + CellSymbols(r.cells));
  }

  /** Every line `Save` writes is free of line breaks exactly when the class
      name and every id and name are. */
  lemma EncodeSingleLines(d: Sheet)
    ensures LineSafe(d) <==> forall k :: 0 <= k < |Encode(d)| ==> SingleLine(Encode(d)[k])
  {
    if LineSafe(d) {
      SafeLines(d, Encode(d));
    } else {
      UnsafeLine(d, Encode(d));
    }
  }

  lemma SafeLines(d: Sheet, lines: seq<string>)
    requires lines == Encode(d) && LineSafe(d)
    ensures forall k :: 0 <= k < |lines| ==> SingleLine(lines[k])
  {
    MetaLineSingle(d);
    HeaderLineSingle(d.T);
    RowsSingle(d, lines);
    assert lines[0] == MetaLine(d) && lines[1] == HeaderLine(d.T);
  }

  lemma UnsafeLine(d: Sheet, lines: seq<string>)
    requires lines == Encode(d) && !LineSafe(d)
    ensures exists k :: 0 <= k < |lines| && !SingleLine(lines[k])
  {
    if !SingleLine(d.className) {
      MetaLineSingle(d);
      assert !SingleLine(lines[0]);
    } else {
      RowsSingle(d, lines);
      var i :| 0 <= i < |d.rows| && !(SingleLine(d.rows[i].id) && SingleLine(d.rows[i].name));
      assert !SingleLine(lines[2 + i]);
    }
  }

  lemma HeaderLineSingle(T: int)
    ensures SingleLine(HeaderLine(T))
  {
    TestColumnsSingle(T);
  }

  /** The student lines hold a line break exactly where an id or a name does. */
  lemma RowsSingle(d: Sheet, lines: seq<string>)
    requires lines == Encode(d)
    ensures forall k :: 2 <= k < |lines| ==>
      (SingleLine(lines[k]) <==> SingleLine(d.rows[k - 2].id) && SingleLine(d.rows[k - 2].name))
  {
    forall k | 2 <= k < |lines|
      ensures SingleLine(lines[k]) <==> SingleLine(d.rows[k - 2].id) && SingleLine(d.rows[k - 2].name)
    {
      assert lines[k] == RowLine(d.rows[k - 2]);
      RowLineSingle(d.rows[k - 2]);
    }
  }

  // ---------------------------------------------------------------- the whole file

  /** Splitting the saved text gives back exactly the lines written, and
      that happens exactly when no class name, id or name holds a line break. */
  lemma ReadBack(d: Sheet, nl: string)
    requires NewLine(nl)
    ensures ReadAllLines(WrittenText(Encode(d), nl)) == Encode(d) <==> LineSafe(d)
  {
    EncodeSingleLines(d);
    ReadLinesSingle(WrittenText(Encode(d), nl), "");
    if LineSafe(d) {
      ReadWritten(Encode(d), nl);
    }
  }

  /** Loading the file a valid document is saved as gives back that document,
      when no class name, id or name holds a line break and the integer
      parser reads every decimal numeral as its value. */
  lemma FileRoundTrip(d: Sheet, nl: string, parseInt: string -> Result<int>)
    requires ValidSheet(d) && LineSafe(d) && NewLine(nl)
    requires forall n: nat :: parseInt(NatToString(n)) == Ok(n)
    ensures Decode(ReadAllLines(WrittenText(Encode(d), nl)), parseInt) == Ok(d)
  {
    ReadBack(d, nl);
    DecodeEncode(d, parseInt);
  }
}
