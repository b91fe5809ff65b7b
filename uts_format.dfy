/** The `.uts` file as a sequence of lines: a metadata line
    `UTS,1,ClassName,<name>,T,<T>,K,<K>,E,<E>`, a header line
    `StudentId,StudentName,Test1,...,TestT`, and one line per student holding
    the id, the name and one cell symbol per test. */
module UtsFormat {
  import opened Errors
  import opened CellStates
  import opened Students
  import opened Documents
  import opened CsvLine

  // ---------------------------------------------------------------- metadata lookup

  /** The metadata search from position `i` on, stepping over values. */
  function LookupFrom(tokens: seq<string>, key: string, default: string, i: nat): Result<string>
    decreases |tokens| - i
  {
    if i >= |tokens| then Ok(default)
    else if tokens[i] == key then
      if i + 1 >= |tokens| then Err(Format(MissingMetadataValue(key))) else Ok(tokens[i + 1])
    else LookupFrom(tokens, key, default, i + 2)
  }

  /** The value of `key` in the list `key0,value0,key1,value1,...`. */
  function Lookup(tokens: seq<string>, key: string, default: string): Result<string> {
    LookupFrom(tokens, key, default, 0)
  }

  /** The read-only search loop over the even positions. */
  method Get(tokens: seq<string>, key: string, default: string) returns (r: Result<string>)
    ensures r == Lookup(tokens, key, default)
  {
    var i := 0;
    while i < |tokens|
      invariant Lookup(tokens, key, default) == LookupFrom(tokens, key, default, i)
      decreases |tokens| - i
    {
      if tokens[i] == key {
        if i + 1 >= |tokens| {
          return Err(Format(MissingMetadataValue(key)));
        }
        return Ok(tokens[i + 1]);
      }
      i := i + 2;
    }
    return Ok(default);
  }

  /** Position `i` is a key position holding `key`. */
  predicate KeyAt(tokens: seq<string>, key: string, i: nat) {
    i % 2 == 0 && i < |tokens| && tokens[i] == key
  }

  lemma {:induction false} LookupSkip(tokens: seq<string>, key: string, default: string, s: nat, i: nat)
    requires s % 2 == 0 && i % 2 == 0 && s <= i
    requires forall j :: s <= j < i && j < |tokens| ==> !KeyAt(tokens, key, j)
    ensures LookupFrom(tokens, key, default, s) == LookupFrom(tokens, key, default, i)
    decreases i - s
  {
    if s < i && s < |tokens| {
      assert !KeyAt(tokens, key, s);
      LookupSkip(tokens, key, default, s + 2, i);
    } else if s < i {
      LookupSkip(tokens, key, default, s + 2, i);
      assert LookupFrom(tokens, key, default, s + 2) == Ok(default);
    }
  }

  /** The first key position holding `key` decides: the token after it, or
      an error when it is the last token. Values equal to `key` do not count. */
  lemma LookupFound(tokens: seq<string>, key: string, default: string, i: nat)
    requires KeyAt(tokens, key, i) && forall j :: 0 <= j < i ==> !KeyAt(tokens, key, j)
    ensures Lookup(tokens, key, default)
      == if i + 1 < |tokens| then Ok(tokens[i + 1]) else Err(Format(MissingMetadataValue(key)))
  {
    LookupSkip(tokens, key, default, 0, i);
  }

  /** With `key` at no key position, the default is returned. */
  lemma LookupAbsent(tokens: seq<string>, key: string, default: string)
    requires forall j :: 0 <= j < |tokens| ==> !KeyAt(tokens, key, j)
    ensures Lookup(tokens, key, default) == Ok(default)
  {
    var end := if |tokens| % 2 == 0 then |tokens| else |tokens| + 1;
    LookupSkip(tokens, key, default, 0, end);
  }

  // ---------------------------------------------------------------- text helpers

  /** The characters `Char.IsWhiteSpace` accepts: the Unicode space, line and
      paragraph separators plus U+0009..U+000D and U+0085. */
  const WHITESPACE: set<char> := {
    '\U{9}', '\U{A}', '\U{B}', '\U{C}', '\U{D}', ' ', '\U{85}', '\U{A0}', '\U{1680}',
    '\U{2000}', '\U{2001}', '\U{2002}', '\U{2003}', '\U{2004}', '\U{2005}', '\U{2006}',
    '\U{2007}', '\U{2008}', '\U{2009}', '\U{200A}', '\U{2028}', '\U{2029}', '\U{202F}',
    '\U{205F}', '\U{3000}'
  }

  /** `string.IsNullOrWhiteSpace` on a line read from a file (never null). */
  predicate Blank(line: string) {
    forall i :: 0 <= i < |line| ==> line[i] in WHITESPACE
  }

  function DigitChar(d: nat): char
    requires d < 10
  {
    "0123456789"[d]
  }

  /** The decimal digits of `n`, most significant first. */
  function NatToString(n: nat): (s: string)
    ensures s != "" && Plain(s)
  {
    if n < 10 then [DigitChar(n)] else NatToString(n / 10) + [DigitChar(n % 10)]
  }

  /** C#'s formatting of an `int`. */
  function IntToString(n: int): string {
    if n < 0 then "-" + NatToString(-n) else NatToString(n)
  }

  // ---------------------------------------------------------------- writing

  /** The metadata line: tag, version, class name and the three parameters. */
  function MetaLine(d: Sheet): string {
    Join(["UTS", "1", "ClassName", Esc(d.className), "T", IntToString(d.T), "K", IntToString(d.K), "E", IntToString(d.E)])
  }

  /** The header name of the 1-based test `n`. */
  function TestName(n: nat): (s: string)
    ensures Plain(s)
  {
    "Test" + NatToString(n)
  }

  /** `,Test1` up to `,Testn`. */
  function TestColumns(n: int): string
    decreases n
  {
    if n <= 0 then "" else TestColumns(n - 1) + [','] + TestName(n)
  }

  function HeaderLine(T: int): string {
    "StudentId,StudentName" + TestColumns(T)
  }

  /** `,c0` up to `,c(n-1)`: one symbol per cell. */
  function CellSymbols(cells: seq<CellState>): string {
    if cells == [] then "" else CellSymbols(cells[..|cells| - 1]) + [',', ToChar(cells[|cells| - 1])]
  }

  function RowLine(r: Row): string {
    Esc(r.id) + "," + Esc(r.name) + CellSymbols(r.cells)
  }

  /** The lines `Save` writes for a document. */
  function Encode(d: Sheet): (lines: seq<string>)
    ensures |lines| == 2 + |d.rows|
  {
    [MetaLine(d), HeaderLine(d.T)] + seq(|d.rows|, i requires 0 <= i < |d.rows| => RowLine(d.rows[i]))
  }

  /** One student's line, written field by field. */
  method WriteRow(s: StudentRecord, T: int) returns (line: string)
    requires T == s.TestsCount()
    ensures line == RowLine(Row(s.id, s.name, s.cells[..]))
  {
    line := Esc(s.id) + "," + Esc(s.name);
    var t := 0;
    while t < T
      invariant 0 <= t <= T
      invariant line == Esc(s.id) + "," + Esc(s.name) + CellSymbols(s.cells[..t])
    {
      assert s.cells[..t + 1][..t] == s.cells[..t];
      line := line + "," + [ToChar(s.cells[t])];
      t := t + 1;
    }
    assert s.cells[..t] == s.cells[..];
  }

  /** The header line, one `TestN` column at a time. */
  method WriteHeader(T: int) returns (header: string)
    ensures header == HeaderLine(T)
  {
    var columns := "";
    var t := 0;
    while t < T
      invariant t <= T || t == 0
      invariant columns == TestColumns(t)
    {
      columns := columns + [','] + TestName(t + 1);
      t := t + 1;
    }
    header := "StudentId,StudentName" + columns;
  }

  /** One line per student, in document order. */
  method WriteRows(doc: UtsDocument, ghost rows: seq<Row>) returns (lines: seq<string>)
    requires rows == doc.Rows() && RowsHaveLength(rows, doc.T)
    ensures |lines| == |rows| && forall j :: 0 <= j < |rows| ==> lines[j] == RowLine(rows[j])
  {
    lines := [];
    var k := 0;
    while k < |doc.students|
      invariant 0 <= k <= |doc.students|
      invariant |lines| == k && forall j :: 0 <= j < k ==> lines[j] == RowLine(rows[j])
    {
      var line := WriteRow(doc.students[k], doc.T);
      lines := lines + [line];
      k := k + 1;
    }
  }

  /** `Save` validates the document, then writes the metadata line, the
      header and one line per student; the file itself is left out. */
  method Save(doc: UtsDocument) returns (r: Result<seq<string>>)
    ensures Validation(doc.T, doc.K, doc.E, doc.Rows()).Fail? ==>
      r == Err(Validation(doc.T, doc.K, doc.E, doc.Rows()).error)
    ensures Validation(doc.T, doc.K, doc.E, doc.Rows()) == Pass ==> r == Ok(Encode(doc.Value()))
  {
    var valid := doc.Validate();
    if valid.Fail? {
      return Err(valid.error);
    }
    var meta := Join(["UTS", "1", "ClassName", Esc(doc.className), "T", IntToString(doc.T),
                      "K", IntToString(doc.K), "E", IntToString(doc.E)]);
    var header := WriteHeader(doc.T);
    var body := WriteRows(doc, doc.Rows());
    assert [meta, header] + body == Encode(doc.Value());
    return Ok([meta, header] + body);
  }

  // ---------------------------------------------------------------- reading

  /** C#'s `string.Length`: the number of UTF-16 code units, two for a
      character outside the Basic Multilingual Plane. */
  function Utf16Length(s: string): (n: nat)
    ensures |s| <= n <= 2 * |s|
    decreases |s|
  {
    if s == [] then 0 else (if s[0] as int < 0x1_0000 then 1 else 2) + Utf16Length(s[1..])
  }

  /** A string of length 1 in C# is exactly one character of the Basic
      Multilingual Plane. */
  lemma Utf16LengthOne(s: string)
    ensures Utf16Length(s) == 1 <==> |s| == 1 && s[0] as int < 0x1_0000
  {
    if s != [] {
      assert Utf16Length(s) == (if s[0] as int < 0x1_0000 then 1 else 2) + Utf16Length(s[1..]);
    }
  }

  /** The cells of a student line from field `j` on: each must be a string
      of C# length 1 holding a valid symbol. */
  function DecodeCells(row: seq<string>, j: nat, acc: seq<CellState>): Result<seq<CellState>>
    decreases |row| - j
  {
    if j >= |row| then Ok(acc)
    else if Utf16Length(row[j]) != 1 then Err(Format(InvalidCellToken))
    else match FromChar(row[j][0])
      case Err(e) => Err(e)
      case Ok(c) => DecodeCells(row, j + 1, acc + [c])
  }

  /** A student line of the right width as a row. */
  function DecodeRecord(row: seq<string>): Result<Row>
    requires |row| >= 2
  {
    match DecodeCells(row, 2, [])
    case Err(e) => Err(e)
    case Ok(cells) => Ok(Row(row[0], row[1], cells))
  }

  /** The student lines from line `i` on, appended to `acc`: blank lines are
      skipped, every other line must hold `2 + T` fields. A line of one field
      with T = -1 passes the width test and fails reading the name. */
  function DecodeRows(lines: seq<string>, i: nat, T: int, acc: seq<Row>): Result<seq<Row>>
    decreases |lines| - i
  {
    if i >= |lines| then Ok(acc)
    else if Blank(lines[i]) then DecodeRows(lines, i + 1, T, acc)
    else match ParseLine(lines[i])
      case Err(e) => Err(e)
      case Ok(row) =>
        if |row| != 2 + T then Err(Format(RowWidthMismatch(i + 1)))
        else if |row| < 2 then Err(ArgumentOutOfRange)
        else match DecodeRecord(row)
          case Err(e) => Err(e)
          case Ok(r) => DecodeRows(lines, i + 1, T, acc + [r])
  }

  /** A parameter read with `int.Parse(Get(meta, key, "0"))`. */
  function ReadParameter(meta: seq<string>, key: string, parseInt: string -> Result<int>): Result<int> {
    match Lookup(meta, key, "0")
    case Err(e) => Err(e)
    case Ok(text) => parseInt(text)
  }

  /** The document `Load` reads from `lines`, or the first error it raises;
      `parseInt` stands for `int.Parse`. */
  function Decode(lines: seq<string>, parseInt: string -> Result<int>): Result<Sheet> {
    if |lines| < 2 then Err(Format(TooShort))
    else match ParseLine(lines[0])
      case Err(e) => Err(e)
      case Ok(meta) =>
        if |meta| < 2 || meta[0] != "UTS" || meta[1] != "1" then Err(Format(UnsupportedVersion))
        else match Lookup(meta, "ClassName", "Unnamed")
          case Err(e) => Err(e)
          case Ok(className) => DecodeBody(lines, meta, className, parseInt)
  }

  function DecodeBody(lines: seq<string>, meta: seq<string>, className: string, parseInt: string -> Result<int>): Result<Sheet>
    requires |lines| >= 2
  {
    match ReadParameter(meta, "T", parseInt)
    case Err(e) => Err(e)
    case Ok(T) =>
      match ReadParameter(meta, "K", parseInt)
      case Err(e) => Err(e)
      case Ok(K) =>
        match ReadParameter(meta, "E", parseInt)
        case Err(e) => Err(e)
        case Ok(E) =>
          match ParseLine(lines[1])
          case Err(e) => Err(e)
          case Ok(header) =>
            if |header| != 2 + T then Err(Format(InvalidHeaderWidth))
            else match DecodeRows(lines, 2, T, [])
              case Err(e) => Err(e)
              case Ok(rows) =>
                if Validation(T, K, E, rows).Fail? then Err(Validation(T, K, E, rows).error)
                else Ok(Sheet(className, T, K, E, rows))
  }

  method ReadInt(meta: seq<string>, key: string, parseInt: string -> Result<int>) returns (r: Result<int>)
    ensures r == ReadParameter(meta, key, parseInt)
  {
    var text := Get(meta, key, "0");
    if text.Err? {
      return Err(text.error);
    }
    r := parseInt(text.value);
  }

  /** A new record from a student line of width `2 + T`, its cells set one by one. */
  method ReadRecord(row: seq<string>, T: int) returns (r: Result<StudentRecord>)
    requires |row| == 2 + T && T >= 0
    ensures r.Err? <==> DecodeRecord(row).Err?
    ensures r.Err? ==> r.error == DecodeRecord(row).error
    ensures r.Ok? ==> fresh(r.value) && fresh(r.value.cells)
    ensures r.Ok? ==> Row(r.value.id, r.value.name, r.value.cells[..]) == DecodeRecord(row).value
  {
    var s := new StudentRecord(row[0], row[1], T);
    var t := 0;
    while t < T
      invariant 0 <= t <= T
      invariant s.id == row[0] && s.name == row[1]
      invariant DecodeCells(row, 2, []) == DecodeCells(row, 2 + t, s.cells[..t])
    {
      var token := row[2 + t];
      if Utf16Length(token) != 1 {
        return Err(Format(InvalidCellToken));
      }
      var c := FromChar(token[0]);
      if c.Err? {
        return Err(c.error);
      }
      var done := s.Set(t, c.value);
      assert s.cells[..t + 1] == s.cells[..t] + [c.value];
      t := t + 1;
    }
    assert s.cells[..t] == s.cells[..];
    return Ok(s);
  }

  /** The student-row loop of `Load`: blank lines are skipped, every other
      line is parsed, checked for width and appended as a new record. */
  method ReadRows(doc: UtsDocument, lines: seq<string>) returns (r: Outcome)
    requires doc.Wf() && doc.students == []
    modifies doc
    ensures doc.className == old(doc.className) && doc.T == old(doc.T)
    ensures doc.K == old(doc.K) && doc.E == old(doc.E)
    ensures r.Fail? <==> DecodeRows(lines, 2, doc.T, []).Err?
    ensures r.Fail? ==> r.error == DecodeRows(lines, 2, doc.T, []).error
    ensures r.Pass? ==> doc.Wf() && doc.Rows() == DecodeRows(lines, 2, doc.T, []).value
  {
    var T := doc.T;
    var expected := 2 + T;
    var i := 2;
    while i < |lines|
      invariant 2 <= i <= |lines| || |lines| < 2
      invariant doc.Wf() && doc.T == T
      invariant doc.className == old(doc.className) && doc.K == old(doc.K) && doc.E == old(doc.E)
      invariant DecodeRows(lines, 2, T, []) == DecodeRows(lines, i, T, doc.Rows())
    {
      ghost var rows0 := doc.Rows();
      if Blank(lines[i]) {
        i := i + 1;
        continue;
      }
      var row := Parse(lines[i]);
      if row.Err? {
        return Fail(row.error);
      }
      if |row.value| != expected {
        return Fail(Format(RowWidthMismatch(i + 1)));
      }
      if |row.value| < 2 {
        return Fail(ArgumentOutOfRange);
      }
      var s := ReadRecord(row.value, T);
      if s.Err? {
        return Fail(s.error);
      }
      ghost var rows := doc.Rows();
      assert rows == rows0;
      assert DecodeRows(lines, i, T, rows) == DecodeRows(lines, i + 1, T, rows + [DecodeRecord(row.value).value]);
      Append(doc, s.value, rows);
      i := i + 1;
    }
    return Pass;
  }

  /** `doc.Students.Add` of a record whose cells no student owns yet. */
  method Append(doc: UtsDocument, s: StudentRecord, ghost rows: seq<Row>)
    requires doc.Wf() && rows == doc.Rows() && forall k :: 0 <= k < |doc.students| ==> doc.students[k].cells != s.cells
    modifies doc
    ensures doc.className == old(doc.className) && doc.T == old(doc.T)
    ensures doc.K == old(doc.K) && doc.E == old(doc.E)
    ensures doc.Wf() && doc.Rows() == rows + [Row(s.id, s.name, s.cells[..])]
  {
    doc.students := doc.students + [s];
  }

  /** `Load` over the lines of a file: the structural checks in file order,
      then the student rows appended in file order, then `Validate`. */
  method Load(lines: seq<string>, parseInt: string -> Result<int>) returns (r: Result<UtsDocument>)
    ensures r.Err? <==> Decode(lines, parseInt).Err?
    ensures r.Err? ==> r.error == Decode(lines, parseInt).error
    ensures r.Ok? ==> fresh(r.value) && r.value.Wf() && r.value.Value() == Decode(lines, parseInt).value
  {
    if |lines| < 2 {
      return Err(Format(TooShort));
    }
    var meta := Parse(lines[0]);
    if meta.Err? {
      return Err(meta.error);
    }
    var m := meta.value;
    if |m| < 2 || m[0] != "UTS" || m[1] != "1" {
      return Err(Format(UnsupportedVersion));
    }
    var className := Get(m, "ClassName", "Unnamed");
    if className.Err? {
      return Err(className.error);
    }
    r := LoadBody(lines, m, className.value, parseInt);
  }

  method LoadBody(lines: seq<string>, meta: seq<string>, className: string, parseInt: string -> Result<int>)
    returns (r: Result<UtsDocument>)
    requires |lines| >= 2
    ensures r.Err? <==> DecodeBody(lines, meta, className, parseInt).Err?
    ensures r.Err? ==> r.error == DecodeBody(lines, meta, className, parseInt).error
    ensures r.Ok? ==> fresh(r.value) && r.value.Wf() && r.value.Value() == DecodeBody(lines, meta, className, parseInt).value
  {
    var T := ReadInt(meta, "T", parseInt);
    if T.Err? {
      return Err(T.error);
    }
    var K := ReadInt(meta, "K", parseInt);
    if K.Err? {
      return Err(K.error);
    }
    var E := ReadInt(meta, "E", parseInt);
    if E.Err? {
      return Err(E.error);
    }
    var header := Parse(lines[1]);
    if header.Err? {
      return Err(header.error);
    }
    if |header.value| != 2 + T.value {
      return Err(Format(InvalidHeaderWidth));
    }
    var doc := new UtsDocument();
    doc.className, doc.T, doc.K, doc.E := className, T.value, K.value, E.value;
    var read := ReadRows(doc, lines);
    if read.Fail? {
      return Err(read.error);
    }
    var valid := doc.Validate();
    if valid.Fail? {
      return Err(valid.error);
    }
    return Ok(doc);
  }
}
