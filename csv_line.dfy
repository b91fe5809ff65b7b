/** The `.uts` format's single-line CSV dialect: comma-separated fields, a
    field may be quoted, and a doubled quote inside a quoted field stands
    for one quote. There are no multi-line fields. */
module CsvLine {
  import opened Errors

  // ---------------------------------------------------------------- reading

  /** The parser as a state machine over the rest of the line: whether it is
      inside quotes, the field read so far and the fields completed so far. */
  function Scan(rest: string, inQuotes: bool, field: string, fields: seq<string>): Result<seq<string>>
    decreases |rest|
  {
    if rest == [] then
      if inQuotes then Err(Format(UnterminatedQuotedField)) else Ok(fields + [field])
    else if inQuotes then
      if rest[0] == '"' then
        if |rest| > 1 && rest[1] == '"' then Scan(rest[2..], true, field + ['"'], fields)
        else Scan(rest[1..], false, field, fields)
      else Scan(rest[1..], true, field + [rest[0]], fields)
    else if rest[0] == ',' then Scan(rest[1..], false, "", fields + [field])
    else if rest[0] == '"' then
      if field != "" then Err(Format(QuoteInUnquotedField)) else Scan(rest[1..], true, field, fields)
    else Scan(rest[1..], false, field + [rest[0]], fields)
  }

  /** The fields of one line, or the format error the parser raises. */
  function ParseLine(line: string): (r: Result<seq<string>>) {
    Scan(line, false, "", [])
  }

  /** The index loop with its field buffer, quote flag and result list. */
  method Parse(line: string) returns (r: Result<seq<string>>)
    ensures r == ParseLine(line)
  {
    var result: seq<string> := [];
    var sb: string := "";
    var inQuotes := false;
    var i := 0;
    while i < |line|
      invariant 0 <= i <= |line|
      invariant ParseLine(line) == Scan(line[i..], inQuotes, sb, result)
    {
      var c := line[i];
      assert line[i..][0] == c && line[i..][1..] == line[i + 1..];
      if inQuotes {
        if c == '"' {
          if i + 1 < |line| && line[i + 1] == '"' {
            assert line[i..][2..] == line[i + 2..];
            sb := sb + ['"'];
            i := i + 1;
          } else {
            inQuotes := false;
          }
        } else {
          sb := sb + [c];
        }
      } else {
        if c == ',' {
          result := result + [sb];
          sb := "";
        } else if c == '"' {
          if |sb| != 0 {
            return Err(Format(QuoteInUnquotedField));
          }
          inQuotes := true;
        } else {
          sb := sb + [c];
        }
      }
      i := i + 1;
    }
    if inQuotes {
      return Err(Format(UnterminatedQuotedField));
    }
    result := result + [sb];
    return Ok(result);
  }

  // ---------------------------------------------------------------- counting

  /** The number of quote characters of `s`. */
  function Quotes(s: string): (r: nat)
    ensures r <= |s|
  {
    if s == [] then 0 else (if s[0] == '"' then 1 else 0) + Quotes(s[1..])
  }

  /** The commas of `s` outside quotes, where every quote character toggles
      between inside and outside. */
  function UnquotedCommas(s: string, inQuotes: bool): (r: nat)
    ensures r <= |s|
  {
    if s == [] then 0
    else (if s[0] == ',' && !inQuotes then 1 else 0) + UnquotedCommas(s[1..], if s[0] == '"' then !inQuotes else inQuotes)
  }

  /** The parser fails only with one of its two format errors; when it
      succeeds, every unquoted comma ends a field and the quotes balance. */
  lemma {:induction false} ScanCounts(rest: string, inQuotes: bool, field: string, fields: seq<string>)
    ensures Scan(rest, inQuotes, field, fields).Err? ==>
      Scan(rest, inQuotes, field, fields).error in {Format(QuoteInUnquotedField), Format(UnterminatedQuotedField)}
    ensures Scan(rest, inQuotes, field, fields).Ok? ==>
      && |Scan(rest, inQuotes, field, fields).value| == |fields| + UnquotedCommas(rest, inQuotes) + 1
      && Quotes(rest) % 2 == (if inQuotes then 1 else 0)
    decreases |rest|
  {
    if rest != [] {
      if inQuotes {
        if rest[0] == '"' {
          if |rest| > 1 && rest[1] == '"' {
            ScanCounts(rest[2..], true, field + ['"'], fields);
            assert rest[1..][1..] == rest[2..];
          } else {
            ScanCounts(rest[1..], false, field, fields);
          }
        } else {
          ScanCounts(rest[1..], true, field + [rest[0]], fields);
        }
      } else if rest[0] == ',' {
        ScanCounts(rest[1..], false, "", fields + [field]);
      } else if rest[0] == '"' {
        if field == "" {
          ScanCounts(rest[1..], true, field, fields);
        }
      } else {
        ScanCounts(rest[1..], false, field + [rest[0]], fields);
      }
    }
  }

  /** A parsed line has one field more than it has commas outside quotes. */
  lemma FieldCount(line: string)
    ensures ParseLine(line).Ok? ==> |ParseLine(line).value| == UnquotedCommas(line, false) + 1
  {
    ScanCounts(line, false, "", []);
  }

  /** A line with an odd number of quotes is always rejected, as a quote in
      an unquoted field or as an unterminated quoted field. */
  lemma OddQuotesRejected(line: string)
    requires Quotes(line) % 2 == 1
    ensures ParseLine(line) == Err(Format(QuoteInUnquotedField)) || ParseLine(line) == Err(Format(UnterminatedQuotedField))
  {
    ScanCounts(line, false, "", []);
  }

  // ---------------------------------------------------------------- fields

  /** No comma and no quote: a field that is written as it is. */
  predicate Plain(s: string) {
    ',' !in s && '"' !in s
  }

  /** Reading the characters of a plain field outside quotes appends them. */
  lemma {:induction false} ScanPlain(f: string, tail: string, field: string, fields: seq<string>)
    requires Plain(f)
    ensures Scan(f + tail, false, field, fields) == Scan(tail, false, field + f, fields)
    decreases |f|
  {
    if f != [] {
      assert (f + tail)[0] == f[0] && (f + tail)[1..] == f[1..] + tail;
      assert f[0] in f;
      ScanPlain(f[1..], tail, field + [f[0]], fields);
      assert field + [f[0]] + f[1..] == field + f;
    } else {
      assert f + tail == tail && field + f == field;
    }
  }

  /** The quote-doubling of `Esc`. */
  function Double(s: string): (r: string) {
    if s == [] then [] else (if s[0] == '"' then "\"\"" else [s[0]]) + Double(s[1..])
  }

  /** Inside quotes, a doubled quote reads as one quote, any other character
      (commas included) as itself, and a quote not followed by another one
      closes the field. */
  lemma {:induction false} QuotedFieldRead(f: string, tail: string, field: string, fields: seq<string>)
    requires tail == [] || tail[0] != '"'
    ensures Scan(Double(f) + ['"'] + tail, true, field, fields) == Scan(tail, false, field + f, fields)
    decreases |f|
  {
    var s := Double(f) + ['"'] + tail;
    if f == [] {
      assert s == ['"'] + tail && s[1..] == tail;
      assert field + f == field;
    } else {
      QuotedFieldRead(f[1..], tail, field + [f[0]], fields);
      assert field + [f[0]] + f[1..] == field + f;
      if f[0] == '"' {
        assert s == "\"\"" + (Double(f[1..]) + ['"'] + tail);
        assert s[2..] == Double(f[1..]) + ['"'] + tail;
      } else {
        assert s == [f[0]] + (Double(f[1..]) + ['"'] + tail);
        assert s[1..] == Double(f[1..]) + ['"'] + tail;
      }
    }
  }

  /** The field writer: a field holding a comma or a quote is quoted, with
      its quotes doubled; any other field is written as it is. */
  function Esc(s: string): (r: string) {
    if ',' in s || '"' in s then ['"'] + Double(s) + ['"'] else s
  }

  /** Fields joined by commas. */
  function Join(fs: seq<string>): (r: string)
    requires |fs| >= 1
  {
    if |fs| == 1 then fs[0] else fs[0] + [','] + Join(fs[1..])
  }

  function EscAll(fs: seq<string>): (r: seq<string>)
    ensures |r| == |fs| && forall i :: 0 <= i < |fs| ==> r[i] == Esc(fs[i])
  {
    seq(|fs|, i requires 0 <= i < |fs| => Esc(fs[i]))
  }

  /** An escaped field followed by a comma or the end of the line reads back as the field. */
  lemma ScanEsc(f: string, tail: string, fields: seq<string>)
    requires tail == [] || tail[0] == ','
    ensures Scan(Esc(f) + tail, false, "", fields) == Scan(tail, false, f, fields)
  {
    assert "" + f == f;
    if ',' in f || '"' in f {
      var inner := Double(f) + ['"'] + tail;
      var s := ['"'] + inner;
      assert Esc(f) + tail == s;
      assert s[1..] == inner;
      assert Scan(s, false, "", fields) == Scan(inner, true, "", fields);
      QuotedFieldRead(f, tail, "", fields);
    } else {
      ScanPlain(f, tail, "", fields);
    }
  }

  lemma {:induction false} ScanJoin(fs: seq<string>, fields: seq<string>)
    requires |fs| >= 1
    ensures Scan(Join(EscAll(fs)), false, "", fields) == Ok(fields + fs)
    decreases |fs|
  {
    var es := EscAll(fs);
    if |fs| == 1 {
      ScanEsc(fs[0], "", fields);
      assert Join(es) + "" == Join(es);
      assert fields + [fs[0]] == fields + fs;
    } else {
      var tail := [','] + Join(EscAll(fs[1..]));
      assert es[1..] == EscAll(fs[1..]);
      assert Join(es) == Esc(fs[0]) + tail;
      ScanEsc(fs[0], tail, fields);
      assert tail[1..] == Join(EscAll(fs[1..]));
      ScanJoin(fs[1..], fields + [fs[0]]);
      ConsSplit(fields, fs);
    }
  }

  /** Reading back the comma-joined escaped fields gives exactly the fields. */
  lemma RoundTrip(fs: seq<string>)
    requires |fs| >= 1
    ensures ParseLine(Join(EscAll(fs))) == Ok(fs)
  {
    ScanJoin(fs, []);
    assert [] + fs == fs;
  }

  /** `Esc` leaves a plain field unchanged, so a line of plain fields needs no escaping. */
  lemma EscPlain(fs: seq<string>)
    requires forall i :: 0 <= i < |fs| ==> Plain(fs[i])
    ensures EscAll(fs) == fs
  {
  }

  // ---------------------------------------------------------------- errors

  /** The fields `fs`, escaped and joined, each followed by a comma: a start
      of a line that the parser accepts, field by field. */
  function Leading(fs: seq<string>): (r: string) {
    if fs == [] then "" else Join(EscAll(fs)) + [',']
  }

  /** One step of the parser outside quotes: a comma completes the field. */
  lemma ScanComma(rest: string, field: string, fields: seq<string>)
    ensures Scan([','] + rest, false, field, fields) == Scan(rest, false, "", fields + [field])
  {
    assert ([','] + rest)[1..] == rest;
  }

  /** One step of the parser outside quotes: a quote opens a quoted field
      only when the field is still empty. */
  lemma ScanQuote(rest: string, field: string, fields: seq<string>)
    ensures Scan(['"'] + rest, false, field, fields) ==
      if field == "" then Scan(rest, true, field, fields) else Err(Format(QuoteInUnquotedField))
  {
    assert (['"'] + rest)[1..] == rest;
  }

  /** After the leading fields the parser stands at the start of a new field
      with `fs` completed. */
  lemma {:induction false} ScanLeading(fs: seq<string>, rest: string, fields: seq<string>)
    ensures Scan(Leading(fs) + rest, false, "", fields) == Scan(rest, false, "", fields + fs)
    decreases |fs|
  {
    if fs == [] {
      assert Leading(fs) + rest == rest && fields + fs == fields;
    } else {
      LeadingStep(fs, rest, fields);
      ScanLeading(fs[1..], rest, fields + [fs[0]]);
      ConsSplit(fields, fs);
    }
  }

  lemma ConsSplit<T>(xs: seq<T>, ys: seq<T>)
    requires ys != []
    ensures xs + [ys[0]] + ys[1..] == xs + ys
  {
    assert [ys[0]] + ys[1..] == ys;
  }

  /** The first leading field is read and its comma completes it. */
  lemma LeadingStep(fs: seq<string>, rest: string, fields: seq<string>)
    requires fs != []
    ensures Scan(Leading(fs) + rest, false, "", fields) == Scan(Leading(fs[1..]) + rest, false, "", fields + [fs[0]])
  {
    var after := Leading(fs[1..]) + rest;
    assert EscAll(fs)[1..] == EscAll(fs[1..]);
    assert Leading(fs) == Esc(fs[0]) + [','] + Leading(fs[1..]);
    assert Leading(fs) + rest == Esc(fs[0]) + ([','] + after);
    ScanEsc(fs[0], [','] + after, fields);
    ScanComma(after, fs[0], fields);
  }

  /** A quote after other characters of an unquoted field is rejected,
      whichever accepted fields come before it. */
  lemma QuoteAfterTextRejected(fs: seq<string>, prefix: string, rest: string)
    requires prefix != "" && Plain(prefix)
    ensures ParseLine(Leading(fs) + prefix + ['"'] + rest) == Err(Format(QuoteInUnquotedField))
  {
    assert Leading(fs) + prefix + ['"'] + rest == Leading(fs) + (prefix + (['"'] + rest));
    ScanLeading(fs, prefix + (['"'] + rest), []);
    ScanPlain(prefix, ['"'] + rest, "", [] + fs);
    assert "" + prefix == prefix;
    ScanQuote(rest, prefix, [] + fs);
  }

  /** Text after the closing quote of a quoted field, then a quote, is
      rejected: the field is no longer empty when the quote comes. */
  lemma QuoteAfterQuotedRejected(fs: seq<string>, q: string, p: string, rest: string)
    requires p != "" && Plain(p)
    ensures ParseLine(Leading(fs) + ['"'] + Double(q) + ['"'] + p + ['"'] + rest) == Err(Format(QuoteInUnquotedField))
  {
    var field := ['"'] + Double(q) + ['"'] + p;
    Regroup(Leading(fs), ['"'], Double(q), ['"'], p, ['"'], rest);
    ScanLeading(fs, field + (['"'] + rest), []);
    QuotedThenPlain(q, p, ['"'] + rest, [] + fs);
    ScanQuote(rest, q + p, [] + fs);
  }

  lemma Regroup(a: string, b: string, c: string, d: string, e: string, f: string, g: string)
    ensures a + b + c + d + e + f + g == a + ((b + c + d + e) + (f + g))
  {
  }

  /** A quoted field followed by plain text reads as the two run together. */
  lemma QuotedThenPlain(q: string, p: string, tail: string, fields: seq<string>)
    requires p != "" && Plain(p)
    ensures Scan(['"'] + Double(q) + ['"'] + p + tail, false, "", fields) == Scan(tail, false, q + p, fields)
  {
    var after := p + tail;
    var body := Double(q) + ['"'] + after;
    assert ['"'] + Double(q) + ['"'] + p + tail == ['"'] + body;
    ScanQuote(body, "", fields);
    assert after[0] == p[0] && p[0] in p;
    QuotedFieldRead(q, after, "", fields);
    assert "" + q == q;
    ScanPlain(p, tail, q, fields);
  }

  /** An opening quote whose remainder never closes it is rejected,
      whichever accepted fields come before it. */
  lemma UnterminatedRejected(fs: seq<string>, f: string)
    ensures ParseLine(Leading(fs) + ['"'] + Double(f)) == Err(Format(UnterminatedQuotedField))
  {
    assert Leading(fs) + ['"'] + Double(f) == Leading(fs) + (['"'] + Double(f));
    ScanLeading(fs, ['"'] + Double(f), []);
    ScanQuote(Double(f), "", [] + fs);
    UnterminatedFrom(f, "", [] + fs);
  }

  lemma {:induction false} UnterminatedFrom(f: string, field: string, fields: seq<string>)
    ensures Scan(Double(f), true, field, fields) == Err(Format(UnterminatedQuotedField))
    decreases |f|
  {
    if f != [] {
      UnterminatedFrom(f[1..], field + [f[0]], fields);
      if f[0] == '"' {
        assert Double(f)[2..] == Double(f[1..]);
      } else {
        assert Double(f)[1..] == Double(f[1..]);
      }
    }
  }
}
