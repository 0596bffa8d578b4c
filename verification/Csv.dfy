/** `csv.writer(lineterminator="\n")` with minimal quoting, and `csv.reader`, as the
    state machine it is: RECORD files are written by the one and read by the other. */
module Csv {

  // ---- Writing ----

  /** What makes a field quoted. */
  predicate Special(c: char) { c == ',' || c == '"' || c == '\n' || c == '\r' }

  predicate NeedsQuotes(f: string) { exists i :: 0 <= i < |f| && Special(f[i]) }

  function Doubled(f: string): string
  {
    if f == "" then "" else (if f[0] == '"' then "\"\"" else [f[0]]) + Doubled(f[1..])
  }

  function Field(f: string): string { if NeedsQuotes(f) then "\"" + Doubled(f) + "\"" else f }

  function RowText(row: seq<string>): string
    requires row != []
  {
    if |row| == 1 then Field(row[0]) + "\n" else Field(row[0]) + "," + RowText(row[1..])
  }

  /** Rows of two fields or more; a lone empty field is written differently. */
  ghost predicate Writable(rows: seq<seq<string>>) { forall i :: 0 <= i < |rows| ==> |rows[i]| >= 2 }

  function Text(rows: seq<seq<string>>): string
    requires forall i :: 0 <= i < |rows| ==> |rows[i]| >= 2
  {
    if rows == [] then "" else RowText(rows[0]) + Text(rows[1..])
  }

  /** `writer.writerow`: rows are appended one by one. */
  lemma {:induction false} TextSnoc(rows: seq<seq<string>>, row: seq<string>)
    requires Writable(rows) && |row| >= 2
    ensures Text(rows + [row]) == Text(rows) + RowText(row)
  {
    if rows == [] {
      assert [row][1..] == [] && rows + [row] == [row];
      assert RowText(row) + "" == "" + RowText(row);
    } else {
      TextSnoc(rows[1..], row);
      assert (rows + [row])[1..] == rows[1..] + [row];
      assert RowText(rows[0]) + (Text(rows[1..]) + RowText(row)) == Text(rows) + RowText(row);
    }
  }

  // ---- Reading ----

  datatype Mode = StartRecord | StartField | InField | InQuoted | QuoteInQuoted | EatNewline

  datatype Reader = Reader(rows: seq<seq<string>>, row: seq<string>, field: string, mode: Mode) {
    function Save(): Reader { this.(row := row + [field], field := "") }

    function EndRow(next: Mode): Reader { Reader(rows + [row], [], "", next) }
  }

  function Step(r: Reader, c: char): Reader
  {
    match r.mode
    case EatNewline =>
      if c == '\n' || c == '\r' then r else FirstOfRecord(r, c)
    case StartRecord => FirstOfRecord(r, c)
    case StartField => FirstOfField(r, c)
    case InField =>
      if c == '\n' then r.Save().EndRow(StartRecord)
      else if c == '\r' then r.Save().EndRow(EatNewline)
      else if c == ',' then r.Save().(mode := StartField)
      else r.(field := r.field + [c])
    case InQuoted =>
      if c == '"' then r.(mode := QuoteInQuoted) else r.(field := r.field + [c])
    case QuoteInQuoted =>
      if c == '"' then r.(field := r.field + [c], mode := InQuoted)
      else if c == ',' then r.Save().(mode := StartField)
      else if c == '\n' then r.Save().EndRow(StartRecord)
      else if c == '\r' then r.Save().EndRow(EatNewline)
      else r.(field := r.field + [c], mode := InField)
  }

  function FirstOfRecord(r: Reader, c: char): Reader
  {
    if c == '\n' then r.EndRow(StartRecord)
    else if c == '\r' then r.EndRow(EatNewline)
    else FirstOfField(r, c)
  }

  function FirstOfField(r: Reader, c: char): Reader
  {
    if c == '\n' then r.Save().EndRow(StartRecord)
    else if c == '\r' then r.Save().EndRow(EatNewline)
    else if c == '"' then r.(mode := InQuoted)
    else if c == ',' then r.Save().(mode := StartField)
    else r.(field := r.field + [c], mode := InField)
  }

  function Run(r: Reader, text: string): Reader
    decreases |text|
  {
    if text == "" then r else Run(Step(r, text[0]), text[1..])
  }

  /** Reading a whole text; an unfinished last row still counts. */
  function Read(text: string): seq<seq<string>>
  {
    var r := Run(Reader([], [], "", StartRecord), text);
    if r.mode in {StartRecord, EatNewline} then r.rows else r.Save().EndRow(StartRecord).rows
  }

  // ---- The round trip ----

  lemma {:induction false} RunConcat(r: Reader, a: string, b: string)
    ensures Run(r, a + b) == Run(Run(r, a), b)
    decreases |a|
  {
    if a == "" {
      assert a + b == b;
    } else {
      RunConcat(Step(r, a[0]), a[1..], b);
      assert (a + b)[1..] == a[1..] + b;
    }
  }

  lemma RunOne(r: Reader, c: char)
    ensures Run(r, [c]) == Step(r, c)
  {
    assert [c][1..] == "";
  }

  /** Inside quotes, doubled text is read back as it was. */
  lemma {:induction false} RunDoubled(r: Reader, f: string)
    requires r.mode == InQuoted
    ensures Run(r, Doubled(f)) == r.(field := r.field + f)
    decreases |f|
  {
    if f == "" {
      assert r.field + f == r.field;
    } else {
      var head := if f[0] == '"' then "\"\"" else [f[0]];
      var r1 := r.(field := r.field + [f[0]]);
      assert Run(r, head) == r1 by {
        if f[0] == '"' {
          assert "\"\""[1..] == "\"";
          RunOne(r.(mode := QuoteInQuoted), '"');
        } else {
          RunOne(r, f[0]);
        }
      }
      RunConcat(r, head, Doubled(f[1..]));
      RunDoubled(r1, f[1..]);
      assert r.field + [f[0]] + f[1..] == r.field + f;
    }
  }

  lemma {:induction false} RunPlain(r: Reader, f: string)
    requires r.mode == InField && !NeedsQuotes(f)
    ensures Run(r, f) == r.(field := r.field + f)
    decreases |f|
  {
    if f == "" {
      assert r.field + f == r.field;
    } else {
      assert !Special(f[0]);
      assert !NeedsQuotes(f[1..]) by { assert forall i :: 0 <= i < |f| - 1 ==> f[1..][i] == f[i + 1]; }
      RunPlain(r.(field := r.field + [f[0]]), f[1..]);
      assert r.field + [f[0]] + f[1..] == r.field + f;
    }
  }

  /** At the start of a field; the first field of a row starts like any other, because a
      written row never begins with a line end. */
  ghost predicate AtField(r: Reader)
  {
    r.field == "" && (r.mode == StartField || (r.mode == StartRecord && r.row == []))
  }

  /** A written field, then the separator that follows it. */
  lemma RunField(r: Reader, f: string, sep: char)
    requires AtField(r) && (sep == ',' || sep == '\n')
    requires r.mode == StartRecord ==> sep == ','
    ensures Run(r, Field(f) + [sep]) ==
            if sep == ',' then Reader(r.rows, r.row + [f], "", StartField)
            else Reader(r.rows + [r.row + [f]], [], "", StartRecord)
  {
    hide Run;
    RunConcat(r, Field(f), [sep]);
    RunOne(Run(r, Field(f)), sep);
    if NeedsQuotes(f) {
      RunQuoted(r, f);
    } else if f != "" {
      RunUnquoted(r, f);
    } else {
      RunNothing(r);
    }
  }

  lemma RunNothing(r: Reader)
    ensures Run(r, "") == r
  {
  }

  lemma RunQuoted(r: Reader, f: string)
    requires AtField(r)
    ensures Run(r, "\"" + Doubled(f) + "\"") == r.(field := f, mode := QuoteInQuoted)
  {
    hide Run, Doubled;
    var q := r.(mode := InQuoted);
    RunConcat(r, "\"" + Doubled(f), "\"");
    RunConcat(r, "\"", Doubled(f));
    RunOne(r, '"');
    RunDoubled(q, f);
    RunOne(q.(field := "" + f), '"');
    assert "" + f == f;
  }

  lemma RunUnquoted(r: Reader, f: string)
    requires AtField(r) && f != "" && !NeedsQuotes(f)
    ensures Run(r, f) == r.(field := f, mode := InField)
  {
    hide Run;
    assert !Special(f[0]);
    assert !NeedsQuotes(f[1..]) by { assert forall i :: 0 <= i < |f| - 1 ==> f[1..][i] == f[i + 1]; }
    RunOne(r, f[0]);
    RunConcat(r, [f[0]], f[1..]);
    RunPlain(Reader(r.rows, r.row, [f[0]], InField), f[1..]);
    assert [f[0]] + f[1..] == f && "" + [f[0]] == [f[0]];
  }

  lemma {:induction false} RunRow(r: Reader, row: seq<string>)
    requires AtField(r) && row != [] && (r.mode == StartRecord ==> |row| >= 2)
    ensures Run(r, RowText(row)) == Reader(r.rows + [r.row + row], [], "", StartRecord)
    decreases |row|
  {
    hide Run, Field;
    if |row| == 1 {
      RunField(r, row[0], '\n');
      assert row == [row[0]];
    } else {
      var r1 := Reader(r.rows, r.row + [row[0]], "", StartField);
      RunField(r, row[0], ',');
      RunConcat(r, Field(row[0]) + ",", RowText(row[1..]));
      RunRow(r1, row[1..]);
      assert r.row + [row[0]] + row[1..] == r.row + row;
    }
  }

  lemma {:induction false} RunText(rows: seq<seq<string>>, done: seq<seq<string>>)
    requires Writable(rows)
    ensures Run(Reader(done, [], "", StartRecord), Text(rows)) == Reader(done + rows, [], "", StartRecord)
  {
    if rows == [] {
      assert done + rows == done;
    } else {
      var r := Reader(done, [], "", StartRecord);
      RunConcat(r, RowText(rows[0]), Text(rows[1..]));
      RunRow(r, rows[0]);
      assert [] + rows[0] == rows[0];
      RunText(rows[1..], done + [rows[0]]);
      assert done + [rows[0]] + rows[1..] == done + rows;
    }
  }

  /** What the writer writes, whatever characters the fields hold, the reader reads back. */
  lemma RoundTrip(rows: seq<seq<string>>)
    requires Writable(rows)
    ensures Read(Text(rows)) == rows
  {
    RunText(rows, []);
    assert [] + rows == rows;
  }

  /** Quoting is minimal: a field is written as it is exactly if it holds none of the four
      characters, and otherwise between quotes with its own quotes doubled. */
  lemma {:induction false} QuotedExactly(f: string)
    ensures ',' in f || '"' in f || '\n' in f || '\r' in f <==> Field(f) != f
    ensures Field(f) == f || Field(f) == "\"" + Doubled(f) + "\""
    ensures '"' !in f ==> Doubled(f) == f
  {
    DoubledLength(f);
    if f != "" && '"' !in f {
      QuotedExactly(f[1..]);
      assert f == [f[0]] + f[1..];
    }
    if NeedsQuotes(f) { assert |Field(f)| > |f|; }
  }

  lemma {:induction false} DoubledLength(f: string)
    ensures |Doubled(f)| >= |f|
  {
    if f != "" { DoubledLength(f[1..]); }
  }
}
