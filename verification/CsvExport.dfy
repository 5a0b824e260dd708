/**
 * The CSV exporter (src/lib/csv-export.ts), read back by a parser for the format of
 * section 2 of RFC 4180.
 */
module CsvExport {
  import opened Text

  /** A cell, with the text String(), toISOString() or JSON.stringify() gives for it. */
  datatype Cell = Null | Text(text: string) | Printed(text: string)

  function FormatValue(c: Cell): string {
    match c
    case Null => ""
    case Text(text) => text
    case Printed(text) => text
  }

  predicate NeedsQuotes(s: string) {
    exists i :: 0 <= i < |s| && (s[i] == ',' || s[i] == '"' || s[i] == '\n' || s[i] == '\r')
  }

  function QuoteField(s: string): string {
    if NeedsQuotes(s) then "\"" + Doubled(s, '\"') + "\"" else s
  }

  const CRLF := "\r\n"

  function CsvLine(fields: seq<string>): string {
    if fields == [] then ""
    else if |fields| == 1 then QuoteField(fields[0])
    else QuoteField(fields[0]) + ("," + CsvLine(fields[1..]))
  }

  /** The exported text of some records: every line ends in CRLF. */
  function CsvText(records: seq<seq<string>>): string {
    if records == [] then "" else CsvLine(records[0]) + (CRLF + CsvText(records[1..]))
  }

  function Formatted(row: seq<Cell>): seq<string> {
    seq(|row|, i requires 0 <= i < |row| => FormatValue(row[i]))
  }

  function Records(columns: seq<string>, rows: seq<seq<Cell>>): seq<seq<string>> {
    [columns] + seq(|rows|, i requires 0 <= i < |rows| => Formatted(rows[i]))
  }

  function JoinLines(lines: seq<string>): string {
    if |lines| == 0 then "" else if |lines| == 1 then lines[0] else lines[0] + CRLF + JoinLines(lines[1..])
  }

  method ToCsv(columns: seq<string>, rows: seq<seq<Cell>>) returns (r: string)
    ensures r == CsvText(Records(columns, rows))
  {
    var lines := [CsvLine(columns)];
    for i := 0 to |rows|
      invariant |lines| == i + 1
      invariant forall k :: 0 <= k <= i ==> lines[k] == CsvLine(Records(columns, rows)[k])
    {
      lines := lines + [CsvLine(Formatted(rows[i]))];
    }
    r := JoinLines(lines) + CRLF;
    LinesAreRecords(lines, Records(columns, rows));
  }

  lemma LinesAreRecords(lines: seq<string>, records: seq<seq<string>>)
    requires |lines| == |records| > 0
    requires forall k :: 0 <= k < |lines| ==> lines[k] == CsvLine(records[k])
    ensures JoinLines(lines) + CRLF == CsvText(records)
  {
    if |lines| == 1 {
      assert CsvText(records[1..]) == "";
      assert CRLF + "" == CRLF;
    } else {
      LinesAreRecords(lines[1..], records[1..]);
      Assoc(lines[0] + CRLF, JoinLines(lines[1..]), CRLF);
      Assoc(lines[0], CRLF, CsvText(records[1..]));
    }
  }

  // ---- The reference parser -------------------------------------------------------

  datatype Parsed<T> = Bad | Good(value: T, rest: string)

  /** A character that cannot stand in an unquoted field. */
  predicate IsSpecial(c: char) {
    c == ',' || c == '"' || c == '\r' || c == '\n'
  }

  function ParseBare(s: string): (r: Parsed<string>)
    ensures r.Good? && |r.rest| <= |s|
  {
    if s == "" || IsSpecial(s[0]) then Good("", s)
    else
      var r := ParseBare(s[1..]);
      Good([s[0]] + r.value, r.rest)
  }

  /** The inside of a quoted field and its closing quote. */
  function ParseQuoted(s: string): (r: Parsed<string>)
    ensures r.Good? ==> |r.rest| < |s|
  {
    if s == "" then Bad
    else if s[0] == '"' && (|s| < 2 || s[1] != '"') then Good("", s[1..])
    else
      var r := ParseQuoted(s[if s[0] == '"' then 2 else 1..]);
      if r.Bad? then Bad else Good([s[0]] + r.value, r.rest)
  }

  function ParseField(s: string): (r: Parsed<string>)
    ensures r.Good? ==> |r.rest| <= |s|
  {
    if s != "" && s[0] == '"' then ParseQuoted(s[1..]) else ParseBare(s)
  }

  /** Fields up to the end of the line; a record has at least one. */
  function ParseRecord(s: string): (r: Parsed<seq<string>>)
    ensures r.Good? ==> r.value != [] && |r.rest| <= |s|
    ensures r.Good? && s != "" ==> |r.rest| < |s|
    decreases |s|
  {
    var f := ParseField(s);
    if f.Bad? then Bad
    else if f.rest == "" then Good([f.value], "")
    else if Begins(f.rest, '\r', '\n') then Good([f.value], f.rest[2..])
    else if f.rest[0] == ',' then
      var r := ParseRecord(f.rest[1..]);
      if r.Bad? then Bad else Good([f.value] + r.value, r.rest)
    else Bad
  }

  datatype Csv = Malformed | Csv(records: seq<seq<string>>)

  function ParseCsv(s: string): (r: Csv)
    ensures r.Csv? ==> forall i :: 0 <= i < |r.records| ==> r.records[i] != []
    decreases |s|
  {
    if s == "" then Csv([])
    else
      var r := ParseRecord(s);
      if r.Bad? then Malformed
      else
        var t := ParseCsv(r.rest);
        if t.Malformed? then Malformed else Csv([r.value] + t.records)
  }

  // ---- The round trip -------------------------------------------------------------

  /** What follows a field in the exported text. */
  predicate EndsField(r: string) {
    Begins(r, '\r', '\n') || (r != "" && r[0] == ',')
  }

  lemma QuotedStep(c: char, x: string)
    ensures c != '"' ==>
      ParseQuoted([c] + x) == (var r := ParseQuoted(x); if r.Bad? then Bad else Good([c] + r.value, r.rest))
    ensures ParseQuoted("\"\"" + x) ==
      var r := ParseQuoted(x); if r.Bad? then Bad else Good("\"" + r.value, r.rest)
  {
    assert ([c] + x)[1..] == x;
    assert ("\"\"" + x)[2..] == x;
  }

  lemma QuotedEnd(r: string)
    requires r == "" || r[0] != '"'
    ensures ParseQuoted("\"" + r) == Good("", r)
  {
    assert ("\"" + r)[1..] == r;
  }

  lemma QuotedRoundTrip(s: string, r: string)
    requires EndsField(r)
    ensures ParseQuoted(Doubled(s, '\"') + ("\"" + r)) == Good(s, r)
  {
    hide ParseQuoted;
    if s == "" {
      QuotedEnd(r);
      assert "" + ("\"" + r) == "\"" + r;
    } else {
      var d := Doubled(s[1..], '\"');
      QuotedRoundTrip(s[1..], r);
      QuotedStep(s[0], d + ("\"" + r));
      assert s == [s[0]] + s[1..];
      if s[0] == '"' {
        Assoc("\"\"", d, "\"" + r);
      } else {
        Assoc([s[0]], d, "\"" + r);
      }
    }
  }

  lemma BareStep(c: char, x: string)
    requires !IsSpecial(c)
    ensures ParseBare([c] + x) == Good([c] + ParseBare(x).value, ParseBare(x).rest)
  {
    assert ([c] + x)[1..] == x;
  }

  lemma BareRoundTrip(s: string, r: string)
    requires EndsField(r)
    requires forall i :: 0 <= i < |s| ==> !IsSpecial(s[i])
    ensures ParseBare(s + r) == Good(s, r)
  {
    if s == "" {
      assert s + r == r;
    } else {
      BareRoundTrip(s[1..], r);
      BareStep(s[0], s[1..] + r);
      assert s == [s[0]] + s[1..];
      Assoc([s[0]], s[1..], r);
    }
  }

  lemma FieldRoundTrip(s: string, r: string)
    requires EndsField(r)
    ensures ParseField(QuoteField(s) + r) == Good(s, r)
  {
    hide ParseQuoted, ParseBare, Doubled;
    if NeedsQuotes(s) {
      var inner := Doubled(s, '\"') + ("\"" + r);
      QuotedRoundTrip(s, r);
      assert QuoteField(s) + r == "\"" + inner;
      assert ("\"" + inner)[1..] == inner;
    } else {
      assert forall i :: 0 <= i < |s| ==> !IsSpecial(s[i]);
      BareRoundTrip(s, r);
      assert (s + r)[0] == if s != "" then s[0] else r[0];
    }
  }

  lemma LastField(s: string, value: string, r: string)
    requires ParseField(s) == Good(value, CRLF + r)
    ensures ParseRecord(s) == Good([value], r)
  {
    hide ParseField;
    assert (CRLF + r)[2..] == r;
  }

  lemma NextField(s: string, value: string, r: string)
    requires ParseField(s) == Good(value, "," + r)
    ensures ParseRecord(s) ==
      var t := ParseRecord(r); if t.Bad? then Bad else Good([value] + t.value, t.rest)
  {
    hide ParseField;
    assert ("," + r)[1..] == r;
  }

  lemma RecordRoundTrip(fields: seq<string>, r: string)
    requires fields != []
    ensures ParseRecord(CsvLine(fields) + (CRLF + r)) == Good(fields, r)
  {
    hide ParseField, QuoteField, ParseRecord;
    var tail := CRLF + r;
    var first := QuoteField(fields[0]);
    if |fields| == 1 {
      FieldRoundTrip(fields[0], tail);
      LastField(first + tail, fields[0], r);
      assert fields == [fields[0]];
    } else {
      var more := CsvLine(fields[1..]);
      RecordRoundTrip(fields[1..], r);
      Assoc(",", more, tail);
      Assoc(first, "," + more, tail);
      FieldRoundTrip(fields[0], "," + (more + tail));
      NextField(first + ("," + (more + tail)), fields[0], more + tail);
      assert fields == [fields[0]] + fields[1..];
    }
  }

  lemma RecordsRoundTrip(records: seq<seq<string>>)
    requires forall i :: 0 <= i < |records| ==> records[i] != []
    ensures ParseCsv(CsvText(records)) == Csv(records)
  {
    hide ParseRecord, CsvLine;
    if records != [] {
      RecordRoundTrip(records[0], CsvText(records[1..]));
      RecordsRoundTrip(records[1..]);
    }
  }

  /**
   * The exported text parses back to the header and the formatted rows, for any field
   * text, exactly when every record has a field: a record without any prints as an empty
   * line, which every reader takes for one empty field.
   */
  lemma CsvRoundTrip(columns: seq<string>, rows: seq<seq<Cell>>)
    ensures ParseCsv(CsvText(Records(columns, rows))) == Csv(Records(columns, rows))
       <==> columns != [] && forall i :: 0 <= i < |rows| ==> rows[i] != []
  {
    var records := Records(columns, rows);
    assert forall i :: 0 <= i < |rows| ==> records[i + 1] == Formatted(rows[i]);
    assert records[0] == columns;
    if columns != [] && forall i :: 0 <= i < |rows| ==> rows[i] != [] {
      forall i | 0 <= i < |records|
        ensures records[i] != []
      {
        assert i > 0 ==> records[i] == Formatted(rows[i - 1]);
      }
      RecordsRoundTrip(records);
    }
  }
}
