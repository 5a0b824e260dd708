/**
 * The INSERT exporter (src/lib/csv-export.ts) and what the splitter makes of its output.
 *
 * The notion at work is solid text: text the splitter passes over as part of one
 * statement, whatever stands before and after it. Printed literals, names and numbers are
 * solid, and so is any row of them with commas between; hence one row, one statement.
 */
module InsertExport {
  import opened Text
  import opened SqlTokens
  import opened SqlSplitter
  import opened SplitterLaws

  /** A cell, with the text JavaScript's String() or toISOString() gives where one is used. */
  datatype Value =
    | Null
    | Number(text: string)
    | Bool(b: bool)
    | Date(iso: string)
    | Other(text: string)
  {
    /** The texts JavaScript can produce for a number or a valid date. */
    predicate Valid() {
      match this
      case Number(text) => IsNumberText(text)
      case Date(iso) => IsIsoText(iso)
      case _ => true
    }
  }

  predicate IsNumberText(s: string) {
    s == "NaN" || s == "Infinity" || s == "-Infinity" || IsDecimalText(s)
  }

  /** A minus sign stands first or after the exponent mark. */
  predicate NumberCharAt(s: string, i: nat)
    requires i < |s|
  {
    if s[i] == '-' then i == 0 || s[i - 1] == 'e'
    else IsDigit(s[i]) || s[i] == '.' || s[i] == 'e' || s[i] == '+'
  }

  predicate IsDecimalText(s: string) {
    s != "" && IsDigit(s[|s| - 1]) && forall i :: 0 <= i < |s| ==> NumberCharAt(s, i)
  }

  predicate IsIsoText(s: string) {
    |s| >= 24 && forall i :: 0 <= i < |s| ==>
      IsDigit(s[i]) || s[i] == '-' || s[i] == ':' || s[i] == '.' || s[i] == 'T' || s[i] == 'Z' || s[i] == '+'
  }

  const MIDNIGHT := "T00:00:00.000Z"

  function SpaceForT(s: string): (r: string)
    ensures |r| == |s|
  {
    if s == "" then "" else if s[0] == 'T' then " " + s[1..] else [s[0]] + SpaceForT(s[1..])
  }

  function Take(s: string, n: nat): string {
    if n <= |s| then s[..n] else s
  }

  function InsertValue(v: Value): string {
    match v
    case Null => "NULL"
    case Number(text) => text
    case Bool(b) => if b then "true" else "false"
    case Date(iso) =>
      if |MIDNIGHT| <= |iso| && iso[|iso| - |MIDNIGHT|..] == MIDNIGHT then
        "TO_DATE(" + ("'" + Take(iso, 10) + "'") + "," + "'YYYY-MM-DD'" + ")"
      else "TIMESTAMP " + ("'" + Take(SpaceForT(iso), 19) + "'")
    case Other(text) => "'" + Doubled(text, '\'') + "'"
  }

  function Join(parts: seq<string>, sep: string): string {
    if parts == [] then ""
    else if |parts| == 1 then parts[0]
    else parts[0] + sep + Join(parts[1..], sep)
  }

  function Quoted(name: string): string {
    "\"" + name + "\""
  }

  function Names(columns: seq<string>): seq<string> {
    seq(|columns|, i requires 0 <= i < |columns| => Quoted(columns[i]))
  }

  function Cells(row: seq<Value>): seq<string> {
    seq(|row|, i requires 0 <= i < |row| => InsertValue(row[i]))
  }

  /** What every line starts with. */
  function Head(table: string, columns: seq<string>): string {
    "INSERT INTO " + Quoted(table) + " (" + Join(Names(columns), ", ") + ") VALUES ("
  }

  /** One printed line, without its semicolon. */
  function InsertLine(table: string, columns: seq<string>, row: seq<Value>): string {
    Head(table, columns) + (Join(Cells(row), ", ") + ")")
  }

  function InsertLines(table: string, columns: seq<string>, rows: seq<seq<Value>>): seq<string> {
    seq(|rows|, i requires 0 <= i < |rows| => InsertLine(table, columns, rows[i]))
  }

  /** The exported text: every line ends in a semicolon and a newline. */
  function InsertText(lines: seq<string>): string {
    if lines == [] then "" else lines[0] + ";\n" + InsertText(lines[1..])
  }

  method ToInsertSql(table: string, columns: seq<string>, rows: seq<seq<Value>>) returns (r: string)
    ensures r == InsertText(InsertLines(table, columns, rows))
  {
    if |rows| == 0 {
      return "";
    }
    var colList := Join(Names(columns), ", ");
    var lines: seq<string> := [];
    for i := 0 to |rows|
      invariant |lines| == i
      invariant forall k :: 0 <= k < i ==> lines[k] == InsertLine(table, columns, rows[k]) + ";"
    {
      var values := Join(Cells(rows[i]), ", ");
      var line := "INSERT INTO " + Quoted(table) + " (" + colList + ") VALUES (" + values + ");";
      assert line == Head(table, columns) + (values + ")") + ";";
      lines := lines + [line];
    }
    r := Join(lines, "\n") + "\n";
    JoinLines(InsertLines(table, columns, rows), lines);
  }

  lemma JoinLines(bare: seq<string>, lines: seq<string>)
    requires |bare| == |lines| > 0
    requires forall k :: 0 <= k < |bare| ==> lines[k] == bare[k] + ";"
    ensures Join(lines, "\n") + "\n" == InsertText(bare)
  {
    if |bare| == 1 {
      assert InsertText(bare[1..]) == "";
      assert bare[0] + ";\n" + "" == lines[0] + "\n";
    } else {
      JoinLines(bare[1..], lines[1..]);
      assert lines[0] + "\n" + Join(lines[1..], "\n") + "\n" == bare[0] + ";\n" + InsertText(bare[1..]);
    }
  }

  // ---- Reading the printed text back ----------------------------------------------

  /** What may follow a name or value in the printed text. */
  predicate Ends(r: string) {
    r != "" && (r[0] == ' ' || r[0] == ',' || r[0] == ')' || r[0] == ';')
  }

  /** f is whole tokens, none of them a terminator, whenever a delimiter follows it. */
  ghost predicate Solid(f: string) {
    forall r, buf :: Ends(r) ==> Cut(Lex(f + r), buf) == Cut(Lex(r), buf + f)
  }

  /** The same, at the start of a statement. */
  ghost predicate Whole(f: string) {
    forall r, buf :: Ends(r) && IsBlank(buf) ==> Cut(Lex(f + r), buf) == Cut(Lex(r), buf + f)
  }

  lemma SolidQuiet(f: string)
    requires forall i :: 0 <= i < |f| ==> IsPlain(f[i]) && f[i] != ';'
    ensures Solid(f)
  {
    hide Cut, Lex;
    forall r, buf | Ends(r)
      ensures Cut(Lex(f + r), buf) == Cut(Lex(r), buf + f)
    {
      CutQuiet(f, r, buf);
    }
  }

  lemma SolidAppend(f: string, g: string)
    requires Solid(f) && Solid(g) && Ends(g)
    ensures Solid(f + g)
  {
    hide Cut, Lex;
    forall r, buf | Ends(r)
      ensures Cut(Lex(f + g + r), buf) == Cut(Lex(r), buf + (f + g))
    {
      assert f + g + r == f + (g + r);
      assert Ends(g + r);
      assert Cut(Lex(f + (g + r)), buf) == Cut(Lex(g + r), buf + f);
      assert buf + f + g == buf + (f + g);
    }
  }

  lemma SolidPrefix(f: string, g: string)
    requires forall i :: 0 <= i < |f| ==> IsPlain(f[i]) && f[i] != ';'
    requires Solid(g)
    ensures Solid(f + g)
  {
    hide Cut, Lex;
    forall r, buf | Ends(r)
      ensures Cut(Lex(f + g + r), buf) == Cut(Lex(r), buf + (f + g))
    {
      assert f + g + r == f + (g + r);
      CutQuiet(f, g + r, buf);
      assert Cut(Lex(g + r), buf + f) == Cut(Lex(r), buf + f + g);
      assert buf + f + g == buf + (f + g);
    }
  }

  /** A closed region is one token and goes to the buffer whole. */
  lemma CutRegion(m: State, f: string, r: string, buf: string)
    requires f != "" && !m.InCode? && Opener(f + r) == Opening(m, 1)
    requires m.SpanOf((f + r)[1..]) == Span(|f| - 1, true)
    ensures Cut(Lex(f + r), buf) == Cut(Lex(r), buf + f)
  {
    hide Cut, Lex, Opener;
    var s := f + r;
    LexRegion(m, 1, s);
    assert s[..|f|] == f && s[|f|..] == r;
    CutStep(Token(m.Kind(), f, true), Lex(r), buf);
  }

  /** A printed literal is one token, whatever the value holds. */
  lemma SolidLiteral(w: string)
    ensures Solid("'" + Doubled(w, '\'') + "'")
  {
    hide Cut, Lex;
    var f := "'" + Doubled(w, '\'') + "'";
    forall r, buf | Ends(r)
      ensures Cut(Lex(f + r), buf) == Cut(Lex(r), buf + f)
    {
      DoubledSpan(w, r, '\'');
      assert (f + r)[1..] == Doubled(w, '\'') + ("'" + r);
      CutRegion(InSingleString, f, r, buf);
    }
  }

  /** At i, s has a character of code that opens nothing: plain, or a lone minus sign. */
  predicate OrdinaryAt(s: string, i: nat)
    requires i < |s|
  {
    if s[i] == '-' then i + 1 < |s| && s[i + 1] != '-' else IsPlain(s[i]) && s[i] != ';'
  }

  lemma CutOrdinary(f: string, r: string, buf: string)
    requires forall i :: 0 <= i < |f| ==> OrdinaryAt(f + r, i)
    ensures Cut(Lex(f + r), buf) == Cut(Lex(r), buf + f)
  {
    hide Cut, Lex;
    if f == "" {
      assert f + r == r && buf + f == buf;
    } else {
      var s := f + r;
      assert OrdinaryAt(s, 0);
      assert s[1..] == f[1..] + r && s[..1] == f[..1] == [f[0]];
      LexCode(s);
      CutStep(Token(Code, s[..1], true), Lex(s[1..]), buf);
      forall i | 0 <= i < |f[1..]|
        ensures OrdinaryAt(f[1..] + r, i)
      {
        assert OrdinaryAt(s, i + 1);
      }
      CutOrdinary(f[1..], r, buf + f[..1]);
      assert buf + f[..1] + f[1..] == buf + f;
    }
  }

  lemma SolidNumber(f: string)
    requires IsNumberText(f)
    ensures Solid(f)
  {
    hide Cut, Lex;
    if f == "NaN" || f == "Infinity" {
      SolidQuiet("NaN");
      SolidQuiet("Infinity");
      return;
    }
    forall r, buf | Ends(r)
      ensures Cut(Lex(f + r), buf) == Cut(Lex(r), buf + f)
    {
      forall i | 0 <= i < |f|
        ensures OrdinaryAt(f + r, i)
      {
        NumberOrdinary(f, r, i);
      }
      CutOrdinary(f, r, buf);
    }
  }

  lemma NumberOrdinary(f: string, r: string, i: nat)
    requires f == "-Infinity" || IsDecimalText(f)
    requires i < |f|
    ensures OrdinaryAt(f + r, i)
  {
    assert (f + r)[i] == f[i];
    if f == "-Infinity" {
      var g := "Infinity";
      assert forall k :: 0 <= k < |g| ==> IsPlain(g[k]) && g[k] != ';';
      assert i > 0 ==> f[i] == g[i - 1];
      assert (f + r)[1] == 'I';
    } else {
      assert NumberCharAt(f, i);
      if f[i] == '-' {
        assert i + 1 < |f| && NumberCharAt(f, i + 1);
        assert (f + r)[i + 1] == f[i + 1];
      }
    }
  }

  lemma SolidDateLiteral(x: string)
    requires forall i :: 0 <= i < |x| ==> x[i] != '\''
    ensures Solid("'" + x + "'")
  {
    DoubledPlain(x, '\'');
    SolidLiteral(x);
  }

  lemma SpaceForTNoQuote(s: string)
    requires forall i :: 0 <= i < |s| ==> s[i] != '\''
    ensures forall i :: 0 <= i < |s| ==> SpaceForT(s)[i] != '\''
  {
    if s != "" && s[0] != 'T' {
      SpaceForTNoQuote(s[1..]);
    }
  }

  lemma SolidToDate(x: string)
    requires forall i :: 0 <= i < |x| ==> x[i] != '\''
    ensures Solid("TO_DATE(" + ("'" + x + "'") + "," + "'YYYY-MM-DD'" + ")")
  {
    hide Solid;
    var lit, fmt := "'" + x + "'", "'YYYY-MM-DD'";
    SolidDateLiteral(x);
    SolidDateLiteral("YYYY-MM-DD");
    assert fmt == "'" + "YYYY-MM-DD" + "'";
    SolidQuiet(")");
    SolidAppend(fmt, ")");
    SolidPrefix(",", fmt + ")");
    SolidAppend(lit, "," + (fmt + ")"));
    SolidPrefix("TO_DATE(", lit + ("," + (fmt + ")")));
    assert "TO_DATE(" + (lit + ("," + (fmt + ")"))) == "TO_DATE(" + lit + "," + fmt + ")";
  }

  lemma SolidValue(v: Value)
    requires v.Valid()
    ensures Solid(InsertValue(v))
  {
    hide Solid;
    match v
    case Null => SolidQuiet("NULL");
    case Number(text) => SolidNumber(text);
    case Bool(b) => SolidQuiet(if b then "true" else "false");
    case Date(iso) =>
      SpaceForTNoQuote(iso);
      SolidToDate(Take(iso, 10));
      SolidDateLiteral(Take(SpaceForT(iso), 19));
      SolidPrefix("TIMESTAMP ", "'" + Take(SpaceForT(iso), 19) + "'");
    case Other(text) => SolidLiteral(text);
  }

  lemma SolidJoin(parts: seq<string>)
    requires forall i :: 0 <= i < |parts| ==> Solid(parts[i])
    ensures Solid(Join(parts, ", "))
  {
    hide Solid;
    if parts == [] {
      SolidQuiet("");
    } else if |parts| > 1 {
      var rest := Join(parts[1..], ", ");
      SolidJoin(parts[1..]);
      SolidPrefix(", ", rest);
      SolidAppend(parts[0], ", " + rest);
      assert parts[0] + (", " + rest) == Join(parts, ", ");
    }
  }

  /** The cells of a row and the parenthesis that closes them. */
  lemma SolidRow(row: seq<Value>)
    requires forall i :: 0 <= i < |row| ==> row[i].Valid()
    ensures Solid(Join(Cells(row), ", ") + ")")
  {
    hide Solid;
    forall i | 0 <= i < |row|
      ensures Solid(Cells(row)[i])
    {
      SolidValue(row[i]);
    }
    SolidJoin(Cells(row));
    SolidQuiet(")");
    SolidAppend(Join(Cells(row), ", "), ")");
  }

  lemma InsertIsNotPlsql(line: string, ws: string)
    requires IsBlank(ws) && line != "" && line[0] == 'I'
    ensures !IsPlsql(ws + line)
    ensures !IsCommentsOnly(line)
  {
    TrimStartBlank(ws, line);
    NotWordAt(line, "DECLARE");
    NotWordAt(line, "BEGIN");
    NotWordAt(line, "CREATE");
  }

  /** A printed line, after at most the newline of the line before, is one statement. */
  lemma CutLine(line: string, rest: string, ws: string)
    requires Whole(line) && line != "" && line[0] == 'I' && line[|line| - 1] == ')'
    requires ws == "" || ws == "\n"
    ensures Cut(Lex(line + ";\n" + rest), ws) == [Segment(ws + line), Separator(";")] + Cut(Lex(rest), "\n")
    ensures Emit(ws + line) == [line]
  {
    hide Cut, Lex, IsPlsql, IsCommentsOnly;
    var r := ";" + ("\n" + rest);
    assert line + ";\n" + rest == line + r;
    assert Ends(r);
    assert Cut(Lex(line + r), ws) == Cut(Lex(r), ws + line);
    InsertIsNotPlsql(line, ws);
    SemicolonStep(ws + line, r);
    assert r[1..] == "\n" + rest;
    CutQuiet("\n", rest, "");
    assert "" + "\n" == "\n";
    TrimUnwrap(ws, line, "");
    assert ws + line + "" == ws + line;
  }

  lemma {:induction false} LinesRoundTrip(lines: seq<string>, ws: string)
    requires forall i :: 0 <= i < |lines| ==>
      Whole(lines[i]) && lines[i] != "" && lines[i][0] == 'I' && lines[i][|lines[i]| - 1] == ')'
    requires ws == "" || ws == "\n"
    ensures Statements(Cut(Lex(InsertText(lines)), ws)) == lines
    ensures Errors(Cut(Lex(InsertText(lines)), ws)) == []
  {
    if lines == [] {
      NothingLeft(ws);
    } else {
      hide Cut, Lex, Whole, Emit, Statements, Errors, InsertText;
      InsertTextCons(lines);
      CutLine(lines[0], InsertText(lines[1..]), ws);
      LinesRoundTrip(lines[1..], "\n");
      SegmentPieces(ws + lines[0], ";", Cut(Lex(InsertText(lines[1..])), "\n"));
      assert lines == [lines[0]] + lines[1..];
    }
  }

  lemma InsertTextCons(lines: seq<string>)
    requires lines != []
    ensures InsertText(lines) == lines[0] + ";\n" + InsertText(lines[1..])
  {
  }

  lemma NothingLeft(ws: string)
    requires ws == "" || ws == "\n"
    ensures Statements(Cut(Lex(""), ws)) == [] && Errors(Cut(Lex(""), ws)) == []
  {
    TrimUnwrap(ws, "", "");
    assert ws + "" + "" == ws;
  }
}
