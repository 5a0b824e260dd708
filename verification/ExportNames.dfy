/**
 * Which names the INSERT exporter (src/lib/csv-export.ts) can print: it does not escape
 * them. The export splits into its rows exactly when the head that all lines share, split
 * on its own, stays whole with its last parenthesis in code. That a good head is good for
 * every row rests on its lexing alike whatever follows; that a bad head is bad for some row
 * is seen on the row without cells.
 */
module ExportNames {
  import opened Text
  import opened SqlTokens
  import opened SqlSplitter
  import opened SplitterLaws
  import opened LexLaws
  import opened InsertExport

  /** The head is one segment and ends in code. */
  predicate HeadIsWhole(table: string, columns: seq<string>) {
    var h := Head(table, columns);
    Pieces(h) == [Segment(h)] && Lex(h) != [] && Lex(h)[|Lex(h)| - 1].Is('(')
  }

  predicate AllValid(rows: seq<seq<Value>>) {
    forall i, k :: 0 <= i < |rows| && 0 <= k < |rows[i]| ==> rows[i][k].Valid()
  }

  /** Splitting the export gives one statement per row, the printed line, and no error. */
  predicate SplitsIntoRows(table: string, columns: seq<string>, rows: seq<seq<Value>>) {
    var lines := InsertLines(table, columns, rows);
    Statements(Pieces(InsertText(lines))) == lines && Errors(Pieces(InsertText(lines))) == []
  }

  // ---- Tokens that are not cut ----------------------------------------------------

  /** The splitter cuts at this token, or gives up there. */
  predicate Stops(t: Token, rest: seq<Token>, buf: string) {
    || !t.closed
    || (t.Is(';') && !IsPlsql(buf))
    || (t.Is('/') && LineIsBlank(buf) && RestOfLineBlank(rest))
  }

  /** None of the tokens ts is cut when us follow. */
  predicate Passes(ts: seq<Token>, us: seq<Token>, buf: string) {
    ts == [] || (!Stops(ts[0], ts[1..] + us, buf) && Passes(ts[1..], us, buf + ts[0].text))
  }

  lemma {:induction false} PassesThrough(ts: seq<Token>, us: seq<Token>, buf: string)
    requires Passes(ts, us, buf)
    ensures Cut(ts + us, buf) == Cut(us, buf + TextOf(ts))
  {
    hide Cut, TextOf, IsPlsql, LineIsBlank, RestOfLineBlank;
    if ts == [] {
      TextOfNone();
      assert ts + us == us && buf + "" == buf;
    } else {
      assert ts + us == [ts[0]] + (ts[1..] + us);
      CutStep(ts[0], ts[1..] + us, buf);
      PassesThrough(ts[1..], us, buf + ts[0].text);
      TextOfCons(ts);
      Assoc(buf, ts[0].text, TextOf(ts[1..]));
    }
  }

  /** Cutting a token list stops at its first token that is not passed. */
  lemma {:induction false} FirstStop(ts: seq<Token>, buf: string) returns (j: nat)
    ensures j <= |ts| && Passes(ts[..j], ts[j..], buf)
    ensures j < |ts| ==> Stops(ts[j], ts[j + 1..], buf + TextOf(ts[..j]))
  {
    hide IsPlsql, LineIsBlank, RestOfLineBlank, TextOf, Stops;
    TextOfNone();
    j := 0;
    assert ts[..0] == [] && buf + "" == buf;
    if ts != [] && !Stops(ts[0], ts[1..], buf) {
      var i := FirstStop(ts[1..], buf + ts[0].text);
      j := i + 1;
      assert ts[..j][1..] == ts[1..][..i] && ts[1..][i..] == ts[j..];
      assert ts[1..] == ts[1..][..i] + ts[j..];
      TextOfCons(ts[..j]);
      Assoc(buf, ts[0].text, TextOf(ts[1..][..i]));
    }
  }

  lemma {:induction false} PassesPrefix(ts: seq<Token>, vs: seq<Token>, us: seq<Token>, buf: string)
    requires Passes(ts + vs, us, buf)
    ensures Passes(ts, vs + us, buf)
  {
    hide Stops;
    if ts != [] {
      assert (ts + vs)[1..] == ts[1..] + vs;
      assert ts[1..] + vs + us == ts[1..] + (vs + us);
      PassesPrefix(ts[1..], vs, us, buf + ts[0].text);
    }
  }

  lemma {:induction false} RestOfLineSeen(ts: seq<Token>, us: seq<Token>)
    requires ts != [] && ts[|ts| - 1].Is('(')
    ensures RestOfLineBlank(ts + us) <==> RestOfLineBlank(ts)
  {
    assert (ts + us)[1..] == ts[1..] + us;
    if |ts| > 1 {
      RestOfLineSeen(ts[1..], us);
    }
  }

  /** After a parenthesis it does not matter what follows. */
  lemma {:induction false} PassesWhateverFollows(ts: seq<Token>, us: seq<Token>, vs: seq<Token>, buf: string)
    requires ts != [] && ts[|ts| - 1].Is('(') && Passes(ts, us, buf)
    ensures Passes(ts, vs, buf)
  {
    hide RestOfLineBlank, IsPlsql, LineIsBlank;
    if |ts| > 1 {
      RestOfLineSeen(ts[1..], us);
      RestOfLineSeen(ts[1..], vs);
      PassesWhateverFollows(ts[1..], us, vs, buf + ts[0].text);
    }
  }

  /** Nor do blanks before the statement. */
  lemma {:induction false} PassesAfterBlank(ts: seq<Token>, us: seq<Token>, ws: string, buf: string)
    requires IsBlank(ws) && Passes(ts, us, buf)
    ensures Passes(ts, us, ws + buf)
  {
    hide RestOfLineBlank, IsPlsql, LineIsBlank;
    if ts != [] {
      PlsqlIgnoresBlank(ws, buf);
      LineIsBlankPrefix(ws, buf);
      PassesAfterBlank(ts[1..], us, ws, buf + ts[0].text);
      Assoc(ws, buf, ts[0].text);
    }
  }

  // ---- A good head is good for every row ------------------------------------------

  lemma BeforeParen(h: string)
    requires Lex(h) != [] && Lex(h)[|Lex(h)| - 1] == Token(Code, "(", true)
    ensures h == TextOf(Lex(h)[..|Lex(h)| - 1]) + "("
  {
    hide Lex, TextOf;
    var n, paren := |Lex(h)| - 1, Token(Code, "(", true);
    LexLossless(h);
    TextOfSplit(Lex(h), n);
    assert Lex(h)[n..] == [paren];
    TextOfCons([paren]);
    TextOfNone();
    assert [paren][1..] == [] && "(" + "" == "(";
  }

  /** Text that ends in a code parenthesis lexes the same whatever follows it. */
  lemma LexAfterParen(h: string, r: string)
    requires Lex(h) != [] && Lex(h)[|Lex(h)| - 1] == Token(Code, "(", true)
    ensures Lex(h + r) == Lex(h) + Lex(r)
  {
    hide Lex, FirstToken, TextOf;
    var us, paren := Lex(h)[..|Lex(h)| - 1], Token(Code, "(", true);
    assert Lex(h) == us + [paren];
    BeforeParen(h);
    LexAlone();
    forall i | 0 <= i < |us|
      ensures us[i].text != ""
    {
      TokenNotEmpty(h, i);
    }
    LexLocal(us, "(", "(" + r);
    Assoc(TextOf(us), "(", r);
    PlainToken("(" + r);
    assert ("(" + r)[..1] == "(" && ("(" + r)[1..] == r;
    assert us + ([paren] + Lex(r)) == us + [paren] + Lex(r);
  }

  lemma LexAlone()
    ensures Lex("(") == [Token(Code, "(", true)]
  {
    PlainToken("(");
    assert "("[..1] == "(" && "("[1..] == "";
  }

  lemma {:induction false} TokenNotEmpty(s: string, i: nat)
    requires i < |Lex(s)|
    ensures Lex(s)[i].text != ""
  {
    if i > 0 {
      TokenNotEmpty(s[|FirstToken(s).text|..], i - 1);
    }
  }

  lemma WholeSegmentPasses(s: string)
    requires Pieces(s) == [Segment(s)]
    ensures Passes(Lex(s), [], "")
  {
    hide Lex, Cut, Stops, TextOf;
    var ts := Lex(s);
    var j := FirstStop(ts, "");
    PassesThrough(ts[..j], ts[j..], "");
    assert ts == ts[..j] + ts[j..];
    if j < |ts| {
      assert ts[j..] == [ts[j]] + ts[j + 1..];
      StopCuts(ts[j], ts[j + 1..], "" + TextOf(ts[..j]));
    } else {
      assert ts[..j] == ts && ts[j..] == [];
    }
  }

  lemma StopCuts(t: Token, rest: seq<Token>, buf: string)
    requires Stops(t, rest, buf)
    ensures var ps := Cut([t] + rest, buf);
      && (!t.closed ==> |ps| == 1 && ps[0].Open?)
      && (t.closed ==> |ps| > 1 && ps[0] == Segment(buf) && ps[1].Separator? && ps == [ps[0], ps[1]] + ps[2..])
  {
    hide Cut;
    CutStep(t, rest, buf);
  }

  lemma HeadFirst(table: string, columns: seq<string>)
    ensures Head(table, columns)[..12] == "INSERT INTO " && Head(table, columns)[0] == 'I'
    ensures |Head(table, columns)| > 12 && Head(table, columns)[|Head(table, columns)| - 1] == '('
  {
    hide Join, Names;
    var h := Head(table, columns);
    var tail := Quoted(table) + " (" + Join(Names(columns), ", ") + ") VALUES (";
    assert h == "INSERT INTO " + tail;
  }

  lemma WholeHeadWholeLine(table: string, columns: seq<string>, row: seq<Value>)
    requires HeadIsWhole(table, columns) && forall i :: 0 <= i < |row| ==> row[i].Valid()
    ensures Whole(InsertLine(table, columns, row))
  {
    hide Cut, Lex, Head, Passes;
    var h := Head(table, columns);
    var cells := Join(Cells(row), ", ") + ")";
    SolidRow(row);
    WholeSegmentPasses(h);
    LexLossless(h);
    LexWellClosed(h);
    forall r, buf | Ends(r) && IsBlank(buf)
      ensures Cut(Lex(h + cells + r), buf) == Cut(Lex(r), buf + (h + cells))
    {
      LexAfterParen(h, cells + r);
      Assoc(h, cells, r);
      PassesWhateverFollows(Lex(h), [], Lex(cells + r), "");
      PassesAfterBlank(Lex(h), Lex(cells + r), buf, "");
      assert buf + "" == buf;
      PassesThrough(Lex(h), Lex(cells + r), buf);
      assert Cut(Lex(cells + r), buf + h) == Cut(Lex(r), buf + h + cells);
      Assoc(buf, h, cells);
    }
  }

  lemma WholeHeadSplits(table: string, columns: seq<string>, rows: seq<seq<Value>>)
    requires HeadIsWhole(table, columns) && AllValid(rows)
    ensures SplitsIntoRows(table, columns, rows)
  {
    hide Whole, HeadIsWhole, Head, Cut, Lex, Statements, Errors;
    var lines := InsertLines(table, columns, rows);
    HeadFirst(table, columns);
    forall i | 0 <= i < |lines|
      ensures Whole(lines[i]) && lines[i] != "" && lines[i][0] == 'I' && lines[i][|lines[i]| - 1] == ')'
    {
      WholeHeadWholeLine(table, columns, rows[i]);
    }
    LinesRoundTrip(lines, "");
  }

  // ---- A bad head fails on the row without cells ----------------------------------

  /** A closed region ends before a newline, or in something other than a parenthesis. */
  lemma RegionEnds(s: string)
    requires s != "" && FirstToken(s).closed && |FirstToken(s).text| < |s| && !Opener(s).state.InCode?
    ensures var w := |FirstToken(s).text|; s[w] == '\n' || (s[w - 1] != '(' && s[w - 1] != ')')
  {
    hide Opener;
    var o := Opener(s);
    var a := s[o.width..];
    var n := o.state.SpanOf(a).len;
    assert s[o.width + n] == a[n];
    assert n > 0 ==> s[o.width + n - 1] == a[n - 1];
    OpenerEnds(s);
  }

  /** A token that ends in a parenthesis, before something other than a newline, is that parenthesis. */
  lemma EndsInParen(s: string)
    requires s != "" && FirstToken(s).closed && |FirstToken(s).text| < |s|
    requires var w := |FirstToken(s).text|; s[w] != '\n' && (s[w - 1] == '(' || s[w - 1] == ')')
    ensures var t := FirstToken(s); t.kind == Code && |t.text| == 1
  {
    hide Opener;
    if !Opener(s).state.InCode? {
      RegionEnds(s);
    }
  }

  lemma OpenerEnds(s: string)
    requires s != ""
    ensures var o := Opener(s);
      && (o.state.InLineComment? ==> s[o.width - 1] == '-')
      && (o.state.InBlockComment? ==> s[o.width - 1] == '*')
  {
  }

  lemma {:induction false} LexTruncate(s: string, j: nat, k: nat)
    requires j <= |Lex(s)| && k <= |s| && TextOf(Lex(s)[..j]) == s[..k]
    requires forall i :: 0 <= i < j ==> Lex(s)[i].closed
    ensures Lex(s[..k]) == Lex(s)[..j]
  {
    hide Lex, FirstToken, TextOf;
    if j == 0 {
      TextOfNone();
      LexNothing();
      assert Lex(s)[..0] == [];
    } else {
      LexNotNothing(s);
      var t := FirstToken(s);
      var w := |t.text|;
      var ts := Lex(s[w..]);
      LexSplit(s);
      assert Lex(s)[..j] == [t] + ts[..j - 1];
      TextOfCons(Lex(s)[..j]);
      assert Lex(s)[..j][1..] == ts[..j - 1];
      assert s[..k] == t.text + TextOf(ts[..j - 1]);
      assert s[w..][..k - w] == s[..k][w..] == TextOf(ts[..j - 1]);
      forall i | 0 <= i < j - 1
        ensures ts[i].closed
      {
        assert ts[i] == Lex(s)[i + 1];
      }
      LexTruncate(s[w..], j - 1, k - w);
      TokenTruncate(s, k);
      LexSplit(s[..k]);
      assert s[..k][w..] == s[w..][..k - w];
    }
  }

  lemma LexNotNothing(s: string)
    requires Lex(s) != []
    ensures s != ""
  {
  }

  /** The last of the first j tokens of s, when they end in a parenthesis inside a line. */
  lemma LastIsParen(s: string, j: nat, k: nat)
    requires 0 < j <= |Lex(s)| && 0 < k < |s| && TextOf(Lex(s)[..j]) == s[..k] && Lex(s)[j - 1].closed
    requires (s[k - 1] == '(' || s[k - 1] == ')') && s[k] != '\n'
    ensures Lex(s)[j - 1] == Token(Code, [s[k - 1]], true)
    ensures TextOf(Lex(s)[..j - 1]) == s[..k - 1]
  {
    hide Lex, FirstToken, TextOf;
    var ts := Lex(s);
    var p := LexDrop(s, j - 1);
    assert ts[j - 1] == ts[j - 1..][0];
    LexNotNothing(s[p..]);
    LexSplit(s[p..]);
    var t := ts[j - 1];
    assert t == FirstToken(s[p..]);
    TextOfSplit(ts[..j], j - 1);
    assert ts[..j][..j - 1] == ts[..j - 1] && ts[..j][j - 1..] == [t];
    TextOfCons([t]);
    TextOfNone();
    assert [t][1..] == [] && t.text + "" == t.text;
    assert s[..k] == s[..p] + t.text;
    assert |t.text| == k - p;
    EndsInParen(s[p..]);
    assert t.text == s[p..][..1];
  }

  lemma LineOfNoCells(table: string, columns: seq<string>)
    ensures InsertLines(table, columns, [[]]) == [Head(table, columns) + ")"]
    ensures InsertText([Head(table, columns) + ")"]) == Head(table, columns) + ");\n"
  {
    hide Head;
    var h := Head(table, columns);
    assert Cells([]) == [];
    assert InsertLine(table, columns, []) == h + ("" + ")") == h + ")";
    assert [h + ")"][1..] == [];
    assert InsertText([h + ")"]) == h + ")" + ";\n" + "";
  }

  lemma EmitsItself(x: string)
    requires x != "" && x[0] == 'I'
    ensures Emit(x) == [Trim(x)] && |Trim(x)| <= |x|
    ensures !IsSpace(x[|x| - 1]) ==> Trim(x) == x
  {
    hide IsCommentsOnly;
    assert TrimStart(x) == x;
    StartKept(x);
    InsertIsNotPlsql(Trim(x), "");
    assert "" + Trim(x) == Trim(x);
  }

  lemma {:induction false} StartKept(x: string)
    requires x != "" && !IsSpace(x[0])
    ensures TrimEnd(x) != "" && TrimEnd(x)[0] == x[0]
  {
    if IsSpace(x[|x| - 1]) {
      StartKept(x[..|x| - 1]);
    }
  }

  /** If the export of one row without cells splits well, its first cut is at the semicolon. */
  lemma CutAtSemicolon(h: string) returns (j: nat)
    requires |h| > 0 && h[0] == 'I' && h[|h| - 1] == '('
    requires Statements(Pieces(h + ");\n")) == [h + ")"] && Errors(Pieces(h + ");\n")) == []
    ensures var t := h + ");\n"; var ts := Lex(t);
      0 < j < |ts| && Passes(ts[..j], ts[j..], "") && TextOf(ts[..j]) == t[..|h| + 1] && AllClosed(ts)
  {
    hide Lex, Cut, Passes, Stops, TextOf, Emit, Errors, Trim;
    var t := h + ");\n";
    var ts := Lex(t);
    ErrorsAreOpenRegions(t);
    LexLossless(t);
    TextOfNone();
    assert ts[..0] == [];
    j := FirstStop(ts, "");
    assert ts == ts[..j] + ts[j..];
    PassesThrough(ts[..j], ts[j..], "");
    var x := TextOf(ts[..j]);
    assert "" + x == x;
    if j == |ts| {
      assert ts[..j] == ts && ts[j..] == [];
      CutNothing(t);
      OneSegment(t);
      EmitsItself(t);
      TrimOfExport(h);
      assert false;
    } else {
      TokenNotEmpty(t, j);
      FirstStopIsSemicolon(h, ts, j);
    }
  }

  /** The first token that is not passed is the semicolon: the statement before it is the printed line. */
  lemma FirstStopIsSemicolon(h: string, ts: seq<Token>, j: nat)
    requires |h| > 0 && h[0] == 'I' && TextOf(ts) == h + ");\n" && j < |ts| && ts[j].closed && ts[j].text != ""
    requires Stops(ts[j], ts[j + 1..], TextOf(ts[..j]))
    requires Statements(Cut(ts[j..], TextOf(ts[..j]))) == [h + ")"]
    ensures 0 < j && TextOf(ts[..j]) == (h + ");\n")[..|h| + 1]
  {
    hide Lex, Cut, Stops, TextOf, Emit, Trim;
    var t, x := h + ");\n", TextOf(ts[..j]);
    TextOfSplit(ts, j);
    TextOfCons(ts[j..]);
    TextOfNone();
    assert ts[..0] == [];
    assert ts[j..] == [ts[j]] + ts[j + 1..];
    StopCuts(ts[j], ts[j + 1..], x);
    StopChar(ts[j], ts[j + 1..], x);
    var ps := Cut(ts[j..], x);
    FirstSegment(ps);
    StopPlace(h, x, ts[j].text, TextOf(ts[j..][1..]), Statements(ps[2..]));
  }

  lemma StopPlace(h: string, x: string, stop: string, rest: string, more: seq<string>)
    requires |h| > 0 && h[0] == 'I' && h + ");\n" == x + (stop + rest) && (stop == ";" || stop == "/")
    requires Emit(x) + more == [h + ")"]
    ensures x != "" && x == (h + ");\n")[..|h| + 1]
  {
    hide Emit, Trim;
    var t, n := h + ");\n", |x|;
    assert t[n] == stop[0];
    assert x[0] == t[0] == 'I';
    EmitsItself(x);
    assert Trim(x) == ([Trim(x)] + more)[0] == h + ")";
    assert t[|h| + 1] == ';' && t[|h| + 2] == '\n' && |t| == |h| + 3;
    assert x == t[..n];
  }

  lemma StopChar(t: Token, rest: seq<Token>, buf: string)
    requires Stops(t, rest, buf) && t.closed
    ensures t.text == ";" || t.text == "/"
  {
    hide IsPlsql, LineIsBlank, RestOfLineBlank;
  }

  lemma OneSegment(g: string)
    ensures Statements([Segment(g)]) == Emit(g)
  {
    assert Statements([Segment(g)]) == Emit(g) + Statements([]);
  }

  lemma FirstSegment(ps: seq<Piece>)
    requires |ps| > 1 && ps[0].Segment? && ps[1].Separator? && ps == [ps[0], ps[1]] + ps[2..]
    ensures Statements(ps) == Emit(ps[0].text) + Statements(ps[2..])
  {
    SegmentPieces(ps[0].text, ps[1].text, ps[2..]);
  }

  lemma TrimOfExport(h: string)
    requires |h| > 0 && h[0] == 'I'
    ensures Trim(h + ");\n") == h + ");"
  {
    TrimUnwrap("", h + ");", "\n");
    assert "" + (h + ");") + "\n" == h + ");\n";
  }

  lemma SplittingHeadIsWhole(table: string, columns: seq<string>)
    requires SplitsIntoRows(table, columns, [[]])
    ensures HeadIsWhole(table, columns)
  {
    hide Head, Lex, Cut, Passes, Stops, TextOf, Statements, Errors;
    var h := Head(table, columns);
    var t := h + ");\n";
    HeadFirst(table, columns);
    LineOfNoCells(table, columns);
    var j := CutAtSemicolon(h);
    var ts := Lex(t);
    LastIsParen(t, j, |h| + 1);
    assert t[..|h| + 1][..|h|] == t[..|h|] == h;
    if j == 1 {
      assert ts[..0] == [];
      TextOfNone();
    }
    LastIsParen(t, j - 1, |h|);
    LexTruncate(t, j - 1, |h|);
    var hs := ts[..j - 1];
    assert Lex(h) == hs;
    assert ts[..j] == hs + ts[j - 1..j];
    PassesPrefix(hs, ts[j - 1..j], ts[j..], "");
    PassesWhateverFollows(hs, ts[j - 1..j] + ts[j..], [], "");
    PassesThrough(hs, [], "");
    assert hs + [] == hs && "" + h == h;
    CutNothing(h);
  }

  // ---- The result -----------------------------------------------------------------

  /**
   * Every export splits into exactly one statement per row, the printed line without its
   * semicolon, if and only if the head is whole; what the cells hold never matters.
   */
  lemma ExportSplitsIntoRows(table: string, columns: seq<string>)
    ensures HeadIsWhole(table, columns) <==> forall rows :: AllValid(rows) ==> SplitsIntoRows(table, columns, rows)
  {
    hide HeadIsWhole, SplitsIntoRows;
    if HeadIsWhole(table, columns) {
      forall rows | AllValid(rows)
        ensures SplitsIntoRows(table, columns, rows)
      {
        WholeHeadSplits(table, columns, rows);
      }
    }
    if forall rows :: AllValid(rows) ==> SplitsIntoRows(table, columns, rows) {
      assert AllValid([[]]);
      SplittingHeadIsWhole(table, columns);
    }
  }

  // ---- Names that do no harm, and one that does -----------------------------------

  /** A name as it would be had its quotes been doubled; a name without quotes is one. */
  predicate IsEscaped(name: string, plain: string) {
    name == Doubled(plain, '"')
  }

  lemma SolidName(name: string, plain: string)
    requires IsEscaped(name, plain)
    ensures Solid(Quoted(name))
  {
    hide Cut, Lex;
    var f := Quoted(name);
    forall r, buf | Ends(r)
      ensures Cut(Lex(f + r), buf) == Cut(Lex(r), buf + f)
    {
      DoubledSpan(plain, r, '"');
      assert (f + r)[1..] == name + ("\"" + r);
      CutRegion(InDoubleString, f, r, buf);
    }
  }

  lemma SolidParts(table: string, names: string, cells: string)
    requires Solid(table) && Solid(names) && Solid(cells)
    ensures Solid("INSERT INTO " + table + " (" + names + ") VALUES (" + cells + ")")
  {
    hide Solid;
    SolidQuiet(")");
    SolidAppend(cells, ")");
    SolidPrefix(") VALUES (", cells + ")");
    var tail := ") VALUES (" + (cells + ")");
    SolidAppend(names, tail);
    SolidPrefix(" (", names + tail);
    SolidAppend(table, " (" + (names + tail));
    SolidPrefix("INSERT INTO ", table + (" (" + (names + tail)));
    Assoc("INSERT INTO " + table, " (", names + tail);
    assert "INSERT INTO " + (table + (" (" + (names + tail)))
        == "INSERT INTO " + table + " (" + names + ") VALUES (" + cells + ")";
  }

  /** Had the exporter doubled the quotes of its names, every export would split into its rows. */
  lemma EscapedNamesAreWhole(table: string, columns: seq<string>, plainTable: string, plainColumns: seq<string>)
    requires IsEscaped(table, plainTable) && |plainColumns| == |columns|
    requires forall i :: 0 <= i < |columns| ==> IsEscaped(columns[i], plainColumns[i])
    ensures HeadIsWhole(table, columns)
  {
    hide Solid, Whole, HeadIsWhole, Head, Cut, Lex, Statements, Errors, Doubled;
    forall i | 0 <= i < |columns|
      ensures Solid(Names(columns)[i])
    {
      SolidName(columns[i], plainColumns[i]);
    }
    SolidName(table, plainTable);
    SolidJoin(Names(columns));
    SolidQuiet("");
    SolidParts(Quoted(table), Join(Names(columns), ", "), "");
    HeadLine(table, columns);
    SolidIsWhole(Head(table, columns) + ")");
    HeadFirst(table, columns);
    LineOfNoCells(table, columns);
    LinesRoundTrip([Head(table, columns) + ")"], "");
    SplittingHeadIsWhole(table, columns);
  }

  lemma HeadLine(table: string, columns: seq<string>)
    ensures "INSERT INTO " + Quoted(table) + " (" + Join(Names(columns), ", ") + ") VALUES (" + "" + ")"
         == Head(table, columns) + ")"
  {
  }

  lemma SolidIsWhole(f: string)
    requires Solid(f)
    ensures Whole(f)
  {
    hide Cut, Lex;
  }

  /** In particular names without double quotes are safe. */
  lemma PlainNamesAreWhole(table: string, columns: seq<string>)
    requires '"' !in table && forall i :: 0 <= i < |columns| ==> '"' !in columns[i]
    ensures HeadIsWhole(table, columns)
  {
    hide HeadIsWhole;
    DoubledPlain(table, '"');
    forall i | 0 <= i < |columns|
      ensures IsEscaped(columns[i], columns[i])
    {
      DoubledPlain(columns[i], '"');
    }
    EscapedNamesAreWhole(table, columns, table, columns);
  }

  /** The exporter does not escape names: one lone quote in a name leaves the text open. */
  lemma QuoteInNameBreaksExport()
    ensures Errors(Pieces(InsertText(InsertLines("\"", [], [[]])))) == [UnterminatedIdentifier]
  {
    hide Cut, Lex, Errors, ErrorOf;
    var tail := " () VALUES ();\n";
    var open := "\"" + (['"', '"'] + tail);
    QuoteNameText();
    CutQuiet("INSERT INTO ", open, "");
    assert "INSERT INTO " + open == "INSERT INTO \"\"\" () VALUES ();\n";
    OpenName(tail, "" + "INSERT INTO ");
  }

  lemma QuoteNameText()
    ensures InsertText(InsertLines("\"", [], [[]])) == "INSERT INTO \"\"\" () VALUES ();\n"
  {
    var line := InsertLine("\"", [], []);
    assert Names([]) == [] && Cells([]) == [];
    assert Join([], ", ") == "";
    assert line == "INSERT INTO \"\"\" () VALUES ()";
    assert InsertLines("\"", [], [[]]) == [line];
    assert InsertText([line]) == line + ";\n" + InsertText([line][1..]);
  }

  lemma OpenName(tail: string, buf: string)
    requires forall i :: 0 <= i < |tail| ==> tail[i] != '"'
    ensures Errors(Cut(Lex("\"" + (['"', '"'] + tail)), buf)) == [UnterminatedIdentifier]
  {
    var s := "\"" + (['"', '"'] + tail);
    assert s[1..] == ['"', '"'] + tail;
    QuoteSpanStep(['"', '"'] + tail, '"');
    assert (['"', '"'] + tail)[2..] == tail;
    QuoteSpanNone(tail, '"');
    LexRegion(InDoubleString, 1, s);
    var t := Lex(s)[0];
    assert !t.closed && t.kind == Ident;
    var ps := Cut(Lex(s), buf);
    assert |ps| == 1 && ps[0].Open? && ps[0].kind == Ident;
    assert Errors(ps) == [ErrorOf(Ident)] + Errors(ps[1..]);
  }

  lemma QuoteSpanNone(y: string, q: char)
    requires forall i :: 0 <= i < |y| ==> y[i] != q
    ensures QuoteSpan(y, q) == Span(|y|, false)
  {
  }

  /** So its head is not whole. */
  lemma LoneQuoteIsNotWhole()
    ensures !HeadIsWhole("\"", [])
  {
    hide HeadIsWhole;
    QuoteInNameBreaksExport();
    if HeadIsWhole("\"", []) {
      WholeHeadSplits("\"", [], [[]]);
    }
  }
}
