/**
 * The read-only gate for AI tools (sidecar/src/ai.ts): an index-loop scanner, written
 * independently of the splitter, that blanks literals, quoted identifiers and comments
 * before looking for keywords.
 */
module ReadOnlyGate {
  import opened Text
  import opened SqlTokens
  import opened SqlSplitter
  import opened LexLaws
  import SplitterLaws

  // ---- What the scanner leaves of a token list ------------------------------------

  /** One pair of quotes for each stretch between quotes of a quoted identifier. */
  function QuotePairs(s: string): string {
    if s == "" then ""
    else if s[0] != '"' then QuotePairs(s[1..])
    else "\"\"" + (var n := NextQuote(s[1..]); if n < |s| - 1 then QuotePairs(s[n + 2..]) else "")
  }

  /** Characters before the next double quote. */
  function NextQuote(s: string): (n: nat)
    ensures n <= |s|
    ensures forall i :: 0 <= i < n ==> s[i] != '"'
    ensures n < |s| ==> s[n] == '"'
  {
    if s == "" || s[0] == '"' then 0 else 1 + NextQuote(s[1..])
  }

  predicate IsQQuoted(t: string) {
    |t| >= 3 && t[0] != '\'' && t[1] == '\''
  }

  /**
   * Comments become a space, literals a pair of quotes. An alternative-quoted literal
   * that is never closed gives its last character back to code.
   */
  function Redact(t: Token): string {
    match t.kind
    case Code => t.text
    case Comment => " "
    case Ident => QuotePairs(t.text)
    case Literal =>
      if !t.closed && IsQQuoted(t.text) && |t.text| > 3 then "''" + RedactChar(t.text[|t.text| - 1])
      else "''"
  }

  /** A lone last character, scanned as code. */
  function RedactChar(c: char): string {
    if c == '\'' then "''" else if c == '"' then "\"\"" else [c]
  }

  function RedactAll(ts: seq<Token>): string {
    if ts == [] then "" else Redact(ts[0]) + RedactAll(ts[1..])
  }

  function Redacted(sql: string): string {
    RedactAll(Lex(sql))
  }

  // ---- The scanner ----------------------------------------------------------------

  /** The text ahead; the source lets its index run past the end. */
  function Ahead(sql: string, i: nat): string {
    if i <= |sql| then sql[i..] else ""
  }

  method SkipLine(sql: string, i: nat) returns (j: nat)
    requires i <= |sql|
    ensures j == i + LineLen(sql[i..])
  {
    j := i;
    while j < |sql| && sql[j] != '\n'
      invariant i <= j <= |sql|
      invariant i + LineLen(sql[i..]) == j + LineLen(sql[j..])
    {
      assert sql[j..][1..] == sql[j + 1..];
      j := j + 1;
    }
  }

  method SkipBlock(sql: string, i: nat) returns (j: nat)
    requires i <= |sql|
    ensures BlockSpan(sql[i..]).closed ==> j == i + BlockSpan(sql[i..]).len
    ensures !BlockSpan(sql[i..]).closed ==> j >= |sql|
  {
    j := i;
    while j + 1 < |sql| && !(sql[j] == '*' && sql[j + 1] == '/')
      invariant i <= j <= |sql|
      invariant BlockSpan(sql[i..]) == BlockSpan(sql[j..]).Plus(j - i)
    {
      assert sql[j..][1..] == sql[j + 1..];
      j := j + 1;
    }
    if j + 1 >= |sql| {
      assert |sql[j..]| <= 1;
      BlockSpanShort(sql[j..]);
    }
    j := j + 2;
  }

  lemma BlockSpanShort(s: string)
    requires |s| <= 1
    ensures !BlockSpan(s).closed
  {
  }

  method SkipSingle(sql: string, i: nat) returns (j: nat)
    requires i <= |sql|
    ensures j == i + QuoteSpan(sql[i..], '\'').len
  {
    hide QuoteSpan;
    j := i;
    ghost var q := '\'';
    QuoteSpanNone(q);
    while j < |sql|
      invariant i <= j <= |sql|
      invariant QuoteSpan(sql[i..], q) == QuoteSpan(sql[j..], q).Plus(j - i)
    {
      QuoteSpanStep(sql[j..], q);
      if sql[j] == '\'' && j + 1 < |sql| && sql[j + 1] == '\'' {
        assert sql[j..][2..] == sql[j + 2..];
        j := j + 2;
        continue;
      }
      if sql[j] == '\'' {
        j := j + 1;
        return;
      }
      assert sql[j..][1..] == sql[j + 1..];
      j := j + 1;
    }
  }

  method SkipQ(sql: string, i: nat, close: char) returns (j: nat)
    requires i <= |sql|
    ensures var sp := QSpan(sql[i..], close);
      j == if sp.closed then i + sp.len else if i < |sql| then |sql| - 1 else i
  {
    j := i;
    while j + 1 < |sql|
      invariant i <= j <= |sql| && (i < |sql| ==> j < |sql|)
      invariant QSpan(sql[i..], close) == QSpan(sql[j..], close).Plus(j - i)
    {
      if sql[j] == close && sql[j + 1] == '\'' {
        j := j + 2;
        return;
      }
      assert sql[j..][1..] == sql[j + 1..];
      j := j + 1;
    }
    QSpanShort(sql[j..], close);
  }

  lemma QSpanShort(s: string, close: char)
    requires |s| <= 1
    ensures !QSpan(s, close).closed
  {
  }

  method SkipIdent(sql: string, i: nat) returns (j: nat)
    requires i <= |sql|
    ensures j == i + NextQuote(sql[i..]) + 1
  {
    j := i;
    while j < |sql| && sql[j] != '"'
      invariant i <= j <= |sql|
      invariant i + NextQuote(sql[i..]) == j + NextQuote(sql[j..])
    {
      assert sql[j..][1..] == sql[j + 1..];
      j := j + 1;
    }
    j := j + 1;
  }

  /** The first token, redacted, and the rest: one turn of the scanner's loop. */
  lemma RedactStep(s: string)
    requires s != ""
    ensures var t := FirstToken(s);
      Redacted(s) == Redact(t) + Redacted(s[|t.text|..])
  {
    LexSplit(s);
  }

  lemma RedactOpenQ(s: string)
    requires s != "" && !FirstToken(s).closed && Opener(s).state.InQString? && |s| > 3
    ensures Redacted(s) == "''" + Redacted(s[|s| - 1..])
  {
    var t := FirstToken(s);
    RedactStep(s);
    assert s[|s|..] == "";
    assert Redacted("") == "";
    LastChar(s[|s| - 1]);
    assert s[|s| - 1..] == [s[|s| - 1]];
  }

  lemma LastChar(c: char)
    ensures Redacted([c]) == RedactChar(c)
  {
    var s := [c];
    RedactStep(s);
    assert s[1..] == "" && s[..1] == s;
    assert QuoteSpan(s[1..], c) == Span(0, false);
    assert Redacted("") == "";
  }

  /**
   * The scanner stops a quoted identifier at the first quote, doubled or not; going on
   * from there it sees another identifier, and the blanks come out the same.
   */
  lemma RedactIdent(s: string)
    requires s != "" && s[0] == '"'
    ensures var n := NextQuote(s[1..]);
      Redacted(s) == "\"\"" + Redacted(Ahead(s, n + 2))
  {
    hide Redacted, Lex, FirstToken, QuotePairs, QuoteSpan;
    var x := s[1..];
    var n := NextQuote(x);
    QuoteSpanSkip(x);
    QuoteSpanNone('"');
    RedactStep(s);
    IdentToken(s);
    RedactedEmpty();
    if n == |x| {
      OnePair(s);
      assert s[..|s|] == s && s[|s|..] == "";
    } else {
      assert x[n..][1..] == s[n + 2..];
      QuoteSpanStep(x[n..], '"');
      if Begins(x[n..], '"', '"') {
        RedactDoubled(s, n);
      } else {
        PairsThenRest(s, n, n + 2);
        assert s[n + 2..][..0] == "" && QuotePairs("") == "" by { OnePair("\""); }
      }
    }
  }

  lemma QuoteSpanNone(q: char)
    ensures QuoteSpan("", q) == Span(0, false)
  {
  }

  lemma OnePair(s: string)
    requires s != "" && s[0] == '"' && NextQuote(s[1..]) == |s| - 1
    ensures QuotePairs(s) == "\"\"" && QuotePairs("") == ""
  {
  }

  lemma RedactDoubled(s: string, n: nat)
    requires s != "" && s[0] == '"' && n == NextQuote(s[1..]) && n + 2 < |s| && s[n + 1] == '"' && s[n + 2] == '"'
    requires QuoteSpan(s[1..], '"') == QuoteSpan(s[1..][n..], '"').Plus(n)
    ensures Redacted(s) == "\"\"" + Redacted(s[n + 2..])
  {
    hide Redacted, QuotePairs, QuoteSpan, NextQuote;
    var s2 := s[n + 2..];
    IdentStep(s);
    IdentStep(s2);
    DoubledWidth(s, n);
    var w2 := QuoteSpan(s2[1..], '"').len + 1;
    SliceSlice(s, n + 2, w2);
    PairsThenRest(s, n, n + 2 + w2);
    Assoc("\"\"", QuotePairs(s2[..w2]), Redacted(s2[w2..]));
  }

  lemma IdentStep(s: string)
    requires s != "" && s[0] == '"'
    ensures var w := QuoteSpan(s[1..], '"').len + 1;
      w <= |s| && Redacted(s) == QuotePairs(s[..w]) + Redacted(s[w..])
  {
    hide Redacted, Lex, FirstToken, QuotePairs, QuoteSpan;
    RedactStep(s);
    IdentToken(s);
  }

  lemma DoubledWidth(s: string, n: nat)
    requires s != "" && s[0] == '"' && n + 2 < |s| && s[n + 1] == '"' && s[n + 2] == '"'
    requires QuoteSpan(s[1..], '"') == QuoteSpan(s[1..][n..], '"').Plus(n)
    ensures QuoteSpan(s[1..], '"') == QuoteSpan(s[n + 2..][1..], '"').Plus(n + 2)
  {
    var y := s[1..][n..];
    assert y[0] == '"' && y[1] == '"';
    assert y[2..] == s[n + 2..][1..];
  }

  lemma RedactedEmpty()
    ensures Redacted("") == ""
  {
  }

  lemma IdentToken(s: string)
    requires s != "" && s[0] == '"'
    ensures var sp := QuoteSpan(s[1..], '"'); FirstToken(s) == Token(Ident, s[..sp.len + 1], sp.closed)
  {
  }

  lemma QuoteSpanSkip(x: string)
    ensures var n := NextQuote(x);
      QuoteSpan(x, '"') == QuoteSpan(x[n..], '"').Plus(n)
  {
    if x != "" && x[0] != '"' {
      QuoteSpanSkip(x[1..]);
      assert x[1..][NextQuote(x[1..])..] == x[NextQuote(x)..];
    } else {
      assert x[0..] == x;
    }
  }

  lemma PairsThenRest(s: string, n: nat, w: nat)
    requires s != "" && s[0] == '"' && n == NextQuote(s[1..]) && n + 2 <= w <= |s|
    ensures QuotePairs(s[..w]) == "\"\"" + QuotePairs(s[n + 2..][..w - n - 2])
  {
    var y := s[..w][1..];
    assert forall i :: 0 <= i < n ==> y[i] == s[1..][i];
    assert y[n] == s[1..][n];
    NextQuoteUnique(y, n);
    assert s[..w][n + 2..] == s[n + 2..][..w - n - 2];
  }

  lemma NextQuoteUnique(y: string, n: nat)
    requires n < |y| && y[n] == '"' && forall i :: 0 <= i < n ==> y[i] != '"'
    ensures NextQuote(y) == n
  {
  }

  // ---- The main loop --------------------------------------------------------------

  method StripStringsAndComments(sql: string) returns (result: string)
    ensures result == Redacted(sql)
  {
    hide Redacted, Lex;
    result := "";
    var i := 0;
    assert Ahead(sql, 0) == sql;
    while i < |sql|
      invariant result + Redacted(Ahead(sql, i)) == Redacted(sql)
      decreases |sql| - i
    {
      var add;
      add, i := StripOne(sql, i);
      result := result + add;
    }
    assert Ahead(sql, i) == "";
    RedactedEmpty();
  }

  /** A region other than a quoted identifier is replaced as a whole. */
  lemma RedactRegion(sql: string, i: nat, m: State, k: nat, j: nat)
    requires i < |sql| && Opener(sql[i..]) == Opening(m, k) && !m.InCode? && !m.InDoubleString?
    requires var sp := m.SpanOf(sql[i + k..]); if sp.closed then j == i + k + sp.len else j >= |sql|
    requires m.InQString? ==> m.SpanOf(sql[i + k..]).closed || |sql| == i + k
    ensures Redacted(sql[i..]) == (if m.Kind() == Comment then " " else "''") + Redacted(Ahead(sql, j))
  {
    hide Redacted, Lex, Opener, FirstToken, Redact, Ahead, QSpan, QuoteSpan, BlockSpan, LineLen;
    var s := sql[i..];
    RedactHead(s, m, k);
    assert s[k..] == sql[i + k..];
    AheadAfter(sql, i, k + m.SpanOf(s[k..]).len, j);
  }

  lemma RedactHead(s: string, m: State, k: nat)
    requires s != "" && Opener(s) == Opening(m, k) && !m.InCode? && !m.InDoubleString?
    requires m.InQString? ==> m.SpanOf(s[k..]).closed || |s| == k
    ensures var n := k + m.SpanOf(s[k..]).len;
      n <= |s| && Redacted(s) == (if m.Kind() == Comment then " " else "''") + Redacted(s[n..])
  {
    hide Redacted, Lex, Opener, FirstToken, Redact, QSpan, QuoteSpan, BlockSpan, LineLen;
    var n := k + m.SpanOf(s[k..]).len;
    RedactStep(s);
    RegionToken(s, m, k);
    OpenerShape(s);
    assert |s[..n]| == n && s[..n][0] == s[0];
    RedactWhole(FirstToken(s));
  }

  lemma AheadAfter(sql: string, i: nat, n: nat, j: nat)
    requires i + n <= |sql| && (j == i + n || (j >= |sql| && i + n == |sql|))
    ensures sql[i..][n..] == Ahead(sql, j)
  {
  }

  lemma RedactWhole(t: Token)
    requires t.kind == Comment || t.kind == Literal
    requires t.closed || |t.text| <= 3 || t.text[0] == '\'' || t.kind == Comment
    ensures Redact(t) == if t.kind == Comment then " " else "''"
  {
  }

  lemma RegionToken(s: string, m: State, k: nat)
    requires s != "" && Opener(s) == Opening(m, k) && !m.InCode?
    ensures var sp := m.SpanOf(s[k..]); FirstToken(s) == Token(m.Kind(), s[..k + sp.len], sp.closed)
  {
  }

  lemma OpenerShape(s: string)
    requires s != ""
    ensures Opener(s).state.InQString? ==> |s| >= 3 && Opener(s).width == 3
    ensures Opener(s).state.InSingleString? ==> s[0] == '\''
  {
  }

  /** An alternative-quoted literal left open gives its last character back. */
  lemma RedactOpenLiteral(sql: string, i: nat)
    requires i + 3 < |sql| && Opener(sql[i..]).state.InQString?
    requires !QSpan(sql[i + 3..], QCloser(sql[i + 2])).closed
    ensures Redacted(sql[i..]) == "''" + Redacted(sql[|sql| - 1..])
  {
    hide Redacted, Lex;
    var s := sql[i..];
    assert s[3..] == sql[i + 3..];
    RedactOpenQ(s);
    assert s[|s| - 1..] == sql[|sql| - 1..];
  }

  /** One turn of the loop: what is emitted and where the index goes. */
  method StripOne(sql: string, i: nat) returns (add: string, j: nat)
    requires i < |sql|
    ensures j > i && Redacted(sql[i..]) == add + Redacted(Ahead(sql, j))
  {
    hide Redacted, Lex, FirstToken, QCloser, Opener, Ahead, QuoteSpan, QSpan, BlockSpan, LineLen, NextQuote;
    OpenerAt(sql, i);
    var c := sql[i];
    ghost var s := sql[i..];
    if c == '-' && Peek(sql, i + 1, '-') {
      j := SkipLine(sql, i);
      LineLenDashes(sql, i);
      RedactRegion(sql, i, InLineComment, 2, j);
      return " ", j;
    }
    if c == '/' && Peek(sql, i + 1, '*') {
      j := SkipBlock(sql, i + 2);
      RedactRegion(sql, i, InBlockComment, 2, j);
      return " ", j;
    }
    if c == '\'' {
      j := SkipSingle(sql, i + 1);
      RedactRegion(sql, i, InSingleString, 1, j);
      return "''", j;
    }
    if (c == 'q' || c == 'Q') && Peek(sql, i + 1, '\'') && i + 2 < |sql| {
      var close := QCloser(sql[i + 2]);
      j := SkipQ(sql, i + 3, close);
      if i + 3 < |sql| && !QSpan(sql[i + 3..], close).closed {
        RedactOpenLiteral(sql, i);
        LastAhead(sql);
      } else {
        RedactRegion(sql, i, InQString(close), 3, j);
      }
      return "''", j;
    }
    if c == '"' {
      RedactIdent(s);
      j := SkipIdent(sql, i + 1);
      assert sql[i + 1..] == s[1..];
      AheadOfAhead(sql, i, j);
      return "\"\"", j;
    }
    RedactCode(s);
    AheadAfter(sql, i, 1, i + 1);
    return [c], i + 1;
  }

  lemma LastAhead(sql: string)
    requires sql != ""
    ensures Ahead(sql, |sql| - 1) == sql[|sql| - 1..]
  {
  }

  lemma AheadOfAhead(sql: string, i: nat, j: nat)
    requires i <= |sql| && i <= j
    ensures Ahead(sql, j) == Ahead(sql[i..], j - i)
  {
  }

  lemma LineLenDashes(sql: string, i: nat)
    requires Peek(sql, i, '-') && Peek(sql, i + 1, '-')
    ensures LineLen(sql[i..]) == LineLen(sql[i + 2..]) + 2
  {
    assert sql[i..][1..] == sql[i + 1..] && sql[i + 1..][1..] == sql[i + 2..];
  }

  /** The opener at position i, by looking at the characters there. */
  lemma OpenerAt(sql: string, i: nat)
    requires i < |sql|
    ensures Opener(sql[i..]) ==
      if sql[i] == '-' && Peek(sql, i + 1, '-') then Opening(InLineComment, 2)
      else if sql[i] == '/' && Peek(sql, i + 1, '*') then Opening(InBlockComment, 2)
      else if sql[i] == '"' then Opening(InDoubleString, 1)
      else if (sql[i] == 'q' || sql[i] == 'Q') && Peek(sql, i + 1, '\'') && i + 2 < |sql| then
        Opening(InQString(QCloser(sql[i + 2])), 3)
      else if sql[i] == '\'' then Opening(InSingleString, 1)
      else Opening(InCode, 1)
  {
    hide QCloser;
    var s := sql[i..];
    assert s[0] == sql[i] && (|s| > 1 ==> s[1] == sql[i + 1]) && (|s| > 2 ==> s[2] == sql[i + 2]);
  }

  lemma RedactCode(s: string)
    requires s != "" && Opener(s).state.InCode?
    ensures Redacted(s) == [s[0]] + Redacted(s[1..])
  {
    RedactStep(s);
    assert s[..1] == [s[0]];
  }

  // ---- The verdict ----------------------------------------------------------------

  /** Every run of white space becomes one blank. */
  function CollapseSpaces(s: string): string
    decreases |s|
  {
    if s == "" then ""
    else if !IsSpace(s[0]) then [s[0]] + CollapseSpaces(s[1..])
    else
      var rest := TrimStart(s[1..]);
      " " + CollapseSpaces(rest)
  }

  function Normalized(sql: string): string {
    Trim(CollapseSpaces(Redacted(sql)))
  }

  const DANGEROUS_KEYWORDS: seq<string> := [
    "INSERT", "UPDATE", "DELETE", "MERGE", "CREATE", "DROP", "ALTER", "TRUNCATE",
    "RENAME", "GRANT", "REVOKE", "EXECUTE", "EXEC", "CALL", "BEGIN", "DECLARE",
    "COMMIT", "ROLLBACK", "UPSERT", "LOCK", "SET",
    "UTL_HTTP", "UTL_TCP", "UTL_SMTP", "UTL_FILE", "UTL_INADDR",
    "DBMS_LOCK", "DBMS_HTTP", "DBMS_LDAP", "DBMS_SCHEDULER",
    "DBMS_AQ", "DBMS_PIPE", "DBMS_FLASHBACK", "DBMS_OUTPUT"
  ]

  predicate HasWord(t: string, w: string) {
    exists i :: 0 <= i <= |t| && StartsWord(t, i) && WholeWordAt(t, i, w)
  }

  predicate HasForUpdate(t: string) {
    exists i :: 0 <= i <= |t| && StartsWord(t, i) && AfterWord(t, i, "FOR") > i
                && WholeWordAt(t, AfterWord(t, i, "FOR"), "UPDATE")
  }

  predicate IsReadOnlyText(t: string) {
    && (WholeWordAt(t, 0, "SELECT") || WholeWordAt(t, 0, "WITH"))
    && (forall w :: w in DANGEROUS_KEYWORDS ==> !HasWord(t, w))
    && !HasForUpdate(t)
  }

  predicate IsReadOnly(sql: string) {
    IsReadOnlyText(Normalized(sql))
  }

  method IsReadOnlySql(raw: string) returns (r: bool)
    ensures r == IsReadOnly(raw)
  {
    var stripped := StripStringsAndComments(raw);
    r := IsReadOnlyText(Trim(CollapseSpaces(stripped)));
  }

  // ---- The two scanners agree -----------------------------------------------------

  /** What a token is worth outside its delimiters, by its kind alone. */
  function Blanked(t: Token): string {
    match t.kind
    case Code => t.text
    case Comment => " "
    case Ident => QuotePairs(t.text)
    case Literal => "''"
  }

  function BlankedAll(ts: seq<Token>): string {
    if ts == [] then "" else Blanked(ts[0]) + BlankedAll(ts[1..])
  }

  /** The text ends inside an alternative-quoted literal that has begun. */
  predicate EndsInQLiteral(ts: seq<Token>) {
    ts != [] && var t := ts[|ts| - 1];
    t.kind == Literal && !t.closed && IsQQuoted(t.text) && |t.text| > 3
  }

  /**
   * The scanner blanks just the regions the splitter's lexer sees, on every input the
   * splitter accepts and on any other but one: text that ends inside an open q-literal.
   */
  lemma ScannersAgree(sql: string)
    ensures Redacted(sql) == BlankedAll(Lex(sql)) <==> !EndsInQLiteral(Lex(sql))
    ensures Errors(Pieces(sql)) == [] ==> !EndsInQLiteral(Lex(sql))
  {
    SplitterLaws.LexWellClosed(sql);
    SplitterLaws.ErrorsAreOpenRegions(sql);
    RedactIsBlanked(Lex(sql));
  }

  lemma {:induction false} RedactIsBlanked(ts: seq<Token>)
    requires SplitterLaws.WellClosed(ts)
    ensures RedactAll(ts) == BlankedAll(ts) <==> !EndsInQLiteral(ts)
  {
    hide QuotePairs;
    if |ts| > 1 {
      RedactIsBlanked(ts[1..]);
      assert Redact(ts[0]) == Blanked(ts[0]);
      SamePrefix(Redact(ts[0]), RedactAll(ts[1..]), BlankedAll(ts[1..]));
    } else if |ts| == 1 {
      assert RedactAll(ts) == Redact(ts[0]) + "" && BlankedAll(ts) == Blanked(ts[0]) + "";
    }
  }

  /** The b of this open literal comes back as code. */
  lemma OpenLiteralLeaks()
    ensures Redacted("q'[ab") == "''b" && EndsInQLiteral(Lex("q'[ab"))
    ensures BlankedAll(Lex("q'[ab")) == "''"
  {
    hide Redacted, Lex, FirstToken, Opener, QSpan;
    var s := "q'[ab";
    OpenLiteralToken(s);
    LexSplit(s);
    LexNothing();
    assert s[5..] == "";
    assert Lex(s) == [Token(Literal, s, false)];
    OneBlanked(Token(Literal, s, false));
    RedactOpenQ(s);
    assert s[|s| - 1..] == ['b'];
    LastChar('b');
  }

  lemma OneBlanked(t: Token)
    ensures BlankedAll([t]) == Blanked(t)
  {
    assert BlankedAll([t]) == Blanked(t) + BlankedAll([]);
  }

  lemma OpenLiteralToken(s: string)
    requires s == "q'[ab"
    ensures FirstToken(s) == Token(Literal, s, false) && Opener(s) == Opening(InQString(']'), 3)
  {
    hide FirstToken, QSpan;
    assert s[3..] == "ab";
    OpenSpan();
    RegionToken(s, InQString(']'), 3);
    assert s[..5] == s;
  }

  lemma OpenSpan()
    ensures QSpan("ab", ']') == Span(2, false)
  {
    assert "ab"[1..] == "b" && "b"[1..] == "";
    assert QSpan("", ']') == Span(0, false) && QSpan("b", ']') == Span(1, false);
  }

  // ---- The inside of a literal or comment does not matter -------------------------

  /** sql with the text of its k-th token replaced. */
  function ReplaceToken(sql: string, k: nat, u: string): string
    requires k < |Lex(sql)|
  {
    TextOf(Lex(sql)[..k]) + (u + TextOf(Lex(sql)[k + 1..]))
  }

  lemma RedactAppend(ts: seq<Token>, us: seq<Token>)
    ensures RedactAll(ts + us) == RedactAll(ts) + RedactAll(us)
  {
    if ts == [] {
      assert ts + us == us;
    } else {
      assert (ts + us)[1..] == ts[1..] + us;
      RedactAppend(ts[1..], us);
    }
  }

  lemma {:induction false} LexNonEmpty(s: string, i: nat)
    requires i < |Lex(s)|
    ensures Lex(s)[i].text != ""
  {
    if i > 0 {
      LexNonEmpty(s[|FirstToken(s).text|..], i - 1);
    }
  }

  lemma RegionLength(s: string)
    requires s != "" && FirstToken(s).closed && FirstToken(s).kind != Code
    ensures |FirstToken(s).text| >= 2
  {
  }

  lemma LexNotEmpty(s: string)
    requires Lex(s) != []
    ensures s != ""
  {
  }

  /** The tokens around the k-th one, and the text they stand for. */
  lemma TokenContext(sql: string, k: nat)
    requires k < |Lex(sql)|
    ensures var t, b := Lex(sql)[k], TextOf(Lex(sql)[k + 1..]);
      && sql == TextOf(Lex(sql)[..k]) + (t.text + b)
      && Lex(sql) == Lex(sql)[..k] + Lex(t.text + b)
      && Lex(t.text + b) == [t] + Lex(b)
      && FirstToken(t.text + b) == t
  {
    hide FirstToken, Lex, TextOf;
    var ts := Lex(sql);
    var t := ts[k];
    var p := SplitterLaws.LexDrop(sql, k);
    var x := sql[p..];
    assert Lex(x) == ts[k..] && Lex(x)[0] == t;
    LexNotEmpty(x);
    LexSplit(x);
    assert FirstToken(x) == t;
    var b := x[|t.text|..];
    assert Lex(b) == Lex(x)[1..] == ts[k + 1..];
    LexLossless(b);
    assert ts == ts[..k] + ts[k..];
    assert x == t.text + b;
  }

  /**
   * Replacing a whole literal or comment by another that starts with the same character
   * leaves the redacted text, and so the read-only verdict, as it was.
   */
  lemma VerdictIgnoresInside(sql: string, k: nat, u: string)
    requires k < |Lex(sql)|
    requires var t := Lex(sql)[k];
      && (t.kind == Literal || t.kind == Comment) && t.closed
      && u != "" && t.text != "" && u[0] == t.text[0]
      && FirstToken(u + TextOf(Lex(sql)[k + 1..])) == Token(t.kind, u, true)
    ensures Redacted(ReplaceToken(sql, k, u)) == Redacted(sql)
    ensures IsReadOnly(ReplaceToken(sql, k, u)) == IsReadOnly(sql)
  {
    hide FirstToken, Redact, IsReadOnlyText;
    var ts := Lex(sql);
    var t, a, b := ts[k], ts[..k], TextOf(ts[k + 1..]);
    TokenContext(sql, k);
    var x, y := t.text + b, u + b;
    RegionLength(x);
    RegionLength(y);
    forall i | 0 <= i < |a|
      ensures a[i].text != ""
    {
      LexNonEmpty(sql, i);
    }
    LexLocal(a, x, y);
    LexSplit(y);
    assert y[|u|..] == b;
    RedactBothWays(a, t, Token(t.kind, u, true), Lex(b));
  }

  lemma RedactBothWays(a: seq<Token>, t: Token, u: Token, b: seq<Token>)
    requires t.kind == u.kind && (t.kind == Literal || t.kind == Comment) && t.closed && u.closed
    ensures RedactAll(a + ([t] + b)) == RedactAll(a + ([u] + b))
  {
    RedactAppend(a, [t] + b);
    RedactAppend(a, [u] + b);
    RedactAppend([t], b);
    RedactAppend([u], b);
    assert RedactAll([t]) == Redact(t) + "" && RedactAll([u]) == Redact(u) + "";
  }
}
