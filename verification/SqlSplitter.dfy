/**
 * The statement splitter (sidecar/src/sql-splitter.ts): the scanner as written, against
 * the reference that lexes the whole input and then cuts.
 */
module SqlSplitter {
  import opened Text
  import opened SqlTokens

  /*
   * The reference folds over the tokens and cuts at terminators, asking afresh at every
   * semicolon whether the segment is a PL/SQL block. SplitSql is one pass with six states
   * and a cached verdict.
   */

  // ---- Recognising a PL/SQL block -------------------------------------------------

  /** Position after `w\s+` at i, or i when that is not there: an optional regex group. */
  function AfterWord(t: string, i: nat, w: string): (j: nat)
    requires i <= |t|
    ensures i <= j <= |t|
  {
    if WordAt(t, i, w) && SkipSpaces(t, i + |w|) > i + |w| then SkipSpaces(t, i + |w|) else i
  }

  function AfterOrReplace(t: string, i: nat): (j: nat)
    requires i <= |t|
    ensures i <= j <= |t|
  {
    var a := AfterWord(t, i, "OR");
    var b := AfterWord(t, a, "REPLACE");
    if i < a < b then b else i
  }

  function AfterEditionable(t: string, i: nat): (j: nat)
    requires i <= |t|
    ensures i <= j <= |t|
  {
    var a := AfterWord(t, i, "EDITIONABLE");
    if a > i then a else AfterWord(t, i, "NONEDITIONABLE")
  }

  predicate WholeWordAt(t: string, i: nat, w: string) {
    WordAt(t, i, w) && BoundaryAt(t, i + |w|)
  }

  /** PACKAGE BODY and TYPE BODY need no case: the space after PACKAGE is a boundary. */
  predicate ObjectWordAt(t: string, i: nat) {
    || WholeWordAt(t, i, "FUNCTION") || WholeWordAt(t, i, "PROCEDURE")
    || WholeWordAt(t, i, "TRIGGER") || WholeWordAt(t, i, "PACKAGE")
    || WholeWordAt(t, i, "TYPE")
  }

  /** PLSQL_BLOCK_RE, matched at the start of t. */
  predicate IsPlsqlHead(t: string) {
    || WholeWordAt(t, 0, "DECLARE")
    || WholeWordAt(t, 0, "BEGIN")
    || (AfterWord(t, 0, "CREATE") > 0
        && ObjectWordAt(t, AfterEditionable(t, AfterOrReplace(t, AfterWord(t, 0, "CREATE")))))
  }

  /**
   * Length of the comment t starts with, 0 if none. Unlike the scanner, this helper looks
   * for the end of a block comment from its first character, so it takes slash-star-slash
   * for a whole comment; the lexer does not.
   */
  function CommentLen(t: string): (n: nat)
    ensures n <= |t|
  {
    if Begins(t, '-', '-') then (if LineLen(t) < |t| then LineLen(t) + 1 else |t|)
    else if Begins(t, '/', '*') then BlockSpan(t).len
    else 0
  }

  /** Drops comments, and the white space after each, from the front. */
  function AfterComments(t: string): (r: string)
    decreases |t|
  {
    var n := CommentLen(t);
    if n == 0 then t else AfterComments(TrimStart(t[n..]))
  }

  predicate IsPlsql(buf: string) {
    IsPlsqlHead(AfterComments(TrimStart(buf)))
  }

  predicate IsCommentsOnly(buf: string) {
    AfterComments(TrimStart(buf)) == ""
  }

  // ---- The reference: cutting a token list ----------------------------------------

  datatype Piece = Segment(text: string) | Separator(text: string) | Open(kind: Kind, text: string)

  datatype SplitError = UnterminatedString | UnterminatedIdentifier | UnterminatedComment

  /** Only blanks, tabs and carriage returns follow on this line. */
  predicate RestOfLineBlank(ts: seq<Token>) {
    || ts == [] || ts[0].Is('\n')
    || ((ts[0].Is(' ') || ts[0].Is('\t') || ts[0].Is('\r')) && RestOfLineBlank(ts[1..]))
  }

  /** Tokens up to and including the newline. */
  function RestOfLine(ts: seq<Token>): (n: nat)
    ensures n <= |ts|
  {
    if ts == [] then 0 else if ts[0].Is('\n') then 1 else 1 + RestOfLine(ts[1..])
  }

  /** Cuts what remains of the input, given the text buf of the segment under way. */
  function Cut(ts: seq<Token>, buf: string): seq<Piece>
    decreases |ts|
  {
    if ts == [] then [Segment(buf)]
    else if !ts[0].closed then [Open(ts[0].kind, buf + TextOf(ts))]
    else if ts[0].Is(';') && !IsPlsql(buf) then
      [Segment(buf), Separator(";")] + Cut(ts[1..], "")
    else if ts[0].Is('/') && LineIsBlank(buf) && RestOfLineBlank(ts[1..]) then
      var n := 1 + RestOfLine(ts[1..]);
      [Segment(buf), Separator(TextOf(ts[..n]))] + Cut(ts[n..], "")
    else Cut(ts[1..], buf + ts[0].text)
  }

  function Pieces(input: string): seq<Piece> {
    Cut(Lex(input), "")
  }

  /** Cut, one token at a time. */
  lemma CutStep(t: Token, ts: seq<Token>, buf: string)
    ensures Cut([t] + ts, buf) ==
      if !t.closed then [Open(t.kind, buf + TextOf([t] + ts))]
      else if t.Is(';') && !IsPlsql(buf) then [Segment(buf), Separator(";")] + Cut(ts, "")
      else if t.Is('/') && LineIsBlank(buf) && RestOfLineBlank(ts) then
        var n := RestOfLine(ts);
        [Segment(buf), Separator(TextOf(([t] + ts)[..1 + n]))] + Cut(ts[n..], "")
      else Cut(ts, buf + t.text)
  {
    var us := [t] + ts;
    assert us[1..] == ts;
    assert us[1 + RestOfLine(ts)..] == ts[RestOfLine(ts)..];
  }

  lemma CutNothing(buf: string)
    ensures Cut([], buf) == [Segment(buf)]
  {
  }

  /** A segment is emitted trimmed, unless it holds no code. */
  function Emit(buf: string): seq<string> {
    var t := Trim(buf);
    if t != "" && !IsCommentsOnly(t) then [t] else []
  }

  function Statements(ps: seq<Piece>): seq<string> {
    if ps == [] then []
    else (if ps[0].Segment? then Emit(ps[0].text) else []) + Statements(ps[1..])
  }

  function ErrorOf(kind: Kind): SplitError {
    match kind
    case Comment => UnterminatedComment
    case Ident => UnterminatedIdentifier
    case _ => UnterminatedString
  }

  function Errors(ps: seq<Piece>): seq<SplitError> {
    if ps == [] then []
    else (if ps[0].Open? then [ErrorOf(ps[0].kind)] else []) + Errors(ps[1..])
  }

  // ---- The cached verdict is always right -----------------------------------------

  lemma SkipSpacesExtends(t: string, more: string, i: nat)
    requires i <= |t| && more != "" && !IsSpace(more[0])
    ensures SkipSpaces(t + more, i) == SkipSpaces(t, i)
    decreases |t| - i
  {
    if i < |t| && IsSpace(t[i]) {
      SkipSpacesExtends(t, more, i + 1);
    }
  }

  lemma WordAtExtends(t: string, more: string, i: nat, w: string)
    requires more != "" && more[0] == ';' && i <= |t|
    requires ';' !in w
    ensures WordAt(t + more, i, w) <==> WordAt(t, i, w)
  {
    var u := t + more;
    assert forall j :: 0 <= j < |t| ==> u[j] == t[j];
    if |t| < i + |w| <= |u| {
      var k := |t| - i;
      assert Upper(u[i + k]) == ';' != w[k];
    }
  }

  lemma WholeWordAtExtends(t: string, more: string, i: nat, w: string)
    requires more != "" && more[0] == ';' && i <= |t|
    requires ';' !in w
    ensures WholeWordAt(t + more, i, w) <==> WholeWordAt(t, i, w)
  {
    WordAtExtends(t, more, i, w);
  }

  lemma AfterWordExtends(t: string, more: string, i: nat, w: string)
    requires more != "" && more[0] == ';' && i <= |t|
    requires ';' !in w
    ensures AfterWord(t + more, i, w) == AfterWord(t, i, w)
  {
    WordAtExtends(t, more, i, w);
    if WordAt(t, i, w) {
      SkipSpacesExtends(t, more, i + |w|);
    }
  }

  lemma PlsqlHeadExtends(t: string, more: string)
    requires more != "" && more[0] == ';'
    ensures IsPlsqlHead(t + more) <==> IsPlsqlHead(t)
  {
    hide WordAt, BoundaryAt, SkipSpaces, AfterWord, WholeWordAt;
    WholeWordAtExtends(t, more, 0, "DECLARE");
    WholeWordAtExtends(t, more, 0, "BEGIN");
    AfterWordExtends(t, more, 0, "CREATE");
    var a := AfterWord(t, 0, "CREATE");
    AfterWordExtends(t, more, a, "OR");
    AfterWordExtends(t, more, AfterWord(t, a, "OR"), "REPLACE");
    var b := AfterOrReplace(t, a);
    AfterWordExtends(t, more, b, "EDITIONABLE");
    AfterWordExtends(t, more, b, "NONEDITIONABLE");
    var c := AfterEditionable(t, b);
    WholeWordAtExtends(t, more, c, "FUNCTION");
    WholeWordAtExtends(t, more, c, "PROCEDURE");
    WholeWordAtExtends(t, more, c, "TRIGGER");
    WholeWordAtExtends(t, more, c, "PACKAGE");
    WholeWordAtExtends(t, more, c, "TYPE");
  }

  lemma TrimStartExtends(s: string, more: string)
    requires TrimStart(s) != ""
    ensures TrimStart(s + more) == TrimStart(s) + more
  {
    if IsSpace(s[0]) {
      assert (s + more)[1..] == s[1..] + more;
      TrimStartExtends(s[1..], more);
    }
  }

  lemma LineLenExtends(s: string, more: string)
    requires LineLen(s) < |s|
    ensures LineLen(s + more) == LineLen(s)
  {
    if s[0] != '\n' {
      assert (s + more)[1..] == s[1..] + more;
      LineLenExtends(s[1..], more);
    }
  }

  lemma BlockSpanExtends(s: string, more: string)
    requires BlockSpan(s).closed
    ensures BlockSpan(s + more) == BlockSpan(s)
  {
    if Begins(s, '*', '/') {
    } else {
      assert (s + more)[1..] == s[1..] + more;
      BlockSpanExtends(s[1..], more);
      assert |s| >= 2;
    }
  }

  lemma CommentLenExtends(t: string, more: string)
    requires |t| >= 2 && CommentLen(t) < |t|
    ensures CommentLen(t + more) == CommentLen(t)
  {
    if Begins(t, '-', '-') {
      LineLenExtends(t, more);
    } else if Begins(t, '/', '*') {
      BlockSpanExtends(t, more);
    }
  }

  lemma AfterCommentsExtends(t: string, more: string)
    requires |AfterComments(t)| >= 2
    ensures AfterComments(t + more) == AfterComments(t) + more
    decreases |t|
  {
    hide CommentLen;
    var n := CommentLen(t);
    if n < |t| {
      CommentLenExtends(t, more);
      if n > 0 {
        assert (t + more)[n..] == t[n..] + more;
        TrimStartExtends(t[n..], more);
        AfterCommentsExtends(TrimStart(t[n..]), more);
      }
    }
  }

  lemma PlsqlHeadLength(t: string)
    requires IsPlsqlHead(t)
    ensures |t| >= 2
  {
  }

  /** Once a segment is a PL/SQL block at a semicolon, it stays one as it grows. */
  lemma PlsqlVerdictStable(buf: string, more: string)
    requires IsPlsql(buf) && more != "" && more[0] == ';'
    ensures IsPlsql(buf + more)
  {
    PlsqlHeadLength(AfterComments(TrimStart(buf)));
    TrimStartExtends(buf, more);
    AfterCommentsExtends(TrimStart(buf), more);
    PlsqlHeadExtends(AfterComments(TrimStart(buf)), more);
  }

  // ---- The scanner ----------------------------------------------------------------

  method StripLeadingComments(s: string) returns (t: string)
    ensures t == AfterComments(TrimStart(s))
  {
    t := TrimStart(s);
    var changed := true;
    while changed
      invariant AfterComments(t) == AfterComments(TrimStart(s))
      invariant !changed ==> AfterComments(t) == t
      decreases |t|, changed
    {
      changed := false;
      if Begins(t, '-', '-') {
        var nl := LineLen(t);
        t := if nl < |t| then TrimStart(t[nl + 1..]) else "";
        changed := true;
      } else if Begins(t, '/', '*') {
        var end := BlockSpan(t);
        t := if end.closed then TrimStart(t[end.len..]) else "";
        changed := true;
      }
    }
  }

  method DetectPlsqlStart(buf: string) returns (r: bool)
    ensures r == IsPlsql(buf)
  {
    var code := StripLeadingComments(buf);
    r := IsPlsqlHead(code);
  }

  method Flush(statements: seq<string>, buf: string) returns (r: seq<string>)
    ensures r == statements + Emit(buf)
  {
    r := statements;
    var trimmed := Trim(buf);
    if trimmed != "" {
      var code := StripLeadingComments(trimmed);
      if code != "" {
        r := r + [trimmed];
      }
    }
  }

  /** The pieces still to come when a region with span sp starts rest. */
  function AfterRegion(kind: Kind, sp: Span, buf: string, rest: string): seq<Piece>
    requires sp.len <= |rest|
  {
    if sp.closed then Cut(Lex(rest[sp.len..]), buf + rest[..sp.len])
    else [Open(kind, buf + rest)]
  }

  /** The pieces still to come when the scanner is in mode m with buf collected. */
  function Resume(m: State, buf: string, rest: string): seq<Piece> {
    if m.InCode? then Cut(Lex(rest), buf)
    else AfterRegion(m.Kind(), m.SpanOf(rest), buf, rest)
  }

  /** An opener of k characters moves the scanner from code into mode m. */
  lemma Enter(m: State, k: nat, buf: string, rest: string)
    requires !m.InCode? && rest != "" && Opener(rest) == Opening(m, k)
    ensures Resume(InCode, buf, rest) == Resume(m, buf + rest[..k], rest[k..])
  {
    hide Cut, Lex, FirstToken, Opener;
    var tail := rest[k..];
    var sp := m.SpanOf(tail);
    var n := k + sp.len;
    LexRegion(m, k, rest);
    var t := Token(m.Kind(), rest[..n], sp.closed);
    CutStep(t, Lex(rest[n..]), buf);
    SliceSlice(rest, k, sp.len);
    if sp.closed {
      assert buf + rest[..k] + tail[..sp.len] == buf + rest[..n];
    } else {
      LexLossless(rest);
      assert buf + rest[..k] + tail == buf + rest;
    }
  }

  lemma LexRegion(m: State, k: nat, rest: string)
    requires !m.InCode? && rest != "" && Opener(rest) == Opening(m, k)
    ensures var sp := m.SpanOf(rest[k..]);
      var n := k + sp.len;
      Lex(rest) == [Token(m.Kind(), rest[..n], sp.closed)] + Lex(rest[n..])
  {
    hide Opener;
    var sp := m.SpanOf(rest[k..]);
    assert FirstToken(rest) == Token(m.Kind(), rest[..k + sp.len], sp.closed);
  }

  /** Inside a region, n characters that do not end it move to the buffer. */
  lemma AdvanceRegion(kind: Kind, sp: Span, n: nat, buf: string, rest: string)
    requires n + sp.len <= |rest|
    ensures AfterRegion(kind, sp.Plus(n), buf, rest) == AfterRegion(kind, sp, buf + rest[..n], rest[n..])
  {
    hide Cut, Lex;
    SliceSlice(rest, n, sp.len);
    assert buf + rest[..n] + rest[n..][..sp.len] == buf + rest[..n + sp.len];
    assert buf + rest[..n] + rest[n..] == buf + rest;
  }

  lemma Advance(m: State, n: nat, buf: string, rest: string)
    requires !m.InCode? && n <= |rest|
    requires m.SpanOf(rest) == m.SpanOf(rest[n..]).Plus(n)
    ensures Resume(m, buf, rest) == Resume(m, buf + rest[..n], rest[n..])
  {
    AdvanceRegion(m.Kind(), m.SpanOf(rest[n..]), n, buf, rest);
  }

  /** A terminator of n characters takes the scanner back to code. */
  lemma Leave(m: State, n: nat, buf: string, rest: string)
    requires !m.InCode? && n <= |rest|
    requires m.SpanOf(rest) == Span(n, true)
    ensures Resume(m, buf, rest) == Resume(InCode, buf + rest[..n], rest[n..])
  {
  }

  lemma LexCode(rest: string)
    requires rest != "" && Opener(rest) == Opening(InCode, 1)
    ensures Lex(rest) == [Token(Code, rest[..1], true)] + Lex(rest[1..])
  {
  }

  /** A character of code that ends nothing moves to the buffer. */
  lemma StepCode(buf: string, rest: string)
    requires rest != "" && Opener(rest) == Opening(InCode, 1)
    requires rest[0] == ';' ==> IsPlsql(buf)
    requires rest[0] == '/' ==> !LineIsBlank(buf) || !RestOfLineBlank(Lex(rest[1..]))
    ensures Resume(InCode, buf, rest) == Resume(InCode, buf + rest[..1], rest[1..])
  {
    LexCode(rest);
    assert Lex(rest)[1..] == Lex(rest[1..]);
  }

  predicate IsLineBlank(c: char) {
    c == ' ' || c == '\t' || c == '\r'
  }

  predicate AllLineBlank(a: string) {
    forall i :: 0 <= i < |a| ==> IsLineBlank(a[i])
  }

  lemma RestOfLineNewline(a: string, ts: seq<Token>)
    requires AllLineBlank(a)
    ensures RestOfLineBlank(CodeTokens(a + "\n") + ts)
    ensures RestOfLine(CodeTokens(a + "\n") + ts) == |a| + 1
  {
    var us := CodeTokens(a + "\n") + ts;
    assert us[0] == Token(Code, (a + "\n")[..1], true);
    assert (a + "\n")[..1] == [(a + "\n")[0]];
    if a != "" {
      assert us[0].Is(a[0]);
      assert (a + "\n")[1..] == a[1..] + "\n";
      assert us[1..] == CodeTokens(a[1..] + "\n") + ts;
      RestOfLineNewline(a[1..], ts);
    }
  }

  lemma RestOfLineEnd(a: string)
    requires AllLineBlank(a)
    ensures RestOfLineBlank(CodeTokens(a)) && RestOfLine(CodeTokens(a)) == |a|
  {
    if a != "" {
      assert a[..1] == [a[0]];
      assert CodeTokens(a)[0].Is(a[0]);
      assert CodeTokens(a)[1..] == CodeTokens(a[1..]);
      RestOfLineEnd(a[1..]);
    }
  }

  lemma CodeHead(a: string, ts: seq<Token>)
    requires a != ""
    ensures CodeTokens(a) + ts == [Token(Code, [a[0]], true)] + (CodeTokens(a[1..]) + ts)
  {
    hide CodeTokens;
    CodeTokensHead(a);
  }

  lemma CodeTokensHead(a: string)
    requires a != ""
    ensures CodeTokens(a) == [Token(Code, [a[0]], true)] + CodeTokens(a[1..])
  {
    assert a[..1] == [a[0]];
  }

  lemma BlankStep(c: char, us: seq<Token>)
    requires IsLineBlank(c)
    ensures RestOfLineBlank([Token(Code, [c], true)] + us) <==> RestOfLineBlank(us)
  {
    var ts := [Token(Code, [c], true)] + us;
    assert ts[1..] == us;
    assert ts[0].Is(c) && !ts[0].Is('\n');
  }

  lemma {:induction false} RestOfLineStops(a: string, ts: seq<Token>)
    requires AllLineBlank(a)
    requires ts != [] && ts[0].text != "" && ts[0].text[0] != '\n' && !IsLineBlank(ts[0].text[0])
    ensures !RestOfLineBlank(CodeTokens(a) + ts)
  {
    hide RestOfLineBlank, CodeTokens;
    if a == "" {
      NothingBlank(ts);
    } else {
      CodeHead(a, ts);
      BlankStep(a[0], CodeTokens(a[1..]) + ts);
      RestOfLineStops(a[1..], ts);
    }
  }

  lemma NothingBlank(ts: seq<Token>)
    requires ts != [] && ts[0].text != "" && ts[0].text[0] != '\n' && !IsLineBlank(ts[0].text[0])
    ensures !RestOfLineBlank(CodeTokens("") + ts)
  {
    assert CodeTokens("") + ts == ts;
  }

  lemma SlashToken(x: string)
    requires x == "" || x[0] != '*'
    ensures Lex("/" + x) == [Token(Code, "/", true)] + Lex(x)
  {
    hide Lex, FirstToken;
    var s := "/" + x;
    assert s[1..] == x && s[..1] == "/";
    LexCode(s);
  }

  lemma CutAtSlash(buf: string, m: string, tail: seq<Token>)
    requires LineIsBlank(buf) && TextOf(CodeTokens(m)) == m
    requires RestOfLineBlank(CodeTokens(m) + tail) && RestOfLine(CodeTokens(m) + tail) == |m|
    ensures Cut([Token(Code, "/", true)] + (CodeTokens(m) + tail), buf)
         == [Segment(buf), Separator("/" + m)] + Cut(tail, "")
  {
    hide Cut, RestOfLineBlank, RestOfLine, LineIsBlank, IsPlsql;
    var slash := Token(Code, "/", true);
    var ts := CodeTokens(m) + tail;
    CutStep(slash, ts, buf);
    assert ts[|m|..] == tail;
    assert ([slash] + ts)[..1 + |m|] == [slash] + CodeTokens(m);
    assert ([slash] + CodeTokens(m))[1..] == CodeTokens(m);
  }

  /** A slash with only blanks after it ends the segment, at the end of the input ... */
  lemma SlashAtEnd(buf: string, a: string)
    requires AllLineBlank(a) && LineIsBlank(buf)
    ensures Cut(Lex("/" + a), buf) == [Segment(buf), Separator("/" + a)] + Cut(Lex(""), "")
  {
    hide Cut, RestOfLineBlank, RestOfLine, TextOf;
    LexPlain(a, "");
    assert a + "" == a;
    RestOfLineEnd(a);
    CodeTokensText(a);
    SlashToken(a);
    assert CodeTokens(a) + [] == CodeTokens(a);
    CutAtSlash(buf, a, []);
  }

  /** ... and before a newline, ... */
  lemma SlashAtNewline(buf: string, a: string, b: string)
    requires AllLineBlank(a) && LineIsBlank(buf)
    ensures Cut(Lex("/" + (a + "\n" + b)), buf) == [Segment(buf), Separator("/" + (a + "\n"))] + Cut(Lex(b), "")
  {
    hide Cut, Lex, RestOfLineBlank, RestOfLine, TextOf;
    LexPlain(a + "\n", b);
    RestOfLineNewline(a, Lex(b));
    CodeTokensText(a + "\n");
    SlashToken(a + "\n" + b);
    CutAtSlash(buf, a + "\n", Lex(b));
  }

  /** ... but not when anything else follows on the line. */
  lemma SlashInLine(a: string, b: string)
    requires AllLineBlank(a)
    requires b != "" && b[0] != '\n' && !IsLineBlank(b[0])
    ensures !RestOfLineBlank(Lex(a + b))
  {
    LexPlain(a, b);
    RestOfLineStops(a, Lex(b));
  }

  /** What has been emitted and what is still to come make up the reference result. */
  ghost predicate OnTrack(input: string, i: nat, statements: seq<string>, m: State, buf: string) {
    && i <= |input|
    && statements + Statements(Resume(m, buf, input[i..])) == Statements(Pieces(input))
    && Errors(Resume(m, buf, input[i..])) == Errors(Pieces(input))
  }

  lemma Moved(input: string, i: nat, k: nat, statements: seq<string>, m: State, buf: string, m': State, buf': string)
    requires OnTrack(input, i, statements, m, buf) && i + k <= |input|
    requires Resume(m, buf, input[i..]) == Resume(m', buf', input[i..][k..])
    ensures OnTrack(input, i + k, statements, m', buf')
  {
    assert input[i..][k..] == input[i + k..];
  }

  lemma SegmentPieces(buf: string, sep: string, tail: seq<Piece>)
    ensures Statements([Segment(buf), Separator(sep)] + tail) == Emit(buf) + Statements(tail)
    ensures Errors([Segment(buf), Separator(sep)] + tail) == Errors(tail)
  {
    var ps := [Segment(buf), Separator(sep)] + tail;
    assert ps[1..] == [Separator(sep)] + tail;
    assert ps[1..][1..] == tail;
  }

  lemma Flushed(input: string, i: nat, k: nat, statements: seq<string>, buf: string, sep: string)
    requires OnTrack(input, i, statements, InCode, buf) && i + k <= |input|
    requires Resume(InCode, buf, input[i..]) == [Segment(buf), Separator(sep)] + Resume(InCode, "", input[i..][k..])
    ensures OnTrack(input, i + k, statements + Emit(buf), InCode, "")
  {
    SegmentPieces(buf, sep, Resume(InCode, "", input[i..][k..]));
    assert input[i..][k..] == input[i + k..];
  }

  lemma SemicolonStep(buf: string, rest: string)
    requires rest != "" && rest[0] == ';' && !IsPlsql(buf)
    ensures Resume(InCode, buf, rest) == [Segment(buf), Separator(";")] + Resume(InCode, "", rest[1..])
  {
    PlainToken(rest);
    assert Lex(rest)[0].Is(';');
    assert Lex(rest)[1..] == Lex(rest[1..]);
  }

  lemma FlushedAtSemicolon(input: string, i: nat, statements: seq<string>, buf: string)
    requires OnTrack(input, i, statements, InCode, buf)
    requires i < |input| && input[i] == ';' && !IsPlsql(buf)
    ensures OnTrack(input, i + 1, statements + Emit(buf), InCode, "")
  {
    hide OnTrack, Resume;
    SemicolonStep(buf, input[i..]);
    Flushed(input, i, 1, statements, buf, ";");
  }

  lemma SlashLine(input: string, i: nat, j: nat)
    requires i < j < |input| && input[i] == '/' && input[j] == '\n'
    ensures input[i..] == "/" + (input[i + 1..j] + "\n" + input[j + 1..])
  {
    assert input[i..] == [input[i]] + input[i + 1..];
    assert input[i + 1..] == input[i + 1..j] + ([input[j]] + input[j + 1..]);
  }

  /** A bare slash and its line are dropped and the segment before it flushed. */
  lemma FlushedAtSlash(input: string, i: nat, j: nat, statements: seq<string>, buf: string)
    requires OnTrack(input, i, statements, InCode, buf)
    requires i < j <= |input| && input[i] == '/' && LineIsBlank(buf) && AllLineBlank(input[i + 1..j])
    requires j < |input| ==> input[j] == '\n'
    ensures OnTrack(input, if j < |input| then j + 1 else j, statements + Emit(buf), InCode, "")
  {
    hide Cut, Lex, Statements, Errors, OnTrack, LineIsBlank, AllLineBlank, Emit;
    var a, rest := input[i + 1..j], input[i..];
    assert rest[0] == '/';
    if j == |input| {
      assert rest == "/" + a && rest[j - i..] == "";
      SlashAtEnd(buf, a);
      Flushed(input, i, j - i, statements, buf, "/" + a);
    } else {
      var b := input[j + 1..];
      SlashLine(input, i, j);
      SlashAtNewline(buf, a, b);
      assert rest[j + 1 - i..] == b;
      Flushed(input, i, j + 1 - i, statements, buf, "/" + (a + "\n"));
    }
  }

  lemma Start(input: string)
    ensures OnTrack(input, 0, [], InCode, "")
  {
    assert input[0..] == input;
  }

  /** At the end of the input: flush in code, an error inside an open region. */
  lemma Finish(input: string, statements: seq<string>, m: State, buf: string)
    requires OnTrack(input, |input|, statements, m, buf)
    ensures m.InCode? || m.InLineComment? ==>
      statements + Emit(buf) == Statements(Pieces(input)) && Errors(Pieces(input)) == []
    ensures !m.InCode? && !m.InLineComment? ==>
      statements == Statements(Pieces(input)) && Errors(Pieces(input)) == [ErrorOf(m.Kind())]
  {
    assert input[|input|..] == "";
    FinishPieces(m, buf);
  }

  lemma FinishPieces(m: State, buf: string)
    ensures m.InCode? || m.InLineComment? ==>
      Statements(Resume(m, buf, "")) == Emit(buf) && Errors(Resume(m, buf, "")) == []
    ensures !m.InCode? && !m.InLineComment? ==>
      Statements(Resume(m, buf, "")) == [] && Errors(Resume(m, buf, "")) == [ErrorOf(m.Kind())]
  {
    assert buf + "" == buf;
  }

  /** The verdict cached at an earlier semicolon of the segment still holds. */
  ghost predicate CacheOk(isPlsql: bool, plsqlChecked: bool, buf: string) {
    plsqlChecked ==> isPlsql && exists k :: 0 <= k < |buf| && buf[k] == ';' && IsPlsql(buf[..k])
  }

  lemma CacheEmpty()
    ensures CacheOk(false, false, "")
  {
  }

  lemma CacheSet(buf: string, more: string)
    requires IsPlsql(buf) && more != "" && more[0] == ';'
    ensures CacheOk(true, true, buf + more)
  {
    assert (buf + more)[..|buf|] == buf && (buf + more)[|buf|] == ';';
  }

  lemma CacheGrows(isPlsql: bool, plsqlChecked: bool, buf: string, more: string)
    requires CacheOk(isPlsql, plsqlChecked, buf)
    ensures CacheOk(isPlsql, plsqlChecked, buf + more)
  {
    if plsqlChecked {
      var k :| 0 <= k < |buf| && buf[k] == ';' && IsPlsql(buf[..k]);
      assert (buf + more)[..k] == buf[..k] && (buf + more)[k] == ';';
    }
  }

  lemma CacheRight(isPlsql: bool, plsqlChecked: bool, buf: string)
    requires CacheOk(isPlsql, plsqlChecked, buf) && plsqlChecked
    ensures isPlsql == IsPlsql(buf)
  {
    var k :| 0 <= k < |buf| && buf[k] == ';' && IsPlsql(buf[..k]);
    PlsqlVerdictStable(buf[..k], buf[k..]);
    assert buf[..k] + buf[k..] == buf;
  }

  /** n characters move the scanner from mode m inside a region to mode m'. */
  predicate RegionMove(m: State, rest: string, n: nat, m': State)
    requires !m.InCode? && 0 < n <= |rest|
  {
    || (m' == m && m.SpanOf(rest) == m.SpanOf(rest[n..]).Plus(n))
    || (m'.InCode? && m.SpanOf(rest) == Span(n, true))
    || (m'.InCode? && m.InLineComment? && n == 1 && rest[0] == '\n')
  }

  lemma RegionMoved(m: State, rest: string, n: nat, m': State, buf: string)
    requires !m.InCode? && 0 < n <= |rest| && RegionMove(m, rest, n, m')
    ensures Resume(m, buf, rest) == Resume(m', buf + rest[..n], rest[n..])
  {
    if m' == m {
      Advance(m, n, buf, rest);
    } else if m.SpanOf(rest) == Span(n, true) {
      Leave(m, n, buf, rest);
    } else {
      Leave(m, 0, buf, rest);
      assert rest[0..] == rest && buf + rest[..0] == buf;
      PlainToken(rest);
      StepCode(buf, rest);
    }
  }

  /** n characters in code position open mode m', or are one character of code. */
  predicate CodeMove(rest: string, n: nat, m': State)
    requires 0 < n <= |rest|
  {
    || Opener(rest) == Opening(m', n)
    || (n > 1 && !m'.InCode? && IsPlain(rest[0]) && rest[0] != ';' && Opener(rest[1..]) == Opening(m', n - 1))
  }

  lemma CodeMoved(rest: string, n: nat, m': State, buf: string)
    requires 0 < n <= |rest| && CodeMove(rest, n, m')
    requires rest[0] == ';' ==> IsPlsql(buf)
    requires rest[0] == '/' && m'.InCode? ==> !LineIsBlank(buf) || !RestOfLineBlank(Lex(rest[1..]))
    ensures Resume(InCode, buf, rest) == Resume(m', buf + rest[..n], rest[n..])
  {
    hide Cut, Lex, Resume;
    if m'.InCode? {
      StepCode(buf, rest);
    } else if Opener(rest) == Opening(m', n) {
      Enter(m', n, buf, rest);
    } else {
      PlainToken(rest);
      StepCode(buf, rest);
      Enter(m', n - 1, buf + rest[..1], rest[1..]);
      assert buf + rest[..1] + rest[1..][..n - 1] == buf + rest[..n];
      assert rest[1..][n - 1..] == rest[n..];
    }
  }

  /** The scanner's arms for the five states inside a region. */
  method StepRegion(m: State, input: string, i: nat) returns (add: string, m': State)
    requires i < |input| && !m.InCode?
    ensures 0 < |add| <= |input| - i && add == input[i..][..|add|]
    ensures RegionMove(m, input[i..], |add|, m')
  {
    var ch := input[i];
    match m {
      case InLineComment =>
        if ch == '\n' {
          return "\n", InCode;
        }
      case InBlockComment =>
        if ch == '*' && Peek(input, i + 1, '/') {
          return "*/", InCode;
        }
      case InSingleString =>
        if ch == '\'' && Peek(input, i + 1, '\'') {
          return "''", m;
        }
        if ch == '\'' {
          return "'", InCode;
        }
      case InDoubleString =>
        if ch == '"' && Peek(input, i + 1, '"') {
          return "\"\"", m;
        }
        if ch == '"' {
          return "\"", InCode;
        }
      case InQString(closer) =>
        if ch == closer && Peek(input, i + 1, '\'') {
          return [ch, '\''], InCode;
        }
    }
    return [ch], m;
  }

  /** The scanner's code arm, for everything but terminators. */
  method StepOpener(input: string, i: nat) returns (add: string, m': State)
    requires i < |input|
    ensures 0 < |add| <= |input| - i && add == input[i..][..|add|]
    ensures CodeMove(input[i..], |add|, m')
    ensures m'.InCode? ==> !Begins(input[i..], '/', '*')
  {
    var ch := input[i];
    hide IsPlain, QCloser;
    if ch == '-' && Peek(input, i + 1, '-') {
      return "--", InLineComment;
    }
    if ch == '/' && Peek(input, i + 1, '*') {
      return "/*", InBlockComment;
    }
    if ch == '"' {
      return "\"", InDoubleString;
    }
    if (ch == 'q' || ch == 'Q') && Peek(input, i + 1, '\'') && i + 2 < |input| {
      var delim := input[i + 2];
      return [ch, '\'', delim], InQString(QCloser(delim));
    }
    if (ch == 'n' || ch == 'N') && (Peek(input, i + 1, 'q') || Peek(input, i + 1, 'Q'))
      && i + 3 < |input| && input[i + 2] == '\''
    {
      var delim := input[i + 3];
      return [ch, input[i + 1], '\'', delim], InQString(QCloser(delim));
    }
    if (ch == 'n' || ch == 'N') && Peek(input, i + 1, '\'') {
      return [ch, '\''], InSingleString;
    }
    if ch == '\'' {
      return "'", InSingleString;
    }
    return [ch], InCode;
  }

  /** Where the line ends if only blanks follow position i; the source's inner scan. */
  method ScanBlanks(input: string, i: nat) returns (j: nat)
    requires i <= |input|
    ensures i <= j <= |input|
    ensures AllLineBlank(input[i..j])
    ensures j < |input| ==> !IsLineBlank(input[j])
  {
    j := i;
    while j < |input| && IsLineBlank(input[j])
      invariant i <= j <= |input|
      invariant forall k :: i <= k < j ==> IsLineBlank(input[k])
    {
      j := j + 1;
    }
  }

  method SplitSql(input: string) returns (statements: seq<string>, errors: seq<SplitError>)
    ensures statements == Statements(Pieces(input))
    ensures errors == Errors(Pieces(input))
  {
    hide Cut, Lex, Statements, Errors, OnTrack, Resume, CacheOk;
    statements, errors := [], [];
    var buf, i, state := "", 0, InCode;
    var isPlsql, plsqlChecked := false, false;
    Start(input);
    CacheEmpty();
    while i < |input|
      invariant i <= |input|
      invariant OnTrack(input, i, statements, state, buf)
      invariant CacheOk(isPlsql, plsqlChecked, buf)
    {
      var add;
      ghost var state0, rest := state, input[i..];
      if !state.InCode? {
        add, state := StepRegion(state, input, i);
        RegionMoved(state0, rest, |add|, state, buf);
      } else {
        if input[i] == ';' {
          if !plsqlChecked {
            isPlsql := DetectPlsqlStart(buf);
            plsqlChecked := true;
          } else {
            CacheRight(isPlsql, plsqlChecked, buf);
          }
          if !isPlsql {
            FlushedAtSemicolon(input, i, statements, buf);
            statements := Flush(statements, buf);
            buf, isPlsql, plsqlChecked := "", false, false;
            i := i + 1;
            continue;
          }
        } else if input[i] == '/' && LineIsBlank(buf) {
          var j := ScanBlanks(input, i + 1);
          if j == |input| || input[j] == '\n' {
            FlushedAtSlash(input, i, j, statements, buf);
            statements := Flush(statements, buf);
            buf, isPlsql, plsqlChecked := "", false, false;
            i := if j < |input| then j + 1 else j;
            continue;
          }
          SlashInLine(input[i + 1..j], input[j..]);
          assert rest[1..] == input[i + 1..] == input[i + 1..j] + input[j..];
        }
        add, state := StepOpener(input, i);
        CodeMoved(rest, |add|, state, buf);
      }
      Moved(input, i, |add|, statements, state0, buf, state, buf + add);
      if state0.InCode? && input[i] == ';' {
        CacheSet(buf, add);
      } else {
        CacheGrows(isPlsql, plsqlChecked, buf, add);
      }
      buf := buf + add;
      i := i + |add|;
    }
    Finish(input, statements, state, buf);
    match state {
      case InCode | InLineComment =>
      case InBlockComment => errors := [UnterminatedComment];
      case InDoubleString => errors := [UnterminatedIdentifier];
      case _ => errors := [UnterminatedString];
    }
    if errors == [] {
      statements := Flush(statements, buf);
    }
  }
}
