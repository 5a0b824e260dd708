/**
 * The reference view of Oracle SQL text: a list of tokens, each a whole comment, literal
 * or quoted identifier, or one character of code.
 */
module SqlTokens {
  import opened Text

  /*
   * The tokens are read off in one jump each; the scanners in sql-splitter.ts and ai.ts
   * are judged against them.
   */

  datatype Kind = Code | Comment | Literal | Ident

  /** `closed` is false exactly for a region whose terminator never comes. */
  datatype Token = Token(kind: Kind, text: string, closed: bool) {
    predicate Is(c: char) {
      kind == Code && text == [c]
    }
  }

  /** How far a region extends, and whether its terminator was found. */
  datatype Span = Span(len: nat, closed: bool) {
    function Plus(n: nat): Span {
      Span(len + n, closed)
    }
  }

  /** The closing delimiter of an alternative-quoted literal. */
  function QCloser(d: char): char {
    if d == '[' then ']'
    else if d == '<' then '>'
    else if d == '(' then ')'
    else if d == '{' then '}'
    else d
  }

  /** Characters before the newline that ends a line comment. */
  function LineLen(s: string): (n: nat)
    ensures n <= |s| && forall i :: 0 <= i < n ==> s[i] != '\n'
    ensures n < |s| ==> s[n] == '\n'
  {
    if s == "" || s[0] == '\n' then 0 else 1 + LineLen(s[1..])
  }

  /** Through the first star-slash. */
  function BlockSpan(s: string): (r: Span)
    ensures r.len <= |s| && (!r.closed ==> r.len == |s|)
    ensures r.closed ==> r.len >= 2 && s[r.len - 2] == '*' && s[r.len - 1] == '/'
  {
    if s == "" then Span(0, false)
    else if Begins(s, '*', '/') then Span(2, true)
    else
      BlockSpan(s[1..]).Plus(1)
  }

  /** Through the first quote that is not doubled. */
  function QuoteSpan(s: string, q: char): (r: Span)
    ensures r.len <= |s| && (!r.closed ==> r.len == |s|)
    ensures r.closed ==> r.len >= 1 && s[r.len - 1] == q
  {
    if s == "" then Span(0, false)
    else if s[0] == q && |s| >= 2 && s[1] == q then QuoteSpan(s[2..], q).Plus(2)
    else if s[0] == q then Span(1, true)
    else QuoteSpan(s[1..], q).Plus(1)
  }

  lemma QuoteSpanStep(s: string, q: char)
    requires s != ""
    ensures QuoteSpan(s, q) ==
      if Begins(s, q, q) then QuoteSpan(s[2..], q).Plus(2)
      else if s[0] == q then Span(1, true)
      else QuoteSpan(s[1..], q).Plus(1)
  {
  }

  /** Doubling its quotes keeps a text inside one quoted region. */
  lemma {:induction false} DoubledSpan(w: string, rest: string, q: char)
    requires rest == "" || rest[0] != q
    ensures QuoteSpan(Doubled(w, q) + ([q] + rest), q) == Span(|Doubled(w, q)| + 1, true)
  {
    hide QuoteSpan;
    var end := [q] + rest;
    var t := Doubled(w, q) + end;
    QuoteSpanStep(t, q);
    if w == "" {
      assert t == end;
    } else {
      DoubledSpan(w[1..], rest, q);
      var c := if w[0] == q then [q, q] else [w[0]];
      Assoc(c, Doubled(w[1..], q), end);
      assert t[|c|..] == Doubled(w[1..], q) + end;
    }
  }

  /** Through the first closing delimiter that is followed by a quote. */
  function QSpan(s: string, closer: char): (r: Span)
    ensures r.len <= |s| && (!r.closed ==> r.len == |s|)
    ensures r.closed ==> r.len >= 2 && s[r.len - 2] == closer && s[r.len - 1] == '\''
  {
    if s == "" then Span(0, false)
    else if |s| >= 2 && s[0] == closer && s[1] == '\'' then Span(2, true)
    else QSpan(s[1..], closer).Plus(1)
  }

  /** Where a position is: in code, or in a region with its own way of ending. */
  datatype State =
    | InCode
    | InLineComment
    | InBlockComment
    | InSingleString
    | InDoubleString
    | InQString(closer: char)
  {
    function Kind(): Kind {
      match this
      case InCode => Code
      case InLineComment => Comment
      case InBlockComment => Comment
      case InDoubleString => Ident
      case _ => Literal
    }

    /** What is left of the region when s is the text still ahead. */
    function SpanOf(s: string): (r: Span)
      requires !InCode?
      ensures r.len <= |s| && (!r.closed ==> r.len == |s|)
    {
      match this
      case InLineComment => Span(LineLen(s), true)
      case InBlockComment => BlockSpan(s)
      case InSingleString => QuoteSpan(s, '\'')
      case InDoubleString => QuoteSpan(s, '"')
      case InQString(closer) => QSpan(s, closer)
    }
  }

  datatype Opening = Opening(state: State, width: nat)

  /** What starts at the beginning of s in code position, and how long its opener is. */
  function Opener(s: string): (o: Opening)
    requires s != ""
    ensures 0 < o.width <= |s|
  {
    if Begins(s, '-', '-') then Opening(InLineComment, 2)
    else if Begins(s, '/', '*') then Opening(InBlockComment, 2)
    else if s[0] == '"' then Opening(InDoubleString, 1)
    else if (s[0] == 'q' || s[0] == 'Q') && |s| >= 3 && s[1] == '\'' then
      Opening(InQString(QCloser(s[2])), 3)
    else if s[0] == '\'' then Opening(InSingleString, 1)
    else Opening(InCode, 1)
  }

  /** The token that starts at the beginning of s, read in code position. */
  function FirstToken(s: string): (t: Token)
    requires s != ""
    ensures 0 < |t.text| <= |s| && t.text == s[..|t.text|]
    ensures !t.closed ==> t.text == s && t.kind != Code
    ensures t.kind == Code ==> |t.text| == 1
  {
    var o := Opener(s);
    if o.state.InCode? then Token(Code, s[..1], true)
    else
      var sp := o.state.SpanOf(s[o.width..]).Plus(o.width);
      Token(o.state.Kind(), s[..sp.len], sp.closed)
  }

  function Lex(s: string): seq<Token> {
    if s == "" then [] else
      var t := FirstToken(s);
      [t] + Lex(s[|t.text|..])
  }

  lemma LexSplit(s: string)
    requires s != ""
    ensures var t := FirstToken(s); Lex(s) == [t] + Lex(s[|t.text|..])
  {
  }

  lemma LexNothing()
    ensures Lex("") == []
  {
  }

  function TextOf(ts: seq<Token>): string {
    if ts == [] then "" else ts[0].text + TextOf(ts[1..])
  }

  lemma TextOfNone()
    ensures TextOf([]) == ""
  {
  }

  lemma TextOfCons(ts: seq<Token>)
    requires ts != []
    ensures TextOf(ts) == ts[0].text + TextOf(ts[1..])
  {
  }

  predicate AllClosed(ts: seq<Token>) {
    forall i :: 0 <= i < |ts| ==> ts[i].closed
  }

  /** Every character of the input lies in exactly one token. */
  lemma {:induction false} LexLossless(s: string)
    ensures TextOf(Lex(s)) == s
  {
    hide FirstToken, TextOf, Lex;
    LexNothing();
    TextOfNone();
    if s != "" {
      var t := FirstToken(s);
      LexLossless(s[|t.text|..]);
      LexSplit(s);
      TextOfCons(Lex(s));
      assert Lex(s)[1..] == Lex(s[|t.text|..]);
      assert s == t.text + s[|t.text|..];
    }
  }

  /** Only the last token can be left open, and nothing follows it. */
  lemma {:induction false} OpenTokenIsLast(s: string, i: nat)
    requires i < |Lex(s)| && !Lex(s)[i].closed
    ensures i == |Lex(s)| - 1
  {
    var t := FirstToken(s);
    var rest := s[|t.text|..];
    assert Lex(s)[1..] == Lex(rest);
    if i > 0 {
      assert Lex(s)[i] == Lex(rest)[i - 1];
      OpenTokenIsLast(rest, i - 1);
    } else {
      assert rest == "";
    }
  }

  /** A character that starts no region, whatever follows it. */
  predicate IsPlain(c: char) {
    c != '-' && c != '/' && c != '\'' && c != '"' && c != 'q' && c != 'Q'
  }

  function CodeTokens(s: string): (ts: seq<Token>)
    ensures |ts| == |s|
  {
    if s == "" then [] else [Token(Code, s[..1], true)] + CodeTokens(s[1..])
  }

  lemma PlainToken(s: string)
    requires s != "" && IsPlain(s[0])
    ensures Opener(s) == Opening(InCode, 1)
    ensures FirstToken(s) == Token(Code, s[..1], true)
    ensures Lex(s) == [Token(Code, s[..1], true)] + Lex(s[1..])
  {
  }

  lemma CodeTokensText(a: string)
    ensures TextOf(CodeTokens(a)) == a
  {
    if a != "" {
      assert CodeTokens(a)[1..] == CodeTokens(a[1..]);
      CodeTokensText(a[1..]);
    }
  }

  /** Plain text lexes to single characters of code and leaves the rest undisturbed. */
  lemma LexPlain(a: string, b: string)
    requires forall i :: 0 <= i < |a| ==> IsPlain(a[i])
    ensures Lex(a + b) == CodeTokens(a) + Lex(b)
  {
    hide Lex, FirstToken;
    if a == "" {
      assert a + b == b;
    } else {
      var s := a + b;
      assert s[1..] == a[1..] + b && s[..1] == a[..1];
      PlainToken(s);
      LexPlain(a[1..], b);
    }
  }
}
