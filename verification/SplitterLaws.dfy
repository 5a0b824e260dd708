/**
 * What holds of the statement splitter on every input (sidecar/src/sql-splitter.ts): no
 * character is lost, errors are exactly the regions left open, and every emitted statement
 * splits again into itself, unless its last line is a bare slash. The lemmas follow the
 * tokens of the reference; a text is cut at a token and what is left is lexed on its own.
 */
module SplitterLaws {
  import opened Text
  import opened SqlTokens
  import opened SqlSplitter

  // ---- Nothing is lost, and errors are open regions -------------------------------

  function TextOfPieces(ps: seq<Piece>): string {
    if ps == [] then "" else ps[0].text + TextOfPieces(ps[1..])
  }

  lemma {:induction false} CutLossless(ts: seq<Token>, buf: string)
    ensures TextOfPieces(Cut(ts, buf)) == buf + TextOf(ts)
    decreases |ts|
  {
    hide Cut, IsPlsql, LineIsBlank, RestOfLineBlank, RestOfLine, TextOf, TextOfPieces;
    if ts == [] {
      CutNothing(buf);
      LastPieceText(Segment(buf));
      TextOfNone();
      return;
    }
    var t, rest := ts[0], ts[1..];
    assert ts == [t] + rest;
    CutStep(t, rest, buf);
    TextOfCons(ts);
    if !t.closed {
      LastPieceText(Open(t.kind, buf + TextOf(ts)));
    } else if t.Is(';') && !IsPlsql(buf) {
      CutLossless(rest, "");
      SeparatorText(buf, ";", Cut(rest, ""));
    } else if t.Is('/') && LineIsBlank(buf) && RestOfLineBlank(rest) {
      var n := RestOfLine(rest);
      CutLossless(rest[n..], "");
      SeparatorText(buf, TextOf(ts[..1 + n]), Cut(rest[n..], ""));
      TextOfSplit(ts, 1 + n);
      assert ts[1 + n..] == rest[n..];
    } else {
      CutLossless(rest, buf + t.text);
    }
  }

  lemma LastPieceText(p: Piece)
    ensures TextOfPieces([p]) == p.text
  {
    assert TextOfPieces([p]) == p.text + TextOfPieces([]);
  }

  lemma SeparatorText(buf: string, sep: string, tail: seq<Piece>)
    ensures TextOfPieces([Segment(buf), Separator(sep)] + tail) == buf + sep + TextOfPieces(tail)
  {
    var ps := [Segment(buf), Separator(sep)] + tail;
    assert ps[1..] == [Separator(sep)] + tail;
    assert ps[1..][1..] == tail;
  }

  lemma TextOfSplit(ts: seq<Token>, n: nat)
    requires n <= |ts|
    ensures TextOf(ts) == TextOf(ts[..n]) + TextOf(ts[n..])
  {
    hide TextOf;
    if n == 0 {
      assert ts[0..] == ts && ts[..0] == [];
      TextOfNone();
    } else {
      TextOfCons(ts);
      TextOfCons(ts[..n]);
      assert ts[..n][1..] == ts[1..][..n - 1];
      assert ts[1..][n - 1..] == ts[n..];
      TextOfSplit(ts[1..], n - 1);
      Assoc(ts[0].text, TextOf(ts[1..][..n - 1]), TextOf(ts[n..]));
    }
  }

  /** Every character of the input is in exactly one segment or separator, in order. */
  lemma PiecesLossless(input: string)
    ensures TextOfPieces(Pieces(input)) == input
  {
    CutLossless(Lex(input), "");
    LexLossless(input);
  }

  /** What lexing guarantees: only the last token may be open, and code never is. */
  predicate WellClosed(ts: seq<Token>) {
    forall i :: 0 <= i < |ts| && !ts[i].closed ==> i == |ts| - 1 && ts[i].kind != Code
  }

  lemma LexWellClosed(s: string)
    ensures WellClosed(Lex(s))
  {
    forall i | 0 <= i < |Lex(s)| && !Lex(s)[i].closed
      ensures i == |Lex(s)| - 1 && Lex(s)[i].kind != Code
    {
      OpenTokenIsLast(s, i);
      OpenTokenIsNotCode(s, i);
    }
  }

  lemma {:induction false} OpenTokenIsNotCode(s: string, i: nat)
    requires i < |Lex(s)| && !Lex(s)[i].closed
    ensures Lex(s)[i].kind != Code
  {
    hide Lex, FirstToken;
    if s == "" {
      LexNothing();
    } else {
      LexSplit(s);
      if i > 0 {
        OpenTokenIsNotCode(s[|FirstToken(s).text|..], i - 1);
      }
    }
  }

  /** The errors a token list deserves: one, for the region it leaves open. */
  function OpenErrors(ts: seq<Token>): seq<SplitError> {
    if ts == [] || ts[|ts| - 1].closed then [] else [ErrorOf(ts[|ts| - 1].kind)]
  }

  lemma TailErrors(ts: seq<Token>, n: nat)
    requires WellClosed(ts) && n <= |ts| && (n == |ts| && ts != [] ==> ts[|ts| - 1].closed)
    ensures WellClosed(ts[n..]) && OpenErrors(ts[n..]) == OpenErrors(ts)
  {
    forall i | 0 <= i < |ts[n..]| && !ts[n..][i].closed
      ensures i == |ts[n..]| - 1 && ts[n..][i].kind != Code
    {
      assert ts[n..][i] == ts[n + i];
    }
    assert n < |ts| ==> ts[n..][|ts[n..]| - 1] == ts[|ts| - 1];
  }

  lemma OpenIsAlone(ts: seq<Token>)
    requires WellClosed(ts) && ts != [] && !ts[0].closed
    ensures |ts| == 1 && OpenErrors(ts) == [ErrorOf(ts[0].kind)]
  {
  }

  lemma {:induction false} CutErrors(ts: seq<Token>, buf: string)
    requires WellClosed(ts)
    ensures Errors(Cut(ts, buf)) == OpenErrors(ts)
    decreases |ts|
  {
    hide Cut, IsPlsql, LineIsBlank, RestOfLineBlank, RestOfLine, Errors, WellClosed, OpenErrors, TextOf;
    if ts == [] {
      CutNothing(buf);
      OneError(Segment(buf));
      NoTokensNoErrors();
      return;
    }
    var t, rest := ts[0], ts[1..];
    assert ts == [t] + rest;
    CutStep(t, rest, buf);
    if !t.closed {
      OneError(Open(t.kind, buf + TextOf(ts)));
      OpenIsAlone(ts);
    } else {
      TailErrors(ts, 1);
      if t.Is(';') && !IsPlsql(buf) {
        CutErrors(rest, "");
        SegmentPieces(buf, ";", Cut(rest, ""));
      } else if t.Is('/') && LineIsBlank(buf) && RestOfLineBlank(rest) {
        var n := RestOfLine(rest);
        RestOfLineClosed(rest);
        TailErrors(rest, n);
        CutErrors(rest[n..], "");
        SegmentPieces(buf, TextOf(ts[..1 + n]), Cut(rest[n..], ""));
      } else {
        CutErrors(rest, buf + t.text);
      }
    }
  }

  lemma NoTokensNoErrors()
    ensures OpenErrors([]) == []
  {
  }

  lemma RestOfLineClosed(ts: seq<Token>)
    requires WellClosed(ts) && RestOfLineBlank(ts)
    ensures RestOfLine(ts) == |ts| && ts != [] ==> ts[|ts| - 1].closed
  {
    hide RestOfLine, RestOfLineBlank;
    RestOfLineIsCode(ts);
    if RestOfLine(ts) == |ts| && ts != [] {
      assert ts[..|ts|][|ts| - 1] == ts[|ts| - 1];
    }
  }

  lemma OneError(p: Piece)
    ensures Errors([p]) == if p.Open? then [ErrorOf(p.kind)] else []
  {
  }

  lemma RestOfLineIsCode(ts: seq<Token>)
    requires RestOfLineBlank(ts)
    ensures forall i :: 0 <= i < RestOfLine(ts) ==> ts[i].kind == Code
    ensures RestOfLine(ts) > 0 ==> ts[RestOfLine(ts) - 1].kind == Code
    ensures IsBlank(TextOf(ts[..RestOfLine(ts)]))
  {
    if ts != [] {
      var n := RestOfLine(ts);
      assert ts[..n][1..] == ts[1..][..n - 1];
      if !ts[0].Is('\n') {
        RestOfLineIsCode(ts[1..]);
      }
    }
  }

  /** One error, naming the region, exactly when the input ends inside one. */
  lemma ErrorsAreOpenRegions(input: string)
    ensures Errors(Pieces(input)) == OpenErrors(Lex(input))
    ensures Errors(Pieces(input)) == [] <==> AllClosed(Lex(input))
  {
    hide Cut, Lex, Errors;
    LexWellClosed(input);
    CutErrors(Lex(input), "");
  }

  // ---- One round of cutting, in terms of the text ---------------------------------

  /** Dropping tokens from a lexed text is dropping characters from the text. */
  lemma LexDrop(s: string, j: nat) returns (p: nat)
    requires j <= |Lex(s)|
    ensures j <= p <= |s| && TextOf(Lex(s)[..j]) == s[..p] && Lex(s)[j..] == Lex(s[p..])
  {
    hide FirstToken;
    if j == 0 {
      p := 0;
      assert s[0..] == s;
    } else {
      var t := FirstToken(s);
      var n := |t.text|;
      var ts := Lex(s[n..]);
      LexSplit(s);
      var p' := LexDrop(s[n..], j - 1);
      p := n + p';
      assert ([t] + ts)[..j] == [t] + ts[..j - 1];
      assert ([t] + ts[..j - 1])[1..] == ts[..j - 1];
      assert ([t] + ts)[j..] == ts[j - 1..];
      SliceSlice(s, n, p');
    }
  }

  /** A semicolon, or a slash with the blanks and the newline that follow it. */
  predicate IsTerminator(x: string) {
    x == ";" || (x != "" && x[0] == '/' && IsBlank(x[1..]))
  }

  /** The input ends in this segment, or a terminator at n ends it and cutting goes on at next. */
  ghost predicate IsRound(s: string, buf: string, n: nat, next: nat, ps: seq<Piece>) {
    || ps == [Segment(buf + s)]
    || (|ps| == 1 && ps[0].Open?)
    || (n < next <= |s| && IsTerminator(s[n..next])
        && ps == [Segment(buf + s[..n]), Separator(s[n..next])] + Cut(Lex(s[next..]), ""))
  }

  lemma {:induction false} CutRound(s: string, buf: string) returns (n: nat, next: nat)
    ensures IsRound(s, buf, n, next, Cut(Lex(s), buf))
    decreases |s|
  {
    hide Cut, Lex, FirstToken, RestOfLineBlank, RestOfLine, LineIsBlank, IsPlsql, TextOf, IsTerminator;
    n, next := 0, 0;
    if s == "" {
      RoundAtEnd(buf);
      return;
    }
    var t := FirstToken(s);
    var k := |t.text|;
    var ts := Lex(s[k..]);
    LexSplit(s);
    CutStep(t, ts, buf);
    if !t.closed {
    } else if t.Is(';') && !IsPlsql(buf) {
      next := 1;
      RoundStop(s, buf, 1, ";");
    } else if t.Is('/') && LineIsBlank(buf) && RestOfLineBlank(ts) {
      next := SlashRound(s, ts, buf);
    } else {
      n, next := CutRound(s[k..], buf + t.text);
      RoundAfter(s, k, buf, n, next, Cut(ts, buf + t.text));
      n, next := n + k, next + k;
    }
  }

  lemma RoundAtEnd(buf: string)
    ensures IsRound("", buf, 0, 0, Cut(Lex(""), buf))
  {
    assert buf + "" == buf;
  }

  lemma RoundStop(s: string, buf: string, next: nat, sep: string)
    requires 0 < next <= |s| && sep == s[..next] && (sep == ";" || IsTerminator(sep))
    ensures IsRound(s, buf, 0, next, [Segment(buf), Separator(sep)] + Cut(Lex(s[next..]), ""))
  {
    hide Cut, Lex;
    assert buf + s[..0] == buf && s[0..next] == s[..next];
  }

  lemma SlashRound(s: string, ts: seq<Token>, buf: string) returns (p: nat)
    requires Lex(s) == [Token(Code, "/", true)] + ts && s != "" && s[0] == '/'
    requires RestOfLineBlank(ts)
    ensures var m := RestOfLine(ts);
      IsRound(s, buf, 0, p,
              [Segment(buf), Separator(TextOf(([Token(Code, "/", true)] + ts)[..1 + m]))] + Cut(ts[m..], ""))
  {
    hide Cut, Lex;
    var m := RestOfLine(ts);
    p := LexDrop(s, 1 + m);
    assert ([Token(Code, "/", true)] + ts)[1 + m..] == ts[m..];
    RestOfLineIsCode(ts);
    SlashSeparator(s, ts, p);
    assert s[0..p] == s[..p];
    RoundStop(s, buf, p, s[..p]);
  }

  lemma SlashSeparator(s: string, ts: seq<Token>, p: nat)
    requires s != "" && s[0] == '/' && p <= |s|
    requires RestOfLine(ts) <= |ts| && IsBlank(TextOf(ts[..RestOfLine(ts)]))
    requires TextOf(([Token(Code, "/", true)] + ts)[..1 + RestOfLine(ts)]) == s[..p]
    ensures IsTerminator(s[0..p])
  {
    hide TextOf, RestOfLine, IsBlank, IsTerminator;
    var n := RestOfLine(ts);
    var us := [Token(Code, "/", true)] + ts;
    TextOfCons(us[..1 + n]);
    assert us[..1 + n][1..] == ts[..n];
    assert s[0..p] == s[..p];
    SlashTerminates(TextOf(ts[..n]));
  }

  lemma SlashTerminates(b: string)
    requires IsBlank(b)
    ensures IsTerminator("/" + b)
  {
    assert ("/" + b)[1..] == b;
  }

  lemma RoundAfter(s: string, k: nat, buf: string, n: nat, next: nat, ps: seq<Piece>)
    requires k <= |s| && IsRound(s[k..], buf + s[..k], n, next, ps)
    ensures IsRound(s, buf, n + k, next + k, ps)
  {
    hide Cut, Lex;
    SliceSlice(s, k, 0);
    assert buf + s[..k] + s[k..] == buf + s;
    if n < next <= |s| - k {
      SliceSlice(s, k, n);
      SliceSlice(s, k, next);
      assert buf + s[..k] + s[k..][..n] == buf + s[..n + k];
      assert s[k..][n..next] == s[n + k..next + k];
    }
  }

  // ---- Splitting an emitted statement again ---------------------------------------

  /** The last line of x is a slash, with blanks before it. */
  predicate EndsInBareSlash(x: string) {
    x != "" && x[|x| - 1] == '/' && LineIsBlank(x[..|x| - 1])
  }

  /** What splitting an emitted statement x again gives. */
  function Resplit(x: string): seq<Piece> {
    if EndsInBareSlash(x) then [Segment(x[..|x| - 1]), Separator("/"), Segment("")]
    else [Segment(x)]
  }

  lemma LineLenPrefix(a: string, b: string)
    requires LineLen(a + b) <= |a|
    ensures LineLen(a) == LineLen(a + b)
  {
    if a != "" && a[0] != '\n' {
      assert (a + b)[1..] == a[1..] + b;
      LineLenPrefix(a[1..], b);
    }
  }

  lemma BlockSpanPrefix(a: string, b: string)
    requires BlockSpan(a + b).closed && BlockSpan(a + b).len <= |a|
    ensures BlockSpan(a) == BlockSpan(a + b)
  {
    if !Begins(a + b, '*', '/') {
      assert (a + b)[1..] == a[1..] + b;
      BlockSpanPrefix(a[1..], b);
    }
  }

  lemma QuoteSpanPrefix(a: string, b: string, q: char)
    requires QuoteSpan(a + b, q).closed && QuoteSpan(a + b, q).len <= |a|
    ensures QuoteSpan(a, q) == QuoteSpan(a + b, q)
  {
    if Begins(a + b, q, q) {
      assert (a + b)[2..] == a[2..] + b;
      QuoteSpanPrefix(a[2..], b, q);
    } else if a[0] != q {
      assert (a + b)[1..] == a[1..] + b;
      QuoteSpanPrefix(a[1..], b, q);
    }
  }

  lemma QSpanPrefix(a: string, b: string, closer: char)
    requires QSpan(a + b, closer).closed && QSpan(a + b, closer).len <= |a|
    ensures QSpan(a, closer) == QSpan(a + b, closer)
  {
    if !Begins(a + b, closer, '\'') {
      assert (a + b)[1..] == a[1..] + b;
      QSpanPrefix(a[1..], b, closer);
    }
  }

  lemma SpanTruncate(m: State, s: string, j: nat)
    requires !m.InCode? && m.SpanOf(s).closed && m.SpanOf(s).len <= j <= |s|
    ensures m.SpanOf(s[..j]) == m.SpanOf(s)
  {
    var a, b := s[..j], s[j..];
    assert s == a + b;
    match m
    case InLineComment => LineLenPrefix(a, b);
    case InBlockComment => BlockSpanPrefix(a, b);
    case InSingleString => QuoteSpanPrefix(a, b, '\'');
    case InDoubleString => QuoteSpanPrefix(a, b, '"');
    case InQString(closer) => QSpanPrefix(a, b, closer);
  }

  /** A closed token is still the first token when the text after it is cut off. */
  lemma TokenTruncate(s: string, k: nat)
    requires s != "" && FirstToken(s).closed && |FirstToken(s).text| <= k <= |s|
    ensures FirstToken(s[..k]) == FirstToken(s)
  {
    hide Opener;
    var o := Opener(s);
    OpenerTruncate(s, k);
    var n := |FirstToken(s).text|;
    assert s[..k][..n] == s[..n];
    if !o.state.InCode? {
      assert s[..k][o.width..] == s[o.width..][..k - o.width];
      SpanTruncate(o.state, s[o.width..], k - o.width);
    }
  }

  lemma OpenerTruncate(s: string, k: nat)
    requires s != "" && FirstToken(s).closed && |FirstToken(s).text| <= k <= |s|
    ensures Opener(s[..k]) == Opener(s) && Opener(s).width <= k
  {
  }

  /** A closed region other than a line comment ends in a quote or a slash. */
  lemma RegionEndsSolid(s: string)
    requires s != "" && FirstToken(s).closed
    requires !Opener(s).state.InCode? && !Opener(s).state.InLineComment?
    ensures var t := FirstToken(s).text; !IsSpace(t[|t| - 1])
  {
    hide Opener;
    var o := Opener(s);
    var t := FirstToken(s).text;
    var sp := o.state.SpanOf(s[o.width..]);
    assert t[|t| - 1] == s[o.width..][sp.len - 1];
  }

  /** No token but a bare slash leaves the text ending in a bare slash. */
  lemma NotBareAfter(s: string, buf: string)
    requires s != "" && FirstToken(s).closed
    requires FirstToken(s).Is('/') ==> !LineIsBlank(buf)
    ensures !EndsInBareSlash(buf + FirstToken(s).text)
  {
    hide LineIsBlank, FirstToken, Opener, EndsInBareSlash;
    var t := FirstToken(s);
    TokenShape(s);
    BareEnd(buf, t.text);
    if t.text[|t.text| - 1] == '/' {
      if Opener(s).state.InLineComment? {
        LineCommentNotBare(buf, t.text);
      } else if !Opener(s).state.InCode? {
        EndsInStarSlash(s);
      }
    }
  }

  lemma BareEnd(buf: string, t: string)
    requires t != ""
    ensures t[|t| - 1] != '/' ==> !EndsInBareSlash(buf + t)
    ensures t == "/" ==> (EndsInBareSlash(buf + t) <==> LineIsBlank(buf))
    ensures |t| > 1 && !IsSpace(t[|t| - 2]) ==> !EndsInBareSlash(buf + t)
  {
    hide LineIsBlank;
    var x := buf + t;
    assert x[|x| - 1] == t[|t| - 1];
    assert x[..|x| - 1] == buf + t[..|t| - 1];
    if t == "/" {
      assert buf + "" == buf;
    } else if |t| > 1 && !IsSpace(t[|t| - 2]) {
      SolidEnd(x[..|x| - 1]);
    }
  }

  lemma TokenShape(s: string)
    requires s != ""
    ensures var t, m := FirstToken(s), Opener(s).state;
      && (m.InCode? <==> t.kind == Code)
      && (m.InLineComment? ==> Begins(t.text, '-', '-') && '\n' !in t.text)
  {
  }

  lemma SolidEnd(s: string)
    requires s != "" && !IsSpace(s[|s| - 1])
    ensures !LineIsBlank(s)
  {
  }

  lemma LineCommentNotBare(buf: string, c: string)
    requires Begins(c, '-', '-') && '\n' !in c
    ensures !EndsInBareSlash(buf + c)
  {
    var x := buf + c;
    assert x[..|x| - 1] == buf + c[..|c| - 1];
    assert x[|x| - 1] == c[|c| - 1];
    if |c| > 2 {
      assert c[..|c| - 1][0] == '-';
      LineNotBlank(buf, c[..|c| - 1]);
    }
  }

  lemma EndsInStarSlash(s: string)
    requires s != "" && FirstToken(s).closed
    requires var t := FirstToken(s).text; |t| > 0 && t[|t| - 1] == '/'
    requires !Opener(s).state.InCode? && !Opener(s).state.InLineComment?
    ensures var t := FirstToken(s).text; |t| > 1 && t[|t| - 2] == '*'
  {
    hide Opener;
    var o := Opener(s);
    var t := FirstToken(s).text;
    var sp := o.state.SpanOf(s[o.width..]);
    assert t[|t| - 1] == s[o.width..][sp.len - 1];
    assert sp.len >= 2 ==> t[|t| - 2] == s[o.width..][sp.len - 2];
  }

  /** Cutting trailing text off cannot make a slash bare unless it becomes the last character. */
  lemma RestOfLineTruncate(y: string, j: nat)
    requires 0 < j <= |y| && !IsSpace(y[j - 1])
    ensures RestOfLineBlank(Lex(y[..j])) ==> RestOfLineBlank(Lex(y))
  {
    hide Lex, RestOfLineBlank, RestOfLine;
    var m := BlankRun(y[..j]);
    var a := y[..m];
    assert a == y[..j][..m];
    if y[m] == '\n' {
      assert y == (a + "\n") + y[m + 1..];
      LexPlain(a + "\n", y[m + 1..]);
      RestOfLineNewline(a, Lex(y[m + 1..]));
    } else {
      assert y[..j] == a + y[m..j];
      SlashInLine(a, y[m..j]);
    }
  }

  /** The blanks that y starts with, given that it does not end in one. */
  lemma BlankRun(y: string) returns (m: nat)
    requires y != "" && !IsSpace(y[|y| - 1])
    ensures m < |y| && AllLineBlank(y[..m]) && !IsLineBlank(y[m])
  {
    if IsLineBlank(y[0]) {
      var m' := BlankRun(y[1..]);
      m := m' + 1;
      assert y[..m] == [y[0]] + y[1..][..m'];
    } else {
      m := 0;
    }
  }

  lemma PlsqlIgnoresBlank(a: string, buf: string)
    requires IsBlank(a)
    ensures IsPlsql(a + buf) == IsPlsql(buf)
  {
    TrimStartBlank(a, buf);
  }

  lemma CutFirst(ts: seq<Token>, buf: string)
    ensures Cut(ts, buf) != [] && buf <= Cut(ts, buf)[0].text
    decreases |ts|
  {
    if ts != [] && ts[0].closed {
      CutFirst(ts[1..], buf + ts[0].text);
    }
  }

  /** The first token of a trimmed rest when the trim does not reach into it. */
  lemma ResplitStep(buf: string, rest: string, k: nat)
    requires rest != "" && 0 < k <= |rest| && !IsSpace(rest[k - 1])
    requires var t := FirstToken(rest); t.closed && |t.text| <= k
    requires var t := FirstToken(rest); t.Is(';') ==> IsPlsql(buf)
    requires var t := FirstToken(rest); t.Is('/') && LineIsBlank(buf) ==> k > 1 && !RestOfLineBlank(Lex(rest[1..]))
    ensures var t := FirstToken(rest);
      var w := |t.text|;
      && Cut(Lex(rest[..k]), buf) == Cut(Lex(rest[w..][..k - w]), buf + t.text)
      && (k == w ==> !EndsInBareSlash(buf + t.text))
  {
    hide FirstToken, Opener, RestOfLineBlank, LineIsBlank, IsPlsql, EndsInBareSlash, Cut, Lex;
    var t := FirstToken(rest);
    var w := |t.text|;
    var rest' := rest[..k];
    TokenTruncate(rest, k);
    LexSplit(rest');
    assert rest'[w..] == rest[w..][..k - w];
    CutStep(t, Lex(rest[w..][..k - w]), buf);
    if t.Is('/') && LineIsBlank(buf) {
      assert rest[1..][k - 2] == rest[k - 1];
      RestOfLineTruncate(rest[1..], k - 1);
    } else {
      NotBareAfter(rest, buf);
    }
  }

  /** The trim reaches into the first token: it is a line comment, and loses its tail. */
  lemma ResplitComment(buf: string, rest: string, k: nat)
    requires rest != "" && FirstToken(rest).closed
    requires var w := |FirstToken(rest).text|;
      0 < k < w && IsSpace(rest[w - 1]) && !IsSpace(rest[k - 1]) && IsSpace(rest[k])
    ensures Cut(Lex(rest[..k]), buf) == Resplit(buf + rest[..k])
  {
    var o := Opener(rest);
    if !o.state.InLineComment? && !o.state.InCode? {
      RegionEndsSolid(rest);
    }
    assert o.state.InLineComment?;
    var c := rest[..k];
    assert c[2..] == rest[2..][..k - 2];
    assert forall i :: 2 <= i < k ==> c[i] == rest[2..][i - 2];
    assert '\n' !in c;
    LineLenAll(c[2..]);
    LexWholeComment(c);
    LineCommentNotBare(buf, c);
    CutStep(Token(Comment, c, true), [], buf);
  }

  lemma LexWholeComment(c: string)
    requires Begins(c, '-', '-') && LineLen(c[2..]) == |c| - 2
    ensures Lex(c) == [Token(Comment, c, true)] + []
  {
    hide Lex;
    assert c[..|c|] == c;
    LexSplit(c);
    LexNothing();
    assert c[|c|..] == "";
  }

  lemma LineLenAll(s: string)
    requires '\n' !in s
    ensures LineLen(s) == |s|
  {
  }

  /**
   * The segment that began with (blank) ws and has collected buf goes on for n characters
   * of rest. Cut after k of them, with only blanks dropped, the text splits on its own.
   */
  lemma {:induction false} ResplitFrom(ws: string, buf: string, rest: string, n: nat, k: nat)
    requires IsBlank(ws) && k <= n <= |rest|
    requires Cut(Lex(rest), ws + buf) != []
    requires Cut(Lex(rest), ws + buf)[0] == Segment(ws + buf + rest[..n])
    requires IsBlank(rest[k..n])
    requires if k > 0 then !IsSpace(rest[k - 1]) else !EndsInBareSlash(buf)
    ensures Cut(Lex(rest[..k]), buf) == Resplit(buf + rest[..k])
    decreases |rest|
  {
    hide Cut, Lex, FirstToken, RestOfLineBlank, LineIsBlank, IsPlsql, EndsInBareSlash, Resplit;
    if k == 0 {
      ResplitNothing(buf);
      assert buf + rest[..0] == buf && rest[..0] == "";
      return;
    }
    var t := FirstToken(rest);
    var w := |t.text|;
    var ts := Lex(rest[w..]);
    LexSplit(rest);
    NotCutAt(t, ts, ws + buf, ws + buf + rest[..n]);
    PlsqlIgnoresBlank(ws, buf);
    LineIsBlankPrefix(ws, buf);
    if k < w {
      assert rest[k..n][w - 1 - k] == rest[w - 1] && rest[k..n][0] == rest[k];
      ResplitComment(buf, rest, k);
    } else if t.Is('/') && LineIsBlank(buf) && k == 1 {
      ResplitSlash(buf, rest);
    } else {
      ResplitStep(buf, rest, k);
      RestAfter(ws, buf, rest, w, n, k);
      ResplitFrom(ws, buf + t.text, rest[w..], n - w, k - w);
    }
  }

  lemma ResplitNothing(buf: string)
    requires !EndsInBareSlash(buf)
    ensures Cut(Lex(""), buf) == Resplit(buf)
  {
  }

  /** A segment that outgrows b is not cut at the next token. */
  lemma NotCutAt(t: Token, ts: seq<Token>, b: string, g: string)
    requires Cut([t] + ts, b) != [] && Cut([t] + ts, b)[0] == Segment(g) && |g| > |b|
    ensures t.closed && |b + t.text| <= |g|
    ensures Cut([t] + ts, b) == Cut(ts, b + t.text)
    ensures t.Is(';') ==> IsPlsql(b)
    ensures t.Is('/') && LineIsBlank(b) ==> !RestOfLineBlank(ts)
  {
    hide Cut, RestOfLineBlank, LineIsBlank, IsPlsql;
    CutStep(t, ts, b);
    CutFirst(ts, b + t.text);
  }

  lemma RestAfter(ws: string, buf: string, rest: string, w: nat, n: nat, k: nat)
    requires w <= k <= n <= |rest|
    ensures ws + (buf + rest[..w]) == ws + buf + rest[..w]
    ensures ws + buf + rest[..n] == ws + (buf + rest[..w]) + rest[w..][..n - w]
    ensures buf + rest[..k] == buf + rest[..w] + rest[w..][..k - w]
    ensures rest[w..][k - w..n - w] == rest[k..n]
    ensures k > w ==> rest[w..][k - w - 1] == rest[k - 1]
  {
    Assoc(ws, buf, rest[..w]);
    HeadAndTail(ws + buf, rest, w, n);
    HeadAndTail(buf, rest, w, k);
    RestWithin(rest, w, n, k);
  }

  lemma HeadAndTail(buf: string, rest: string, w: nat, n: nat)
    requires w <= n <= |rest|
    ensures buf + rest[..n] == buf + rest[..w] + rest[w..][..n - w]
  {
    SliceSlice(rest, w, n - w);
    Assoc(buf, rest[..w], rest[w..][..n - w]);
  }

  lemma RestWithin(rest: string, w: nat, n: nat, k: nat)
    requires w <= k <= n <= |rest|
    ensures rest[w..][k - w..n - w] == rest[k..n]
    ensures k > w ==> rest[w..][k - w - 1] == rest[k - 1]
  {
  }

  lemma ResplitSlash(buf: string, rest: string)
    requires rest != "" && rest[0] == '/' && LineIsBlank(buf)
    ensures Cut(Lex(rest[..1]), buf) == Resplit(buf + rest[..1])
  {
    hide Lex, Cut, LineIsBlank;
    var x := buf + rest[..1];
    assert rest[..1] == "/" && x[..|x| - 1] == buf;
    SlashToken("");
    assert "/" + "" == "/";
    LexNothing();
    CutBareSlash(buf);
    assert Lex(rest[..1]) == [Token(Code, "/", true)] + [];
    assert x[|x| - 1] == '/' && EndsInBareSlash(x);
  }

  lemma CutBareSlash(buf: string)
    requires LineIsBlank(buf)
    ensures Cut([Token(Code, "/", true)] + [], buf) == [Segment(buf), Separator("/"), Segment("")]
  {
    hide Cut, LineIsBlank, TextOf;
    var slash := Token(Code, "/", true);
    CutStep(slash, [], buf);
    CutNothing("");
    TextOfCons([slash]);
    TextOfNone();
    var none: seq<Token> := [];
    assert ([slash] + none)[..1] == [slash] && [slash][1..] == none && none[0..] == none && RestOfLine(none) == 0;
    assert TextOf([slash]) == "/" + "" == "/";
  }

  /** Code that opens and ends nothing only moves to the buffer. */
  lemma CutQuiet(a: string, b: string, buf: string)
    requires forall i :: 0 <= i < |a| ==> IsPlain(a[i]) && a[i] != ';'
    ensures Cut(Lex(a + b), buf) == Cut(Lex(b), buf + a)
  {
    hide Cut, Lex, FirstToken, Opener;
    if a == "" {
      assert a + b == b && buf + a == buf;
    } else {
      var s := a + b;
      assert s[1..] == a[1..] + b && s[..1] == a[..1] == [a[0]];
      PlainToken(s);
      CutStep(Token(Code, s[..1], true), Lex(s[1..]), buf);
      CutQuiet(a[1..], b, buf + a[..1]);
      assert buf + a[..1] + a[1..] == buf + a;
    }
  }

  predicate Resplits(g: string) {
    Trim(g) != "" ==> Pieces(Trim(g)) == Resplit(Trim(g))
  }

  lemma SlicesOf(s: string, n: nat, a: string, x: string, b: string)
    requires n <= |s| && s[..n] == a + x + b
    ensures s == a + s[|a|..] && s[..n] == a + s[|a|..][..n - |a|]
    ensures s[|a|..][..|x|] == x && s[|a|..][|x|..n - |a|] == b
  {
    assert s[|a|..][..n - |a|] == s[..n][|a|..];
    assert s[..n][|a|..] == x + b;
    assert s[|a|..][..|x|] == s[..n][|a|..][..|x|];
    assert s[|a|..][|x|..n - |a|] == s[..n][|a|..][|x|..];
  }

  /** A segment cut from the start of s, trimmed, splits on its own. */
  lemma SegmentResplits(s: string, n: nat)
    requires n <= |s|
    requires Cut(Lex(s), "") != [] && Cut(Lex(s), "")[0] == Segment(s[..n])
    ensures Resplits(s[..n])
  {
    hide Cut, Lex, EndsInBareSlash, FirstToken, Resplit;
    var ws, tail := TrimSplit(s[..n]);
    var x := Trim(s[..n]);
    if x != "" {
      var rest := s[|ws|..];
      var m, k := n - |ws|, |x|;
      SlicesOf(s, n, ws, x, tail);
      CutQuiet(ws, rest, "");
      assert "" + ws == ws && ws + "" == ws && "" + rest[..k] == rest[..k];
      ResplitFrom(ws, "", rest, m, k);
    }
  }

  lemma AllSegmentsResplit(s: string, i: nat)
    requires i < |Pieces(s)| && Pieces(s)[i].Segment?
    ensures Resplits(Pieces(s)[i].text)
    decreases |s|
  {
    hide Cut, Lex;
    var n, next := CutRound(s, "");
    var ps := Pieces(s);
    assert "" + s == s;
    if ps == [Segment(s)] {
      assert s[..|s|] == s;
      SegmentResplits(s, |s|);
    } else if |ps| > 1 {
      assert "" + s[..n] == s[..n];
      if i == 0 {
        SegmentResplits(s, n);
      } else {
        AllSegmentsResplit(s[next..], i - 2);
      }
    }
  }

  lemma {:induction false} StatementOrigin(ps: seq<Piece>, k: nat) returns (i: nat)
    requires k < |Statements(ps)|
    ensures i < |ps| && ps[i].Segment? && Emit(ps[i].text) == [Statements(ps)[k]]
  {
    var here := if ps[0].Segment? then Emit(ps[0].text) else [];
    if k < |here| {
      i := 0;
    } else {
      var j := StatementOrigin(ps[1..], k - |here|);
      i := j + 1;
    }
  }

  /**
   * Splitting an emitted statement x again gives exactly x and no error, unless the last
   * line of x is a bare slash; then that slash is taken for a terminator and dropped.
   */
  lemma ResplitStatement(input: string, k: nat)
    requires k < |Statements(Pieces(input))|
    ensures var x := Statements(Pieces(input))[k];
      && Pieces(x) == Resplit(x)
      && Errors(Pieces(x)) == []
      && (Statements(Pieces(x)) == [x] <==> !EndsInBareSlash(x))
  {
    var ps := Pieces(input);
    var x := Statements(ps)[k];
    var i := StatementOrigin(ps, k);
    AllSegmentsResplit(input, i);
    ResplitEmits(x, ps[i].text);
  }

  lemma ResplitEmits(x: string, g: string)
    requires Emit(g) == [x]
    ensures Errors(Resplit(x)) == []
    ensures Statements(Resplit(x)) == [x] <==> !EndsInBareSlash(x)
  {
    hide EndsInBareSlash, IsCommentsOnly, Trim;
    TrimTwice(g);
    if EndsInBareSlash(x) {
      var y := x[..|x| - 1];
      var last := [Segment("")];
      assert Resplit(x) == [Segment(y), Separator("/")] + last;
      SegmentPieces(y, "/", last);
      EmitShort("");
      EmitShort(y);
      assert Statements(last) == Emit("") + Statements(last[1..]) && Errors(last) == Errors(last[1..]);
      assert Statements(Resplit(x)) == Emit(y);
      assert |Emit(y)| == 1 ==> |Emit(y)[0]| < |x|;
    } else {
      assert Statements([Segment(x)]) == Emit(x) + Statements([Segment(x)][1..]);
    }
  }

  lemma EmitShort(g: string)
    ensures forall i :: 0 <= i < |Emit(g)| ==> |Emit(g)[i]| <= |g|
    ensures g == "" ==> Emit(g) == []
  {
    var a, b := TrimSplit(g);
  }

  lemma TrimTwice(g: string)
    ensures Trim(Trim(g)) == Trim(g)
  {
    var a, b := TrimSplit(g);
    TrimUnwrap("", Trim(g), "");
    assert "" + Trim(g) + "" == Trim(g);
  }

  /** Such a statement is emitted: this one ends in a bare slash, */
  lemma BareSlashIsEmitted()
    ensures Statements(Pieces("a\n/;")) == ["a\n/"] && EndsInBareSlash("a\n/")
  {
    hide Cut, Lex, Emit, Statements, IsPlsql;
    var x := "a\n/";
    assert "a\n" + "/;" == "a\n/;" && "" + "a\n" == "a\n" && "a\n" + "/" == x;
    NoPlsqlHead(x);
    CutQuiet("a\n", "/;", "");
    SlashThenSemicolon("a\n");
    TwoSegments(x, ";");
    EmitOne("", x, "");
    assert "" + x + "" == x;
    assert x[..2] == "a\n" && LineIsBlank("a\n");
  }

  /** and loses it when it is split again. */
  lemma BareSlashIsLost()
    ensures Statements(Pieces("a\n/")) == ["a"]
  {
    hide Cut, Lex, Emit, Statements, LineIsBlank;
    BareSlashIsEmitted();
    ResplitStatement("a\n/;", 0);
    var x := "a\n/";
    assert x[..|x| - 1] == "a\n";
    assert Resplit(x) == [Segment("a\n"), Separator("/")] + [Segment("")];
    TwoSegments("a\n", "/");
    EmitOne("", "a", "\n");
    assert "" + "a" + "\n" == "a\n";
  }

  lemma TwoSegments(g: string, sep: string)
    ensures Statements([Segment(g), Separator(sep)] + [Segment("")]) == Emit(g)
  {
    hide Emit;
    SegmentPieces(g, sep, [Segment("")]);
    LastSegment("");
    EmitShort("");
    assert Emit(g) + [] == Emit(g);
  }

  lemma SlashThenSemicolon(buf: string)
    requires LineIsBlank(buf) && !IsPlsql(buf + "/")
    ensures Cut(Lex("/;"), buf) == [Segment(buf + "/"), Separator(";")] + [Segment("")]
  {
    hide Cut, IsPlsql, LineIsBlank;
    LexCode("/;");
    assert "/;"[..1] == "/" && "/;"[1..] == ";";
    PlainToken(";");
    assert ";"[..1] == ";" && ";"[1..] == "";
    var semicolon := Token(Code, ";", true);
    assert Lex(";") == [semicolon] + [];
    assert Lex("/;") == [Token(Code, "/", true)] + [semicolon];
    assert !RestOfLineBlank([semicolon]);
    CutStep(Token(Code, "/", true), [semicolon], buf);
    assert [semicolon] + [] == [semicolon];
    CutStep(Token(Code, ";", true), [], buf + "/");
    CutNothing("");
  }

  lemma LastSegment(g: string)
    ensures Statements([Segment(g)]) == Emit(g)
  {
    assert Statements([Segment(g)]) == Emit(g) + Statements([]);
  }

  /** Text that starts with an a is code, and no PL/SQL block. */
  lemma NoPlsqlHead(x: string)
    requires x != "" && x[0] == 'a'
    ensures !IsPlsql(x) && !IsCommentsOnly(x)
  {
    assert TrimStart(x) == x && AfterComments(x) == x;
    NotWordAt(x, "DECLARE");
    NotWordAt(x, "BEGIN");
    NotWordAt(x, "CREATE");
  }

  lemma NotWordAt(t: string, w: string)
    requires t != "" && w != "" && Upper(t[0]) != w[0]
    ensures !WordAt(t, 0, w)
  {
    assert Upper(t[0 + 0]) != w[0];
  }

  lemma EmitOne(a: string, x: string, b: string)
    requires IsBlank(a) && IsBlank(b) && x != "" && x[0] == 'a' && !IsSpace(x[|x| - 1])
    ensures Emit(a + x + b) == [x] && a + x + b == a + (x + b)
  {
    hide IsCommentsOnly;
    NoPlsqlHead(x);
    TrimUnwrap(a, x, b);
  }
}
