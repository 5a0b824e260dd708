/**
 * How lexing depends on context (sidecar/src/sql-splitter.ts): a token is settled by its
 * own text and the first character after it. Two texts that start with the same character,
 * and, where that is a quote, have another one behind it, can therefore be exchanged behind
 * any closed tokens without changing them. Each kind of region gets a lemma of its own, by
 * induction on the text it spans; the lexer's choice of what opens gets one as well; and the
 * last lemma puts them together for a whole list of tokens.
 */
module LexLaws {
  import opened Text
  import opened SqlTokens

  /** Two continuations that no token before them can tell apart. */
  predicate SameStart(x: string, y: string) {
    && x != "" && y != "" && x[0] == y[0]
    && (x[0] == '\'' ==> |x| >= 2 && |y| >= 2)
  }

  lemma TailOf(p: string, x: string)
    requires p != ""
    ensures (p + x)[1..] == p[1..] + x && (p + x)[0] == p[0]
  {
  }

  lemma TailOf2(p: string, x: string)
    requires |p| >= 2
    ensures (p + x)[2..] == p[2..] + x && (p + x)[0] == p[0] && (p + x)[1] == p[1]
  {
  }

  lemma LineLenLocal(p: string, x: string, y: string)
    requires x != "" && y != "" && x[0] == y[0] && LineLen(p + x) <= |p|
    ensures LineLen(p + y) == LineLen(p + x)
  {
    if p == "" {
      assert p + x == x && p + y == y;
    } else if p[0] != '\n' {
      TailOf(p, x);
      TailOf(p, y);
      LineLenLocal(p[1..], x, y);
    }
  }

  lemma BlockSpanLocal(p: string, x: string, y: string)
    requires BlockSpan(p + x).closed && BlockSpan(p + x).len <= |p|
    ensures BlockSpan(p + y) == BlockSpan(p + x)
  {
    if !Begins(p + x, '*', '/') {
      TailOf(p, x);
      TailOf(p, y);
      BlockSpanLocal(p[1..], x, y);
      assert |p| >= 2;
    }
  }

  lemma QuoteSpanLocal(p: string, x: string, y: string, q: char)
    requires x != "" && y != "" && x[0] == y[0]
    requires QuoteSpan(p + x, q).closed && QuoteSpan(p + x, q).len <= |p|
    ensures QuoteSpan(p + y, q) == QuoteSpan(p + x, q)
  {
    hide QuoteSpan;
    QuoteSpanStep(p + x, q);
    QuoteSpanStep(p + y, q);
    if Begins(p + x, q, q) {
      assert |p| >= 2;
      TailOf2(p, x);
      TailOf2(p, y);
      QuoteSpanLocal(p[2..], x, y, q);
    } else if p[0] != q {
      TailOf(p, x);
      TailOf(p, y);
      QuoteSpanLocal(p[1..], x, y, q);
    }
  }

  lemma QSpanLocal(p: string, x: string, y: string, closer: char)
    requires QSpan(p + x, closer).closed && QSpan(p + x, closer).len <= |p|
    ensures QSpan(p + y, closer) == QSpan(p + x, closer)
  {
    if !Begins(p + x, closer, '\'') {
      TailOf(p, x);
      TailOf(p, y);
      QSpanLocal(p[1..], x, y, closer);
      assert |p| >= 2;
    }
  }

  lemma SpanLocal(m: State, p: string, x: string, y: string)
    requires !m.InCode? && x != "" && y != "" && x[0] == y[0]
    requires m.SpanOf(p + x).closed && m.SpanOf(p + x).len <= |p|
    ensures m.SpanOf(p + y) == m.SpanOf(p + x)
  {
    match m
    case InLineComment => LineLenLocal(p, x, y);
    case InBlockComment => BlockSpanLocal(p, x, y);
    case InSingleString => QuoteSpanLocal(p, x, y, '\'');
    case InDoubleString => QuoteSpanLocal(p, x, y, '"');
    case InQString(closer) => QSpanLocal(p, x, y, closer);
  }

  /** A token that ends before x does not depend on more than the first character of x. */
  lemma TokenLocal(p: string, x: string, y: string)
    requires p != "" && SameStart(x, y)
    requires |FirstToken(p + x).text| <= |p|
    ensures FirstToken(p + y) == FirstToken(p + x)
  {
    var s, s' := p + x, p + y;
    OpenerLocal(p, x, y);
    var o := Opener(s);
    if !o.state.InCode? {
      hide Opener;
      CutWithin(p, x, o.width);
      CutWithin(p, y, o.width);
      SpanLocal(o.state, p[o.width..], x, y);
      CutWithin(p, x, |FirstToken(s).text|);
      CutWithin(p, y, |FirstToken(s).text|);
    }
  }

  lemma CutWithin(p: string, x: string, n: nat)
    requires n <= |p|
    ensures (p + x)[..n] == p[..n] && (p + x)[n..] == p[n..] + x
  {
  }

  lemma OpenerLocal(p: string, x: string, y: string)
    requires p != "" && SameStart(x, y)
    requires |FirstToken(p + x).text| <= |p|
    ensures Opener(p + y) == Opener(p + x)
    ensures Opener(p + x).width <= |p|
    ensures (p + y)[..1] == (p + x)[..1]
  {
  }

  lemma {:induction false} LexLocal(ts: seq<Token>, x: string, y: string)
    requires SameStart(x, y)
    requires forall i :: 0 <= i < |ts| ==> ts[i].text != ""
    requires Lex(TextOf(ts) + x) == ts + Lex(x)
    ensures Lex(TextOf(ts) + y) == ts + Lex(y)
  {
    hide FirstToken, Lex, TextOf;
    if ts == [] {
      TextOfNone();
      assert "" + y == y && [] + Lex(y) == Lex(y);
    } else {
      var t, us := ts[0], ts[1..];
      var p' := TextOf(us);
      TextOfCons(ts);
      Assoc(t.text, p', x);
      Assoc(t.text, p', y);
      assert ts + Lex(x) == [t] + (us + Lex(x));
      LexLocalStep(t, p', x, y, us + Lex(x));
      LexLocal(us, x, y);
      assert ts + Lex(y) == [t] + (us + Lex(y));
    }
  }

  lemma LexLocalStep(t: Token, p: string, x: string, y: string, us: seq<Token>)
    requires SameStart(x, y) && t.text != ""
    requires Lex(t.text + (p + x)) == [t] + us
    ensures Lex(p + x) == us
    ensures Lex(t.text + (p + y)) == [t] + Lex(p + y)
  {
    hide FirstToken, Lex;
    var s, s' := t.text + (p + x), t.text + (p + y);
    Assoc(t.text, p, x);
    Assoc(t.text, p, y);
    LexSplit(s);
    LexSplit(s');
    assert FirstToken(s) == (([t] + us)[0]) == t;
    DropFront(t.text, p + x);
    DropFront(t.text, p + y);
    assert Lex(p + x) == ([t] + us)[1..] == us;
    TokenLocal(t.text + p, x, y);
  }

  lemma DropFront(a: string, b: string)
    ensures (a + b)[|a|..] == b
  {
  }
}
