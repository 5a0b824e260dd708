/**
 * Mask and restore (engine/src/oracle-shim/translator.ts): every string literal gives way
 * to a numbered placeholder before the rewrites, and comes back after them.
 */
module StringMask {
  import opened Text
  import opened SqlTokens

  // ---- Placeholders ---------------------------------------------------------------

  const OPEN := "\U{0001}VSKSTR"
  const CLOSE := '\U{0002}'

  function Digit(n: nat): char
    requires n < 10
  {
    '0' + n as char
  }

  function Dec(n: nat): string {
    if n < 10 then [Digit(n)] else Dec(n / 10) + [Digit(n % 10)]
  }

  function DigitsLen(t: string): (n: nat)
    ensures n <= |t|
  {
    if t != "" && IsDigit(t[0]) then 1 + DigitsLen(t[1..]) else 0
  }

  function DecValue(ds: string): nat {
    if ds == "" then 0
    else
      var c := ds[|ds| - 1];
      10 * DecValue(ds[..|ds| - 1]) + (if IsDigit(c) then (c - '0') as nat else 0)
  }

  function Mark(n: nat): string {
    OPEN + Dec(n) + [CLOSE]
  }

  /** Length of the placeholder t starts with, 0 if none. */
  function MarkLen(t: string): (n: nat)
    ensures n <= |t| && (n > 0 ==> n > |OPEN| + 1)
  {
    if OPEN <= t then
      var d := DigitsLen(t[|OPEN|..]);
      if d > 0 && Peek(t, |OPEN| + d, CLOSE) then |OPEN| + d + 1 else 0
    else 0
  }

  /** The number a placeholder carries. */
  function MarkNumber(t: string): nat
    requires MarkLen(t) > 0
  {
    DecValue(t[|OPEN|..MarkLen(t) - 1])
  }

  // ---- Masking and restoring ------------------------------------------------------

  datatype Masked = Masked(text: string, literals: seq<string>)

  /** The literal s starts with, when s starts with a quote: up to its end, or the end of s. */
  function LiteralLen(s: string): (n: nat)
    requires s != ""
    ensures 0 < n <= |s|
  {
    1 + QuoteSpan(s[1..], '\'').len
  }

  /** Masks s, numbering its literals from n. */
  function Mask(s: string, n: nat): Masked {
    if s == "" then Masked("", [])
    else if s[0] == '\'' then
      var len := LiteralLen(s);
      var m := Mask(s[len..], n + 1);
      Masked(Mark(n) + m.text, [s[..len]] + m.literals)
    else
      var m := Mask(s[1..], n);
      Masked([s[0]] + m.text, m.literals)
  }

  /** What a placeholder is replaced with; a missing literal prints as JavaScript's undefined. */
  function Restored(literals: seq<string>, n: nat): string {
    if n < |literals| then literals[n] else "undefined"
  }

  function Unmask(t: string, literals: seq<string>): string {
    if t == "" then ""
    else if MarkLen(t) > 0 then Restored(literals, MarkNumber(t)) + Unmask(t[MarkLen(t)..], literals)
    else [t[0]] + Unmask(t[1..], literals)
  }

  /** The result of masking the rest of the text behind what is masked so far. */
  function Continue(masked: string, literals: seq<string>, rest: string): Masked {
    var m := Mask(rest, |literals|);
    Masked(masked + m.text, literals + m.literals)
  }

  method MaskStrings(sql: string) returns (masked: string, literals: seq<string>)
    ensures Masked(masked, literals) == Mask(sql, 0)
  {
    hide Mask, Mark, Continue;
    masked, literals := "", [];
    MaskBegins(sql);
    var i := 0;
    while i < |sql|
      invariant 0 <= i <= |sql|
      invariant Mask(sql, 0) == Continue(masked, literals, sql[i..])
    {
      var ch := sql[i];
      if ch != '\'' {
        MaskChar(sql, i, masked, literals);
        masked := masked + [ch];
        i := i + 1;
        continue;
      }
      var j := TakeLiteral(sql, i);
      MaskLiteral(sql, i, masked, literals);
      masked := masked + Mark(|literals|);
      literals := literals + [sql[i..j]];
      i := j;
    }
    MaskEnds(masked, literals);
    assert sql[i..] == "";
  }

  lemma MaskBegins(sql: string)
    ensures Continue("", [], sql[0..]) == Mask(sql, 0)
  {
    assert sql[0..] == sql;
  }

  lemma MaskEnds(masked: string, literals: seq<string>)
    ensures Continue(masked, literals, "") == Masked(masked, literals)
  {
  }

  lemma MaskChar(sql: string, i: nat, masked: string, literals: seq<string>)
    requires i < |sql| && sql[i] != '\''
    ensures Continue(masked, literals, sql[i..]) == Continue(masked + [sql[i]], literals, sql[i + 1..])
  {
    assert sql[i..][1..] == sql[i + 1..];
    Assoc(masked, [sql[i]], Mask(sql[i + 1..], |literals|).text);
  }

  lemma MaskAtQuote(s: string, n: nat)
    requires s != "" && s[0] == '\''
    ensures var len, m := LiteralLen(s), Mask(s[LiteralLen(s)..], n + 1);
      Mask(s, n) == Masked(Mark(n) + m.text, [s[..len]] + m.literals)
  {
  }

  lemma LiteralLenAt(sql: string, i: nat)
    requires i < |sql|
    ensures LiteralLen(sql[i..]) == 1 + QuoteSpan(sql[i + 1..], '\'').len
  {
    assert sql[i..][1..] == sql[i + 1..];
  }

  lemma MaskLiteral(sql: string, i: nat, masked: string, literals: seq<string>)
    requires i < |sql| && sql[i] == '\''
    ensures var j := i + LiteralLen(sql[i..]);
      Continue(masked, literals, sql[i..])
      == Continue(masked + Mark(|literals|), literals + [sql[i..j]], sql[j..])
  {
    hide LiteralLen, Mark, Mask;
    var len := LiteralLen(sql[i..]);
    MaskAtQuote(sql[i..], |literals|);
    var m := Mask(sql[i + len..], |literals| + 1);
    assert sql[i..][len..] == sql[i + len..] && sql[i..][..len] == sql[i..i + len];
    Assoc(masked, Mark(|literals|), m.text);
    assert literals + [sql[i..i + len]] + m.literals == literals + ([sql[i..i + len]] + m.literals);
  }

  /** The end of the literal that opens at i. */
  method TakeLiteral(sql: string, i: nat) returns (j: nat)
    requires i < |sql| && sql[i] == '\''
    ensures j == i + LiteralLen(sql[i..]) <= |sql|
  {
    hide LiteralLen;
    j := i + 1;
    LiteralLenAt(sql, i);
    while j < |sql|
      invariant i + 1 <= j <= |sql|
      invariant QuoteSpan(sql[i + 1..], '\'') == QuoteSpan(sql[j..], '\'').Plus(j - i - 1)
    {
      if sql[j] == '\'' {
        if Peek(sql, j + 1, '\'') {
          assert sql[j..][2..] == sql[j + 2..];
          j := j + 2;
          continue;
        }
        j := j + 1;
        return;
      }
      assert sql[j..][1..] == sql[j + 1..];
      j := j + 1;
    }
  }

  // ---- Placeholders read back -----------------------------------------------------

  lemma {:induction false} DecIsDigits(n: nat)
    ensures Dec(n) != "" && (forall i :: 0 <= i < |Dec(n)| ==> IsDigit(Dec(n)[i]))
    ensures DecValue(Dec(n)) == n
  {
    if n >= 10 {
      DecIsDigits(n / 10);
      assert Dec(n)[..|Dec(n)| - 1] == Dec(n / 10);
    }
  }

  lemma {:induction false} DigitsLenOf(ds: string, t: string)
    requires forall i :: 0 <= i < |ds| ==> IsDigit(ds[i])
    ensures DigitsLen(ds + t) == |ds| + DigitsLen(t)
  {
    if ds == "" {
      assert ds + t == t;
    } else {
      assert (ds + t)[1..] == ds[1..] + t;
      DigitsLenOf(ds[1..], t);
    }
  }

  lemma MarkReadsBack(n: nat, t: string)
    ensures MarkLen(Mark(n) + t) == |Mark(n)| && MarkNumber(Mark(n) + t) == n
  {
    DecIsDigits(n);
    var u := Mark(n) + t;
    assert u[..|OPEN|] == OPEN;
    assert u[|OPEN|..] == Dec(n) + ([CLOSE] + t);
    DigitsLenOf(Dec(n), [CLOSE] + t);
    assert u[|OPEN|..|Mark(n)| - 1] == Dec(n);
  }

  /** A placeholder is made of 0x01, word characters and 0x02. */
  lemma MarkShape(n: nat)
    ensures |Mark(n)| > |OPEN| + 1 && Mark(n)[0] == '\U{0001}' && Mark(n)[|Mark(n)| - 1] == CLOSE
    ensures forall i :: 0 < i < |Mark(n)| - 1 ==> Mark(n)[i] in "VSKTR" || IsDigit(Mark(n)[i])
    ensures Mark(n)[1] == 'V'
  {
    DecIsDigits(n);
    forall i | 0 < i < |Mark(n)| - 1
      ensures Mark(n)[i] in "VSKTR" || IsDigit(Mark(n)[i])
    {
      if i < |OPEN| {
        assert Mark(n)[i] == OPEN[i];
      } else {
        assert Mark(n)[i] == Dec(n)[i - |OPEN|];
      }
    }
  }

  /** A character that can stand inside no placeholder ends the search for one. */
  predicate Breaks(c: char) {
    c == '\U{0001}' || c == '\''
  }

  lemma {:induction false} DigitsLenLocal(u: string, v: string)
    requires v == "" || Breaks(v[0])
    ensures DigitsLen(u + v) == DigitsLen(u)
  {
    if u == "" {
      assert u + v == v;
    } else {
      assert (u + v)[1..] == u[1..] + v;
      DigitsLenLocal(u[1..], v);
    }
  }

  /** Whether a placeholder starts here depends only on the text before the next break. */
  lemma MarkLenLocal(u: string, v: string)
    requires u != "" && (v == "" || Breaks(v[0]))
    ensures MarkLen(u + v) == MarkLen(u)
    ensures MarkLen(u) > 0 ==> MarkNumber(u + v) == MarkNumber(u)
  {
    if |u| >= |OPEN| {
      assert (u + v)[..|OPEN|] == u[..|OPEN|];
      assert (u + v)[|OPEN|..] == u[|OPEN|..] + v;
      DigitsLenLocal(u[|OPEN|..], v);
      if MarkLen(u) > 0 {
        assert (u + v)[|OPEN|..MarkLen(u) - 1] == u[|OPEN|..MarkLen(u) - 1];
      }
    } else if v != "" {
      assert (u + v)[|u|] == v[0] != OPEN[|u|];
    }
  }

  /** Restoring is local: it can be done on either side of a quote or the start of a placeholder. */
  lemma {:induction false} UnmaskSplit(u: string, v: string, literals: seq<string>)
    requires v == "" || Breaks(v[0])
    ensures Unmask(u + v, literals) == Unmask(u, literals) + Unmask(v, literals)
    decreases |u|
  {
    hide Unmask, MarkLen, MarkNumber;
    UnmaskNothing(literals);
    if u == "" {
      assert u + v == v;
    } else {
      var n := HeadLen(u);
      MarkLenLocal(u, v);
      assert (u + v)[n..] == u[n..] + v;
      UnmaskSplit(u[n..], v, literals);
      UnmaskStep(u, literals);
      UnmaskStep(u + v, literals);
      Assoc(HeadText(u, literals), Unmask(u[n..], literals), Unmask(v, literals));
    }
  }

  /** What one step of the restoring pass consumes, and what it puts out. */
  function HeadLen(t: string): (n: nat)
    requires t != ""
    ensures 0 < n <= |t|
  {
    if MarkLen(t) > 0 then MarkLen(t) else 1
  }

  function HeadText(t: string, literals: seq<string>): string
    requires t != ""
  {
    if MarkLen(t) > 0 then Restored(literals, MarkNumber(t)) else [t[0]]
  }

  lemma UnmaskStep(t: string, literals: seq<string>)
    requires t != ""
    ensures Unmask(t, literals) == HeadText(t, literals) + Unmask(t[HeadLen(t)..], literals)
  {
  }

  lemma UnmaskNothing(literals: seq<string>)
    ensures Unmask("", literals) == ""
  {
  }

  lemma UnmaskMark(n: nat, t: string, literals: seq<string>)
    ensures Unmask(Mark(n) + t, literals) == Restored(literals, n) + Unmask(t, literals)
  {
    MarkReadsBack(n, t);
    MarkShape(n);
    assert (Mark(n) + t)[|Mark(n)|..] == t;
  }

  // ---- The round trip -------------------------------------------------------------

  /** Text outside literals that reads as a placeholder. */
  predicate HasFakeMark(s: string) {
    s != "" &&
    if s[0] == '\'' then HasFakeMark(s[LiteralLen(s)..]) else MarkLen(s) > 0 || HasFakeMark(s[1..])
  }

  /** The run of text before the first literal. */
  function CodeLen(s: string): (n: nat)
    ensures n <= |s| && (n < |s| ==> s[n] == '\'')
    ensures forall i :: 0 <= i < n ==> s[i] != '\''
  {
    if s == "" || s[0] == '\'' then 0 else 1 + CodeLen(s[1..])
  }

  /** Masking leaves the text before the first literal alone. */
  lemma {:induction false} MaskCode(s: string, n: nat)
    ensures CodeLen(s) <= |Mask(s, n).text| && Mask(s, n).text[..CodeLen(s)] == s[..CodeLen(s)]
    ensures var v := Mask(s, n).text[CodeLen(s)..]; v == "" || v[0] == '\U{0001}'
  {
    if s != "" && s[0] != '\'' {
      MaskCode(s[1..], n);
      var m := Mask(s[1..], n).text;
      assert Mask(s, n).text == [s[0]] + m;
      assert s[..CodeLen(s)] == [s[0]] + s[1..][..CodeLen(s) - 1];
      assert ([s[0]] + m)[..CodeLen(s)] == [s[0]] + m[..CodeLen(s) - 1];
      assert ([s[0]] + m)[CodeLen(s)..] == m[CodeLen(s) - 1..];
    } else if s != "" {
      MarkShape(n);
    }
  }

  /** So a placeholder starts in the masked text just where one starts in the source. */
  lemma MaskKeepsMarks(s: string, n: nat)
    requires s != "" && s[0] != '\''
    ensures MarkLen(Mask(s, n).text) == MarkLen(s)
    ensures MarkLen(s) > 0 ==> MarkNumber(Mask(s, n).text) == MarkNumber(s)
  {
    MaskCode(s, n);
    var k, t := CodeLen(s), Mask(s, n).text;
    assert k > 0;
    assert s == s[..k] + s[k..];
    assert t == t[..k] + t[k..];
    MarkLenLocal(s[..k], s[k..]);
    MarkLenLocal(s[..k], t[k..]);
  }

  /** Every literal begins with its quote. */
  lemma {:induction false} LiteralsAreQuoted(s: string, n: nat)
    ensures forall l :: l in Mask(s, n).literals ==> l != "" && l[0] == '\''
    decreases |s|
  {
    if s != "" {
      if s[0] == '\'' {
        LiteralsAreQuoted(s[LiteralLen(s)..], n + 1);
      } else {
        LiteralsAreQuoted(s[1..], n);
      }
    }
  }

  /** Masked text holds no quote: nothing of a literal is left for a rewrite to touch. */
  lemma {:induction false} MaskedHasNoQuote(s: string, n: nat)
    ensures '\'' !in Mask(s, n).text
    decreases |s|
  {
    if s != "" {
      if s[0] == '\'' {
        MaskedHasNoQuote(s[LiteralLen(s)..], n + 1);
        MarkShape(n);
        forall i | 0 <= i < |Mark(n)|
          ensures Mark(n)[i] != '\''
        {
        }
      } else {
        MaskedHasNoQuote(s[1..], n);
      }
    }
  }

  /**
   * Restoring the masked text gives the source back exactly when no text outside its
   * literals reads as a placeholder.
   */
  lemma {:induction false} MaskRoundTrip(s: string)
    ensures var m := Mask(s, 0); Unmask(m.text, m.literals) == s <==> !HasFakeMark(s)
  {
    LiteralsAreQuoted(s, 0);
    RoundTripFrom(s, 0, Mask(s, 0).literals);
  }

  lemma {:induction false} RoundTripFrom(s: string, n: nat, literals: seq<string>)
    requires n <= |literals| && literals[n..] == Mask(s, n).literals
    requires forall l :: l in literals ==> l != "" && l[0] == '\''
    ensures Unmask(Mask(s, n).text, literals) == s <==> !HasFakeMark(s)
    decreases |s|
  {
    hide Mark, MarkLen, MarkNumber, LiteralLen, Mask;
    if s == "" {
      MaskNothing(n);
    } else if s[0] == '\'' {
      var len := LiteralLen(s);
      MaskAtQuote(s, n);
      var rest := Mask(s[len..], n + 1);
      UnmaskMark(n, rest.text, literals);
      assert literals[n..][0] == s[..len];
      assert literals[n + 1..] == literals[n..][1..];
      RoundTripFrom(s[len..], n + 1, literals);
      SamePrefix(s[..len], Unmask(rest.text, literals), s[len..]);
      assert s == s[..len] + s[len..];
    } else {
      MaskKeepsMarks(s, n);
      MaskAtChar(s, n);
      var m, rest := Mask(s, n), Mask(s[1..], n);
      if MarkLen(s) > 0 {
        var r := Restored(literals, MarkNumber(m.text));
        assert r in literals || r == "undefined";
        MarkOpens(s);
        assert Unmask(m.text, literals)[0] == r[0];
      } else {
        assert m.text[1..] == rest.text;
        RoundTripFrom(s[1..], n, literals);
        SamePrefix([s[0]], Unmask(rest.text, literals), s[1..]);
        assert s == [s[0]] + s[1..];
      }
    }
  }

  lemma MaskNothing(n: nat)
    ensures Mask("", n) == Masked("", [])
  {
  }

  lemma MaskAtChar(s: string, n: nat)
    requires s != "" && s[0] != '\''
    ensures Mask(s, n) == Masked([s[0]] + Mask(s[1..], n).text, Mask(s[1..], n).literals)
  {
  }

  /** A placeholder in code has no literal to come back as. */
  lemma FakeMarkIsLost()
    ensures var s := "\U{0001}VSKSTR0\U{0002}"; var m := Mask(s, 0);
      HasFakeMark(s) && m.literals == [] && Unmask(m.text, m.literals) == "undefined" != s
  {
    hide Mask, Unmask;
    var s := "\U{0001}VSKSTR0\U{0002}";
    MarkIsText();
    MarkReadsBack(0, "");
    assert Mark(0) + "" == Mark(0);
    MaskNoQuote(s, 0);
    UnmaskMark(0, "", []);
    UnmaskNothing([]);
  }

  lemma MarkIsText()
    ensures Mark(0) == "\U{0001}VSKSTR0\U{0002}"
  {
  }

  lemma {:induction false} MaskNoQuote(s: string, n: nat)
    requires '\'' !in s
    ensures Mask(s, n) == Masked(s, [])
  {
    if s != "" {
      MaskNoQuote(s[1..], n);
      assert s == [s[0]] + s[1..];
    }
  }

  lemma MarkOpens(s: string)
    requires MarkLen(s) > 0
    ensures s[0] == '\U{0001}'
  {
    assert OPEN[0] == s[0];
  }

  /** With no 0x01 outside literals the round trip is the identity. */
  lemma NoControlNoFake(s: string)
    requires !HasControl(s)
    ensures !HasFakeMark(s)
  {
    if s != "" {
      if s[0] == '\'' {
        NoControlNoFake(s[LiteralLen(s)..]);
      } else {
        if MarkLen(s) > 0 {
          MarkOpens(s);
        }
        NoControlNoFake(s[1..]);
      }
    }
  }

  predicate HasControl(s: string) {
    s != "" &&
    if s[0] == '\'' then HasControl(s[LiteralLen(s)..]) else s[0] == '\U{0001}' || HasControl(s[1..])
  }
}
