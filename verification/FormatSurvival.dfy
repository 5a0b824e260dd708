/**
 * What becomes of a literal used up as a date format (engine/src/oracle-shim/translator.ts).
 * It is converted and put back into the text as a literal in the open, which the later
 * passes and the restoring pass scan again. Here is what they must not find in it
 * (IsHarmless), where a literal emitted at one place stands after each later pass
 * (CallCarry, RuleCarry, PlaceOf), and the last three passes in full: they leave it in its
 * place exactly when they find nothing in it, and never mend one that was changed before.
 * A search that starts inside a literal in quotes cannot look past its closing quote.
 */
module FormatSurvival {
  import opened Common
  import opened Text
  import opened SqlTokens
  import opened StringMask
  import opened ArgLists
  import opened Translator
  import opened LiteralSurvival

  // ---- The emitted text is one literal --------------------------------------------

  lemma {:induction false} UndoubleDoubled(x: string)
    ensures Undouble(Doubled(x, '\'')) == x
  {
    if x != "" {
      UndoubleDoubled(x[1..]);
      var c := if x[0] == '\'' then "''" else [x[0]];
      assert Doubled(x, '\'')[|c|..] == Doubled(x[1..], '\'');
      assert x == [x[0]] + x[1..];
    }
  }

  /** Whatever a converted format holds, the emitted text reads back as one literal with that content. */
  lemma FormatIsOneLiteral(literal: string, rest: string)
    requires rest == "" || rest[0] != '\''
    ensures var t := ConvertedLiteral(literal) + rest;
      && LiteralLen(t) == |ConvertedLiteral(literal)|
      && Undouble(Inner(ConvertedLiteral(literal))) == ConvertFormat(Undouble(Inner(literal)))
  {
    hide QuoteSpan, Doubled, Undouble, Inner, ConvertFormat;
    var format := ConvertFormat(Undouble(Inner(literal)));
    var d := Doubled(format, '\'');
    DoubledSpan(format, rest, '\'');
    UndoubleDoubled(format);
    assert ("'" + d + "'" + rest)[1..] == d + ("'" + rest);
    InnerOfQuoted(d);
  }

  lemma InnerOfQuoted(d: string)
    ensures Inner("'" + d + "'") == d
  {
    var s := "'" + d + "'";
    assert s[1..|s| - 1] == d;
  }

  predicate IsQuoted(u: string) {
    |u| >= 2 && u[0] == '\'' && u[|u| - 1] == '\''
  }

  // ---- What the later passes look for in it ---------------------------------------

  predicate HasMark(u: string) {
    exists k :: 0 <= k < |u| && MarkLen(u[k..]) > 0
  }

  predicate HasRowLimit(u: string, r: Rule) {
    exists k :: 0 <= k < |u| && MatchRule(r, u, k).Hit?
  }

  /** The parentheses a call leaves open in u, its own not counted, with no comma outside them. */
  predicate CanTakeFormat(u: string, open: nat)
    requires open < |u|
  {
    After(u[open + 1..], 0) >= 1 && !TopSeparator(u[open + 1..], 0, ',')
  }

  /**
   * The pass for TO_CHAR, scanning u from k on, changes nothing of it: a call it meets is
   * spelled as it will be printed, and either closes in u or cannot get a format outside u.
   */
  predicate IsCalm(u: string, k: nat)
    decreases |u| - k
  {
    k >= |u| ||
    match OpenOf(u, k, "TO_CHAR")
    case None => IsCalm(u, k + 1)
    case Some(open) =>
      u[k..open + 1] == "TO_CHAR(" &&
      match CloseOf(u, open)
      case Some(close) => IsCalm(u, close + 1)
      case None => !CanTakeFormat(u, open)
  }

  /** A call that stands before u and has s open parentheses there closes in u at c. */
  predicate ClosesAt(u: string, s: nat, c: nat) {
    c < |u| && u[c] == ')' && s > 0 && After(u[..c], s) == 0
  }

  /** The literal u, emitted for a format of c, is safe from everything that comes after. */
  ghost predicate IsHarmless(c: Callee, u: string) {
    && !HasMark(u) && !HasRowLimit(u, RownumUpTo) && !HasRowLimit(u, RownumBelow)
    && (c == ToDateFn ==> IsCalm(u, 0) && forall s: nat, k: nat :: ClosesAt(u, s, k) ==> IsCalm(u, k + 1))
  }

  // ---- Where it stands ------------------------------------------------------------

  /** What the date pass turns a call into, up to its format. */
  function Front(c: Callee, value: string): string {
    (if c == ToDateFn then "strptime(" else "strftime(") + Trim(value) + ", "
  }

  /** A call from i on uses f as its format, and q is where the pass for c puts the converted literal. */
  predicate Emits(t: string, i: nat, c: Callee, literals: seq<string>, f: string, q: nat)
    decreases |t| - i
  {
    i < |t| &&
    match OpenOf(t, i, c.Name())
    case None => q > 0 && Emits(t, i + 1, c, literals, f, q - 1)
    case Some(open) =>
      match CloseOf(t, open)
      case None => false
      case Some(close) =>
        var argList := t[open + 1..close];
        var done := |CallText(c, argList, literals)|;
        || (f in FormatOf(c, argList, literals) && q == |Front(c, Pieces(argList, 0, ',')[0])|)
        || (q >= done && Emits(t, close + 1, c, literals, f, q - done))
  }

  /** Where a replacing pass, from i on, puts the character at p, if it copies it. */
  function RuleCarry(r: Rule, t: string, i: nat, p: nat): nat
    decreases |t| - i
  {
    if i >= p || i >= |t| then 0
    else
      match MatchRule(r, t, i)
      case Hit(len, out) => |out| + (if len > 0 then RuleCarry(r, t, i + len, p) else 1 + RuleCarry(r, t, i + 1, p))
      case Miss => 1 + RuleCarry(r, t, i + 1, p)
  }

  /** Where a rewritten TO_CHAR call puts a character that stands n places into its arguments. */
  function ArgumentCarry(argList: string, n: nat, literals: seq<string>): nat {
    var args := Pieces(argList, 0, ',');
    if HasFormat(args, literals) then
      var lead := |args[0]| - |TrimStart(args[0])|;
      if lead <= n then |"strftime("| + n - lead else 0
    else |"TO_CHAR("| + n
  }

  /** Where the pass for TO_CHAR, from i on, puts the character at p. */
  function CallCarry(t: string, i: nat, p: nat, literals: seq<string>): nat
    decreases |t| - i
  {
    if i >= p || i >= |t| then 0
    else
      match OpenOf(t, i, "TO_CHAR")
      case None => 1 + CallCarry(t, i + 1, p, literals)
      case Some(open) =>
        match CloseOf(t, open)
        case None => p - i
        case Some(close) =>
          var argList := t[open + 1..close];
          if close < p then |CallText(ToCharFn, argList, literals)| + CallCarry(t, close + 1, p, literals)
          else if open < p then ArgumentCarry(argList, p - open - 1, literals)
          else 0
  }

  /** The text after the two row-limit passes and the restoring pass. */
  function Finish(t: string, literals: seq<string>): string {
    Unmask(ReplaceAll(RownumBelow, ReplaceAll(RownumUpTo, t, 0), 0), literals)
  }

  function FinishCarry(t: string, p: nat, literals: seq<string>): nat {
    var t1, p1 := ReplaceAll(RownumUpTo, t, 0), RuleCarry(RownumUpTo, t, 0, p);
    var t2, p2 := ReplaceAll(RownumBelow, t1, 0), RuleCarry(RownumBelow, t1, 0, p1);
    if p2 <= |t2| then |Unmask(t2[..p2], literals)| else 0
  }

  /** The text the date passes start from, and what each makes of it. */
  function BeforeDates(m: Masked): string {
    RunPasses(PASSES[..6], m.text, m.literals)
  }

  function AfterToDate(m: Masked): string {
    Rewritten(BeforeDates(m), 0, ToDateFn, m.literals)
  }

  function AfterToChar(m: Masked): string {
    Rewritten(AfterToDate(m), 0, ToCharFn, m.literals)
  }

  /** In translating sql, the pass for c uses f as a format and emits it at q. */
  predicate IsUsed(sql: string, c: Callee, f: string, q: nat) {
    var m := Mask(sql, 0);
    match c
    case ToDateFn => Emits(BeforeDates(m), 0, c, m.literals, f, q)
    case ToCharFn => Emits(AfterToDate(m), 0, c, m.literals, f, q)
    case _ => false
  }

  /** The place in the output of what the pass for c emitted at q. */
  function PlaceOf(sql: string, c: Callee, q: nat): nat {
    var m := Mask(sql, 0);
    var p := if c == ToDateFn then CallCarry(AfterToDate(m), 0, q, m.literals) else q;
    FinishCarry(AfterToChar(m), p, m.literals)
  }

  // ---- Parentheses ----------------------------------------------------------------

  lemma {:induction false} AfterShift(x: string, d: nat, k: nat)
    requires After(x, d) >= 0
    ensures After(x, d + k) == After(x, d) + k
  {
    if x != "" {
      var e := d + StepOf(x[0]);
      AfterStaysNegative(x[1..], e);
      AfterShift(x[1..], e, k);
    }
  }

  lemma AfterPrefix(a: string, b: string, d: int)
    requires After(a + b, d) >= 0
    ensures After(a, d) >= 0
  {
    AfterConcat(a, b, d);
    AfterStaysNegative(b, After(a, d));
  }

  lemma {:induction false} NoCloseFrom(s: string, i: nat, d: nat)
    requires d > 0 && i <= |s|
    ensures CloseFrom(s, i, d).None? <==> After(s[i..], d - 1) >= 0
    decreases |s| - i
  {
    if i < |s| {
      assert s[i..][1..] == s[i + 1..];
      var e := d + StepOf(s[i]);
      AfterStaysNegative(s[i + 1..], e - 1);
      if e > 0 {
        NoCloseFrom(s, i + 1, e);
      }
    }
  }

  lemma NoClose(s: string, open: nat)
    requires open < |s|
    ensures CloseOf(s, open).None? <==> After(s[open + 1..], 0) >= 0
  {
    NoCloseFrom(s, open + 1, 1);
  }

  /** A parenthesis that opens in balanced text closes in it. */
  lemma ClosesInside(v: string, j: nat)
    requires Balanced(v) && j < |v| && v[j] == '('
    ensures CloseOf(v, j).Some?
  {
    NoClose(v, j);
    assert v == v[..j] + v[j..];
    AfterConcat(v[..j], v[j..], 0);
    AfterPrefix(v[..j], v[j..], 0);
    var d := After(v[..j], 0);
    assert v[j..][1..] == v[j + 1..];
    if After(v[j + 1..], 0) >= 0 {
      AfterShift(v[j + 1..], 0, d + 1);
    }
  }

  /** Closing is the same in a text and in a stretch of it. */
  lemma CloseWithin(t: string, lo: nat, hi: nat, j: nat, c: nat)
    requires lo <= hi <= |t| && j < c < hi - lo
    ensures CloseOf(t[lo..hi], j) == Some(c) <==> CloseOf(t, lo + j) == Some(lo + c)
  {
    ClosesBalanced(t[lo..hi], j, c);
    ClosesBalanced(t, lo + j, lo + c);
    SliceWithin(t, lo, lo + j + 1, lo + c, hi);
  }

  // ---- Searching inside the literal -----------------------------------------------

  lemma AtChars(t: string, p: nat, u: string)
    requires At(t, p, u)
    ensures forall k :: p <= k < p + |u| ==> t[k] == u[k - p]
  {
    assert forall k :: p <= k < p + |u| ==> t[p..p + |u|][k - p] == t[k];
  }

  lemma {:induction false} LocalSpaces(t: string, p: nat, u: string, k: nat)
    requires At(t, p, u) && IsQuoted(u) && k < |u|
    ensures SkipSpaces(u, k) < |u| && SkipSpaces(t, p + k) == p + SkipSpaces(u, k)
    decreases |u| - k
  {
    AtChars(t, p, u);
    assert t[p + k] == u[k];
    if IsSpace(u[k]) {
      LocalSpaces(t, p, u, k + 1);
    }
  }

  lemma LocalWord(t: string, p: nat, u: string, k: nat, w: string)
    requires At(t, p, u) && IsQuoted(u) && k < |u| && '\'' !in w
    ensures WordAt(t, p + k, w) <==> WordAt(u, k, w)
    ensures WordAt(u, k, w) ==> k + |w| < |u|
  {
    AtChars(t, p, u);
    assert u[|u| - 1] == '\'' && t[p + |u| - 1] == '\'';
    if WordAt(u, k, w) {
      WordHasNoQuote(u, k, w);
    }
    if WordAt(t, p + k, w) {
      WordHasNoQuote(t, p + k, w);
      forall j | 0 <= j < |w|
        ensures Upper(u[k + j]) == w[j]
      {
        assert Upper(t[p + k + j]) == w[j];
      }
    }
    if WordAt(u, k, w) {
      forall j | 0 <= j < |w|
        ensures Upper(t[p + k + j]) == w[j]
      {
        assert Upper(u[k + j]) == w[j];
      }
    }
  }

  lemma WordHasNoQuote(t: string, i: nat, w: string)
    requires WordAt(t, i, w) && '\'' !in w
    ensures forall j :: i <= j < i + |w| ==> t[j] != '\''
  {
    forall j | i <= j < i + |w|
      ensures t[j] != '\''
    {
      assert Upper(t[i + (j - i)]) == w[j - i];
    }
  }

  lemma {:induction false} LocalDigits(t: string, p: nat, u: string, k: nat)
    requires At(t, p, u) && IsQuoted(u) && k < |u|
    ensures k + DigitsLen(u[k..]) < |u| && DigitsLen(t[p + k..]) == DigitsLen(u[k..])
    decreases |u| - k
  {
    AtChars(t, p, u);
    assert t[p + k..][0] == t[p + k] == u[k] == u[k..][0];
    if IsDigit(u[k]) {
      assert t[p + k..][1..] == t[p + (k + 1)..] && u[k..][1..] == u[k + 1..];
      LocalDigits(t, p, u, k + 1);
    }
  }

  lemma LocalStart(t: string, p: nat, u: string, k: nat)
    requires At(t, p, u) && 0 < k <= |u|
    ensures StartsWord(t, p + k) <==> StartsWord(u, k)
  {
    AtChars(t, p, u);
    assert t[p + k - 1] == u[k - 1];
  }

  /** A call opens in the text at a place in the literal just when it opens there in the literal. */
  lemma LocalOpen(t: string, p: nat, u: string, k: nat, name: string)
    requires At(t, p, u) && IsQuoted(u) && k < |u| && name != "" && '\'' !in name
    ensures OpenOf(t, p + k, name).Some? <==> OpenOf(u, k, name).Some?
    ensures OpenOf(u, k, name).Some? ==>
      k > 0 && OpenOf(t, p + k, name) == Some(p + OpenOf(u, k, name).value) && OpenOf(u, k, name).value < |u| - 1
  {
    hide SkipSpaces, WordAt, StartsWord;
    LocalWord(t, p, u, k, name);
    AtChars(t, p, u);
    if k == 0 {
      NoWordAtQuote(u, name);
    } else if WordAt(u, k, name) {
      LocalStart(t, p, u, k);
      LocalSpaces(t, p, u, k + |name|);
      var j := SkipSpaces(u, k + |name|);
      assert t[p + j] == u[j];
    }
  }

  lemma NoWordAtQuote(u: string, w: string)
    requires u != "" && u[0] == '\'' && w != "" && '\'' !in w
    ensures !WordAt(u, 0, w)
  {
    assert Upper(u[0 + 0]) == '\'' != w[0];
  }

  lemma LocalAfterRownum(t: string, p: nat, u: string, k: nat)
    requires At(t, p, u) && IsQuoted(u) && k < |u|
    ensures AfterRownum(t, p + k).Some? <==> AfterRownum(u, k).Some?
    ensures AfterRownum(u, k).Some? ==>
      AfterRownum(u, k).value < |u| && AfterRownum(t, p + k) == Some(p + AfterRownum(u, k).value)
  {
    hide SkipSpaces, WordAt, StartsWord;
    LocalWord(t, p, u, k, "WHERE");
    if k == 0 {
      NoWordAtQuote(u, "WHERE");
    } else if WordAt(u, k, "WHERE") {
      LocalStart(t, p, u, k);
      LocalSpaces(t, p, u, k + 5);
      var a := SkipSpaces(u, k + 5);
      LocalWord(t, p, u, a, "ROWNUM");
      if WordAt(u, a, "ROWNUM") {
        LocalSpaces(t, p, u, a + 6);
      }
    }
  }

  lemma LocalOperator(t: string, p: nat, u: string, b: nat, op: string)
    requires At(t, p, u) && IsQuoted(u) && b < |u| && '\'' !in op
    ensures op <= t[p + b..] <==> op <= u[b..]
    ensures op <= u[b..] ==> b + |op| < |u|
  {
    AtChars(t, p, u);
    if op <= u[b..] {
      assert forall j :: 0 <= j < |op| ==> op[j] == u[b..][j] == u[b + j] == t[p + b + j] == t[p + b..][j];
    }
    if op <= t[p + b..] {
      assert forall j :: 0 <= j < |op| ==> op[j] == t[p + b..][j] == t[p + b + j];
      assert forall j :: p + b <= j < p + b + |op| ==> t[j] == op[j - p - b];
      assert t[p + |u| - 1] == '\'';
      assert forall j :: 0 <= j < |op| ==> u[b + j] == op[j];
      assert forall j :: 0 <= j < |op| ==> u[b..][j] == op[j];
    }
  }

  /** Behind the operator: the spaces, the number and the spaces after it. */
  lemma LocalNumber(t: string, p: nat, u: string, b: nat) returns (c: nat, d: nat, e: nat)
    requires At(t, p, u) && IsQuoted(u) && b < |u|
    ensures c == SkipSpaces(u, b) && p + c == SkipSpaces(t, p + b)
    ensures d == c + DigitsLen(u[c..]) && p + d == p + c + DigitsLen(t[p + c..])
    ensures e == SkipSpaces(u, d) && p + e == SkipSpaces(t, p + d)
    ensures c <= d <= e < |u| && p + |u| <= |t| && t[p + c..p + d] == u[c..d] && t[p + e] == u[e]
  {
    hide SkipSpaces, DigitsLen, At, IsQuoted;
    SameStart(t, p, u);
    LocalSpaces(t, p, u, b);
    c := SkipSpaces(u, b);
    LocalDigits(t, p, u, c);
    d := c + DigitsLen(u[c..]);
    LocalSpaces(t, p, u, d);
    e := SkipSpaces(u, d);
    LocalStretch(t, p, u, c, d, e);
  }

  lemma LocalStretch(t: string, p: nat, u: string, c: nat, d: nat, e: nat)
    requires At(t, p, u) && c <= d <= |u| && e < |u|
    ensures p + |u| <= |t| && t[p + c..p + d] == u[c..d] && t[p + e] == u[e]
  {
    AtChars(t, p, u);
    SliceWithin(t, p, p + c, p + d, p + |u|);
  }

  lemma LocalRownum(t: string, p: nat, u: string, k: nat, op: string)
    requires At(t, p, u) && IsQuoted(u) && k < |u| && '\'' !in op
    ensures MatchRownum(t, p + k, op) == MatchRownum(u, k, op)
    ensures MatchRownum(u, k, op).Hit? ==> k + MatchRownum(u, k, op).len < |u|
  {
    hide AfterRownum, MatchRownum;
    LocalAfterRownum(t, p, u, k);
    NoRownum(t, p + k, op);
    NoRownum(u, k, op);
    if AfterRownum(u, k).Some? {
      LocalLimit(t, p, u, k, AfterRownum(u, k).value, op);
    }
  }

  lemma NoRownum(t: string, k: nat, op: string)
    ensures AfterRownum(t, k).None? ==> MatchRownum(t, k, op).Miss?
  {
    hide AfterRownum;
  }

  lemma LocalLimit(t: string, p: nat, u: string, k: nat, b: nat, op: string)
    requires At(t, p, u) && IsQuoted(u) && k < b < |u| && '\'' !in op
    requires AfterRownum(u, k) == Some(b) && AfterRownum(t, p + k) == Some(p + b)
    ensures MatchRownum(t, p + k, op) == MatchRownum(u, k, op)
    ensures MatchRownum(u, k, op).Hit? ==> k + MatchRownum(u, k, op).len < |u|
  {
    hide AfterRownum, SkipSpaces, DigitsLen, At, IsQuoted, MatchRownum, LimitText;
    LocalOperator(t, p, u, b, op);
    SameStart(t, p, u);
    if op <= u[b..] {
      var c, d, e := LocalNumber(t, p, u, b + |op|);
      LimitAt(u, k, b, op, c, d, e);
      LimitAt(t, p + k, p + b, op, p + c, p + d, p + e);
    } else {
      NoOperator(u, k, b, op);
      NoOperator(t, p + k, p + b, op);
    }
  }

  lemma LimitAt(t: string, i: nat, b: nat, op: string, c: nat, d: nat, e: nat)
    requires AfterRownum(t, i) == Some(b) && b <= |t| && op <= t[b..] && c == SkipSpaces(t, b + |op|)
    requires d == c + DigitsLen(t[c..]) && e == SkipSpaces(t, d)
    ensures MatchRownum(t, i, op)
         == if d > c && (e == |t| || t[e] == ')' || t[e] == ';') then Hit(e - i, LimitText(op, t[c..d])) else Miss
  {
    hide AfterRownum, SkipSpaces, DigitsLen, LimitText;
  }

  lemma NoOperator(t: string, i: nat, b: nat, op: string)
    requires AfterRownum(t, i) == Some(b) && b <= |t| && !(op <= t[b..])
    ensures MatchRownum(t, i, op) == Miss
  {
    hide AfterRownum, SkipSpaces, DigitsLen, LimitText;
  }

  lemma SameStart(t: string, p: nat, u: string)
    requires At(t, p, u)
    ensures p + |u| <= |t|
  {
  }

  lemma LocalRule(r: Rule, t: string, p: nat, u: string, k: nat)
    requires At(t, p, u) && IsQuoted(u) && k < |u| && (r == RownumUpTo || r == RownumBelow)
    ensures MatchRule(r, t, p + k) == MatchRule(r, u, k)
  {
    hide MatchRownum;
    LocalRownum(t, p, u, k, if r == RownumUpTo then "<=" else "<");
  }

  // ---- The row-limit passes and the restoring pass --------------------------------

  /** The text s starts as u does and then departs from it, in a character that starts nothing. */
  predicate Departs(s: string, u: string, j: nat) {
    && 0 < j < |u| && j < |s| && s[..j] == u[..j] && s[j] != u[j]
    && Upper(s[j]) != 'W' && s[j] != '\U{0001}'
  }

  predicate IsSpoilt(s: string, u: string) {
    exists j :: 0 < j < |u| && Departs(s, u, j)
  }

  /** A replacing pass scans what stands before a quote on its own. */
  lemma {:induction false} RuleCarries(r: Rule, t: string, i: nat, p: nat)
    requires i <= p < |t| && t[p] == '\''
    ensures RuleCarry(r, t, i, p) <= |ReplaceAll(r, t, i)|
    ensures ReplaceAll(r, t, i)[RuleCarry(r, t, i, p)..] == ReplaceAll(r, t, p)
    decreases p - i
  {
    hide MatchRule, ReplaceAll, Tame;
    if i < p {
      ReplaceHead(r, t, i);
      if MatchRule(r, t, i).Hit? {
        var len, out := MatchRule(r, t, i).len, MatchRule(r, t, i).out;
        HitIsTame(r, t, i);
        TameMissesQuote(t, i, len, p);
        RuleCarries(r, t, i + len, p);
        DropsFront(out, ReplaceAll(r, t, i + len), RuleCarry(r, t, i + len, p));
      } else {
        RuleCarries(r, t, i + 1, p);
        DropsFront([t[i]], ReplaceAll(r, t, i + 1), RuleCarry(r, t, i + 1, p));
      }
    }
  }

  lemma TameMissesQuote(t: string, i: nat, len: nat, p: nat)
    requires Tame(t, i, len) && i <= p < |t| && t[p] == '\''
    ensures len > 0 && i + len <= p
  {
  }

  lemma DropsFront(a: string, b: string, n: nat)
    requires n <= |b|
    ensures (a + b)[|a| + n..] == b[n..]
  {
  }

  lemma FirstHit(r: Rule, t: string, i: nat, j: nat) returns (h: nat)
    requires i <= j <= |t|
    ensures i <= h <= j && forall k :: i <= k < h ==> MatchRule(r, t, k).Miss?
    ensures h < j ==> MatchRule(r, t, h).Hit?
  {
    hide MatchRule;
    h := i;
    while h < j && MatchRule(r, t, h).Miss?
      invariant i <= h <= j && forall k :: i <= k < h ==> MatchRule(r, t, k).Miss?
    {
      h := h + 1;
    }
  }

  lemma RowLimitShape(r: Rule, t: string, i: nat)
    requires i < |t| && (r == RownumUpTo || r == RownumBelow) && MatchRule(r, t, i).Hit?
    ensures Upper(t[i]) == 'W' && MatchRule(r, t, i).len > 0
    ensures MatchRule(r, t, i).out != "" && MatchRule(r, t, i).out[0] == 'L'
  {
    hide AfterRownum, SkipSpaces, DigitsLen;
    AfterRownumIsClean(t, i);
  }

  /** A first match in text that starts like u spoils it there. */
  lemma HitSpoils(r: Rule, t: string, p: nat, h: nat, u: string)
    requires (r == RownumUpTo || r == RownumBelow) && p < h < |t|
    requires h - p < |u| && t[p..h] == u[..h - p] && t[h] == u[h - p]
    requires MatchRule(r, t, h).Hit? && forall k :: p <= k < h ==> MatchRule(r, t, k).Miss?
    ensures IsSpoilt(ReplaceAll(r, t, p), u)
  {
    hide MatchRule, ReplaceAll;
    RowLimitShape(r, t, h);
    ReplaceCopies(r, t, p, h);
    ReplaceHead(r, t, h);
    var s, j := ReplaceAll(r, t, p), h - p;
    var out := MatchRule(r, t, h).out;
    assert s == u[..j] + (out + ReplaceAll(r, t, h + MatchRule(r, t, h).len));
    assert s[j] == 'L' && s[..j] == u[..j];
    assert Departs(s, u, j);
  }

  /** On the literal, a row-limit pass changes it just when it finds a row limit in it. */
  lemma RuleOnLiteral(r: Rule, t: string, p: nat, u: string)
    requires At(t, p, u) && IsQuoted(u) && (r == RownumUpTo || r == RownumBelow)
    ensures if HasRowLimit(u, r) then IsSpoilt(ReplaceAll(r, t, p), u) else u <= ReplaceAll(r, t, p)
  {
    hide MatchRule, ReplaceAll, IsSpoilt;
    AtChars(t, p, u);
    var h := FirstHit(r, t, p, p + |u|);
    forall k | 0 <= k < |u|
      ensures MatchRule(r, t, p + k) == MatchRule(r, u, k)
    {
      LocalRule(r, t, p, u, k);
    }
    if h < p + |u| {
      assert MatchRule(r, u, h - p).Hit?;
      RowLimitShape(r, t, h);
      SliceWithin(t, p, p, h, p + |u|);
      HitSpoils(r, t, p, h, u);
    } else {
      forall k | 0 <= k < |u|
        ensures MatchRule(r, u, k).Miss?
      {
        assert MatchRule(r, t, p + k).Miss?;
      }
      ReplaceCopies(r, t, p, p + |u|);
    }
  }

  lemma RuleOnSpoilt(r: Rule, t: string, p: nat, u: string)
    requires p < |t| && IsQuoted(u) && IsSpoilt(t[p..], u) && (r == RownumUpTo || r == RownumBelow)
    ensures IsSpoilt(ReplaceAll(r, t, p), u)
  {
    hide MatchRule, ReplaceAll, Departs;
    var j :| 0 < j < |u| && Departs(t[p..], u, j);
    DepartsChars(t, p, u, j);
    var h := FirstHit(r, t, p, p + j + 1);
    if h < p + j + 1 {
      RowLimitShape(r, t, h);
      SliceWithin(t, p, p, h, p + j);
      assert u[..j][..h - p] == u[..h - p];
      HitSpoils(r, t, p, h, u);
    } else {
      CopiedIsSpoilt(r, t, p, u, j);
    }
  }

  lemma DepartsChars(t: string, p: nat, u: string, j: nat)
    requires p <= |t| && Departs(t[p..], u, j)
    ensures p + j < |t| && t[p..p + j] == u[..j] && t[p + j] != u[j] && Upper(t[p + j]) != 'W' && t[p + j] != '\U{0001}'
    ensures forall k :: p <= k < p + j ==> t[k] == u[k - p]
  {
    var s := t[p..];
    assert s[..j] == t[p..p + j];
    assert forall k :: p <= k < p + j ==> t[k] == s[..j][k - p];
    assert s[j] == t[p + j];
  }

  lemma CopiedIsSpoilt(r: Rule, t: string, p: nat, u: string, j: nat)
    requires p < p + j < |t| && j < |u| && t[p..p + j] == u[..j] && t[p + j] != u[j]
    requires Upper(t[p + j]) != 'W' && t[p + j] != '\U{0001}'
    requires forall k :: p <= k < p + j + 1 ==> MatchRule(r, t, k).Miss?
    ensures IsSpoilt(ReplaceAll(r, t, p), u)
  {
    hide MatchRule, ReplaceAll;
    ReplaceCopies(r, t, p, p + j + 1);
    var s := ReplaceAll(r, t, p);
    assert t[p..p + j + 1] == t[p..p + j] + [t[p + j]];
    assert s[..j] == u[..j] && s[j] == t[p + j];
    assert Departs(s, u, j);
  }

  predicate AllQuoted(literals: seq<string>) {
    forall i :: 0 <= i < |literals| ==> literals[i] != "" && literals[i][0] == '\''
  }

  lemma RestoredStart(literals: seq<string>, n: nat)
    requires AllQuoted(literals)
    ensures Restored(literals, n) != "" && Restored(literals, n)[0] != '\U{0001}'
  {
  }

  /** Restoring a text that departs from u, or has a placeholder before it would, does not give u. */
  lemma {:induction false} UnmaskDeparts(s: string, u: string, j: nat, literals: seq<string>)
    requires j < |s| && j < |u| && s[..j] == u[..j] && AllQuoted(literals)
    requires (s[j] != u[j] && s[j] != '\U{0001}') || (s[j] == u[j] && MarkLen(s[j..]) > 0)
    ensures !(u <= Unmask(s, literals))
  {
    hide Unmask, MarkLen, MarkNumber;
    UnmaskStep(s, literals);
    assert s[j..][0] == s[j];
    if MarkLen(s) > 0 {
      MarkOpens(s);
      RestoredStart(literals, MarkNumber(s));
      assert u[0] == s[0] by {
        if j > 0 {
          assert s[..j][0] == u[..j][0];
        }
      }
      assert Unmask(s, literals)[0] == Restored(literals, MarkNumber(s))[0];
    } else if j == 0 {
      assert s[0..] == s;
      assert Unmask(s, literals)[0] == s[0];
    } else {
      assert s[1..][..j - 1] == s[..j][1..] && u[1..][..j - 1] == u[..j][1..];
      assert s[1..][j - 1..] == s[j..];
      UnmaskDeparts(s[1..], u[1..], j - 1, literals);
      PrefixCons(u, s[0], Unmask(s[1..], literals));
    }
  }

  lemma PrefixCons(u: string, c: char, s: string)
    requires u != ""
    ensures u <= [c] + s <==> u[0] == c && u[1..] <= s
  {
    assert u == [u[0]] + u[1..];
  }

  /** Whether a placeholder starts at a place in the literal does not depend on what follows the literal. */
  lemma LocalMark(u: string, k: nat, b: string)
    requires IsQuoted(u) && k < |u|
    ensures MarkLen(u[k..] + b) == MarkLen(u[k..])
  {
    var x := u[k..|u| - 1];
    assert u[k..] == x + "'" && u[k..] + b == x + ("'" + b);
    if x != "" {
      MarkLenLocal(x, "'");
      MarkLenLocal(x, "'" + b);
    } else {
      assert x + "'" == "'" && x + ("'" + b) == "'" + b;
      NoMarkAtQuote("'");
      NoMarkAtQuote("'" + b);
    }
  }

  lemma NoMarkAtQuote(s: string)
    requires s != "" && s[0] == '\''
    ensures MarkLen(s) == 0
  {
    if MarkLen(s) > 0 {
      MarkOpens(s);
    }
  }

  lemma {:induction false} UnmaskCopies(u: string, k: nat, b: string, literals: seq<string>)
    requires IsQuoted(u) && k <= |u| && !HasMark(u)
    ensures Unmask(u[k..] + b, literals) == u[k..] + Unmask(b, literals)
    decreases |u| - k
  {
    hide Unmask, MarkLen, MarkNumber;
    if k == |u| {
      assert u[k..] == "" && "" + b == b;
    } else {
      LocalMark(u, k, b);
      UnmaskStep(u[k..] + b, literals);
      assert (u[k..] + b)[1..] == u[k + 1..] + b;
      UnmaskCopies(u, k + 1, b, literals);
      assert u[k..] == [u[k]] + u[k + 1..];
    }
  }

  /** Restoring leaves the literal alone just when there is no placeholder in it. */
  lemma UnmaskOnLiteral(u: string, b: string, literals: seq<string>)
    requires IsQuoted(u) && AllQuoted(literals)
    ensures u <= Unmask(u + b, literals) <==> !HasMark(u)
  {
    hide Unmask, MarkLen, MarkNumber;
    assert u[0..] == u;
    if HasMark(u) {
      var k :| 0 <= k < |u| && MarkLen(u[k..]) > 0;
      LocalMark(u, k, b);
      assert (u + b)[k..] == u[k..] + b && (u + b)[..k] == u[..k];
      UnmaskDeparts(u + b, u, k, literals);
    } else {
      UnmaskCopies(u, 0, b, literals);
    }
  }

  /** From a place with a quote on, what the last three passes do. */
  lemma FinishFrom(t: string, p: nat, literals: seq<string>)
    requires p < |t| && t[p] == '\''
    requires ReplaceAll(RownumUpTo, t, p) != "" && ReplaceAll(RownumUpTo, t, p)[0] == '\''
    requires var t1, p1 := ReplaceAll(RownumUpTo, t, 0), RuleCarry(RownumUpTo, t, 0, p);
      p1 < |t1| ==> ReplaceAll(RownumBelow, t1, p1) != "" && ReplaceAll(RownumBelow, t1, p1)[0] == '\''
    ensures var t1, p1 := ReplaceAll(RownumUpTo, t, 0), RuleCarry(RownumUpTo, t, 0, p);
      var rest := Unmask(ReplaceAll(RownumBelow, t1, p1), literals);
      && p1 < |t1| && t1[p1..] == ReplaceAll(RownumUpTo, t, p)
      && FinishCarry(t, p, literals) <= |Finish(t, literals)|
      && Finish(t, literals)[FinishCarry(t, p, literals)..] == rest
  {
    hide ReplaceAll, RuleCarry, Unmask;
    var t1, p1 := ReplaceAll(RownumUpTo, t, 0), RuleCarry(RownumUpTo, t, 0, p);
    RuleCarries(RownumUpTo, t, 0, p);
    assert t1[p1] == t1[p1..][0];
    var t2, p2 := ReplaceAll(RownumBelow, t1, 0), RuleCarry(RownumBelow, t1, 0, p1);
    RuleCarries(RownumBelow, t1, 0, p1);
    assert t2 == t2[..p2] + t2[p2..];
    UnmaskSplit(t2[..p2], t2[p2..], literals);
  }

  lemma StartsAt(s: string, p: nat, u: string)
    requires p <= |s|
    ensures At(s, p, u) <==> u <= s[p..]
  {
    if p + |u| <= |s| {
      SliceSlice(s, p, |u|);
      assert s[p..][..|u|] == s[p..p + |u|];
    }
  }

  lemma SpoiltStart(s: string, u: string)
    requires IsSpoilt(s, u) && IsQuoted(u)
    ensures s != "" && s[0] == '\''
  {
    var j :| 0 < j < |u| && Departs(s, u, j);
    assert s[..j][0] == u[..j][0];
  }

  /** What has been spoilt stays spoilt. */
  lemma FinishOnSpoilt(t: string, p: nat, u: string, literals: seq<string>)
    requires p < |t| && IsQuoted(u) && IsSpoilt(t[p..], u) && AllQuoted(literals)
    ensures !At(Finish(t, literals), FinishCarry(t, p, literals), u)
  {
    hide ReplaceAll, RuleCarry, Unmask, IsSpoilt, Finish, FinishCarry;
    SpoiltStart(t[p..], u);
    assert t[p] == t[p..][0];
    RuleOnSpoilt(RownumUpTo, t, p, u);
    SpoiltStart(ReplaceAll(RownumUpTo, t, p), u);
    SecondRuleOnSpoilt(t, p, u, literals);
  }

  /** The second row-limit pass and the restoring pass, after the first has spoilt the literal. */
  lemma SecondRuleOnSpoilt(t: string, p: nat, u: string, literals: seq<string>)
    requires p < |t| && t[p] == '\'' && IsQuoted(u) && IsSpoilt(ReplaceAll(RownumUpTo, t, p), u) && AllQuoted(literals)
    ensures !At(Finish(t, literals), FinishCarry(t, p, literals), u)
  {
    hide ReplaceAll, RuleCarry, Unmask, IsSpoilt, Finish, FinishCarry;
    var t1, p1 := ReplaceAll(RownumUpTo, t, 0), RuleCarry(RownumUpTo, t, 0, p);
    SpoiltStart(ReplaceAll(RownumUpTo, t, p), u);
    RuleCarries(RownumUpTo, t, 0, p);
    RuleOnSpoilt(RownumBelow, t1, p1, u);
    var s := ReplaceAll(RownumBelow, t1, p1);
    SpoiltStart(s, u);
    FinishFrom(t, p, literals);
    UnmaskOnSpoilt(s, u, literals);
    StartsAt(Finish(t, literals), FinishCarry(t, p, literals), u);
  }

  lemma UnmaskOnSpoilt(s: string, u: string, literals: seq<string>)
    requires IsSpoilt(s, u) && AllQuoted(literals)
    ensures !(u <= Unmask(s, literals))
  {
    hide Unmask, MarkLen;
    var j :| 0 < j < |u| && Departs(s, u, j);
    UnmaskDeparts(s, u, j, literals);
  }

  /** The last three passes leave the literal in its place just when they find nothing in it. */
  lemma FinishOnLiteral(t: string, p: nat, u: string, literals: seq<string>)
    requires At(t, p, u) && IsQuoted(u) && AllQuoted(literals)
    ensures At(Finish(t, literals), FinishCarry(t, p, literals), u) <==>
      !HasMark(u) && !HasRowLimit(u, RownumUpTo) && !HasRowLimit(u, RownumBelow)
  {
    hide ReplaceAll, RuleCarry, Unmask, IsSpoilt, Finish, FinishCarry, HasRowLimit, HasMark;
    AtChars(t, p, u);
    assert t[p] == '\'';
    RuleOnLiteral(RownumUpTo, t, p, u);
    if HasRowLimit(u, RownumUpTo) {
      SecondRuleOnSpoilt(t, p, u, literals);
    } else {
      var t1, p1 := ReplaceAll(RownumUpTo, t, 0), RuleCarry(RownumUpTo, t, 0, p);
      RuleCarries(RownumUpTo, t, 0, p);
      StartsAt(t1, p1, u);
      RuleOnLiteral(RownumBelow, t1, p1, u);
      var s := ReplaceAll(RownumBelow, t1, p1);
      if HasRowLimit(u, RownumBelow) {
        SpoiltStart(s, u);
        FinishFrom(t, p, literals);
        UnmaskOnSpoilt(s, u, literals);
      } else {
        assert s[0] == s[..|u|][0] == u[0];
        FinishFrom(t, p, literals);
        assert s == u + s[|u|..];
        UnmaskOnLiteral(u, s[|u|..], literals);
      }
      StartsAt(Finish(t, literals), FinishCarry(t, p, literals), u);
    }
  }
}
