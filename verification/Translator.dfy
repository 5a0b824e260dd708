/**
 * The Oracle to DuckDB rewriter (engine/src/oracle-shim/translator.ts): mask the string
 * literals, run ten rewriting passes over what is left, restore the literals.
 */
module Translator {
  import opened Common
  import opened Text
  import opened StringMask
  import opened ArgLists
  import opened DecodeCase

  // ---- Passes that replace a pattern ----------------------------------------------

  datatype Rule = FromDual | SysDate | SysTimestamp | NvlName | RownumUpTo | RownumBelow

  /** What a rule finds at a position: the length of the match and what replaces it. */
  datatype Found = Miss | Hit(len: nat, out: string)

  function MatchWord(t: string, i: nat, w: string, out: string): Found {
    if StartsWord(t, i) && WordAt(t, i, w) && BoundaryAt(t, i + |w|) then Hit(|w|, out) else Miss
  }

  function MatchFromDual(t: string, i: nat): Found {
    if StartsWord(t, i) && WordAt(t, i, "FROM") then
      var j := SkipSpaces(t, i + 4);
      if j > i + 4 && WordAt(t, j, "DUAL") && BoundaryAt(t, j + 4)
      then Hit(j + 4 - i, t[i..i + 4] + " (SELECT 'X' AS DUMMY) AS DUAL")
      else Miss
    else Miss
  }

  /** The position of the '(' of a call of the name at i. */
  function OpenOf(t: string, i: nat, name: string): (r: Option<nat>)
    ensures r.Some? ==> i + |name| <= r.value < |t|
  {
    if StartsWord(t, i) && WordAt(t, i, name) && Peek(t, SkipSpaces(t, i + |name|), '(')
    then Some(SkipSpaces(t, i + |name|))
    else None
  }

  function MatchNvl(t: string, i: nat): Found {
    match OpenOf(t, i, "NVL")
    case Some(open) => Hit(open + 1 - i, "COALESCE(")
    case None => Miss
  }

  function IntText(n: int): string {
    if n < 0 then "-" + Dec(-n) else Dec(n)
  }

  function LimitText(op: string, digits: string): string {
    "LIMIT " + if op == "<=" then digits else IntText(DecValue(digits) - 1)
  }

  /** The position after WHERE ROWNUM and the spaces that follow. */
  function AfterRownum(t: string, i: nat): (r: Option<nat>)
    ensures r.Some? ==> i + 11 < r.value <= |t|
  {
    if !(StartsWord(t, i) && WordAt(t, i, "WHERE")) then None
    else
      var a := SkipSpaces(t, i + 5);
      if a > i + 5 && WordAt(t, a, "ROWNUM") then Some(SkipSpaces(t, a + 6)) else None
  }

  /** ROWNUM as the sole predicate: the number must end the text or stand before ')' or ';'. */
  function MatchRownum(t: string, i: nat, op: string): Found {
    match AfterRownum(t, i)
    case None => Miss
    case Some(b) =>
      if op <= t[b..] then
        var c := SkipSpaces(t, b + |op|);
        var d := c + DigitsLen(t[c..]);
        var e := SkipSpaces(t, d);
        if d > c && (e == |t| || t[e] == ')' || t[e] == ';')
        then Hit(e - i, LimitText(op, t[c..d]))
        else Miss
      else Miss
  }

  function MatchRule(r: Rule, t: string, i: nat): Found {
    match r
    case FromDual => MatchFromDual(t, i)
    case SysDate => MatchWord(t, i, "SYSDATE", "CURRENT_TIMESTAMP")
    case SysTimestamp => MatchWord(t, i, "SYSTIMESTAMP", "CURRENT_TIMESTAMP")
    case NvlName => MatchNvl(t, i)
    case RownumUpTo => MatchRownum(t, i, "<=")
    case RownumBelow => MatchRownum(t, i, "<")
  }

  /** Every match from i on replaced, left to right. */
  function ReplaceAll(r: Rule, t: string, i: nat): string
    decreases |t| - i
  {
    if i >= |t| then ""
    else
      match MatchRule(r, t, i)
      case Hit(len, out) => if len > 0 then out + ReplaceAll(r, t, i + len) else out + [t[i]] + ReplaceAll(r, t, i + 1)
      case Miss => [t[i]] + ReplaceAll(r, t, i + 1)
  }

  // ---- Passes that rewrite calls --------------------------------------------------

  datatype Callee = Nvl2Fn | DecodeFn | ToDateFn | ToCharFn {
    function Name(): string {
      match this
      case Nvl2Fn => "NVL2"
      case DecodeFn => "DECODE"
      case ToDateFn => "TO_DATE"
      case ToCharFn => "TO_CHAR"
    }
  }

  datatype Code = Code(oracle: string, duck: string)

  /** Longest first, as the tokenizer tries them. */
  const FORMAT_TOKENS: seq<Code> := [
    Code("MONTH", "%B"), Code("YYYY", "%Y"), Code("HH24", "%H"), Code("HH12", "%I"),
    Code("MON", "%b"), Code("DDD", "%j"), Code("DAY", "%A"),
    Code("YY", "%y"), Code("MM", "%m"), Code("DY", "%a"), Code("DD", "%d"), Code("HH", "%I"),
    Code("MI", "%M"), Code("SS", "%S"), Code("AM", "%p"), Code("PM", "%p")
  ]

  /** The first format code from k on that t starts with. */
  function CodeAt(t: string, k: nat): Option<Code>
    decreases |FORMAT_TOKENS| - k
  {
    if k >= |FORMAT_TOKENS| then None
    else if FORMAT_TOKENS[k].oracle <= t then Some(FORMAT_TOKENS[k])
    else CodeAt(t, k + 1)
  }

  function ConvertFormat(fmt: string): string {
    if fmt == "" then ""
    else
      match CodeAt(fmt, 0)
      case Some(c) => c.duck + ConvertFormat(fmt[if 0 < |c.oracle| <= |fmt| then |c.oracle| else 1..])
      case None => [fmt[0]] + ConvertFormat(fmt[1..])
  }

  function Undouble(s: string): string {
    if |s| >= 2 && s[0] == '\'' && s[1] == '\'' then "'" + Undouble(s[2..])
    else if s == "" then ""
    else [s[0]] + Undouble(s[1..])
  }

  /** What stands between the quotes of a literal. */
  function Inner(literal: string): string {
    if |literal| < 2 then "" else literal[1..|literal| - 1]
  }

  /** The literal that a date format is emitted as. */
  function ConvertedLiteral(literal: string): string {
    "'" + Doubled(ConvertFormat(Undouble(Inner(literal))), '\'') + "'"
  }

  predicate IsMark(s: string) {
    s != "" && MarkLen(s) == |s|
  }

  /** Two arguments, the second a placeholder that stands for a literal. */
  predicate HasFormat(args: seq<string>, literals: seq<string>) {
    && |args| == 2 && IsMark(Trim(args[1]))
    && MarkNumber(Trim(args[1])) < |literals| && literals[MarkNumber(Trim(args[1]))] != ""
  }

  function DateText(name: string, target: string, argList: string, literals: seq<string>): string {
    var args := Pieces(argList, 0, ',');
    if !HasFormat(args, literals) then name + "(" + argList + ")"
    else
      var fmt := literals[MarkNumber(Trim(args[1]))];
      target + "(" + Trim(args[0]) + ", " + ConvertedLiteral(fmt) + ")"
  }

  function CallText(c: Callee, argList: string, literals: seq<string>): string {
    match c
    case Nvl2Fn => Nvl2Text(argList)
    case DecodeFn => DecodeText(argList)
    case ToDateFn => DateText("TO_DATE", "strptime", argList, literals)
    case ToCharFn => DateText("TO_CHAR", "strftime", argList, literals)
  }

  /** Every closed call from i on rewritten, up to the first that does not close. */
  function Rewritten(t: string, i: nat, c: Callee, literals: seq<string>): string
    decreases |t| - i
  {
    if i >= |t| then ""
    else
      match OpenOf(t, i, c.Name())
      case None => [t[i]] + Rewritten(t, i + 1, c, literals)
      case Some(open) =>
        match CloseOf(t, open)
        case None => t[i..]
        case Some(close) => CallText(c, t[open + 1..close], literals) + Rewritten(t, close + 1, c, literals)
  }

  /** The placeholders that the calls from i on use up as date formats. */
  function FormatsIn(t: string, i: nat, c: Callee, literals: seq<string>): set<string>
    decreases |t| - i
  {
    if i >= |t| then {}
    else
      match OpenOf(t, i, c.Name())
      case None => FormatsIn(t, i + 1, c, literals)
      case Some(open) =>
        match CloseOf(t, open)
        case None => {}
        case Some(close) => FormatOf(c, t[open + 1..close], literals) + FormatsIn(t, close + 1, c, literals)
  }

  function FormatOf(c: Callee, argList: string, literals: seq<string>): set<string> {
    if (c == ToDateFn || c == ToCharFn) && HasFormat(Pieces(argList, 0, ','), literals)
    then {Trim(Pieces(argList, 0, ',')[1])}
    else {}
  }

  // ---- The whole translation ------------------------------------------------------

  datatype Pass = Replace(rule: Rule) | Rewrite(callee: Callee)

  const PASSES: seq<Pass> := [
    Replace(FromDual), Replace(SysDate), Replace(SysTimestamp), Replace(NvlName),
    Rewrite(Nvl2Fn), Rewrite(DecodeFn), Rewrite(ToDateFn), Rewrite(ToCharFn),
    Replace(RownumUpTo), Replace(RownumBelow)
  ]

  function RunPass(p: Pass, t: string, literals: seq<string>): string {
    match p
    case Replace(r) => ReplaceAll(r, t, 0)
    case Rewrite(c) => Rewritten(t, 0, c, literals)
  }

  function RunPasses(ps: seq<Pass>, t: string, literals: seq<string>): string {
    if ps == [] then t else RunPasses(ps[1..], RunPass(ps[0], t, literals), literals)
  }

  /** The placeholders used up as date formats by some pass. */
  function Formats(ps: seq<Pass>, t: string, literals: seq<string>): set<string> {
    if ps == [] then {}
    else (if ps[0].Rewrite? then FormatsIn(t, 0, ps[0].callee, literals) else {})
         + Formats(ps[1..], RunPass(ps[0], t, literals), literals)
  }

  function Translate(sql: string): string {
    var m := Mask(sql, 0);
    Unmask(RunPasses(PASSES, m.text, m.literals), m.literals)
  }

  method DateCall(name: string, target: string, argList: string, literals: seq<string>) returns (r: string)
    ensures r == DateText(name, target, argList, literals)
  {
    var args := SplitArgs(argList);
    if |args| != 2 {
      return name + "(" + argList + ")";
    }
    var val := Trim(args[0]);
    var fmtRef := Trim(args[1]);
    if !IsMark(fmtRef) {
      return name + "(" + argList + ")";
    }
    var n := MarkNumber(fmtRef);
    if n >= |literals| || literals[n] == "" {
      return name + "(" + argList + ")";
    }
    var converted := Doubled(ConvertFormat(Undouble(Inner(literals[n]))), '\'');
    return target + "(" + val + ", " + ("'" + converted + "'") + ")";
  }

  method ApplyRewrite(c: Callee, argList: string, literals: seq<string>) returns (r: string)
    ensures r == CallText(c, argList, literals)
  {
    match c
    case Nvl2Fn => r := Nvl2Call(argList);
    case DecodeFn => r := DecodeCall(argList);
    case ToDateFn => r := DateCall("TO_DATE", "strptime", argList, literals);
    case ToCharFn => r := DateCall("TO_CHAR", "strftime", argList, literals);
  }

  /** The next call of the name at or after a position. */
  method NextCall(t: string, from: nat, name: string) returns (i: nat, open: Option<nat>)
    requires from <= |t|
    ensures from <= i <= |t| && (open.None? ==> i == |t|)
    ensures forall k :: from <= k < i ==> OpenOf(t, k, name).None?
    ensures open.Some? ==> i < |t| && OpenOf(t, i, name) == open
  {
    hide OpenOf;
    i := from;
    while i < |t|
      invariant from <= i <= |t|
      invariant forall k :: from <= k < i ==> OpenOf(t, k, name).None?
    {
      open := OpenOf(t, i, name);
      if open.Some? {
        return;
      }
      i := i + 1;
    }
    open := None;
  }

  method RewriteCall(seg: string, c: Callee, literals: seq<string>) returns (out: string)
    ensures out == Rewritten(seg, 0, c, literals)
  {
    hide Rewritten, OpenOf, CallText, CloseOf;
    out := "";
    var last := 0;
    while true
      invariant 0 <= last <= |seg|
      invariant Rewritten(seg, 0, c, literals) == out + Rewritten(seg, last, c, literals)
      decreases |seg| - last
    {
      var i, open := NextCall(seg, last, c.Name());
      SkipToCall(seg, last, i, c, literals);
      if open.None? {
        RestIsCopied(seg, last, i, c, literals);
        break;
      }
      OpenIsParen(seg, i, c.Name());
      var close := MatchParen(seg, open.value);
      if close.None? {
        RestIsCopied(seg, last, i, c, literals);
        break;
      }
      var argList := seg[open.value + 1..close.value];
      out := out + seg[last..i];
      var text := ApplyRewrite(c, argList, literals);
      CallStep(seg, i, c, literals);
      out := out + text;
      last := close.value + 1;
    }
    out := out + seg[last..];
  }

  lemma OpenIsParen(t: string, i: nat, name: string)
    ensures var open := OpenOf(t, i, name); open.Some? ==> t[open.value] == '('
  {
  }

  /** Text without calls is copied. */
  lemma {:induction false} SkipToCall(t: string, from: nat, i: nat, c: Callee, literals: seq<string>)
    requires from <= i <= |t| && forall k :: from <= k < i ==> OpenOf(t, k, c.Name()).None?
    ensures Rewritten(t, from, c, literals) == t[from..i] + Rewritten(t, i, c, literals)
    decreases i - from
  {
    hide Rewritten, OpenOf;
    if from < i {
      SkipToCall(t, from + 1, i, c, literals);
      CopyChar(t, from, c, literals);
      assert t[from..i] == [t[from]] + t[from + 1..i];
      Assoc([t[from]], t[from + 1..i], Rewritten(t, i, c, literals));
    }
  }

  lemma CopyChar(t: string, i: nat, c: Callee, literals: seq<string>)
    requires i < |t| && OpenOf(t, i, c.Name()).None?
    ensures Rewritten(t, i, c, literals) == [t[i]] + Rewritten(t, i + 1, c, literals)
  {
  }

  /** At the end, and from an unclosed call on, the text is left alone. */
  lemma RestIsCopied(t: string, last: nat, i: nat, c: Callee, literals: seq<string>)
    requires last <= i <= |t|
    requires i == |t| || (OpenOf(t, i, c.Name()).Some? && CloseOf(t, OpenOf(t, i, c.Name()).value).None?)
    ensures t[last..i] + Rewritten(t, i, c, literals) == t[last..]
  {
  }

  lemma CallStep(t: string, i: nat, c: Callee, literals: seq<string>)
    requires i < |t| && OpenOf(t, i, c.Name()).Some?
    ensures var open := OpenOf(t, i, c.Name()).value;
      var close := CloseOf(t, open);
      close.Some? ==>
        Rewritten(t, i, c, literals)
        == CallText(c, t[open + 1..close.value], literals) + Rewritten(t, close.value + 1, c, literals)
  {
  }

  method RewriteSegment(seg: string, literals: seq<string>) returns (out: string)
    ensures out == RunPasses(PASSES, seg, literals)
  {
    hide RunPasses, ReplaceAll, Rewritten;
    out := seg;
    var i := 0;
    assert PASSES[0..] == PASSES;
    while i < |PASSES|
      invariant 0 <= i <= |PASSES|
      invariant RunPasses(PASSES, seg, literals) == RunPasses(PASSES[i..], out, literals)
    {
      PassStep(PASSES, i, out, literals);
      match PASSES[i] {
        case Replace(r) => out := ReplaceAll(r, out, 0);
        case Rewrite(c) => out := RewriteCall(out, c, literals);
      }
      i := i + 1;
    }
    PassesEnd(out, literals);
    assert PASSES[i..] == [];
  }

  lemma PassesEnd(t: string, literals: seq<string>)
    ensures RunPasses([], t, literals) == t
  {
  }

  lemma PassStep(ps: seq<Pass>, i: nat, t: string, literals: seq<string>)
    requires i < |ps|
    ensures RunPasses(ps[i..], t, literals) == RunPasses(ps[i + 1..], RunPass(ps[i], t, literals), literals)
  {
    assert ps[i..][1..] == ps[i + 1..];
  }

  method TranslateSql(sql: string) returns (out: string)
    ensures out == Translate(sql)
  {
    var masked, literals := MaskStrings(sql);
    var rewritten := RewriteSegment(masked, literals);
    return Unmask(rewritten, literals);
  }
}
