/**
 * Exactly which date formats reach the output of the translator
 * (engine/src/oracle-shim/translator.ts). For a literal that is not harmless there is a text
 * that uses it as a format and whose translation does not hold it in its place: with a
 * placeholder or a row limit in it, the plain call does; with a TO_CHAR call in it that is
 * not printed as it was, the call closed in the right way, behind another call where one has
 * to close in the literal first. With what holds of every harmless literal, this makes
 * harmlessness exact. Then one family on either side of the line.
 */
module FormatFate {
  import opened Common
  import opened Text
  import opened StringMask
  import opened ArgLists
  import opened Translator
  import opened LiteralSurvival
  import opened FormatSurvival
  import opened FormatCalls
  import opened FormatEmission
  import opened FormatWitness

  // ---- The literal is spoilt ------------------------------------------------------

  lemma {:induction false} CarrySkip(t: string, i: nat, p: nat, literals: seq<string>)
    requires i <= p < |t| && forall k :: i <= k < p ==> OpenOf(t, k, "TO_CHAR").None?
    ensures CallCarry(t, i, p, literals) == p - i
    decreases p - i
  {
    hide OpenOf, CallCarry;
    CarryStep(t, i, p, literals);
    if i < p {
      CarrySkip(t, i + 1, p, literals);
    }
  }

  /** No TO_CHAR call opens in front of a literal that is emitted first. */
  lemma FrontOpensNone(t: string, k: nat)
    requires "strptime(x, '" <= t && k < 12
    ensures OpenOf(t, k, "TO_CHAR").None?
  {
    hide SkipSpaces, WordAt;
    var f := "strptime(x, '";
    assert forall i :: 0 <= i < |f| ==> t[i] == f[i];
    if Upper(f[k]) != 'T' {
      NotWord(t, k, "TO_CHAR", 0);
    } else {
      NotWord(t, k, "TO_CHAR", 1);
    }
  }

  /** The pass for TO_CHAR reaches a literal that is emitted first as it stands. */
  lemma ReachesFirst(t: string, u: string, literals: seq<string>)
    requires "strptime(x, " <= t && At(t, 12, u) && IsQuoted(u)
    ensures CallCarry(t, 0, 12, literals) == 12
    ensures var r, s := Rewritten(t, 0, ToCharFn, literals), Rewritten(t, 12, ToCharFn, literals);
      && |r| > 12 && r[12..] == s && s != "" && s[0] == '\'' && (IsLost(s, u) ==> IsSpoilt(s, u))
  {
    hide OpenOf, Rewritten, CallCarry, IsLost, IsSpoilt;
    AtChars(t, 12, u);
    var f := "strptime(x, '";
    assert t[12] == '\'';
    assert t[..12] == "strptime(x, ";
    assert f == "strptime(x, " + "'";
    assert t[..13] == f;
    forall k | 0 <= k < 12
      ensures OpenOf(t, k, "TO_CHAR").None?
    {
      FrontOpensNone(t, k);
    }
    CarrySkip(t, 0, 12, literals);
    SkipToCall(t, 0, 12, ToCharFn, literals);
    NoWordAtQuote(u, "TO_CHAR");
    LocalOpen(t, 12, u, 0, "TO_CHAR");
    CopyChar(t, 12, ToCharFn, literals);
    var s := Rewritten(t, 12, ToCharFn, literals);
    if IsLost(s, u) {
      LostIsSpoilt(s, u);
    }
  }

  /** The literal that a format with the content x is emitted as. */
  function Printed(x: string): string {
    "'" + Doubled(ConvertFormat(x), '\'') + "'"
  }

  /** In translating sql, the pass for c uses a format f with the content x, and emits it at q. */
  predicate IsUsedFor(sql: string, c: Callee, f: string, q: nat, x: string) {
    && IsUsed(sql, c, f, q) && MarkLen(f) > 0 && MarkNumber(f) < |Mask(sql, 0).literals|
    && Undouble(Inner(Mask(sql, 0).literals[MarkNumber(f)])) == x
  }

  /** It stands in the translation, in its place. */
  predicate Arrives(sql: string, c: Callee, q: nat, x: string) {
    At(Translate(sql), PlaceOf(sql, c, q), Printed(x))
  }

  ghost predicate IsSpoiltBy(c: Callee, x: string, sql: string, f: string, q: nat) {
    IsUsedFor(sql, c, f, q, x) && !Arrives(sql, c, q, x)
  }

  lemma PrintedIs(x: string)
    ensures ConvertedLiteral(Quoted(x)) == Printed(x) && IsQuoted(Printed(x))
  {
    hide Doubled, ConvertFormat, Undouble, Inner, Quoted;
    QuotedShape(x);
  }

  /** A text with a TO_DATE call that uses the format. */
  lemma DateWitness(s: nat, x: string, n: nat, takes: bool) returns (sql: string)
    ensures var t := Sheet(s, "strptime(x, ", Printed(x), n, Masking(takes)); var p := |Lead(s)| + 12;
      && IsUsedFor(sql, ToDateFn, Mark(0), p, x) && Mask(sql, 0).literals == Literals(x, takes)
      && AfterToDate(Mask(sql, 0)) == t && Lead(s) + "strptime(x, " <= t && At(t, p, Printed(x))
      && t[p + |Printed(x)|..] == ")" + Trail(n, Masking(takes))
  {
    hide Mask, Mark, Trail, Lead, Rewritten, Masking, Quoted, Sheet, Emits, ConvertedLiteral, RunPasses, Inert, MarkLen;
    hide MarkNumber, Undouble, Inner, Printed, Literals, Front, At, BeforeDates;
    LiteralsStart(x, takes);
    sql := Sheet(s, ToDateFn.Name() + "(x, ", Quoted(x), n, Spare(takes));
    UsesFirst(ToDateFn, s, x, n, takes);
    DatePass(ToDateFn, s, x, n, takes);
    FrontOfX(ToDateFn);
    PrintedIs(x);
    SheetParts(s, "strptime(x, ", Printed(x), n, Masking(takes));
    SheetStarts(s, "strptime(x, ", Printed(x), n, Masking(takes));
  }

  lemma SheetStarts(s: nat, head: string, mid: string, n: nat, format: Option<string>)
    ensures Lead(s) + head <= Sheet(s, head, mid, n, format)
  {
    hide Lead, Trail;
    Assoc(Lead(s), head, mid + (")" + Trail(n, format)));
  }

  lemma UsesFirst(c: Callee, s: nat, x: string, n: nat, takes: bool)
    requires IsDateCall(c)
    ensures var m := Mask(Sheet(s, c.Name() + "(x, ", Quoted(x), n, Spare(takes)), 0);
      && m.literals == Literals(x, takes) && BeforeDates(m) == Sheet(s, c.Name() + "(x, ", Mark(0), n, Masking(takes))
    ensures MarkLen(Mark(0)) > 0 && MarkNumber(Mark(0)) == 0 && Undouble(Inner(Literals(x, takes)[0])) == x
  {
    hide Mask, Mark, Masking, Quoted, Sheet, RunPasses, Inert, MarkLen, MarkNumber, Undouble, Inner;
    MaskSheet(s, c.Name() + "(x, ", x, n, takes);
    MaskingIs(takes);
    SheetIsInert(s, c, n, Masking(takes));
    InertBeforeDates(Sheet(s, c.Name() + "(x, ", Mark(0), n, Masking(takes)), Literals(x, takes));
    QuotedShape(x);
    MarkShape(0);
    MarkReadsBack(0, "");
    assert Mark(0) + "" == Mark(0);
  }

  /** A text with a TO_CHAR call that uses the format. */
  lemma CharWitness(x: string) returns (sql: string)
    ensures IsUsedFor(sql, ToCharFn, Mark(0), 12, x) && At(AfterToChar(Mask(sql, 0)), 12, Printed(x))
  {
    hide Mask, Mark, Trail, Rewritten, Masking, Quoted, Sheet, Emits, ConvertedLiteral, RunPasses, Inert, MarkLen;
    hide MarkNumber, Undouble, Inner, Printed, OpenOf;
    sql := Sheet(0, ToCharFn.Name() + "(x, ", Quoted(x), 0, Spare(false));
    var t := Sheet(0, ToCharFn.Name() + "(x, ", Mark(0), 0, Masking(false));
    LeadOfNone();
    UsesFirst(ToCharFn, 0, x, 0, false);
    MaskingIs(false);
    forall k | 0 <= k < |t|
      ensures OpenOf(t, k, "TO_DATE").None?
    {
      OpensNoDate(t, k);
    }
    NoneOpens(t, 0, ToDateFn, Literals(x, false));
    assert t[0..] == t;
    DatePass(ToCharFn, 0, x, 0, false);
    FrontOfX(ToCharFn);
    PrintedIs(x);
    SheetParts(0, "strftime(x, ", Printed(x), 0, Masking(false));
  }

  lemma OpensNoDate(t: string, k: nat)
    requires t == Sheet(0, ToCharFn.Name() + "(x, ", Mark(0), 0, None) && k < |t|
    ensures OpenOf(t, k, "TO_DATE").None?
  {
    hide Mark, OpenOf, Inert;
    assert t == "TO_CHAR(" + ("x, " + (Mark(0) + ")"));
    if k < 8 {
      assert Lead(1) == "TO_CHAR(" <= t;
      LeadOpensNoDate(t, 1, k);
    } else {
      NotLetters("T");
      MarkIsInert(0, "T");
      InertConcat(Mark(0), ")", "T");
      XIsInert();
      InertConcat("(x, ", Mark(0) + ")", "T");
      assert t[7..] == "(x, " + (Mark(0) + ")");
      TailOpensNone(t, 7, k, ToDateFn);
    }
  }

  lemma XIsInert()
    ensures Inert("(x, ", "T")
  {
  }

  // ---- What is not harmless is spoilt ---------------------------------------------

  /** What the pass for TO_CHAR has spoilt does not reach the output. */
  lemma SpoiltIsGone(sql: string, q: nat, x: string)
    requires IsUsedFor(sql, ToDateFn, Mark(0), q, x)
    requires var m := Mask(sql, 0); var p := CallCarry(AfterToDate(m), 0, q, m.literals);
      p < |AfterToChar(m)| && IsSpoilt(AfterToChar(m)[p..], Printed(x))
    ensures IsSpoiltBy(ToDateFn, x, sql, Mark(0), q)
  {
    hide Mask, Mark, CallCarry, Finish, FinishCarry, IsSpoilt, Printed, IsUsedFor, AfterToDate, AfterToChar, IsQuoted;
    var m := Mask(sql, 0);
    var p := CallCarry(AfterToDate(m), 0, q, m.literals);
    PrintedIs(x);
    LiteralsAreKnown(sql);
    FinishOnSpoilt(AfterToChar(m), p, Printed(x), m.literals);
    TranslateStages(sql);
  }

  /** A placeholder or a row limit in the literal. */
  lemma FoundSpoils(c: Callee, x: string) returns (sql: string)
    requires IsDateCall(c)
    requires HasMark(Printed(x)) || HasRowLimit(Printed(x), RownumUpTo) || HasRowLimit(Printed(x), RownumBelow)
    ensures IsSpoiltBy(c, x, sql, Mark(0), 12)
  {
    hide Mask, Mark, CallCarry, Finish, FinishCarry, IsSpoilt, Printed, IsUsedFor, AfterToDate, IsQuoted;
    hide HasMark, HasRowLimit, Lead, Trail, Rewritten, Masking, Sheet, Literals, At, AfterToChar;
    PrintedIs(x);
    var u := Printed(x);
    if c == ToCharFn {
      sql := CharWitness(x);
      LiteralsAreKnown(sql);
      FinishOnLiteral(AfterToChar(Mask(sql, 0)), 12, u, Mask(sql, 0).literals);
      TranslateStages(sql);
    } else {
      LeadOfNone();
      sql := DateWitness(0, x, 0, false);
      FoundInDate(sql, x);
    }
  }

  lemma FoundInDate(sql: string, x: string)
    requires IsUsedFor(sql, ToDateFn, Mark(0), 12, x)
    requires var t := AfterToDate(Mask(sql, 0)); "strptime(x, " <= t && At(t, 12, Printed(x))
    requires HasMark(Printed(x)) || HasRowLimit(Printed(x), RownumUpTo) || HasRowLimit(Printed(x), RownumBelow)
    ensures IsSpoiltBy(ToDateFn, x, sql, Mark(0), 12)
  {
    hide Mask, Mark, CallCarry, IsSpoilt, Printed, IsUsedFor, AfterToDate, IsQuoted, At;
    hide HasMark, HasRowLimit, Rewritten;
    PrintedIs(x);
    var m, u := Mask(sql, 0), Printed(x);
    KeptOrSpoilt(AfterToDate(m), u, m.literals);
    if IsSpoilt(AfterToChar(m)[12..], u) {
      SpoiltIsGone(sql, 12, x);
    } else {
      KeptIsFound(sql, x);
    }
  }

  /** What the pass for TO_CHAR leaves of a literal that is emitted first. */
  lemma KeptOrSpoilt(t: string, u: string, literals: seq<string>)
    requires "strptime(x, " <= t && At(t, 12, u) && IsQuoted(u)
    ensures var r := Rewritten(t, 0, ToCharFn, literals);
      CallCarry(t, 0, 12, literals) == 12 < |r| && (At(r, 12, u) || IsSpoilt(r[12..], u))
  {
    hide CallCarry, IsSpoilt, Rewritten, IsLost, IsCalm, HasMark, IsQuoted;
    ReachesFirst(t, u, literals);
    ScanLiteral(t, 12, u, 0, literals);
    assert u[0..] == u;
    StartsAt(Rewritten(t, 0, ToCharFn, literals), 12, u);
  }

  lemma KeptIsFound(sql: string, x: string)
    requires IsUsedFor(sql, ToDateFn, Mark(0), 12, x) && At(AfterToChar(Mask(sql, 0)), 12, Printed(x))
    requires CallCarry(AfterToDate(Mask(sql, 0)), 0, 12, Mask(sql, 0).literals) == 12
    requires HasMark(Printed(x)) || HasRowLimit(Printed(x), RownumUpTo) || HasRowLimit(Printed(x), RownumBelow)
    ensures IsSpoiltBy(ToDateFn, x, sql, Mark(0), 12)
  {
    hide Mask, Mark, CallCarry, Finish, FinishCarry, Printed, IsUsedFor, AfterToDate, AfterToChar, IsQuoted;
    hide HasMark, HasRowLimit;
    PrintedIs(x);
    LiteralsAreKnown(sql);
    FinishOnLiteral(AfterToChar(Mask(sql, 0)), 12, Printed(x), Mask(sql, 0).literals);
    TranslateStages(sql);
  }

  /** A call in the literal that the pass is not calm on. */
  lemma OffenceIsFound(x: string) returns (sql: string)
    requires !IsCalm(Printed(x), 0)
    ensures IsSpoiltBy(ToDateFn, x, sql, Mark(0), 12)
  {
    hide Mask, Mark, CallCarry, IsSpoilt, Printed, IsUsedFor, AfterToDate, IsQuoted, Literals, IsSpoiltBy, At;
    hide Trail, Rewritten, IsLost, IsCalm, Sheet, IsTriggered, Offence, TakesFormat, Closers, Lead;
    PrintedIs(x);
    LeadOfNone();
    var u := Printed(x);
    var takes := TakesFormat(u, 0);
    sql := DateWitness(0, x, Closers(u, 0), takes);
    var m := Mask(sql, 0);
    assert "" + "strptime(x, " == "strptime(x, ";
    SpareIsThere(x, takes);
    MaskingIs(takes);
    OffenceSpoilsFirst(AfterToDate(m), u, m.literals);
    SpoiltIsGone(sql, 12, x);
  }

  lemma OffenceSpoilsFirst(t: string, u: string, literals: seq<string>)
    requires "strptime(x, " <= t && At(t, 12, u) && IsQuoted(u) && !IsCalm(u, 0)
    requires t[12 + |u|..] == ")" + Trail(Closers(u, 0), if TakesFormat(u, 0) then Some(Mark(1)) else None)
    requires TakesFormat(u, 0) ==> |literals| > 1 && literals[1] != ""
    ensures var r := Rewritten(t, 0, ToCharFn, literals);
      CallCarry(t, 0, 12, literals) == 12 < |r| && IsSpoilt(r[12..], u)
  {
    hide CallCarry, IsSpoilt, IsQuoted, Rewritten, IsLost, IsCalm, IsTriggered, Offence, TakesFormat, Closers, Trail;
    hide Mark, At;
    ClosersTrigger(t, 12, u, 0, literals);
    OffenceSpoils(t, 12, u, 0, literals);
    ReachesFirst(t, u, literals);
    assert u[0..] == u;
  }

  lemma SpareIsThere(x: string, takes: bool)
    ensures takes ==> |Literals(x, takes)| > 1 && Literals(x, takes)[1] != ""
  {
    hide Quoted;
    QuotedShape("Y");
  }

  /** Such a call after one that stands before the literal has closed in it. */
  lemma OffenceIsFoundBehind(x: string, s: nat, c: nat) returns (sql: string)
    requires ClosesAt(Printed(x), s, c) && !IsCalm(Printed(x), c + 1) && !HasMark(Printed(x))
    ensures IsSpoiltBy(ToDateFn, x, sql, Mark(0), |Lead(s)| + 12)
  {
    hide Mask, Mark, CallCarry, IsSpoilt, Printed, IsUsedFor, AfterToDate, IsQuoted, ClosesAt, Literals, IsSpoiltBy;
    hide Trail, Rewritten, IsLost, IsCalm, Sheet, IsTriggered, Offence, TakesFormat, Closers, HasMark, Lead, At;
    PrintedIs(x);
    var u := Printed(x);
    var takes := TakesFormat(u, c + 1);
    sql := DateWitness(s, x, Closers(u, c + 1), takes);
    var m := Mask(sql, 0);
    SpareIsThere(x, takes);
    MaskingIs(takes);
    OffenceSpoilsBehind(AfterToDate(m), |Lead(s)| + 12, s, u, c, m.literals);
    SpoiltIsGone(sql, |Lead(s)| + 12, x);
  }

  lemma OffenceSpoilsBehind(t: string, p: nat, s: nat, u: string, c: nat, literals: seq<string>)
    requires p == |Lead(s)| + 12 && Lead(s) + "strptime(x, " <= t && At(t, p, u) && IsQuoted(u) && !HasMark(u)
    requires ClosesAt(u, s, c) && !IsCalm(u, c + 1)
    requires t[p + |u|..] == ")" + Trail(Closers(u, c + 1), if TakesFormat(u, c + 1) then Some(Mark(1)) else None)
    requires TakesFormat(u, c + 1) ==> |literals| > 1 && literals[1] != ""
    ensures var r, n := Rewritten(t, 0, ToCharFn, literals), CallCarry(t, 0, p, literals);
      n < |r| && IsSpoilt(r[n..], u)
  {
    hide CallCarry, IsSpoilt, IsQuoted, ClosesAt, Mark;
    hide Trail, Rewritten, IsLost, IsCalm, IsTriggered, Offence, TakesFormat, Closers, HasMark, Lead;
    ClosersTrigger(t, p, u, c + 1, literals);
    OffenceSpoils(t, p, u, c + 1, literals);
    SpoiltInCall(t, p, s, u, c, literals);
  }

  /** The call in front closes in the literal, and what follows there is spoilt. */
  lemma SpoiltInCall(t: string, p: nat, s: nat, u: string, c: nat, literals: seq<string>)
    requires p == |Lead(s)| + 12 && Lead(s) + "strptime(x, " <= t && At(t, p, u) && IsQuoted(u) && !HasMark(u)
    requires ClosesAt(u, s, c) && c + 1 < |u| && IsLost(Rewritten(t, p + (c + 1), ToCharFn, literals), u[c + 1..])
    ensures var r, n := Rewritten(t, 0, ToCharFn, literals), CallCarry(t, 0, p, literals);
      n < |r| && IsSpoilt(r[n..], u)
  {
    hide CallCarry, IsSpoilt, IsQuoted, Rewritten, IsLost, HasMark, CloseOf, OpenOf, CallText, ArgumentCarry;
    hide After, Lead, At;
    LeadingCall(t, s, u, c);
    CarryStep(t, 0, p, literals);
    CallStep(t, 0, ToCharFn, literals);
    ClosesInLiteral(t, p, u, 7, p + c, literals);
    var argList, rest := t[8..p + c], Rewritten(t, p + c + 1, ToCharFn, literals);
    var a, n := CallText(ToCharFn, argList, literals), ArgumentCarry(argList, p - 8, literals);
    DropsTail(a, n, rest);
    RestIsSpoilt(rest, u, c);
  }

  lemma RestIsSpoilt(rest: string, u: string, c: nat)
    requires c < |u| && IsLost(rest, u[c + 1..])
    ensures IsSpoilt(u[..c + 1] + rest, u)
  {
    hide IsLost;
    LostBehind(u[..c + 1], rest, u[c + 1..]);
    assert u == u[..c + 1] + u[c + 1..];
    assert (u[..c + 1] + rest)[0] == u[0];
    LostIsSpoilt(u[..c + 1] + rest, u);
  }

  lemma LeadingCall(t: string, s: nat, u: string, c: nat)
    requires Lead(s) + "strptime(x, " <= t && At(t, |Lead(s)| + 12, u) && ClosesAt(u, s, c)
    ensures var p := |Lead(s)| + 12;
      && 7 < p && p + c < |t| && OpenOf(t, 0, "TO_CHAR") == Some(7) && CloseOf(t, 7) == Some(p + c)
      && After(t[8..p], 0) == s
  {
    hide CloseOf, After, Lead;
    var p, front := |Lead(s)| + 12, Lead(s) + "strptime(x, ";
    LeadChars(s);
    assert t[..p] == front;
    assert t[0..] == t;
    LeadTail(s);
    assert "TO_CHAR(" <= t by {
      assert t[..8] == front[..8] == Lead(s)[..8];
    }
    CallOpensAt(t, 0, ToCharFn);
    assert t[8..p] == front[8..];
    AtChars(t, p, u);
    assert t[p + c] == u[c];
    SliceWithin(t, p, p, p + c, p + |u|);
    assert t[8..p + c] == t[8..p] + u[..c];
    AfterConcat(t[8..p], u[..c], 0);
    ClosesBalanced(t, 7, p + c);
  }

  lemma LeadTail(s: nat)
    requires s > 0
    ensures (Lead(s) + "strptime(x, ")[8..] == Rep('(', s - 1) + "strptime(x, "
    ensures After(Rep('(', s - 1) + "strptime(x, ", 0) == s
  {
    hide After, Rep;
    RepChars('(', s - 1);
    AfterRep(s - 1, 0);
    AfterConcat(Rep('(', s - 1), "strptime(x, ", 0);
    FrontDepth(s - 1);
  }

  lemma FrontDepth(d: nat)
    ensures After("strptime(x, ", d) == d + 1
  {
    hide After;
    FlatText("strptime", d);
    FlatText("x, ", d + 1);
    AfterConcat("strptime", "(" + "x, ", d);
    AfterOpen("x, ", d);
    assert "strptime(x, " == "strptime" + ("(" + "x, ");
  }

  // ---- Exactly the harmless formats -----------------------------------------------

  lemma SpoiltUnlessHarmless(c: Callee, x: string)
    requires IsDateCall(c) && !IsHarmless(c, Printed(x))
    ensures exists sql, f, q: nat :: IsSpoiltBy(c, x, sql, f, q)
  {
    hide Mask, Mark, Printed, IsCalm, HasMark, HasRowLimit, ClosesAt, IsSpoiltBy, Lead;
    var u := Printed(x);
    if HasMark(u) || HasRowLimit(u, RownumUpTo) || HasRowLimit(u, RownumBelow) {
      var sql := FoundSpoils(c, x);
    } else if !IsCalm(u, 0) {
      var sql := OffenceIsFound(x);
    } else {
      var s: nat, k: nat :| ClosesAt(u, s, k) && !IsCalm(u, k + 1);
      var sql := OffenceIsFoundBehind(x, s, k);
    }
  }

  /**
   * The formats with the content x that calls of c use up all reach the output, in any SQL
   * and at any place, exactly when the converted literal is harmless.
   */
  lemma FormatsReachTheOutput(c: Callee, x: string)
    requires IsDateCall(c)
    ensures IsHarmless(c, Printed(x)) <==>
      forall sql, f, q: nat :: IsUsedFor(sql, c, f, q, x) ==> Arrives(sql, c, q, x)
  {
    hide Mask, Printed, IsHarmless, IsUsedFor, Arrives;
    if IsHarmless(c, Printed(x)) {
      forall sql, f, q: nat | IsUsedFor(sql, c, f, q, x)
        ensures Arrives(sql, c, q, x)
      {
        UsedArrives(sql, c, f, q, x);
      }
    } else {
      SpoiltUnlessHarmless(c, x);
    }
  }

  lemma UsedArrives(sql: string, c: Callee, f: string, q: nat, x: string)
    requires IsUsedFor(sql, c, f, q, x) && IsHarmless(c, Printed(x))
    ensures Arrives(sql, c, q, x)
  {
    hide Mask, IsHarmless, IsUsed, PlaceOf, Undouble, Inner, Doubled, ConvertFormat, MarkLen, MarkNumber, Translate;
    HarmlessIsKept(sql, c, f, q);
  }

  // ---- Both sides, by example -----------------------------------------------------

  lemma {:induction false} NoParenIsCalm(u: string, k: nat)
    requires '(' !in u
    ensures IsCalm(u, k)
    decreases |u| - k
  {
    if k < |u| {
      NoParenIsCalm(u, k + 1);
    }
  }

  /** Formats without parenthesis, semicolon and 0x01 are harmless: commas do no harm. */
  lemma PlainIsHarmless(c: Callee, u: string)
    requires IsQuoted(u) && '(' !in u && ')' !in u && ';' !in u && '\U{0001}' !in u
    ensures IsHarmless(c, u)
  {
    hide MarkLen, MatchRule, IsCalm;
    forall k | 0 <= k < |u|
      ensures MarkLen(u[k..]) == 0 && MatchRule(RownumUpTo, u, k).Miss? && MatchRule(RownumBelow, u, k).Miss?
    {
      if MarkLen(u[k..]) > 0 {
        MarkOpens(u[k..]);
      }
      NoRowLimit(RownumUpTo, u, k);
      NoRowLimit(RownumBelow, u, k);
    }
    NoParenIsCalm(u, 0);
  }

  lemma NoRowLimit(r: Rule, u: string, k: nat)
    requires IsQuoted(u) && k < |u| && ')' !in u && ';' !in u && (r == RownumUpTo || r == RownumBelow)
    ensures MatchRule(r, u, k).Miss?
  {
    hide MatchRownum;
    var op := if r == RownumUpTo then "<=" else "<";
    assert u[0..0 + |u|] == u;
    LocalRownum(u, 0, u, k, op);
    if MatchRownum(u, k, op).Hit? {
      RownumEnds(u, k, op);
    }
  }

  /** A row limit ends the text or stands before a parenthesis or a semicolon. */
  lemma RownumEnds(t: string, i: nat, op: string)
    requires i < |t| && MatchRownum(t, i, op).Hit?
    ensures var e := i + MatchRownum(t, i, op).len; e == |t| || (e < |t| && (t[e] == ')' || t[e] == ';'))
  {
    hide AfterRownum, SkipSpaces, DigitsLen, DecValue, IntText;
  }

  lemma {:induction false} LowerStays(x: string)
    requires forall i :: 0 <= i < |x| ==> !('A' <= x[i] <= 'Z')
    ensures ConvertFormat(x) == x
  {
    hide CodeAt;
    if x != "" {
      NoCodeHere(x, 0);
      LowerStays(x[1..]);
      assert x == [x[0]] + x[1..];
    }
  }

  lemma {:induction false} NoCodeHere(t: string, k: nat)
    requires t != "" && !('A' <= t[0] <= 'Z')
    ensures CodeAt(t, k).None?
    decreases |FORMAT_TOKENS| - k
  {
    if k < |FORMAT_TOKENS| {
      CodesAreUpper(k);
      NoCodeHere(t, k + 1);
    }
  }

  lemma CodesAreUpper(k: nat)
    requires k < |FORMAT_TOKENS|
    ensures FORMAT_TOKENS[k].oracle != "" && 'A' <= FORMAT_TOKENS[k].oracle[0] <= 'Z'
  {
  }

  /** A format that comes out rewritten. */
  lemma RewrittenFormat()
    ensures Translate("TO_DATE(x, 'to_char (a)')") == "strptime(x, 'TO_CHAR(a)')"
  {
    hide Mask, RunPasses, Rewritten, Finish, AfterToDate, Translate, ConvertFormat, Doubled;
    var sql := ExampleWitness();
    TranslateStages(sql);
    ExampleToChar(Mask(sql, 0).literals);
    ExampleFinish(Mask(sql, 0).literals);
  }

  lemma ExampleWitness() returns (sql: string)
    ensures sql == "TO_DATE(x, 'to_char (a)')" && AfterToDate(Mask(sql, 0)) == "strptime(x, 'to_char (a)')"
  {
    hide Mask, RunPasses, Rewritten, Doubled, ConvertFormat, Emits, Mark, Inert, ConvertedLiteral, Sheet, Undouble;
    hide Inner, MarkLen, MarkNumber, Literals, Front, Quoted, Printed, BeforeDates;
    var c, x := ToDateFn, "to_char (a)";
    ExampleLiteral(x);
    sql := Sheet(0, c.Name() + "(x, ", Quoted(x), 0, Spare(false));
    UsesFirst(c, 0, x, 0, false);
    DatePass(c, 0, x, 0, false);
    FrontOfX(c);
    PrintedIs(x);
    assert c.Name() + "(x, " == "TO_DATE(x, ";
    ExampleTexts();
  }

  lemma ExampleLiteral(x: string)
    requires x == "to_char (a)"
    ensures Quoted(x) == Printed(x) == "'to_char (a)'"
  {
    hide Doubled, ConvertFormat;
    LowerStays(x);
    DoubledPlain(x, '\'');
  }

  lemma ExampleTexts()
    ensures Sheet(0, "TO_DATE(x, ", "'to_char (a)'", 0, None) == "TO_DATE(x, 'to_char (a)')"
    ensures Sheet(0, "strptime(x, ", "'to_char (a)'", 0, None) == "strptime(x, 'to_char (a)')"
  {
    PlainSheet("TO_DATE(x, ", "'to_char (a)'");
    PlainSheet("strptime(x, ", "'to_char (a)'");
    assert "TO_DATE(x, " + "'to_char (a)'" + ")" == "TO_DATE(x, 'to_char (a)')";
    assert "strptime(x, " + "'to_char (a)'" + ")" == "strptime(x, 'to_char (a)')";
  }

  lemma PlainSheet(head: string, mid: string)
    ensures Sheet(0, head, mid, 0, None) == head + mid + ")"
  {
  }

  lemma ExampleToChar(literals: seq<string>)
    ensures Rewritten("strptime(x, 'to_char (a)')", 0, ToCharFn, literals) == "strptime(x, 'TO_CHAR(a)')"
  {
    hide Rewritten, CallText, OpenOf, CloseOf;
    var t := "strptime(x, 'to_char (a)')";
    forall k | 0 <= k < 13 || 24 <= k < |t|
      ensures OpenOf(t, k, "TO_CHAR").None?
    {
      ExampleOpensNone(t, k);
    }
    ExampleCall(t);
    OneArgument(literals);
    SkipToCall(t, 0, 13, ToCharFn, literals);
    CallStep(t, 13, ToCharFn, literals);
    NoneOpens(t, 24, ToCharFn, literals);
    assert t[0..13] == "strptime(x, '" && t[24..] == "')";
    assert "strptime(x, '" + ("TO_CHAR(a)" + "')") == "strptime(x, 'TO_CHAR(a)')";
  }

  lemma ExampleOpensNone(t: string, k: nat)
    requires t == "strptime(x, 'to_char (a)')" && (k < 13 || 24 <= k < |t|)
    ensures OpenOf(t, k, "TO_CHAR").None?
  {
    hide SkipSpaces, WordAt;
    if Upper(t[k]) != 'T' {
      NotWord(t, k, "TO_CHAR", 0);
    } else {
      NotWord(t, k, "TO_CHAR", 1);
    }
  }

  lemma ExampleCall(t: string)
    requires t == "strptime(x, 'to_char (a)')"
    ensures OpenOf(t, 13, "TO_CHAR") == Some(21) && CloseOf(t, 21) == Some(23) && t[22..23] == "a"
  {
    assert SkipSpaces(t, 20) == 21;
    assert t[22..23] == "a";
    FlatText("a", 0);
    ClosesBalanced(t, 21, 23);
  }

  lemma OneArgument(literals: seq<string>)
    ensures CallText(ToCharFn, "a", literals) == "TO_CHAR(a)"
  {
    assert "a"[1..] == "";
    assert Pieces("", 0, ',') == [""];
    assert Pieces("a", 0, ',') == ["a" + ""];
    assert "TO_CHAR" + "(" + "a" + ")" == "TO_CHAR(a)";
  }

  lemma ExampleFinish(literals: seq<string>)
    ensures Finish("strptime(x, 'TO_CHAR(a)')", literals) == "strptime(x, 'TO_CHAR(a)')"
  {
    hide MatchRule, Unmask, ReplaceAll;
    var t := "strptime(x, 'TO_CHAR(a)')";
    NothingToReplace(t, RownumUpTo);
    NothingToReplace(t, RownumBelow);
    NothingToRestore(t, literals);
  }

  lemma NothingToReplace(t: string, r: Rule)
    requires (r == RownumUpTo || r == RownumBelow) && forall i :: 0 <= i < |t| ==> Upper(t[i]) != 'W'
    ensures ReplaceAll(r, t, 0) == t
  {
    hide MatchRule, ReplaceAll;
    forall k | 0 <= k < |t|
      ensures MatchRule(r, t, k).Miss?
    {
      if MatchRule(r, t, k).Hit? {
        RowLimitShape(r, t, k);
      }
    }
    ReplaceCopies(r, t, 0, |t|);
    ReplaceEnds(r, t);
    assert t[0..|t|] + "" == t;
  }

  lemma {:induction false} NothingToRestore(t: string, literals: seq<string>)
    requires '\U{0001}' !in t
    ensures Unmask(t, literals) == t
  {
    hide Unmask, MarkLen, MarkNumber;
    UnmaskNothing(literals);
    if t != "" {
      if MarkLen(t) > 0 {
        MarkOpens(t);
      }
      UnmaskStep(t, literals);
      NothingToRestore(t[1..], literals);
      assert t == [t[0]] + t[1..];
    }
  }
}
