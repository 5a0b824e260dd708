/**
 * Where the date passes emit a format, and what becomes of a harmless one
 * (engine/src/oracle-shim/translator.ts). The formats that a pass uses up are those it emits,
 * each at some place, and there the converted literal stands last in the parentheses of the
 * new call. Carried through the later passes, a harmless literal is still in its place in
 * the translation, whatever the SQL around it holds.
 */
module FormatEmission {
  import opened Text
  import opened StringMask
  import opened ArgLists
  import opened Translator
  import opened LiteralSurvival
  import opened FormatSurvival
  import opened FormatCalls

  // ---- Where a format is emitted --------------------------------------------------

  predicate IsDateCall(c: Callee) {
    c == ToDateFn || c == ToCharFn
  }

  lemma {:induction false} FlatText(s: string, d: nat)
    requires '(' !in s && ')' !in s
    ensures After(s, d) == d
  {
    if s != "" {
      FlatText(s[1..], d);
    }
  }

  lemma TrimBalanced(s: string)
    requires Balanced(s)
    ensures Balanced(Trim(s))
  {
    hide Trim, After;
    var a, b := TrimSplit(s);
    AfterConcat(a + Trim(s), b, 0);
    AfterConcat(a, Trim(s), 0);
    FlatText(a, 0);
    AfterPrefix(a + Trim(s), b, 0);
    FlatText(b, After(Trim(s), 0));
  }

  /** The text of a call with a format: the converted literal last in its parentheses. */
  lemma CallEmits(c: Callee, argList: string, literals: seq<string>, f: string)
    requires IsDateCall(c) && Balanced(argList) && f in FormatOf(c, argList, literals)
    ensures IsMark(f) && MarkNumber(f) < |literals|
    ensures CallText(c, argList, literals)
         == Front(c, Pieces(argList, 0, ',')[0]) + ConvertedLiteral(literals[MarkNumber(f)]) + ")"
    ensures Follows(Front(c, Pieces(argList, 0, ',')[0]), 8, |Front(c, Pieces(argList, 0, ',')[0])|)
  {
    hide Pieces, Trim, Join, MarkLen, MarkNumber, ConvertedLiteral, Balanced, TopSeparator, Front, Follows;
    var args := Pieces(argList, 0, ',');
    SplitIsUnique(argList, args, ',');
    assert IsPart(args[0], ',');
    FrontFollows(c, args[0]);
    DateCallText(c, args[0], ConvertedLiteral(literals[MarkNumber(f)]));
  }

  lemma FrontFollows(c: Callee, value: string)
    requires Balanced(value)
    ensures Follows(Front(c, value), 8, |Front(c, value)|)
  {
    hide Trim, After;
    TrimBalanced(value);
    var head := if c == ToDateFn then "strptime(" else "strftime(";
    var front := Front(c, value);
    assert front == head + (Trim(value) + ", ");
    assert front[9..] == Trim(value) + ", ";
    AfterConcat(Trim(value), ", ", 0);
    FlatText(", ", 0);
    assert front[9..|front|] == front[9..];
    assert front[7] == head[7] == 'e' && front[8] == head[8] == '(';
  }

  lemma DateCallText(c: Callee, value: string, u: string)
    requires IsDateCall(c)
    ensures var target := if c == ToDateFn then "strptime" else "strftime";
      target + "(" + Trim(value) + ", " + u + ")" == Front(c, value) + u + ")"
  {
    hide Trim;
  }

  lemma EnclosedBehind(a: string, t: string, p: nat, u: string)
    requires Enclosed(t, p, u)
    ensures Enclosed(a + t, |a| + p, u)
  {
    hide Balanced;
    var o: nat :| o < p && Follows(t, o, p);
    assert (a + t)[|a| + o + 1..|a| + p] == t[o + 1..p];
    assert Follows(a + t, |a| + o, |a| + p);
    assert (a + t)[|a| + p..|a| + p + |u|] == t[p..p + |u|];
  }

  lemma EnclosedFirst(front: string, u: string, rest: string)
    requires Follows(front, 8, |front|)
    ensures Enclosed(front + u + ")" + rest, |front|, u)
  {
    hide Balanced;
    var t := front + u + ")" + rest;
    assert t[9..|front|] == front[9..|front|];
    assert t[|front|..|front| + |u|] == u;
    assert Follows(t, 8, |front|);
  }

  lemma EmitsStep(t: string, i: nat, c: Callee, literals: seq<string>, f: string, q: nat)
    requires Emits(t, i, c, literals, f, q)
    ensures i < |t|
    ensures var o := OpenOf(t, i, c.Name());
      if o.None? then q > 0 && Emits(t, i + 1, c, literals, f, q - 1)
      else
        && CloseOf(t, o.value).Some?
        && var close := CloseOf(t, o.value).value;
           var argList := t[o.value + 1..close];
           var done := |CallText(c, argList, literals)|;
           || (f in FormatOf(c, argList, literals) && q == |Front(c, Pieces(argList, 0, ',')[0])|)
           || (q >= done && Emits(t, close + 1, c, literals, f, q - done))
  {
    hide OpenOf, CloseOf, CallText, FormatOf, Front;
  }

  /** Where a format is said to be emitted, the converted literal stands, in parentheses of its own. */
  lemma {:induction false} FormatIsEmitted(
      t: string, i: nat, c: Callee, literals: seq<string>, f: string, q: nat)
    requires IsDateCall(c) && Emits(t, i, c, literals, f, q)
    ensures IsMark(f) && MarkNumber(f) < |literals|
    ensures Enclosed(Rewritten(t, i, c, literals), q, ConvertedLiteral(literals[MarkNumber(f)]))
    decreases |t| - i
  {
    hide OpenOf, CloseOf, CallText, FormatOf, Front, Rewritten, Emits, Enclosed, ConvertedLiteral, MarkLen, MarkNumber;
    hide Balanced;
    EmitsStep(t, i, c, literals, f, q);
    var o := OpenOf(t, i, c.Name());
    if o.None? {
      FormatIsEmitted(t, i + 1, c, literals, f, q - 1);
      CopyChar(t, i, c, literals);
      EnclosedBehind([t[i]], Rewritten(t, i + 1, c, literals), q - 1, ConvertedLiteral(literals[MarkNumber(f)]));
    } else {
      var close := CloseOf(t, o.value).value;
      var argList := t[o.value + 1..close];
      var rest := Rewritten(t, close + 1, c, literals);
      CallStep(t, i, c, literals);
      if f in FormatOf(c, argList, literals) && q == |Front(c, Pieces(argList, 0, ',')[0])| {
        ClosesBalanced(t, o.value, close);
        CallEmits(c, argList, literals, f);
        EnclosedFirst(Front(c, Pieces(argList, 0, ',')[0]), ConvertedLiteral(literals[MarkNumber(f)]), rest);
      } else {
        var done := |CallText(c, argList, literals)|;
        FormatIsEmitted(t, close + 1, c, literals, f, q - done);
        EnclosedBehind(CallText(c, argList, literals), rest, q - done, ConvertedLiteral(literals[MarkNumber(f)]));
      }
    }
  }

  ghost predicate IsEmitted(t: string, i: nat, c: Callee, literals: seq<string>, f: string) {
    exists q: nat :: Emits(t, i, c, literals, f, q)
  }

  /** The formats that a pass uses up are those it emits, each somewhere. */
  lemma {:induction false} FormatsAreEmitted(t: string, i: nat, c: Callee, literals: seq<string>, f: string)
    requires IsDateCall(c)
    ensures f in FormatsIn(t, i, c, literals) <==> IsEmitted(t, i, c, literals, f)
    decreases |t| - i
  {
    hide OpenOf, CloseOf, CallText, FormatOf, Front, Emits, FormatsIn;
    if i < |t| {
      FormatsHead(t, i, c, literals);
      var o := OpenOf(t, i, c.Name());
      if o.None? {
        FormatsAreEmitted(t, i + 1, c, literals, f);
        EmittedLater(t, i, c, literals, f, i + 1, 1);
      } else if CloseOf(t, o.value).Some? {
        var close := CloseOf(t, o.value).value;
        FormatsAreEmitted(t, close + 1, c, literals, f);
        EmittedLater(t, i, c, literals, f, close + 1, |CallText(c, t[o.value + 1..close], literals)|);
      } else {
        NoneEmitted(t, i, c, literals, f);
      }
    } else {
      NoneEmitted(t, i, c, literals, f);
    }
  }

  lemma NoneEmitted(t: string, i: nat, c: Callee, literals: seq<string>, f: string)
    requires i < |t| ==> OpenOf(t, i, c.Name()).Some? && CloseOf(t, OpenOf(t, i, c.Name()).value).None?
    ensures f !in FormatsIn(t, i, c, literals) && !IsEmitted(t, i, c, literals, f)
  {
    hide OpenOf, CloseOf;
  }

  /** What a call or a copied character adds to the formats emitted behind it. */
  lemma EmittedLater(t: string, i: nat, c: Callee, literals: seq<string>, f: string, j: nat, done: nat)
    requires i < |t|
    requires var o := OpenOf(t, i, c.Name());
      if o.None? then j == i + 1 && done == 1
      else CloseOf(t, o.value).Some? && j == CloseOf(t, o.value).value + 1
           && done == |CallText(c, t[o.value + 1..CloseOf(t, o.value).value], literals)|
    ensures IsEmitted(t, i, c, literals, f) <==>
      || (OpenOf(t, i, c.Name()).Some? && f in FormatOf(c, t[OpenOf(t, i, c.Name()).value + 1..j - 1], literals))
      || IsEmitted(t, j, c, literals, f)
  {
    hide OpenOf, CloseOf, CallText, FormatOf, Front, Emits;
    var o := OpenOf(t, i, c.Name());
    if q: nat :| Emits(t, i, c, literals, f, q) {
      EmitsStep(t, i, c, literals, f, q);
    }
    if q: nat :| Emits(t, j, c, literals, f, q) {
      EmitsAgain(t, i, c, literals, f, q + done, j, done);
    }
    if o.Some? && f in FormatOf(c, t[o.value + 1..j - 1], literals) {
      var q := |Front(c, Pieces(t[o.value + 1..j - 1], 0, ',')[0])|;
      EmitsHere(t, i, c, literals, f, q);
    }
  }

  lemma EmitsAgain(t: string, i: nat, c: Callee, literals: seq<string>, f: string, q: nat, j: nat, done: nat)
    requires i < |t| && q >= done && Emits(t, j, c, literals, f, q - done)
    requires var o := OpenOf(t, i, c.Name());
      if o.None? then j == i + 1 && done == 1
      else CloseOf(t, o.value).Some? && j == CloseOf(t, o.value).value + 1
           && done == |CallText(c, t[o.value + 1..CloseOf(t, o.value).value], literals)|
    ensures Emits(t, i, c, literals, f, q)
  {
    hide OpenOf, CloseOf, CallText, FormatOf, Front;
  }

  lemma EmitsHere(t: string, i: nat, c: Callee, literals: seq<string>, f: string, q: nat)
    requires i < |t| && OpenOf(t, i, c.Name()).Some? && CloseOf(t, OpenOf(t, i, c.Name()).value).Some?
    requires var open := OpenOf(t, i, c.Name()).value;
      var argList := t[open + 1..CloseOf(t, open).value];
      f in FormatOf(c, argList, literals) && q == |Front(c, Pieces(argList, 0, ',')[0])|
    ensures Emits(t, i, c, literals, f, q)
  {
    hide OpenOf, CloseOf, CallText, FormatOf, Front;
  }

  // ---- For any SQL ----------------------------------------------------------------

  lemma TranslateStages(sql: string)
    ensures Translate(sql) == Finish(AfterToChar(Mask(sql, 0)), Mask(sql, 0).literals)
  {
    hide Unmask, ReplaceAll, Rewritten, RunPasses, Mask;
    var m := Mask(sql, 0);
    PassesSplit(PASSES[..6], PASSES[6..], m.text, m.literals);
    assert PASSES[..6] + PASSES[6..] == PASSES;
    LastPasses(BeforeDates(m), m.literals);
  }

  lemma {:induction false} PassesSplit(ps: seq<Pass>, qs: seq<Pass>, t: string, literals: seq<string>)
    ensures RunPasses(ps + qs, t, literals) == RunPasses(qs, RunPasses(ps, t, literals), literals)
  {
    if ps == [] {
      assert ps + qs == qs;
    } else {
      assert (ps + qs)[1..] == ps[1..] + qs;
      PassesSplit(ps[1..], qs, RunPass(ps[0], t, literals), literals);
    }
  }

  lemma LastPasses(t: string, literals: seq<string>)
    ensures RunPasses(PASSES[6..], t, literals)
         == ReplaceAll(RownumBelow, ReplaceAll(RownumUpTo,
              Rewritten(Rewritten(t, 0, ToDateFn, literals), 0, ToCharFn, literals), 0), 0)
  {
    hide ReplaceAll, Rewritten, RunPasses;
    var a := Rewritten(t, 0, ToDateFn, literals);
    var b := Rewritten(a, 0, ToCharFn, literals);
    var d := ReplaceAll(RownumUpTo, b, 0);
    PassStep(PASSES, 6, t, literals);
    PassStep(PASSES, 7, a, literals);
    PassStep(PASSES, 8, b, literals);
    PassStep(PASSES, 9, d, literals);
    PassesEnd(ReplaceAll(RownumBelow, d, 0), literals);
    assert PASSES[10..] == [];
  }

  lemma {:induction false} FormatsSplit(ps: seq<Pass>, qs: seq<Pass>, t: string, literals: seq<string>)
    ensures Formats(ps + qs, t, literals)
         == Formats(ps, t, literals) + Formats(qs, RunPasses(ps, t, literals), literals)
  {
    hide FormatsIn, RunPass;
    if ps == [] {
      assert ps + qs == qs;
    } else {
      assert (ps + qs)[1..] == ps[1..] + qs && (ps + qs)[0] == ps[0];
      FormatsSplit(ps[1..], qs, RunPass(ps[0], t, literals), literals);
    }
  }

  lemma {:induction false} OnlyDatesHaveFormats(t: string, i: nat, c: Callee, literals: seq<string>)
    requires !IsDateCall(c)
    ensures FormatsIn(t, i, c, literals) == {}
    decreases |t| - i
  {
    hide OpenOf, CloseOf, HasFormat;
    if i < |t| {
      FormatsHead(t, i, c, literals);
      var o := OpenOf(t, i, c.Name());
      if o.None? {
        OnlyDatesHaveFormats(t, i + 1, c, literals);
      } else if CloseOf(t, o.value).Some? {
        OnlyDatesHaveFormats(t, CloseOf(t, o.value).value + 1, c, literals);
      }
    }
  }

  lemma {:induction false} NoFormatsIn(ps: seq<Pass>, t: string, literals: seq<string>)
    requires forall k :: 0 <= k < |ps| && ps[k].Rewrite? ==> !IsDateCall(ps[k].callee)
    ensures Formats(ps, t, literals) == {}
  {
    hide FormatsIn, RunPass;
    if ps != [] {
      if ps[0].Rewrite? {
        OnlyDatesHaveFormats(t, 0, ps[0].callee, literals);
      }
      NoFormatsIn(ps[1..], RunPass(ps[0], t, literals), literals);
    }
  }

  /** The formats used up in a translation are those that one of the date passes emits somewhere. */
  lemma FormatsAreUsed(sql: string, f: string)
    ensures var m := Mask(sql, 0);
      f in Formats(PASSES, m.text, m.literals) <==> exists c, q: nat :: IsUsed(sql, c, f, q)
  {
    hide Mask, FormatsIn, Rewritten, Formats, ReplaceAll, RunPasses, Emits;
    var m := Mask(sql, 0);
    var t, a := BeforeDates(m), AfterToDate(m);
    assert PASSES[..6] + PASSES[6..] == PASSES && PASSES[6..8] + PASSES[8..] == PASSES[6..];
    FormatsSplit(PASSES[..6], PASSES[6..], m.text, m.literals);
    NoFormatsIn(PASSES[..6], m.text, m.literals);
    FormatsSplit(PASSES[6..8], PASSES[8..], t, m.literals);
    NoFormatsIn(PASSES[8..], RunPasses(PASSES[6..8], t, m.literals), m.literals);
    TwoDatePasses(t, m.literals);
    FormatsAreEmitted(t, 0, ToDateFn, m.literals, f);
    FormatsAreEmitted(a, 0, ToCharFn, m.literals, f);
    if IsEmitted(t, 0, ToDateFn, m.literals, f) {
      var q: nat :| Emits(t, 0, ToDateFn, m.literals, f, q);
      assert IsUsed(sql, ToDateFn, f, q);
    }
    if IsEmitted(a, 0, ToCharFn, m.literals, f) {
      var q: nat :| Emits(a, 0, ToCharFn, m.literals, f, q);
      assert IsUsed(sql, ToCharFn, f, q);
    }
  }

  lemma TwoDatePasses(t: string, literals: seq<string>)
    ensures Formats(PASSES[6..8], t, literals)
         == FormatsIn(t, 0, ToDateFn, literals) + FormatsIn(Rewritten(t, 0, ToDateFn, literals), 0, ToCharFn, literals)
  {
    hide FormatsIn, Rewritten;
    var ps := PASSES[6..8];
    var a := Rewritten(t, 0, ToDateFn, literals);
    assert ps[0] == Rewrite(ToDateFn) && ps[1..][0] == Rewrite(ToCharFn) && ps[1..][1..] == [];
    assert Formats(ps[1..], a, literals) == FormatsIn(a, 0, ToCharFn, literals) + {};
  }

  lemma ConvertedIsQuoted(literal: string)
    ensures IsQuoted(ConvertedLiteral(literal))
  {
    hide Doubled, ConvertFormat, Undouble, Inner;
  }

  /** Where a format is used, the placeholder is one of the text and its literal is known. */
  lemma UsedIsMark(sql: string, c: Callee, f: string, q: nat)
    requires IsUsed(sql, c, f, q)
    ensures IsDateCall(c) && IsMark(f) && MarkNumber(f) < |Mask(sql, 0).literals|
    ensures Enclosed(
        if c == ToDateFn then AfterToDate(Mask(sql, 0)) else AfterToChar(Mask(sql, 0)), q,
        ConvertedLiteral(Mask(sql, 0).literals[MarkNumber(f)]))
  {
    hide Mask, Rewritten, Emits, BeforeDates, Enclosed, IsMark, MarkNumber, ConvertedLiteral;
    var m := Mask(sql, 0);
    FormatIsEmitted(if c == ToDateFn then BeforeDates(m) else AfterToDate(m), 0, c, m.literals, f, q);
  }

  /** A format whose converted literal is harmless stands in the translation, in its place. */
  lemma HarmlessIsKept(sql: string, c: Callee, f: string, q: nat)
    requires IsUsed(sql, c, f, q)
    ensures MarkLen(f) > 0 && MarkNumber(f) < |Mask(sql, 0).literals|
    ensures var u := ConvertedLiteral(Mask(sql, 0).literals[MarkNumber(f)]);
      IsHarmless(c, u) ==> At(Translate(sql), PlaceOf(sql, c, q), u)
  {
    hide Mask, Rewritten, Emits, BeforeDates, AfterToDate, MarkLen, MarkNumber, ConvertedLiteral, Finish, FinishCarry;
    hide HasMark, HasRowLimit, CallCarry, IsQuoted, IsUsed, IsCalm;
    var m := Mask(sql, 0);
    UsedIsMark(sql, c, f, q);
    var u := ConvertedLiteral(m.literals[MarkNumber(f)]);
    ConvertedIsQuoted(m.literals[MarkNumber(f)]);
    if IsHarmless(c, u) {
      if c == ToDateFn {
        ToCharKeeps(AfterToDate(m), q, u, m.literals);
      }
      LiteralsAreKnown(sql);
      TranslateStages(sql);
      var p := if c == ToDateFn then CallCarry(AfterToDate(m), 0, q, m.literals) else q;
      FinishOnLiteral(AfterToChar(m), p, u, m.literals);
    }
  }

  lemma LiteralsAreKnown(sql: string)
    ensures AllQuoted(Mask(sql, 0).literals)
  {
    hide Mask;
    LiteralsAreQuoted(sql, 0);
    var literals := Mask(sql, 0).literals;
    assert forall i :: 0 <= i < |literals| ==> literals[i] in literals;
  }
}
