/**
 * Texts in which a given literal is used as a date format, taken through the passes
 * (engine/src/oracle-shim/translator.ts). Such a text is a call of the date function with the
 * literal as its second argument; in front of it a TO_CHAR call may stand with some
 * parentheses open, and behind it what closes the calls that the literal leaves open, with
 * a format for one of them where it can take one. Masking it, the passes before the date
 * passes and the date pass itself do to it what can be written down exactly, and then the
 * first call in the literal that the pass for TO_CHAR is not calm on spoils the literal.
 */
module FormatWitness {
  import opened Common
  import opened Text
  import opened SqlTokens
  import opened StringMask
  import opened ArgLists
  import opened Translator
  import opened LiteralSurvival
  import opened FormatSurvival
  import opened FormatCalls
  import opened FormatEmission

  // ---- The first call the pass is not calm on -------------------------------------

  function Offence(u: string, k: nat): (r: nat)
    requires !IsCalm(u, k)
    ensures k <= r < |u| && OpenOf(u, r, "TO_CHAR").Some?
    decreases |u| - k
  {
    match OpenOf(u, k, "TO_CHAR")
    case None => Offence(u, k + 1)
    case Some(open) =>
      if u[k..open + 1] != "TO_CHAR(" then k
      else
        match CloseOf(u, open)
        case Some(close) => Offence(u, close + 1)
        case None => k
  }

  /** In the text the call at k closes, and it is spelled otherwise than printed or takes a format. */
  predicate IsTriggered(t: string, p: nat, u: string, k: nat, literals: seq<string>)
    requires OpenOf(u, k, "TO_CHAR").Some?
  {
    var open := OpenOf(u, k, "TO_CHAR").value;
    var close := CloseOf(t, p + open);
    && close.Some?
    && (|| u[k..open + 1] != "TO_CHAR("
        || HasFormat(Pieces(t[p + open + 1..close.value], 0, ','), literals))
  }

  /** The first call it is not calm on spoils the literal, when it closes. */
  lemma {:induction false} OffenceSpoils(t: string, p: nat, u: string, k: nat, literals: seq<string>)
    requires At(t, p, u) && IsQuoted(u) && !IsCalm(u, k) && IsTriggered(t, p, u, Offence(u, k), literals)
    ensures k < |u| && IsLost(Rewritten(t, p + k, ToCharFn, literals), u[k..])
    decreases |u| - k
  {
    hide OpenOf, CloseOf, Pieces, HasFormat, Rewritten, IsQuoted, IsTriggered, IsLost, IsCalm, Offence;
    var o := OpenOf(u, k, "TO_CHAR");
    if o.None? {
      OffenceAhead(u, k);
      OffenceSpoils(t, p, u, k + 1, literals);
      CopiedIsLost(t, p, u, k, literals);
    } else {
      LocalOpen(t, p, u, k, "TO_CHAR");
      OffenceAtCall(u, k, o.value);
      if Offence(u, k) == k {
        TriggeredIsLost(t, p, u, k, literals);
      } else {
        var c := CloseOf(u, o.value).value;
        OffenceSpoils(t, p, u, c + 1, literals);
        CopiedOrLost(t, p, u, k, c, literals);
      }
    }
  }

  lemma CopiedIsLost(t: string, p: nat, u: string, k: nat, literals: seq<string>)
    requires At(t, p, u) && IsQuoted(u) && k < |u| && OpenOf(u, k, "TO_CHAR").None?
    requires IsLost(Rewritten(t, p + k + 1, ToCharFn, literals), u[k + 1..])
    ensures IsLost(Rewritten(t, p + k, ToCharFn, literals), u[k..])
  {
    hide OpenOf, Rewritten, IsQuoted, IsLost;
    LocalOpen(t, p, u, k, "TO_CHAR");
    CopyChar(t, p + k, ToCharFn, literals);
    AtChars(t, p, u);
    LostBehind([u[k]], Rewritten(t, p + k + 1, ToCharFn, literals), u[k + 1..]);
    assert u[k..] == [u[k]] + u[k + 1..];
  }

  lemma OffenceAhead(u: string, k: nat)
    requires !IsCalm(u, k) && OpenOf(u, k, "TO_CHAR").None?
    ensures k < |u| && !IsCalm(u, k + 1) && Offence(u, k) == Offence(u, k + 1)
  {
    hide OpenOf, CloseOf, CanTakeFormat;
  }

  lemma OffenceAtCall(u: string, k: nat, open: nat)
    requires !IsCalm(u, k) && k < |u| && OpenOf(u, k, "TO_CHAR") == Some(open) && open < |u|
    ensures var close := CloseOf(u, open);
      if u[k..open + 1] != "TO_CHAR(" then Offence(u, k) == k
      else if close.None? then CanTakeFormat(u, open) && Offence(u, k) == k
      else !IsCalm(u, close.value + 1) && Offence(u, k) == Offence(u, close.value + 1)
  {
    hide OpenOf, CloseOf, CanTakeFormat;
  }

  lemma TriggeredIsLost(t: string, p: nat, u: string, k: nat, literals: seq<string>)
    requires At(t, p, u) && IsQuoted(u) && k < |u| && OpenOf(u, k, "TO_CHAR").Some?
    requires IsTriggered(t, p, u, k, literals)
    ensures IsLost(Rewritten(t, p + k, ToCharFn, literals), u[k..])
  {
    hide OpenOf, CloseOf, Pieces, HasFormat, Rewritten, IsQuoted, IsLost;
    CallIsLostIn(t, p, u, k, literals);
  }

  lemma CopiedOrLost(t: string, p: nat, u: string, k: nat, c: nat, literals: seq<string>)
    requires At(t, p, u) && IsQuoted(u) && k < |u| && OpenOf(u, k, "TO_CHAR").Some?
    requires CloseOf(u, OpenOf(u, k, "TO_CHAR").value) == Some(c) && c < |u|
    requires u[k..OpenOf(u, k, "TO_CHAR").value + 1] == "TO_CHAR("
    requires IsLost(Rewritten(t, p + c + 1, ToCharFn, literals), u[c + 1..])
    ensures IsLost(Rewritten(t, p + k, ToCharFn, literals), u[k..])
  {
    hide OpenOf, CloseOf, Pieces, HasFormat, Rewritten, IsLost;
    LocalOpen(t, p, u, k, "TO_CHAR");
    var open, q := OpenOf(u, k, "TO_CHAR").value, p + |u|;
    assert t[p..q] == u;
    CloseWithin(t, p, q, open, c);
    if HasFormat(Pieces(t[p + open + 1..p + c], 0, ','), literals) {
      CallIsLostIn(t, p, u, k, literals);
    } else {
      SliceWithin(t, p, p + k, p + open + 1, q);
      SliceWithin(t, p, p + k, p + c + 1, q);
      CallIsCopied(t, p + k, p + open, p + c, literals);
      LostBehind(u[k..c + 1], Rewritten(t, p + c + 1, ToCharFn, literals), u[c + 1..]);
      assert u[k..] == u[k..c + 1] + u[c + 1..];
    }
  }

  // ---- The text around the call ---------------------------------------------------

  function Rep(c: char, n: nat): string {
    if n == 0 then "" else [c] + Rep(c, n - 1)
  }

  /** A call that has s parentheses open, its own not counted, when the next call's arguments end. */
  function Lead(s: nat): string {
    if s == 0 then "" else "TO_CHAR(" + Rep('(', s - 1)
  }

  /** What closes the calls that the literal leaves open, with a format for the outermost if it can take one. */
  function Trail(n: nat, format: Option<string>): string {
    Rep(')', n) + if format.Some? then ", " + format.value + ")" else ""
  }

  function Sheet(s: nat, head: string, mid: string, n: nat, format: Option<string>): string {
    Lead(s) + (head + (mid + (")" + Trail(n, format))))
  }

  /** How the first call that the pass is not calm on, from k on, is closed: the parentheses, and whether a format. */
  function Closers(u: string, k: nat): nat
    requires !IsCalm(u, k)
  {
    var open := OpenOf(u, Offence(u, k), "TO_CHAR").value;
    if CloseOf(u, open).Some? then 0
    else
      NoClose(u, open);
      After(u[open + 1..], 0) - if TakesFormat(u, k) then 1 else 0
  }

  predicate TakesFormat(u: string, k: nat)
    requires !IsCalm(u, k)
  {
    var open := OpenOf(u, Offence(u, k), "TO_CHAR").value;
    CloseOf(u, open).None? && CanTakeFormat(u, open)
  }

  lemma {:induction false} AfterRep(n: nat, d: nat)
    ensures After(Rep('(', n), d) == d + n && (n <= d ==> After(Rep(')', n), d) == d - n)
  {
    if n > 0 {
      AfterRep(n - 1, d + 1);
      assert Rep('(', n)[1..] == Rep('(', n - 1) && Rep(')', n)[1..] == Rep(')', n - 1);
      if n <= d {
        AfterRep(n - 1, d - 1);
      }
    }
  }

  lemma {:induction false} RepChars(c: char, n: nat)
    ensures |Rep(c, n)| == n && forall i :: 0 <= i < n ==> Rep(c, n)[i] == c
  {
    if n > 0 {
      RepChars(c, n - 1);
    }
  }

  /** With those closers, the first call it is not calm on is triggered. */
  lemma ClosersTrigger(t: string, p: nat, u: string, k: nat, literals: seq<string>)
    requires At(t, p, u) && IsQuoted(u) && !IsCalm(u, k)
    requires t[p + |u|..] == ")" + Trail(Closers(u, k), if TakesFormat(u, k) then Some(Mark(1)) else None)
    requires TakesFormat(u, k) ==> |literals| > 1 && literals[1] != ""
    ensures IsTriggered(t, p, u, Offence(u, k), literals)
  {
    hide OpenOf, CloseOf, Pieces, HasFormat, Mark, TopSeparator, Trail, IsCalm, Offence, After, IsQuoted;
    OffenceIs(u, k);
    var open := OpenOf(u, Offence(u, k), "TO_CHAR").value;
    if CloseOf(u, open).Some? {
      SameStretch(t, p, u);
      CloseWithin(t, p, p + |u|, open, CloseOf(u, open).value);
    } else {
      TriggeredOutside(t, p, u, open, if TakesFormat(u, k) then Some(Mark(1)) else None, literals);
    }
  }

  lemma SameStretch(t: string, p: nat, u: string)
    requires At(t, p, u)
    ensures p + |u| <= |t| && t[p..p + |u|] == u
  {
  }

  lemma TriggeredOutside(t: string, p: nat, u: string, open: nat, format: Option<string>, literals: seq<string>)
    requires At(t, p, u) && open < |u| && After(u[open + 1..], 0) >= 0
    requires format.Some? ==> format.value == Mark(1) && CanTakeFormat(u, open) && |literals| > 1 && literals[1] != ""
    requires t[p + |u|..] == ")" + Trail(After(u[open + 1..], 0) - if format.Some? then 1 else 0, format)
    ensures CloseOf(t, p + open).Some?
    ensures format.Some? ==> HasFormat(Pieces(t[p + open + 1..CloseOf(t, p + open).value], 0, ','), literals)
  {
    hide CloseOf, Pieces, HasFormat, Mark, TopSeparator, Trail, After;
    var d := After(u[open + 1..], 0);
    assert t == t[..p] + u + t[p + |u|..];
    assert t[p + open + 1..] == u[open + 1..] + t[p + |u|..];
    if format.Some? {
      TakenFormat(t, p + open, u[open + 1..], d, literals);
    } else {
      ClosedBy(t, p + open, u[open + 1..], d);
    }
  }

  lemma {:induction false} OffenceIs(u: string, k: nat)
    requires !IsCalm(u, k)
    ensures var r := Offence(u, k); var open := OpenOf(u, r, "TO_CHAR").value;
      open < |u| && (u[r..open + 1] != "TO_CHAR(" || (CloseOf(u, open).None? && CanTakeFormat(u, open)))
    decreases |u| - k
  {
    hide CloseOf, CanTakeFormat, OpenOf, IsCalm, Offence;
    var o := OpenOf(u, k, "TO_CHAR");
    if o.None? {
      OffenceAhead(u, k);
      OffenceIs(u, k + 1);
    } else {
      OffenceAtCall(u, k, o.value);
      if Offence(u, k) != k {
        OffenceIs(u, CloseOf(u, o.value).value + 1);
      }
    }
  }

  lemma ClosedBy(t: string, open: nat, v: string, d: nat)
    requires open < |t| && t[open + 1..] == v + (")" + Trail(d, None)) && After(v, 0) == d
    ensures CloseOf(t, open).Some?
  {
    hide CloseOf, After;
    var close := open + 1 + |v| + d;
    RepChars(')', d);
    RepOneMore(d);
    assert t[open + 1..close] == v + Rep(')', d);
    AfterConcat(v, Rep(')', d), 0);
    AfterRep(d, d);
    assert t[close] == t[open + 1..][|v| + d] == Rep(')', d + 1)[d];
    ClosesBalanced(t, open, close);
  }

  lemma RepOneMore(d: nat)
    ensures ")" + Rep(')', d) == Rep(')', d + 1) == Rep(')', d) + ")"
    ensures ")" + Trail(d, None) == Rep(')', d + 1)
  {
    RepChars(')', d);
    RepChars(')', d + 1);
  }

  /** The call takes the format put behind what closes the parentheses open in the literal. */
  lemma TakenFormat(t: string, open: nat, v: string, d: nat, literals: seq<string>)
    requires open < |t| && d > 0 && t[open + 1..] == v + (")" + Trail(d - 1, Some(Mark(1))))
    requires After(v, 0) == d && !TopSeparator(v, 0, ',') && |literals| > 1 && literals[1] != ""
    ensures CloseOf(t, open).Some? && HasFormat(Pieces(t[open + 1..CloseOf(t, open).value], 0, ','), literals)
  {
    hide CloseOf, After, Mark, HasFormat, Pieces, Trim, TopSeparator;
    var a, b := v + Rep(')', d), " " + Mark(1);
    RepOneMore(d - 1);
    AfterConcat(v, Rep(')', d), 0);
    AfterRep(d, d);
    NoSeparatorBehind(v, d, 0);
    FormatPart(1);
    var argList := a + ("," + b);
    assert t[open + 1..] == argList + ")";
    var close := open + 1 + |argList|;
    assert t[open + 1..close] == argList && t[close] == ')';
    AsArguments(a, b);
    ClosesBalanced(t, open, close);
    MarkedFormat(a, 1, literals);
  }

  lemma {:induction false} NoSeparatorBehind(v: string, n: nat, d: int)
    requires !TopSeparator(v, d, ',')
    ensures !TopSeparator(v + Rep(')', n), d, ',')
    decreases |v| + n
  {
    if v == "" {
      assert v + Rep(')', n) == Rep(')', n);
      if n > 0 {
        assert Rep(')', n)[1..] == Rep(')', n - 1) == "" + Rep(')', n - 1);
        NoSeparatorBehind("", n - 1, d - 1);
      }
    } else {
      assert (v + Rep(')', n))[1..] == v[1..] + Rep(')', n);
      if d >= 0 {
        NoSeparatorBehind(v[1..], n, d + StepOf(v[0]));
      }
    }
  }

  lemma {:induction false} PlainPart(s: string, d: nat)
    requires forall i :: 0 <= i < |s| ==> s[i] != '(' && s[i] != ')' && s[i] != ','
    ensures After(s, d) == d && !TopSeparator(s, d, ',')
  {
    if s != "" {
      PlainPart(s[1..], d);
    }
  }

  lemma FormatPart(n: nat)
    ensures IsPart(" " + Mark(n), ',')
  {
    hide Mark;
    MarkChars(n);
    PlainPart(" " + Mark(n), 0);
  }

  lemma AsArguments(a: string, b: string)
    requires IsPart(a, ',') && IsPart(b, ',')
    ensures Balanced(a + ("," + b)) && Pieces(a + ("," + b), 0, ',') == [a, b]
  {
    hide IsPart, Pieces, Balanced;
    var ps := [a, b];
    assert Join(ps[1..], ',') == b;
    assert Join(ps, ',') == a + ([','] + b);
    JoinBalanced(ps, ',');
    SplitIsUnique(Join(ps, ','), ps, ',');
  }

  lemma MarkedFormat(a: string, n: nat, literals: seq<string>)
    requires n < |literals| && literals[n] != ""
    ensures HasFormat([a, " " + Mark(n)], literals) && Trim(" " + Mark(n)) == Mark(n)
    ensures MarkLen(Mark(n)) > 0 && MarkNumber(Mark(n)) == n
  {
    hide Mark, Trim, MarkLen, MarkNumber;
    MarkChars(n);
    TrimUnwrap(" ", Mark(n), "");
    assert " " + Mark(n) + "" == " " + Mark(n);
    MarkReadsBack(n, "");
    assert Mark(n) + "" == Mark(n);
  }

  // ---- The witness through the passes ---------------------------------------------

  /** No word starts with one of the letters. */
  predicate Inert(t: string, letters: string) {
    forall i :: 0 <= i < |t| && Upper(t[i]) in letters ==> i > 0 && IsWordChar(t[i - 1])
  }

  lemma InertConcat(a: string, b: string, letters: string)
    requires Inert(a, letters) && Inert(b, letters)
    ensures Inert(a + b, letters)
  {
    forall i | 0 <= i < |a + b| && Upper((a + b)[i]) in letters
      ensures i > 0 && IsWordChar((a + b)[i - 1])
    {
      if i < |a| {
        assert a[i] == (a + b)[i];
      } else {
        assert b[i - |a|] == (a + b)[i];
      }
    }
  }

  lemma MarkIsInert(n: nat, letters: string)
    requires forall c :: c in letters ==> 'A' <= c <= 'U'
    ensures Inert(Mark(n), letters)
  {
    MarkShape(n);
    var m := Mark(n);
    forall i | 0 <= i < |m| && Upper(m[i]) in letters
      ensures i > 0 && IsWordChar(m[i - 1])
    {
      assert i != 0 && i != |m| - 1 && i != 1;
    }
  }

  lemma RepIsInert(c: char, n: nat, letters: string)
    requires Upper(c) !in letters
    ensures Inert(Rep(c, n), letters)
  {
    RepChars(c, n);
  }

  lemma TrailIsInert(n: nat, format: Option<string>, letters: string)
    requires forall c :: c in letters ==> 'A' <= c <= 'U'
    requires format.Some? ==> format.value == Mark(1)
    ensures Inert(")" + Trail(n, format), letters)
  {
    hide Mark, Inert;
    NotLetters(letters);
    RepIsInert(')', n, letters);
    if format.Some? {
      MarkIsInert(1, letters);
      InertConcat(", ", Mark(1), letters);
      InertConcat(", " + Mark(1), ")", letters);
      InertConcat(Rep(')', n), ", " + Mark(1) + ")", letters);
    } else {
      assert Rep(')', n) + "" == Rep(')', n);
    }
    InertConcat(")", Trail(n, format), letters);
  }

  lemma NotLetters(letters: string)
    requires forall c :: c in letters ==> 'A' <= c <= 'U'
    ensures Upper('(') !in letters && Upper(')') !in letters
    ensures Inert(")", letters) && Inert(", ", letters) && Inert("", letters)
  {
  }

  /** The witness holds nothing for the passes before those for dates. */
  lemma SheetIsInert(s: nat, c: Callee, n: nat, format: Option<string>)
    requires IsDateCall(c) && (format.Some? ==> format.value == Mark(1))
    ensures Inert(Sheet(s, c.Name() + "(x, ", Mark(0), n, format), "FSND")
  {
    hide Mark, Inert, Trail;
    NotLetters("FSND");
    TrailIsInert(n, format, "FSND");
    MarkIsInert(0, "FSND");
    InertConcat(Mark(0), ")" + Trail(n, format), "FSND");
    HeadsAreInert();
    assert c.Name() + "(x, " == "TO_DATE(x, " || c.Name() + "(x, " == "TO_CHAR(x, ";
    InertConcat(c.Name() + "(x, ", Mark(0) + (")" + Trail(n, format)), "FSND");
    if s > 0 {
      RepIsInert('(', s - 1, "FSND");
      InertConcat("TO_CHAR(", Rep('(', s - 1), "FSND");
    }
    InertConcat(Lead(s), c.Name() + "(x, " + (Mark(0) + (")" + Trail(n, format))), "FSND");
  }

  lemma HeadsAreInert()
    ensures Inert("TO_DATE(x, ", "FSND") && Inert("TO_CHAR(x, ", "FSND") && Inert("TO_CHAR(", "FSND")
  {
    hide Inert;
    InertWithOneD("TO_DATE(x, ", 3);
    InertWithOneD("TO_CHAR(x, ", 3);
    InertWithOneD("TO_CHAR(", 3);
  }

  lemma InertWithOneD(t: string, d: nat)
    requires 0 < d < |t| && t[d - 1] == '_'
    requires forall i :: 0 <= i < |t| && i != d ==> t[i] in "TO_CHAREx(, "
    ensures Inert(t, "FSND")
  {
    forall c | c in "TO_CHAREx(, "
      ensures Upper(c) !in "FSND"
    {
      var k :| 0 <= k < |"TO_CHAREx(, "| && c == "TO_CHAREx(, "[k];
      NotInitial(k);
    }
  }

  lemma NotInitial(k: nat)
    requires k < |"TO_CHAREx(, "|
    ensures Upper("TO_CHAREx(, "[k]) !in "FSND"
  {
  }

  lemma NotWord(t: string, i: nat, w: string, j: nat)
    requires j < |w| && (i + j < |t| ==> Upper(t[i + j]) != w[j])
    ensures !WordAt(t, i, w)
  {
  }

  lemma WordNeedsLetter(t: string, i: nat, w: string, letters: string)
    requires i < |t| && Inert(t, letters) && w != "" && w[0] in letters
    ensures !(StartsWord(t, i) && WordAt(t, i, w))
  {
    hide WordAt;
    if Upper(t[i]) != w[0] {
      NotWord(t, i, w, 0);
    }
  }

  lemma InertMisses(r: Rule, t: string, i: nat)
    requires i < |t| && Inert(t, "FSND") && r in [FromDual, SysDate, SysTimestamp, NvlName]
    ensures MatchRule(r, t, i).Miss?
  {
    hide WordAt, StartsWord, SkipSpaces, Inert;
    WordNeedsLetter(t, i, "FROM", "FSND");
    WordNeedsLetter(t, i, "SYSDATE", "FSND");
    WordNeedsLetter(t, i, "SYSTIMESTAMP", "FSND");
    WordNeedsLetter(t, i, "NVL", "FSND");
  }

  lemma InertIsCopied(p: Pass, t: string, literals: seq<string>)
    requires Inert(t, "FSND") && p in PASSES[..6]
    ensures RunPass(p, t, literals) == t
  {
    hide MatchRule, Inert, ReplaceAll, Rewritten, OpenOf;
    match p
    case Replace(r) =>
      forall k | 0 <= k < |t|
        ensures MatchRule(r, t, k).Miss?
      {
        InertMisses(r, t, k);
      }
      ReplaceCopies(r, t, 0, |t|);
      ReplaceEnds(r, t);
      assert t[0..|t|] + "" == t;
    case Rewrite(c) =>
      forall k | 0 <= k < |t|
        ensures OpenOf(t, k, c.Name()).None?
      {
        InertOpens(c, t, k);
      }
      NoneOpens(t, 0, c, literals);
      assert t[0..] == t;
  }

  lemma ReplaceEnds(r: Rule, t: string)
    ensures ReplaceAll(r, t, |t|) == ""
  {
  }

  lemma InertOpens(c: Callee, t: string, k: nat)
    requires k < |t| && Inert(t, "FSND") && (c == Nvl2Fn || c == DecodeFn)
    ensures OpenOf(t, k, c.Name()).None?
  {
    hide WordAt, StartsWord, SkipSpaces, Inert;
    WordNeedsLetter(t, k, c.Name(), "FSND");
  }

  /** Where no call opens, the text is copied. */
  lemma NoneOpens(t: string, i: nat, c: Callee, literals: seq<string>)
    requires i <= |t| && forall k :: i <= k < |t| ==> OpenOf(t, k, c.Name()).None?
    ensures Rewritten(t, i, c, literals) == t[i..]
  {
    hide Rewritten, OpenOf;
    SkipToCall(t, i, |t|, c, literals);
    RestIsCopied(t, |t|, |t|, c, literals);
    assert t[i..|t|] == t[i..] && t[|t|..] == "" && t[|t|..|t|] == "";
  }

  lemma InertBeforeDates(t: string, literals: seq<string>)
    requires Inert(t, "FSND")
    ensures BeforeDates(Masked(t, literals)) == t
  {
    hide Inert, RunPass;
    RunsInert(PASSES[..6], t, literals);
  }

  lemma {:induction false} RunsInert(ps: seq<Pass>, t: string, literals: seq<string>)
    requires Inert(t, "FSND") && forall p :: p in ps ==> p in PASSES[..6]
    ensures RunPasses(ps, t, literals) == t
  {
    hide Inert, RunPass;
    if ps != [] {
      InertIsCopied(ps[0], t, literals);
      RunsInert(ps[1..], t, literals);
    }
  }

  // ---- Masking the witness --------------------------------------------------------

  lemma {:induction false} MaskBehind(a: string, s: string, n: nat)
    requires '\'' !in a
    ensures Mask(a + s, n) == Masked(a + Mask(s, n).text, Mask(s, n).literals)
  {
    hide Mask;
    if a == "" {
      assert a + s == s && a + Mask(s, n).text == Mask(s, n).text;
    } else {
      assert (a + s)[1..] == a[1..] + s;
      MaskAtChar(a + s, n);
      MaskBehind(a[1..], s, n);
      assert [a[0]] + (a[1..] + Mask(s, n).text) == a + Mask(s, n).text;
    }
  }

  /** A literal with the content x. */
  function Quoted(x: string): string {
    "'" + Doubled(x, '\'') + "'"
  }

  lemma MaskQuoted(x: string, s: string, n: nat)
    requires s == "" || s[0] != '\''
    ensures Mask(Quoted(x) + s, n) == Masked(Mark(n) + Mask(s, n + 1).text, [Quoted(x)] + Mask(s, n + 1).literals)
  {
    hide Mask, Mark, Doubled, QuoteSpan;
    var t := Quoted(x) + s;
    DoubledSpan(x, s, '\'');
    assert t[1..] == Doubled(x, '\'') + (['\''] + s);
    MaskAtQuote(t, n);
    assert LiteralLen(t) == |Quoted(x)|;
    assert t[..|Quoted(x)|] == Quoted(x) && t[|Quoted(x)|..] == s;
  }

  /** The format that is put behind the literal, where one is. */
  function Spare(takes: bool): Option<string> {
    if takes then Some(Quoted("Y")) else None
  }

  function Masking(takes: bool): Option<string> {
    if takes then Some(Mark(1)) else None
  }

  function Literals(x: string, takes: bool): seq<string> {
    if takes then [Quoted(x), Quoted("Y")] else [Quoted(x)]
  }

  lemma MaskSheet(s: nat, head: string, x: string, n: nat, takes: bool)
    requires '\'' !in head
    ensures Mask(Sheet(s, head, Quoted(x), n, Spare(takes)), 0)
         == Masked(Sheet(s, head, Mark(0), n, Masking(takes)), Literals(x, takes))
  {
    hide Mask, Mark, Quoted, Trail;
    var tail := ")" + Trail(n, Spare(takes));
    MaskTrail(n, takes);
    assert tail[0] == ')';
    MaskQuoted(x, tail, 0);
    MaskBehind(head, Quoted(x) + tail, 0);
    LeadHasNoQuote(s);
    MaskBehind(Lead(s), head + (Quoted(x) + tail), 0);
    assert [Quoted(x)] + [] == [Quoted(x)];
  }

  lemma LeadHasNoQuote(s: nat)
    ensures '\'' !in Lead(s)
  {
    if s > 0 {
      RepChars('(', s - 1);
    }
  }

  lemma MaskTrail(n: nat, takes: bool)
    ensures Mask(")" + Trail(n, Spare(takes)), 1)
         == Masked(")" + Trail(n, Masking(takes)), if takes then [Quoted("Y")] else [])
  {
    hide Mask, Mark, Quoted;
    RepChars(')', n);
    if takes {
      MaskQuoted("Y", ")", 1);
      MaskNoQuote(")", 2);
      MaskBehind(")" + Rep(')', n) + ", ", Quoted("Y") + ")", 1);
      assert ")" + Trail(n, Spare(takes)) == ")" + Rep(')', n) + ", " + (Quoted("Y") + ")");
      assert ")" + Trail(n, Masking(takes)) == ")" + Rep(')', n) + ", " + (Mark(1) + ")");
      assert [Quoted("Y")] + [] == [Quoted("Y")];
    } else {
      assert ")" + Trail(n, Spare(takes)) == ")" + Trail(n, Masking(takes)) == ")" + Rep(')', n);
      MaskNoQuote(")" + Rep(')', n), 1);
    }
  }

  // ---- The date passes on the witness ---------------------------------------------

  lemma LeadChars(s: nat)
    ensures s > 0 ==> |Lead(s)| == 7 + s && "TO_CHAR(" <= Lead(s) && forall i :: 7 <= i < 7 + s ==> Lead(s)[i] == '('
  {
    if s > 0 {
      RepChars('(', s - 1);
    }
  }

  lemma LeadOpensNoDate(t: string, s: nat, k: nat)
    requires Lead(s) <= t && k < |Lead(s)|
    ensures OpenOf(t, k, "TO_DATE").None?
  {
    hide SkipSpaces, Lead, WordAt;
    LeadChars(s);
    LeadOfNone();
    assert forall i :: 0 <= i < |Lead(s)| ==> t[i] == Lead(s)[i];
    assert forall i :: 0 <= i < 8 ==> Lead(s)[i] == "TO_CHAR("[i];
    if k == 0 {
      NotWord(t, 0, "TO_DATE", 3);
    } else {
      NotWord(t, k, "TO_DATE", 0);
    }
  }

  lemma LeadOfNone()
    ensures Lead(0) == ""
  {
  }

  /** Behind text in which no word starts with T, no date call opens. */
  lemma TailOpensNone(t: string, lo: nat, k: nat, c: Callee)
    requires lo < k < |t| && Inert(t[lo..], "T") && IsDateCall(c)
    ensures OpenOf(t, k, c.Name()).None?
  {
    hide SkipSpaces, WordAt;
    assert t[lo..][k - lo] == t[k] && t[lo..][k - lo - 1] == t[k - 1];
    assert c.Name()[0] == 'T';
    if Upper(t[k]) != 'T' {
      NotWord(t, k, c.Name(), 0);
    }
  }

  /** The arguments of the call in the witness. */
  function ArgumentsWith(mark: string): string {
    "x" + ("," + (" " + mark))
  }

  lemma ArgumentsOfX()
    ensures var argList := ArgumentsWith(Mark(0));
      Balanced(argList) && Pieces(argList, 0, ',') == ["x", " " + Mark(0)]
  {
    hide Mark, Pieces;
    FormatPart(0);
    PlainPart("x", 0);
    AsArguments("x", " " + Mark(0));
  }

  lemma CallOpensAt(t: string, a: nat, c: Callee)
    requires IsDateCall(c) && a <= |t| && (a > 0 ==> t[a - 1] == '(') && c.Name() + "(" <= t[a..]
    ensures OpenOf(t, a, c.Name()) == Some(a + 7)
  {
    var w, v := c.Name(), t[a..];
    assert |w| == 7;
    assert forall k :: 0 <= k < 8 ==> (w + "(")[k] == v[k] == t[a + k];
    assert forall k :: 0 <= k < 7 ==> Upper(w[k]) == w[k] == t[a + k];
    assert t[a + 7] == '(';
    assert SkipSpaces(t, a + 7) == a + 7;
  }

  /** Where the call in the witness opens and closes. */
  lemma CallInSheet(t: string, a: nat, c: Callee, tail: string)
    requires IsDateCall(c) && a <= |t| && (a > 0 ==> t[a - 1] == '(')
    requires t[a..] == c.Name() + "(x, " + (Mark(0) + (")" + tail))
    ensures var close := a + 11 + |Mark(0)|;
      && close < |t| && OpenOf(t, a, c.Name()) == Some(a + 7) && CloseOf(t, a + 7) == Some(close)
      && t[a + 8..close] == ArgumentsWith(Mark(0)) && t[close..] == ")" + tail && t[close + 1..] == tail
  {
    hide CloseOf, Mark, Balanced, OpenOf, ArgumentsWith, Pieces;
    var argList := ArgumentsWith(Mark(0));
    CallAsText(t[a..], c, Mark(0), tail);
    CallOpensAt(t, a, c);
    CallStretch(t, a, c.Name() + "(", argList, tail);
    ArgumentsOfX();
    ClosesBalanced(t, a + 7, a + 8 + |argList|);
  }

  lemma CallStretch(t: string, a: nat, head: string, argList: string, tail: string)
    requires a <= |t| && t[a..] == head + (argList + (")" + tail)) && |head| == 8
    ensures var close := a + 8 + |argList|;
      close < |t| && t[a + 8..close] == argList && t[close] == ')' && t[close..] == ")" + tail && t[close + 1..] == tail
  {
    StretchIs(t, a, head, argList, ")" + tail);
    assert (")" + tail)[1..] == tail;
  }

  lemma CallAsText(v: string, c: Callee, mark: string, tail: string)
    requires IsDateCall(c) && v == c.Name() + "(x, " + (mark + (")" + tail))
    ensures v == c.Name() + "(" + (ArgumentsWith(mark) + (")" + tail)) && c.Name() + "(" <= v
    ensures |ArgumentsWith(mark)| == |mark| + 3 && |c.Name() + "("| == 8
  {
    assert "(x, " == "(" + "x, " && |c.Name()| == 7;
    assert ArgumentsWith(mark) == "x, " + mark;
  }

  lemma StretchIs(t: string, a: nat, x: string, y: string, z: string)
    requires a <= |t| && t[a..] == x + (y + z) && z != ""
    ensures var b, c := a + |x|, a + |x| + |y|;
      c < |t| && t[b..c] == y && t[c..] == z && t[c] == z[0] && t[c + 1..] == z[1..]
  {
    var b, c := a + |x|, a + |x| + |y|;
    assert t == t[..a] + (x + (y + z));
  }

  lemma {:induction false} EmitsSkip(t: string, i: nat, j: nat, c: Callee, literals: seq<string>, f: string, q: nat)
    requires i <= j < |t| && Emits(t, j, c, literals, f, q)
    requires forall k :: i <= k < j ==> OpenOf(t, k, c.Name()).None?
    ensures Emits(t, i, c, literals, f, q + (j - i))
    decreases j - i
  {
    hide OpenOf, Emits;
    if i < j {
      EmitsSkip(t, i + 1, j, c, literals, f, q);
      EmitsAgain(t, i, c, literals, f, q + (j - i), i + 1, 1);
    }
  }

  lemma SheetParts(s: nat, head: string, mid: string, n: nat, format: Option<string>)
    ensures var t, a := Sheet(s, head, mid, n, format), |Lead(s)|;
      && a <= |t| && Lead(s) <= t && t[..a] == Lead(s) && (a > 0 ==> t[a - 1] == '(')
      && t[a..] == head + (mid + (")" + Trail(n, format)))
      && At(t, a + |head|, mid) && t[a + |head| + |mid|..] == ")" + Trail(n, format)
  {
    hide Trail, Lead;
    LeadChars(s);
    LeadOfNone();
    var t, a := Sheet(s, head, mid, n, format), |Lead(s)|;
    assert a > 0 ==> t[a - 1] == Lead(s)[a - 1];
    assert t[a + |head|..a + |head| + |mid|] == mid;
  }

  /** The pass for the call in the witness. */
  lemma DatePass(c: Callee, s: nat, x: string, n: nat, takes: bool)
    requires IsDateCall(c) && (c == ToCharFn ==> s == 0)
    ensures var t, literals := Sheet(s, c.Name() + "(x, ", Mark(0), n, Masking(takes)), Literals(x, takes);
      && Rewritten(t, 0, c, literals) == Sheet(s, Front(c, "x"), ConvertedLiteral(Quoted(x)), n, Masking(takes))
      && Emits(t, 0, c, literals, Mark(0), |Lead(s)| + 12)
  {
    hide Mark, Trail, Lead, OpenOf, CloseOf, Masking, Quoted, Sheet, ArgumentsWith, Front, ConvertedLiteral, Inert;
    hide Emits, Rewritten, Literals, At;
    LiteralsStart(x, takes);
    var t, head := Sheet(s, c.Name() + "(x, ", Mark(0), n, Masking(takes)), c.Name() + "(x, ";
    var a, tail := |Lead(s)|, Trail(n, Masking(takes));
    SheetParts(s, head, Mark(0), n, Masking(takes));
    CallInSheet(t, a, c, tail);
    OnlyCallInSheet(t, c, s, n, takes);
    SheetIs(s, Front(c, "x"), ConvertedLiteral(Quoted(x)), n, Masking(takes));
    OneDateCall(t, a, a + 11 + |Mark(0)|, c, x, Literals(x, takes));
  }

  lemma LiteralsStart(x: string, takes: bool)
    ensures Literals(x, takes) != [] && Literals(x, takes)[0] == Quoted(x)
  {
  }

  lemma OnlyCallInSheet(t: string, c: Callee, s: nat, n: nat, takes: bool)
    requires IsDateCall(c) && (c == ToCharFn ==> s == 0)
    requires Lead(s) <= t && |Lead(s)| + 11 + |Mark(0)| < |t|
    requires t[|Lead(s)| + 11 + |Mark(0)|..] == ")" + Trail(n, Masking(takes))
    ensures forall k :: 0 <= k < |Lead(s)| || |Lead(s)| + 12 + |Mark(0)| <= k < |t| ==> OpenOf(t, k, c.Name()).None?
  {
    hide Mark, Trail, Lead, OpenOf, Masking, Inert;
    LeadOfNone();
    MaskingIs(takes);
    TrailIsInert(n, Masking(takes), "T");
    forall k | 0 <= k < |Lead(s)| || |Lead(s)| + 12 + |Mark(0)| <= k < |t|
      ensures OpenOf(t, k, c.Name()).None?
    {
      if k < |Lead(s)| {
        LeadOpensNoDate(t, s, k);
      } else {
        TailOpensNone(t, |Lead(s)| + 11 + |Mark(0)|, k, c);
      }
    }
  }

  lemma SheetIs(s: nat, head: string, mid: string, n: nat, format: Option<string>)
    ensures Sheet(s, head, mid, n, format) == Lead(s) + ((head + mid + ")") + Trail(n, format))
  {
    hide Lead, Trail;
    assert head + (mid + (")" + Trail(n, format))) == (head + mid + ")") + Trail(n, format);
  }

  lemma MaskingIs(takes: bool)
    ensures takes ==> Masking(takes) == Some(Mark(1))
    ensures !takes ==> Masking(takes) == None
  {
  }

  /** The pass over a text with one call in it. */
  lemma OneDateCall(t: string, a: nat, close: nat, c: Callee, x: string, literals: seq<string>)
    requires IsDateCall(c) && literals != [] && literals[0] == Quoted(x) && a + 7 < close < |t|
    requires OpenOf(t, a, c.Name()) == Some(a + 7) && CloseOf(t, a + 7) == Some(close)
    requires t[a + 8..close] == ArgumentsWith(Mark(0))
    requires forall k :: 0 <= k < a || close + 1 <= k < |t| ==> OpenOf(t, k, c.Name()).None?
    ensures Rewritten(t, 0, c, literals)
         == t[..a] + ((Front(c, "x") + ConvertedLiteral(Quoted(x)) + ")") + t[close + 1..])
    ensures Emits(t, 0, c, literals, Mark(0), a + 12)
  {
    hide Mark, OpenOf, CloseOf, Rewritten, Emits, Pieces, CallText, ConvertedLiteral, Front, Quoted, FormatOf;
    hide ArgumentsWith;
    SkipToCall(t, 0, a, c, literals);
    CallStep(t, a, c, literals);
    NoneOpens(t, close + 1, c, literals);
    SheetCall(c, x, literals);
    assert t[0..a] == t[..a];
    EmitsHere(t, a, c, literals, Mark(0), 12);
    EmitsSkip(t, 0, a, c, literals, Mark(0), 12);
  }

  /** Its call takes the first literal for its format. */
  lemma SheetCall(c: Callee, x: string, literals: seq<string>)
    requires IsDateCall(c) && literals != [] && literals[0] == Quoted(x)
    ensures var argList := ArgumentsWith(Mark(0));
      && Mark(0) in FormatOf(c, argList, literals) && Pieces(argList, 0, ',')[0] == "x" && |Front(c, "x")| == 12
      && CallText(c, argList, literals) == Front(c, "x") + ConvertedLiteral(Quoted(x)) + ")"
  {
    hide Mark, Pieces, CallText, ConvertedLiteral, Balanced, Quoted, Front, MarkLen, MarkNumber, Trim, HasFormat;
    var argList := ArgumentsWith(Mark(0));
    ArgumentsOfX();
    assert Quoted(x) != "" by {
      QuotedShape(x);
    }
    MarkedFormat("x", 0, literals);
    CallEmits(c, argList, literals, Mark(0));
    FrontOfX(c);
  }

  lemma QuotedShape(x: string)
    ensures |Quoted(x)| >= 2 && Quoted(x)[0] == '\'' && Undouble(Inner(Quoted(x))) == x
  {
    hide Doubled, Undouble, Inner;
    InnerOfQuoted(Doubled(x, '\''));
    UndoubleDoubled(x);
  }

  lemma FrontOfX(c: Callee)
    ensures Front(c, "x") == if c == ToDateFn then "strptime(x, " else "strftime(x, "
  {
    assert Trim("x") == "x";
  }
}
