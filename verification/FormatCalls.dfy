/**
 * The pass for TO_CHAR, on a literal that the pass for TO_DATE has emitted
 * (engine/src/oracle-shim/translator.ts). Such a literal stands last in the parentheses of
 * a strptime call, so a TO_CHAR call around it has at least one more parenthesis open where
 * it begins. A call around it copies it, or carries it along in the first argument, or
 * closes in it; a call that opens in it is printed as it was, or changes the text. Two facts
 * decide which: a format argument is a placeholder between blanks and holds no quote, and
 * so all quotes of a call that takes a format are in its first argument.
 */
module FormatCalls {
  import opened Common
  import opened Text
  import opened StringMask
  import opened ArgLists
  import opened Translator
  import opened LiteralSurvival
  import opened FormatSurvival

  // ---- Where a format can stand ---------------------------------------------------

  lemma {:induction false} DigitsLenStops(s: string, v: string)
    requires DigitsLen(s) < |s|
    ensures DigitsLen(s + v) == DigitsLen(s)
  {
    assert (s + v)[0] == s[0] && (s + v)[1..] == s[1..] + v;
    if IsDigit(s[0]) {
      DigitsLenStops(s[1..], v);
    }
  }

  /** A placeholder is one whatever follows. */
  lemma MarkExtends(m: string, v: string)
    requires MarkLen(m) > 0
    ensures MarkLen(m + v) == MarkLen(m)
  {
    var n := |OPEN|;
    assert (m + v)[..n] == m[..n];
    assert (m + v)[n..] == m[n..] + v;
    DigitsLenStops(m[n..], v);
    assert (m + v)[MarkLen(m) - 1] == m[MarkLen(m) - 1];
  }

  lemma MarkHasNoQuote(s: string)
    requires IsMark(s)
    ensures '\'' !in s
  {
    forall i | 0 <= i < |s|
      ensures s[i] != '\''
    {
      if i < |OPEN| {
        assert s[i] == OPEN[i];
      } else if i < |s| - 1 {
        DigitsLenDigits(s[|OPEN|..], i - |OPEN|);
      }
    }
  }

  lemma {:induction false} TopSeparatorPrefix(a: string, b: string, d: int, sep: Separator)
    requires TopSeparator(a, d, sep)
    ensures TopSeparator(a + b, d, sep)
  {
    assert (a + b)[0] == a[0] && (a + b)[1..] == a[1..] + b;
    if !(a[0] == sep && d == 0) {
      TopSeparatorPrefix(a[1..], b, d + StepOf(a[0]), sep);
    }
  }

  /** Arguments with a format: one comma outside parentheses, and behind it a placeholder between blanks. */
  lemma FormatShape(argList: string, literals: seq<string>) returns (a: string, x: string, f: string, y: string)
    requires Balanced(argList) && HasFormat(Pieces(argList, 0, ','), literals)
    ensures argList == a + "," + (x + f + y) && Pieces(argList, 0, ',') == [a, x + f + y] && f == Trim(x + f + y)
    ensures IsMark(f) && '\'' !in x + f + y && !TopSeparator(a, 0, ',')
  {
    hide Pieces, Trim, MarkLen, MarkNumber, TopSeparator;
    var args := Pieces(argList, 0, ',');
    SplitIsUnique(argList, args, ',');
    a, f := args[0], Trim(args[1]);
    assert IsPart(args[0], ',');
    x, y := TrimSplit(args[1]);
    MarkHasNoQuote(f);
    assert Join(args[1..], ',') == args[1];
    assert [','] + args[1] == "," + args[1];
  }

  /** So every quote in them is in the first argument, and every comma before it in parentheses. */
  lemma QuoteComesFirst(argList: string, literals: seq<string>, j: nat)
    requires Balanced(argList) && HasFormat(Pieces(argList, 0, ','), literals)
    requires j < |argList| && argList[j] == '\''
    ensures j < |Pieces(argList, 0, ',')[0]| && Pieces(argList, 0, ',')[0] <= argList
    ensures j + 1 < |argList| && !TopSeparator(argList[..j + 1], 0, ',')
  {
    hide Pieces, Trim, HasFormat, TopSeparator;
    var a, x, f, y := FormatShape(argList, literals);
    var b := x + f + y;
    assert argList[|a|] == ',' && forall i :: |a| < i < |argList| ==> argList[i] == b[i - |a| - 1];
    if TopSeparator(argList[..j + 1], 0, ',') {
      assert a == argList[..j + 1] + a[j + 1..];
      TopSeparatorPrefix(argList[..j + 1], a[j + 1..], 0, ',');
    }
  }

  /**
   * If the arguments from j on, all of them or those from a quote on, are a stretch of the
   * literal, then the format is a placeholder in the literal.
   */
  lemma FormatInLiteral(argList: string, literals: seq<string>, u: string, j: nat, lo: nat, hi: nat)
    requires Balanced(argList) && HasFormat(Pieces(argList, 0, ','), literals)
    requires lo <= hi <= |u| && j <= |argList| && argList[j..] == u[lo..hi]
    requires j == 0 || (j < |argList| && argList[j] == '\'')
    ensures HasMark(u)
  {
    hide Pieces, Trim, HasFormat, TopSeparator, HasMark, IsMark, Balanced;
    var a, x, f, y := FormatShape(argList, literals);
    if j > 0 {
      QuoteComesFirst(argList, literals, j);
    }
    var k := |a| + 1 + |x|;
    TailOf(argList, a + "," + x, f + y, j);
    assert argList == (a + "," + x) + (f + y);
    MarkStandsIn(u, u[lo..hi], lo, k - j, f, y);
  }

  lemma TailOf(s: string, a: string, b: string, j: nat)
    requires s == a + b && j <= |a|
    ensures s[j..][|a| - j..] == b
  {
  }

  lemma MarkStandsIn(u: string, s: string, lo: nat, k: nat, f: string, y: string)
    requires lo + |s| <= |u| && s == u[lo..lo + |s|] && k <= |s| && s[k..] == f + y && IsMark(f)
    ensures HasMark(u)
  {
    hide MarkLen;
    var rest := u[lo + |s|..];
    MarkExtends(f, y + rest);
    assert u[lo + k..] == s[k..] + rest;
    Assoc(f, y, rest);
    assert MarkLen(u[lo + k..]) > 0;
  }

  // ---- Scanning the literal -------------------------------------------------------

  /** The text starts like v and then, if v is longer, departs from it as in IsSpoilt. */
  predicate Leaves(s: string, v: string, j: nat) {
    j < |v| && j < |s| && s[..j] == v[..j] && s[j] != v[j] && Upper(s[j]) != 'W' && s[j] != '\U{0001}'
  }

  ghost predicate IsLost(s: string, v: string) {
    exists j: nat :: j < |v| && Leaves(s, v, j)
  }

  lemma LostBehind(a: string, s: string, v: string)
    requires IsLost(s, v)
    ensures IsLost(a + s, a + v)
  {
    var j: nat :| j < |v| && Leaves(s, v, j);
    assert (a + s)[..|a| + j] == a + s[..j] && (a + v)[..|a| + j] == a + v[..j];
    assert Leaves(a + s, a + v, |a| + j);
  }

  lemma LostAhead(s: string, b: string, v: string, w: string)
    requires IsLost(s, v)
    ensures IsLost(s + b, v + w)
  {
    var j: nat :| j < |v| && Leaves(s, v, j);
    assert (s + b)[..j] == s[..j] && (v + w)[..j] == v[..j];
    assert Leaves(s + b, v + w, j);
  }

  lemma LostIsSpoilt(s: string, u: string)
    requires IsLost(s, u) && s != "" && u != "" && s[0] == u[0]
    ensures IsSpoilt(s, u)
  {
    var j: nat :| j < |u| && Leaves(s, u, j);
    assert Departs(s, u, j);
  }

  /** How a TO_CHAR call begins, in the text and once printed. */
  lemma OpeningShape(u: string, k: nat)
    requires OpenOf(u, k, "TO_CHAR").Some?
    ensures var open := OpenOf(u, k, "TO_CHAR").value;
      && k + 7 <= open < |u| && u[open] == '(' && (forall j :: k + 7 <= j < open ==> IsSpace(u[j]))
      && forall j :: 0 <= j < 7 ==> Upper(u[k + j]) == "TO_CHAR"[j]
    ensures u[k..OpenOf(u, k, "TO_CHAR").value + 1] == "TO_CHAR(" <==>
      OpenOf(u, k, "TO_CHAR").value == k + 7 && forall j :: 0 <= j < 7 ==> u[k + j] == "TO_CHAR"[j]
  {
    hide SkipSpaces;
    var open := OpenOf(u, k, "TO_CHAR").value;
    forall j | k + 7 <= j < open
      ensures IsSpace(u[j])
    {
      SkipSpacesAreSpaces(u, k + 7, j);
    }
    var s := u[k..open + 1];
    assert forall j :: 0 <= j < 7 ==> u[k + j] == s[j];
    if s == "TO_CHAR(" {
      assert |s| == 8;
      assert forall j :: 0 <= j < 7 ==> "TO_CHAR("[j] == "TO_CHAR"[j];
    }
    if open == k + 7 && forall j :: 0 <= j < 7 ==> u[k + j] == "TO_CHAR"[j] {
      assert s[7] == '(';
    }
  }

  /** A call that takes a format, or is spelled otherwise, is printed with another beginning. */
  lemma CallIsLost(u: string, k: nat, argList: string, literals: seq<string>)
    requires OpenOf(u, k, "TO_CHAR").Some?
    requires HasFormat(Pieces(argList, 0, ','), literals) || u[k..OpenOf(u, k, "TO_CHAR").value + 1] != "TO_CHAR("
    ensures IsLost(CallText(ToCharFn, argList, literals), u[k..])
  {
    hide OpenOf, Pieces, Trim, HasFormat, ConvertedLiteral;
    OpeningShape(u, k);
    var s, v := CallText(ToCharFn, argList, literals), u[k..];
    assert forall j :: 0 <= j < 8 && k + j < |u| ==> v[j] == u[k + j];
    if HasFormat(Pieces(argList, 0, ','), literals) {
      assert s[0] == 's';
      assert Upper(v[0]) == "TO_CHAR"[0];
      assert Leaves(s, v, 0);
    } else {
      assert s == "TO_CHAR(" + (argList + ")");
      FirstDifference(s, v, OpenOf(u, k, "TO_CHAR").value - k);
    }
  }

  lemma FirstDifference(s: string, v: string, n: nat)
    requires "TO_CHAR(" <= s && 7 <= n < |v| && v[n] == '(' && forall j :: 7 <= j < n ==> IsSpace(v[j])
    requires forall j :: 0 <= j < 7 ==> Upper(v[j]) == "TO_CHAR"[j]
    requires !(n == 7 && forall j :: 0 <= j < 7 ==> v[j] == "TO_CHAR"[j])
    ensures IsLost(s, v)
  {
    var j := 0;
    assert forall i :: 0 <= i < 8 ==> s[i] == "TO_CHAR("[i];
    assert forall i :: 0 <= i < 7 ==> "TO_CHAR("[i] == "TO_CHAR"[i];
    while j < 7 && v[j] == s[j]
      invariant 0 <= j <= 7
      invariant forall i :: 0 <= i < j ==> s[i] == v[i]
    {
      j := j + 1;
    }
    assert Leaves(s, v, j);
  }

  lemma CalmStep(u: string, k: nat)
    requires k < |u| && IsCalm(u, k)
    ensures OpenOf(u, k, "TO_CHAR").None? ==> IsCalm(u, k + 1)
    ensures var o := OpenOf(u, k, "TO_CHAR");
      o.Some? ==>
        && u[k..o.value + 1] == "TO_CHAR("
        && (CloseOf(u, o.value).None? ==> !CanTakeFormat(u, o.value))
        && (CloseOf(u, o.value).Some? ==> IsCalm(u, CloseOf(u, o.value).value + 1))
  {
  }

  /** The arguments of a call that opens in the literal, as far as they lie in it. */
  lemma LocalArguments(t: string, p: nat, u: string, open: nat, cl: nat)
    requires At(t, p, u) && open < |u| && p + open < cl < |t| && CloseOf(t, p + open) == Some(cl)
    ensures Balanced(t[p + open + 1..cl])
    ensures cl < p + |u| ==>
      CloseOf(u, open) == Some((cl - p) as nat) && t[p + open + 1..cl] == u[open + 1..cl - p]
    ensures cl >= p + |u| ==>
      CloseOf(u, open).None? && t[p + open + 1..cl][..|u| - open - 1] == u[open + 1..]
  {
    hide CloseOf, Balanced;
    ClosesBalanced(t, p + open, cl);
    var q := p + |u|;
    if cl < q {
      CloseWithin(t, p, q, open, cl - p);
      SliceWithin(t, p, p + open + 1, cl, q);
    } else {
      SliceWithin(t, p + open + 1, p + open + 1, q, cl);
      SliceWithin(t, p, p + open + 1, q, q);
      if CloseOf(u, open).Some? {
        CloseWithin(t, p, q, open, CloseOf(u, open).value);
      }
    }
  }

  /** Where the pass is calm, no call that opens in the literal takes a format. */
  lemma CalmTakesNone(t: string, p: nat, u: string, k: nat, open: nat, cl: nat, literals: seq<string>)
    requires At(t, p, u) && IsQuoted(u) && !HasMark(u) && Peek(t, p + |u|, ')')
    requires k <= open < |u| - 1 && OpenOf(u, k, "TO_CHAR") == Some(open) && IsCalm(u, k)
    requires p + open < cl < |t| && CloseOf(t, p + open) == Some(cl)
    ensures !HasFormat(Pieces(t[p + open + 1..cl], 0, ','), literals)
  {
    hide OpenOf, CloseOf, Pieces, HasFormat, HasMark, IsCalm, TopSeparator;
    var argList, q := t[p + open + 1..cl], p + |u|;
    LocalArguments(t, p, u, open, cl);
    NoClose(u, open);
    ClosesBalanced(t, p + open, q);
    SliceWithin(t, p, p + open + 1, q, q);
    if HasFormat(Pieces(argList, 0, ','), literals) {
      CalmStep(u, k);
      if cl < q {
        FormatInLiteral(argList, literals, u, 0, open + 1, cl - p);
        assert false;
      } else {
        var j := |u| - open - 2;
        assert argList[..j + 1][j] == u[open + 1..][j];
        QuoteComesFirst(argList, literals, j);
      }
    }
  }

  /** A call without a format is printed in capitals and otherwise as it was. */
  lemma PlainCall(argList: string, literals: seq<string>)
    requires !HasFormat(Pieces(argList, 0, ','), literals)
    ensures CallText(ToCharFn, argList, literals) == "TO_CHAR(" + (argList + ")")
  {
    hide Pieces, HasFormat;
    assert "TO_CHAR" + "(" + argList + ")" == "TO_CHAR(" + (argList + ")");
  }

  /** So one in capitals is copied. */
  lemma CallIsCopied(t: string, i: nat, open: nat, cl: nat, literals: seq<string>)
    requires i < open < cl < |t| && OpenOf(t, i, "TO_CHAR") == Some(open) && CloseOf(t, open) == Some(cl)
    requires t[i..open + 1] == "TO_CHAR(" && !HasFormat(Pieces(t[open + 1..cl], 0, ','), literals)
    ensures Rewritten(t, i, ToCharFn, literals) == t[i..cl + 1] + Rewritten(t, cl + 1, ToCharFn, literals)
  {
    hide OpenOf, CloseOf, Pieces, HasFormat, CallText, Rewritten, Balanced;
    CallStep(t, i, ToCharFn, literals);
    PlainCall(t[open + 1..cl], literals);
    ClosesBalanced(t, open, cl);
    assert t[i..cl + 1] == t[i..open + 1] + (t[open + 1..cl] + [t[cl]]);
  }

  lemma PrefixAppend(a: string, s: string, v: string)
    requires v <= s
    ensures a + v <= a + s
  {
  }

  /** The text s is what the pass makes of the literal from k on: it is that text, or departs from it. */
  ghost predicate Scanned(s: string, t: string, p: nat, u: string, k: nat)
    requires k <= |u|
  {
    && (u[k..] <= s || IsLost(s, u[k..]))
    && (IsCalm(u, k) && !HasMark(u) && Peek(t, p + |u|, ')') ==> u[k..] <= s)
  }

  lemma {:induction false} ScanLiteral(t: string, p: nat, u: string, k: nat, literals: seq<string>)
    requires At(t, p, u) && IsQuoted(u) && k <= |u|
    ensures Scanned(Rewritten(t, p + k, ToCharFn, literals), t, p, u, k)
    decreases |u| - k
  {
    hide OpenOf, CloseOf, Pieces, HasFormat, Rewritten, Scanned, IsQuoted;
    if k == |u| {
      NothingToScan(Rewritten(t, p + k, ToCharFn, literals), t, p, u);
    } else {
      LocalOpen(t, p, u, k, "TO_CHAR");
      var o := OpenOf(u, k, "TO_CHAR");
      if o.None? {
        ScanLiteral(t, p, u, k + 1, literals);
        CopyChar(t, p + k, ToCharFn, literals);
        AtChars(t, p, u);
        ScannedBehind([u[k]], Rewritten(t, p + k + 1, ToCharFn, literals), t, p, u, k);
      } else {
        ScanCall(t, p, u, k, literals);
        var close := CloseOf(t, p + o.value);
        if close.Some? && close.value < p + |u| {
          LocalArguments(t, p, u, o.value, close.value);
          var c := close.value - p;
          ScanLiteral(t, p, u, c + 1, literals);
          ScannedBehind(u[k..c + 1], Rewritten(t, p + c + 1, ToCharFn, literals), t, p, u, k);
        }
      }
    }
  }

  lemma NothingToScan(s: string, t: string, p: nat, u: string)
    ensures Scanned(s, t, p, u, |u|)
  {
    assert u[|u|..] == "";
  }

  lemma ScannedBehind(a: string, s: string, t: string, p: nat, u: string, k: nat)
    requires k < k + |a| <= |u| && u[k..k + |a|] == a && Scanned(s, t, p, u, k + |a|)
    requires var o := OpenOf(u, k, "TO_CHAR");
      if o.None? then |a| == 1 else CloseOf(u, o.value) == Some(k + |a| - 1)
    ensures Scanned(a + s, t, p, u, k)
  {
    hide IsLost, OpenOf, CloseOf, IsCalm, HasMark;
    var v := u[k + |a|..];
    assert u[k..] == a + v;
    if IsCalm(u, k) {
      CalmStep(u, k);
    }
    if v <= s {
      PrefixAppend(a, s, v);
    }
    if IsLost(s, v) {
      LostBehind(a, s, v);
    }
  }

  /** What the pass makes of a call that opens in the literal, unless it closes in it and is copied. */
  lemma ScanCall(t: string, p: nat, u: string, k: nat, literals: seq<string>)
    requires At(t, p, u) && IsQuoted(u) && k < |u| && OpenOf(u, k, "TO_CHAR").Some?
    ensures var r, close := Rewritten(t, p + k, ToCharFn, literals), CloseOf(t, p + OpenOf(u, k, "TO_CHAR").value);
      || Scanned(r, t, p, u, k)
      || (close.Some? && close.value < p + |u|
          && r == u[k..close.value - p + 1] + Rewritten(t, close.value + 1, ToCharFn, literals))
  {
    hide OpenOf, CloseOf, CallText, Pieces, HasFormat, HasMark, IsCalm, Rewritten, IsLost, IsQuoted, At;
    LocalOpen(t, p, u, k, "TO_CHAR");
    var open := OpenOf(u, k, "TO_CHAR").value;
    var close := CloseOf(t, p + open);
    if close.None? {
      ScanUnclosed(t, p, u, k, open, literals);
    } else {
      var cl := close.value;
      if HasFormat(Pieces(t[p + open + 1..cl], 0, ','), literals) || u[k..open + 1] != "TO_CHAR(" {
        ChangedIsNotCalm(t, p, u, k, open, cl, literals);
        CallIsLostIn(t, p, u, k, literals);
      } else {
        ScanPlain(t, p, u, k, open, cl, literals);
      }
    }
  }

  lemma ScanUnclosed(t: string, p: nat, u: string, k: nat, open: nat, literals: seq<string>)
    requires At(t, p, u) && k <= open < |u| && OpenOf(t, p + k, "TO_CHAR") == Some(p + open)
    requires CloseOf(t, p + open).None?
    ensures u[k..] <= Rewritten(t, p + k, ToCharFn, literals)
  {
    hide OpenOf, CloseOf, Rewritten;
    var q := p + |u|;
    SliceWithin(t, p, p + k, q, q);
    NothingIsRewritten(t, p + k, ToCharFn, literals);
    assert t[p + k..] == t[p + k..q] + t[q..];
  }

  lemma ChangedIsNotCalm(t: string, p: nat, u: string, k: nat, open: nat, cl: nat, literals: seq<string>)
    requires At(t, p, u) && IsQuoted(u) && k <= open < |u| - 1 && OpenOf(u, k, "TO_CHAR") == Some(open)
    requires p + open < cl < |t| && CloseOf(t, p + open) == Some(cl)
    requires HasFormat(Pieces(t[p + open + 1..cl], 0, ','), literals) || u[k..open + 1] != "TO_CHAR("
    ensures !(IsCalm(u, k) && !HasMark(u) && Peek(t, p + |u|, ')'))
  {
    hide OpenOf, CloseOf, Pieces, HasFormat, HasMark, IsCalm, IsQuoted;
    if IsCalm(u, k) && !HasMark(u) && Peek(t, p + |u|, ')') {
      CalmStep(u, k);
      CalmTakesNone(t, p, u, k, open, cl, literals);
    }
  }

  lemma ScanPlain(t: string, p: nat, u: string, k: nat, open: nat, cl: nat, literals: seq<string>)
    requires At(t, p, u) && k < open < |u| && OpenOf(t, p + k, "TO_CHAR") == Some(p + open)
    requires p + open < cl < |t| && CloseOf(t, p + open) == Some(cl) && u[k..open + 1] == "TO_CHAR("
    requires !HasFormat(Pieces(t[p + open + 1..cl], 0, ','), literals)
    ensures var r := Rewritten(t, p + k, ToCharFn, literals);
      if cl < p + |u| then r == u[k..cl - p + 1] + Rewritten(t, cl + 1, ToCharFn, literals) else u[k..] <= r
  {
    hide OpenOf, CloseOf, Pieces, HasFormat, Rewritten;
    var q := p + |u|;
    SliceWithin(t, p, p + k, p + open + 1, q);
    CallIsCopied(t, p + k, p + open, cl, literals);
    if cl >= q {
      SliceWithin(t, p, p + k, q, q);
      assert t[p + k..cl + 1] == t[p + k..q] + t[q..cl + 1];
    } else {
      SliceWithin(t, p, p + k, cl + 1, q);
    }
  }

  /** A call that opens in the literal and takes a format, or is spelled otherwise. */
  lemma CallIsLostIn(t: string, p: nat, u: string, k: nat, literals: seq<string>)
    requires At(t, p, u) && IsQuoted(u) && k < |u| && OpenOf(u, k, "TO_CHAR").Some?
    requires CloseOf(t, p + OpenOf(u, k, "TO_CHAR").value).Some?
    requires var open := OpenOf(u, k, "TO_CHAR").value;
      || u[k..open + 1] != "TO_CHAR("
      || HasFormat(Pieces(t[p + open + 1..CloseOf(t, p + open).value], 0, ','), literals)
    ensures IsLost(Rewritten(t, p + k, ToCharFn, literals), u[k..])
  {
    hide OpenOf, CloseOf, CallText, Pieces, HasFormat, Rewritten, IsLost;
    LocalOpen(t, p, u, k, "TO_CHAR");
    var open := OpenOf(u, k, "TO_CHAR").value;
    var cl := CloseOf(t, p + open).value;
    var argList := t[p + open + 1..cl];
    CallStep(t, p + k, ToCharFn, literals);
    CallIsLost(u, k, argList, literals);
    LostAhead(CallText(ToCharFn, argList, literals), Rewritten(t, cl + 1, ToCharFn, literals), u[k..], "");
    assert u[k..] + "" == u[k..];
  }

  // ---- Reaching the literal -------------------------------------------------------

  /** The literal stands where the pass for TO_DATE puts one: last in the parentheses of a strptime. */
  predicate Follows(t: string, o: nat, p: nat) {
    0 < o < p <= |t| && t[o - 1] == 'e' && t[o] == '(' && Balanced(t[o + 1..p])
  }

  ghost predicate Enclosed(t: string, p: nat, u: string) {
    At(t, p, u) && Peek(t, p + |u|, ')') && exists o: nat :: o < p && Follows(t, o, p)
  }

  /** A TO_CHAR call around the literal has an open parenthesis besides its own where the literal begins. */
  lemma DepthAtLiteral(t: string, o: nat, p: nat, i: nat, open: nat, close: nat)
    requires Follows(t, o, p) && OpenOf(t, i, "TO_CHAR") == Some(open) && open < p <= close < |t|
    requires CloseOf(t, open) == Some(close)
    ensures After(t[open + 1..p], 0) >= 1
  {
    hide CloseOf, After, OpenOf;
    OpenIsNotOther(t, i, open, o);
    if open > o {
      SliceWithin(t, o + 1, open, open + 1, p);
      assert t[o + 1..p][open - o - 1] == t[open] by {
        OpenIsParen(t, i, "TO_CHAR");
      }
      OpenIsParen(t, i, "TO_CHAR");
      ClosesInside(t[o + 1..p], open - o - 1);
      var c := CloseOf(t[o + 1..p], open - o - 1).value;
      CloseWithin(t, o + 1, p, open - o - 1, c);
    } else {
      ClosesBalanced(t, open, close);
      DepthOutside(t, open, o, p, close);
    }
  }

  lemma OpenIsNotOther(t: string, i: nat, open: nat, o: nat)
    requires OpenOf(t, i, "TO_CHAR") == Some(open) && 0 < o < |t| && t[o - 1] == 'e'
    ensures open != o
  {
    OpeningShape(t, i);
    assert open == i + 7 ==> Upper(t[i + 6]) == "TO_CHAR"[6];
    assert open > i + 7 ==> IsSpace(t[open - 1]);
  }

  lemma DepthOutside(t: string, open: nat, o: nat, p: nat, close: nat)
    requires open < o && Follows(t, o, p) && p <= close < |t| && Balanced(t[open + 1..close])
    ensures After(t[open + 1..p], 0) >= 1
  {
    hide After;
    var a, v := t[open + 1..o], t[o + 1..p];
    assert t[open + 1..close] == a + t[o..close];
    AfterPrefix(a, t[o..close], 0);
    var d := After(a, 0);
    AfterShift(v, 0, d + 1);
    assert t[open + 1..p] == a + (['('] + v);
    AfterConcat(a, ['('] + v, 0);
    AfterOpen(v, d);
  }

  lemma AfterOpen(v: string, d: nat)
    ensures After(['('] + v, d) == After(v, d + 1)
  {
    assert (['('] + v)[1..] == v;
  }

  lemma {:induction false} TrimStartKeeps(s: string, n: nat)
    requires n < |s| && !IsSpace(s[n])
    ensures |s| - |TrimStart(s)| <= n && TrimStart(s) == s[|s| - |TrimStart(s)|..]
  {
    if IsSpace(s[0]) {
      TrimStartKeeps(s[1..], n - 1);
    }
  }

  lemma {:induction false} TrimEndKeeps(s: string, n: nat)
    requires n < |s| && !IsSpace(s[n])
    ensures n < |TrimEnd(s)|
  {
    if IsSpace(s[|s| - 1]) {
      TrimEndKeeps(s[..|s| - 1], n);
    }
  }

  /** Trimming an argument keeps the literal in it. */
  lemma TrimKeeps(s: string, n: nat, u: string)
    requires At(s, n, u) && IsQuoted(u)
    ensures var lead := |s| - |TrimStart(s)|; 0 <= lead <= n && At(Trim(s), n - lead, u)
  {
    hide TrimStart, TrimEnd;
    AtChars(s, n, u);
    var m := n + |u| - 1;
    assert s[n] == '\'' && s[m] == '\'';
    TrimStartKeeps(s, n);
    var lead, v := |s| - |TrimStart(s)|, TrimStart(s);
    assert v[m - lead] == s[m];
    TrimEndKeeps(v, m - lead);
    var w := TrimEnd(v);
    assert w == v[..|w|];
    assert w[n - lead..n - lead + |u|] == v[n - lead..n - lead + |u|] == s[n..n + |u|];
  }

  /** A call that holds all of the literal carries it to where ArgumentCarry says. */
  lemma CallCarriesLiteral(argList: string, n: nat, u: string, literals: seq<string>)
    requires Balanced(argList) && At(argList, n, u) && IsQuoted(u)
    ensures At(CallText(ToCharFn, argList, literals), ArgumentCarry(argList, n, literals), u)
  {
    hide Pieces, HasFormat, Trim, TrimStart, TopSeparator, ConvertedLiteral, Balanced;
    var args := Pieces(argList, 0, ',');
    if HasFormat(args, literals) {
      var j := n + |u| - 1;
      AtChars(argList, n, u);
      QuoteComesFirst(argList, literals, j);
      assert args[0] == argList[..|args[0]|];
      assert args[0][n..n + |u|] == argList[n..n + |u|];
      TrimKeeps(args[0], n, u);
      var rest := FormatCall(argList, literals);
      AtShift("strftime(", Trim(args[0]), rest, n - (|args[0]| - |TrimStart(args[0])|), u);
    } else {
      PlainCall(argList, literals);
      AtShift("TO_CHAR(", argList, ")", n, u);
    }
  }

  lemma FormatCall(argList: string, literals: seq<string>) returns (rest: string)
    requires HasFormat(Pieces(argList, 0, ','), literals)
    ensures CallText(ToCharFn, argList, literals) == "strftime(" + (Trim(Pieces(argList, 0, ',')[0]) + rest)
  {
    hide Pieces, Trim, MarkNumber, MarkLen, ConvertedLiteral;
    var args := Pieces(argList, 0, ',');
    var fmt := ConvertedLiteral(literals[MarkNumber(Trim(args[1]))]);
    rest := ", " + fmt + ")";
    assert "strftime" + "(" + Trim(args[0]) + ", " + fmt + ")" == "strftime(" + (Trim(args[0]) + (", " + fmt + ")"));
  }

  lemma AtShift(a: string, s: string, b: string, n: nat, u: string)
    requires At(s, n, u)
    ensures At(a + (s + b), |a| + n, u)
  {
    assert (a + (s + b))[|a| + n..|a| + n + |u|] == s[n..n + |u|];
  }

  /** What stands from the place of the literal on, once the pass has gone over the text from i on. */
  predicate Reached(r: string, t: string, p: nat, u: string, literals: seq<string>)
    requires p <= |t|
  {
    || r == Rewritten(t, p, ToCharFn, literals)
    || u <= r
  }

  ghost predicate ReachedInside(r: string, t: string, p: nat, u: string, s: nat, c: nat, literals: seq<string>) {
    ClosesAt(u, s, c) && r == u[..c + 1] + Rewritten(t, p + c + 1, ToCharFn, literals)
  }

  lemma {:induction false} LiteralIsReached(t: string, i: nat, p: nat, u: string, literals: seq<string>)
    requires Enclosed(t, p, u) && IsQuoted(u) && !HasMark(u) && i <= p
    ensures CallCarry(t, i, p, literals) <= |Rewritten(t, i, ToCharFn, literals)|
    ensures var r := Rewritten(t, i, ToCharFn, literals)[CallCarry(t, i, p, literals)..];
      Reached(r, t, p, u, literals) || exists s: nat, c: nat :: ReachedInside(r, t, p, u, s, c, literals)
    decreases p - i
  {
    hide OpenOf, CloseOf, CallText, Rewritten, IsQuoted, HasMark, Enclosed, Reached, ReachedInside, CallCarry;
    hide ArgumentCarry, At;
    QuoteAt(t, p, u);
    CarryStep(t, i, p, literals);
    if i == p {
      ReachedAtOnce(t, p, u, literals);
    } else {
      var o := OpenOf(t, i, "TO_CHAR");
      if o.None? {
        CopyChar(t, i, ToCharFn, literals);
        LiteralIsReached(t, i + 1, p, u, literals);
        DropsFront([t[i]], Rewritten(t, i + 1, ToCharFn, literals), CallCarry(t, i + 1, p, literals));
      } else {
        OpensBefore(t, i, p);
        var close := CloseOf(t, o.value);
        if close.None? {
          ReachedUnclosed(t, i, p, u, literals);
        } else if close.value < p {
          CallStep(t, i, ToCharFn, literals);
          LiteralIsReached(t, close.value + 1, p, u, literals);
          DropsFront(CallText(ToCharFn, t[o.value + 1..close.value], literals),
            Rewritten(t, close.value + 1, ToCharFn, literals), CallCarry(t, close.value + 1, p, literals));
        } else {
          ReachedInCall(t, i, p, u, o.value, close.value, literals);
        }
      }
    }
  }

  lemma CarryStep(t: string, i: nat, p: nat, literals: seq<string>)
    requires i <= p < |t|
    ensures i == p ==> CallCarry(t, i, p, literals) == 0
    ensures var o := OpenOf(t, i, "TO_CHAR");
      i < p ==>
        if o.None? then CallCarry(t, i, p, literals) == 1 + CallCarry(t, i + 1, p, literals)
        else
          var close := CloseOf(t, o.value);
          if close.None? then CallCarry(t, i, p, literals) == p - i
          else
            var argList := t[o.value + 1..close.value];
            && (close.value < p ==>
                  CallCarry(t, i, p, literals)
                  == |CallText(ToCharFn, argList, literals)| + CallCarry(t, close.value + 1, p, literals))
            && (o.value < p <= close.value ==>
                  CallCarry(t, i, p, literals) == ArgumentCarry(argList, p - o.value - 1, literals))
  {
    hide OpenOf, CloseOf, CallText, ArgumentCarry;
  }

  lemma QuoteAt(t: string, p: nat, u: string)
    requires Enclosed(t, p, u) && IsQuoted(u)
    ensures p + |u| < |t| && t[p] == '\'' && At(t, p, u)
  {
    AtChars(t, p, u);
  }

  lemma OpensBefore(t: string, i: nat, p: nat)
    requires i < p < |t| && t[p] == '\'' && OpenOf(t, i, "TO_CHAR").Some?
    ensures OpenOf(t, i, "TO_CHAR").value < p
  {
    hide OpenOf;
    OpenIsTame(t, i, "TO_CHAR");
    TameMissesQuote(t, i, OpenOf(t, i, "TO_CHAR").value + 1 - i, p);
  }

  lemma ReachedAtOnce(t: string, p: nat, u: string, literals: seq<string>)
    requires p <= |t|
    ensures Reached(Rewritten(t, p, ToCharFn, literals)[0..], t, p, u, literals)
  {
    var r := Rewritten(t, p, ToCharFn, literals);
    assert r[0..] == r;
  }

  lemma ReachedUnclosed(t: string, i: nat, p: nat, u: string, literals: seq<string>)
    requires i <= p && At(t, p, u) && i < |t|
    requires OpenOf(t, i, "TO_CHAR").Some? && CloseOf(t, OpenOf(t, i, "TO_CHAR").value).None?
    ensures var r := Rewritten(t, i, ToCharFn, literals);
      p - i <= |r| && Reached(r[p - i..], t, p, u, literals)
  {
    hide OpenOf, CloseOf, Rewritten;
    NothingIsRewritten(t, i, ToCharFn, literals);
    SliceSlice(t, i, p - i);
    assert t[p..] == u + t[p + |u|..];
  }

  /** The call that the literal stands in. */
  lemma ReachedInCall(t: string, i: nat, p: nat, u: string, open: nat, close: nat, literals: seq<string>)
    requires Enclosed(t, p, u) && IsQuoted(u) && !HasMark(u) && i <= open < p <= close < |t|
    requires OpenOf(t, i, "TO_CHAR") == Some(open) && CloseOf(t, open) == Some(close)
    ensures var r, n := Rewritten(t, i, ToCharFn, literals), ArgumentCarry(t[open + 1..close], p - open - 1, literals);
      && n <= |r|
      && (Reached(r[n..], t, p, u, literals) || exists s: nat, c: nat :: ReachedInside(r[n..], t, p, u, s, c, literals))
  {
    hide OpenOf, CloseOf, CallText, Rewritten, HasMark, ArgumentCarry, After, IsQuoted, Follows, At, ClosesAt;
    var o: nat :| o < p && Follows(t, o, p);
    FollowsBefore(t, o, p);
    DepthAtLiteral(t, o, p, i, open, close);
    CallStep(t, i, ToCharFn, literals);
    var argList, rest := t[open + 1..close], Rewritten(t, close + 1, ToCharFn, literals);
    var m, a := ArgumentCarry(argList, p - open - 1, literals), CallText(ToCharFn, argList, literals);
    if close >= p + |u| {
      InCallWhole(t, p, u, open, close, literals);
      PrefixAhead(a, m, u, rest);
    } else {
      ClosesInLiteral(t, p, u, open, close, literals);
      DropsTail(a, m, rest);
      assert ReachedInside((a + rest)[m..], t, p, u, After(t[open + 1..p], 0), close - p, literals);
    }
  }

  lemma FollowsBefore(t: string, o: nat, p: nat)
    requires Follows(t, o, p)
    ensures 0 < o < p <= |t|
  {
  }

  lemma DropsTail(a: string, m: nat, rest: string)
    requires m <= |a|
    ensures (a + rest)[m..] == a[m..] + rest
  {
  }

  lemma PrefixAhead(a: string, m: nat, u: string, rest: string)
    requires At(a, m, u)
    ensures m <= |a + rest| && u <= (a + rest)[m..]
  {
    StartsAt(a, m, u);
    DropsTail(a, m, rest);
  }

  lemma InCallWhole(t: string, p: nat, u: string, open: nat, close: nat, literals: seq<string>)
    requires At(t, p, u) && IsQuoted(u) && open < p && p + |u| <= close < |t| && CloseOf(t, open) == Some(close)
    ensures var argList := t[open + 1..close];
      At(CallText(ToCharFn, argList, literals), ArgumentCarry(argList, p - open - 1, literals), u)
  {
    hide CloseOf, CallText, ArgumentCarry, Balanced;
    ClosesBalanced(t, open, close);
    SliceWithin(t, open + 1, p, p + |u|, close);
    CallCarriesLiteral(t[open + 1..close], p - open - 1, u, literals);
  }

  /** When the call closes in the literal it takes no format, and what is in the literal is copied. */
  lemma ClosesInLiteral(t: string, p: nat, u: string, open: nat, close: nat, literals: seq<string>)
    requires At(t, p, u) && IsQuoted(u) && !HasMark(u) && open < p <= close < p + |u|
    requires CloseOf(t, open) == Some(close) && After(t[open + 1..p], 0) >= 1
    ensures ClosesAt(u, After(t[open + 1..p], 0), close - p)
    ensures var argList := t[open + 1..close];
      var a, m := CallText(ToCharFn, argList, literals), ArgumentCarry(argList, p - open - 1, literals);
      m <= |a| && a[m..] == u[..close - p + 1]
  {
    hide CloseOf, HasMark, After, Pieces, HasFormat, CallText;
    ClosesBalanced(t, open, close);
    AtChars(t, p, u);
    var argList, n, c := t[open + 1..close], p - open - 1, close - p;
    assert t[close] == u[c] && t[p] == u[0];
    SliceWithin(t, open + 1, p, close, close);
    SliceWithin(t, p, p, close, p + |u|);
    assert argList == t[open + 1..p] + u[..c];
    AfterConcat(t[open + 1..p], u[..c], 0);
    assert argList[n] == t[p];
    if HasFormat(Pieces(argList, 0, ','), literals) {
      FormatInLiteral(argList, literals, u, n, 0, c);
    }
    PlainCall(argList, literals);
    assert u[..c + 1] == u[..c] + [u[c]];
  }

  // ---- The pass keeps a literal it is calm on -------------------------------------

  lemma ToCharKeeps(t: string, p: nat, u: string, literals: seq<string>)
    requires Enclosed(t, p, u) && IsQuoted(u) && IsHarmless(ToDateFn, u)
    ensures At(Rewritten(t, 0, ToCharFn, literals), CallCarry(t, 0, p, literals), u)
  {
    hide Rewritten, CallCarry, IsQuoted, HasMark, HasRowLimit, IsCalm, Follows, IsLost;
    LiteralIsReached(t, 0, p, u, literals);
    var r0, n := Rewritten(t, 0, ToCharFn, literals), CallCarry(t, 0, p, literals);
    var r := r0[n..];
    StartsAt(r0, n, u);
    if exists s: nat, c: nat :: ReachedInside(r, t, p, u, s, c, literals) {
      var s: nat, c: nat :| ReachedInside(r, t, p, u, s, c, literals);
      ScanLiteral(t, p, u, c + 1, literals);
      PrefixAppend(u[..c + 1], Rewritten(t, p + c + 1, ToCharFn, literals), u[c + 1..]);
      assert u == u[..c + 1] + u[c + 1..];
    } else {
      ScanLiteral(t, p, u, 0, literals);
      assert u[0..] == u;
    }
  }
}
