/**
 * No pass of the translator touches a string literal: each one comes back verbatim,
 * unless a call used it up as its date format.
 */
module LiteralSurvival {
  import opened Common
  import opened Text
  import opened StringMask
  import opened ArgLists
  import opened DecodeCase
  import opened Translator

  // ---- Substrings -----------------------------------------------------------------

  ghost predicate Splits(t: string, a: string, u: string, b: string) {
    t == a + u + b
  }

  ghost predicate Contains(t: string, u: string) {
    exists a, b :: Splits(t, a, u, b)
  }

  lemma ContainsItself(u: string)
    ensures Contains(u, u)
  {
    assert Splits(u, "", u, "");
  }

  lemma ContainsWithin(a: string, t: string, b: string, u: string)
    requires Contains(t, u)
    ensures Contains(a + t + b, u)
  {
    var x, y :| Splits(t, x, u, y);
    assert a + (x + u + y) + b == (a + x) + u + (y + b);
    assert Splits(a + t + b, a + x, u, y + b);
  }

  lemma ContainsBehind(a: string, t: string, u: string)
    requires Contains(t, u)
    ensures Contains(a + t, u)
  {
    ContainsWithin(a, t, "", u);
    assert a + t + "" == a + t;
  }

  lemma ContainsAhead(t: string, b: string, u: string)
    requires Contains(t, u)
    ensures Contains(t + b, u)
  {
    ContainsWithin("", t, b, u);
    assert "" + t + b == t + b;
  }

  /** A character that u does not have cannot lie inside u. */
  lemma ContainsEither(a: string, c: char, b: string, u: string)
    requires Contains(a + [c] + b, u) && c !in u && u != ""
    ensures Contains(a, u) || Contains(b, u)
  {
    var t := a + [c] + b;
    var x, y :| Splits(t, x, u, y);
    assert t[|a|] == c;
    assert forall k :: |x| <= k < |x| + |u| ==> t[k] == u[k - |x|];
    if |x| + |u| <= |a| {
      assert a == t[..|a|];
      assert t[..|x|] == x && t[|x|..|x| + |u|] == u;
      assert a == x + u + a[|x| + |u|..];
      assert Splits(a, x, u, a[|x| + |u|..]);
    } else if |x| > |a| {
      assert b == t[|a| + 1..];
      assert x[|a| + 1..] + u + y == b;
      assert Splits(b, x[|a| + 1..], u, y);
    }
  }

  lemma {:induction false} JoinContains(ps: seq<string>, u: string) returns (k: nat)
    requires ps != [] && Contains(Join(ps, ','), u) && ',' !in u && u != ""
    ensures k < |ps| && Contains(ps[k], u)
  {
    k := 0;
    if |ps| > 1 {
      assert ps[0] + ("," + Join(ps[1..], ',')) == ps[0] + [','] + Join(ps[1..], ',');
      ContainsEither(ps[0], ',', Join(ps[1..], ','), u);
      if !Contains(ps[0], u) {
        var j := JoinContains(ps[1..], u);
        k := j + 1;
      }
    }
  }

  /** Text that trimming cannot eat into. */
  predicate HasSolidEnds(u: string) {
    u != "" && !IsSpace(u[0]) && !IsSpace(u[|u| - 1])
  }

  lemma ContainsTail(s: string, u: string)
    requires Contains(s, u) && u != "" && s != "" && s[0] != u[0]
    ensures Contains(s[1..], u)
  {
    var x, y :| Splits(s, x, u, y);
    assert x != "" ==> s[1..] == x[1..] + u + y;
    assert Splits(s[1..], x[1..], u, y);
  }

  lemma ContainsInit(s: string, u: string)
    requires Contains(s, u) && u != "" && s != "" && s[|s| - 1] != u[|u| - 1]
    ensures Contains(s[..|s| - 1], u)
  {
    var x, y :| Splits(s, x, u, y);
    var n := |y| - 1;
    assert s[..|s| - 1] == x + u + y[..n];
    assert Splits(s[..|s| - 1], x, u, y[..n]);
  }

  lemma {:induction false} TrimStartContains(s: string, u: string)
    requires Contains(s, u) && HasSolidEnds(u)
    ensures Contains(TrimStart(s), u)
  {
    if s != "" && IsSpace(s[0]) {
      ContainsTail(s, u);
      TrimStartContains(s[1..], u);
    }
  }

  lemma {:induction false} TrimEndContains(s: string, u: string)
    requires Contains(s, u) && HasSolidEnds(u)
    ensures Contains(TrimEnd(s), u)
  {
    if s != "" && IsSpace(s[|s| - 1]) {
      ContainsInit(s, u);
      TrimEndContains(s[..|s| - 1], u);
    }
  }

  lemma ContainsNonEmpty(t: string, u: string)
    ensures Contains(t, u) ==> |u| <= |t|
  {
    if Contains(t, u) {
      var x, y :| Splits(t, x, u, y);
    }
  }

  lemma TrimContains(s: string, u: string)
    requires Contains(s, u) && HasSolidEnds(u)
    ensures Contains(Trim(s), u)
  {
    TrimStartContains(s, u);
    TrimEndContains(TrimStart(s), u);
  }

  // ---- Placeholders in the way of a pass ------------------------------------------

  predicate At(t: string, p: nat, u: string) {
    p + |u| <= |t| && t[p..p + |u|] == u
  }

  lemma AtSplits(t: string, u: string) returns (p: nat)
    requires Contains(t, u)
    ensures At(t, p, u)
  {
    var a, b :| Splits(t, a, u, b);
    p := |a|;
  }

  lemma AtWithin(t: string, p: nat, u: string, i: nat, j: nat)
    requires At(t, p, u) && i <= p && p + |u| <= j <= |t|
    ensures Contains(t[i..j], u)
  {
    var q := p + |u|;
    SliceWithin(t, i, p, q, j);
    SliceIsContained(t[i..j], p - i, q - i);
  }

  lemma SliceWithin(t: string, i: nat, p: nat, q: nat, j: nat)
    requires i <= p <= q <= j <= |t|
    ensures t[i..j][p - i..q - i] == t[p..q]
  {
    var a, b := t[i..j][p - i..q - i], t[p..q];
    assert |a| == |b|;
    forall k | 0 <= k < |a|
      ensures a[k] == b[k]
    {
      assert a[k] == t[i..j][p - i + k];
    }
  }

  lemma SliceIsContained(s: string, x: nat, y: nat)
    requires x <= y <= |s|
    ensures Contains(s, s[x..y])
  {
    assert s[..y] == s[..x] + s[x..y];
    assert s == s[..y] + s[y..];
    assert Splits(s, s[..x], s[x..y], s[y..]);
  }

  lemma MarkChars(n: nat)
    ensures HasSolidEnds(Mark(n)) && ',' !in Mark(n) && '(' !in Mark(n) && ')' !in Mark(n)
  {
    MarkShape(n);
    forall i | 0 <= i < |Mark(n)|
      ensures !IsSpace(Mark(n)[i]) && Mark(n)[i] != ',' && Mark(n)[i] != '(' && Mark(n)[i] != ')'
    {
    }
  }

  /** Neither a quote nor an end of a placeholder. */
  predicate IsOrdinary(c: char) {
    c != '\U{0001}' && c != CLOSE && c != '\''
  }

  /** A match that starts with a keyword and holds no quote or control character. */
  predicate Tame(t: string, i: nat, len: nat) {
    && len > 0 && i + len <= |t|
    && StartsWord(t, i) && 'A' <= Upper(t[i]) <= 'Z' && Upper(t[i]) != 'V'
    && forall k :: i <= k < i + len ==> IsOrdinary(t[k])
  }

  /** Such a match and a placeholder never overlap. */
  lemma TameMissesMark(t: string, i: nat, len: nat, p: nat, n: nat)
    requires Tame(t, i, len) && At(t, p, Mark(n))
    ensures i + len <= p || p + |Mark(n)| <= i
  {
    MarkShape(n);
    var m := |Mark(n)|;
    assert forall k :: p <= k < p + m ==> t[k] == Mark(n)[k - p];
    assert t[p] == '\U{0001}' && t[p + 1] == 'V' && t[p + m - 1] == CLOSE;
    assert forall k :: p < k < p + m - 1 ==> IsWordChar(t[k]);
  }

  lemma {:induction false} SkipSpacesAreSpaces(t: string, i: nat, k: nat)
    requires i <= |t| && i <= k < SkipSpaces(t, i)
    ensures IsSpace(t[k])
    decreases |t| - i
  {
    if i < k {
      SkipSpacesAreSpaces(t, i + 1, k);
    }
  }

  predicate IsUpperWord(w: string) {
    w != "" && 'A' <= w[0] <= 'Z' && w[0] != 'V' && forall k :: 0 <= k < |w| ==> IsOrdinary(w[k])
  }

  predicate Clean(t: string, i: nat, j: nat) {
    i <= j <= |t| && forall k :: i <= k < j ==> IsOrdinary(t[k])
  }

  lemma WordIsClean(t: string, i: nat, w: string)
    requires WordAt(t, i, w) && IsUpperWord(w)
    ensures Clean(t, i, i + |w|) && Upper(t[i]) == w[0]
  {
    assert Upper(t[i + 0]) == w[0];
    forall k | i <= k < i + |w|
      ensures IsOrdinary(t[k])
    {
      assert Upper(t[i + (k - i)]) == w[k - i];
    }
  }

  lemma SpacesAreClean(t: string, i: nat)
    requires i <= |t|
    ensures Clean(t, i, SkipSpaces(t, i))
  {
    forall k | i <= k < SkipSpaces(t, i)
      ensures IsOrdinary(t[k])
    {
      SkipSpacesAreSpaces(t, i, k);
    }
  }

  lemma {:induction false} DigitsAreClean(t: string, i: nat)
    requires i <= |t|
    ensures Clean(t, i, i + DigitsLen(t[i..]))
    decreases |t| - i
  {
    if i < |t| && IsDigit(t[i]) {
      assert t[i..][1..] == t[i + 1..];
      DigitsAreClean(t, i + 1);
    }
  }

  lemma CleanTrans(t: string, i: nat, j: nat, k: nat)
    requires Clean(t, i, j) && Clean(t, j, k)
    ensures Clean(t, i, k)
  {
  }

  lemma OpenIsTame(t: string, i: nat, name: string)
    requires i < |t| && OpenOf(t, i, name).Some? && IsUpperWord(name)
    ensures Tame(t, i, OpenOf(t, i, name).value + 1 - i) && t[OpenOf(t, i, name).value] == '('
  {
    WordIsClean(t, i, name);
    SpacesAreClean(t, i + |name|);
  }

  lemma RownumIsTame(t: string, i: nat, op: string)
    requires i < |t| && MatchRownum(t, i, op).Hit? && Clean(op, 0, |op|)
    ensures Tame(t, i, MatchRownum(t, i, op).len)
  {
    hide AfterRownum, SkipSpaces, DigitsLen, Clean, StartsWord;
    var b := AfterRownum(t, i).value;
    AfterRownumIsClean(t, i);
    OperatorIsClean(t, b, op);
    var c := SkipSpaces(t, b + |op|);
    var d := c + DigitsLen(t[c..]);
    SpacesAreClean(t, b + |op|);
    DigitsAreClean(t, c);
    SpacesAreClean(t, d);
    CleanTrans(t, i, b, b + |op|);
    CleanTrans(t, i, b + |op|, c);
    CleanTrans(t, i, c, d);
    CleanTrans(t, i, d, SkipSpaces(t, d));
    CleanIsTame(t, i, SkipSpaces(t, d));
  }

  lemma AfterRownumIsClean(t: string, i: nat)
    requires i < |t| && AfterRownum(t, i).Some?
    ensures Clean(t, i, AfterRownum(t, i).value) && StartsWord(t, i) && Upper(t[i]) == 'W'
  {
    hide WordAt, SkipSpaces, Clean, StartsWord;
    var a := SkipSpaces(t, i + 5);
    WordIsClean(t, i, "WHERE");
    SpacesAreClean(t, i + 5);
    WordIsClean(t, a, "ROWNUM");
    SpacesAreClean(t, a + 6);
    CleanTrans(t, i, i + 5, a);
    CleanTrans(t, i, a, a + 6);
    CleanTrans(t, i, a + 6, SkipSpaces(t, a + 6));
  }

  lemma OperatorIsClean(t: string, b: nat, op: string)
    requires b <= |t| && op <= t[b..] && Clean(op, 0, |op|)
    ensures b + |op| <= |t| && Clean(t, b, b + |op|)
  {
    forall k | b <= k < b + |op|
      ensures IsOrdinary(t[k])
    {
      assert t[k] == t[b..][k - b] == op[k - b];
    }
  }

  lemma CleanIsTame(t: string, i: nat, j: nat)
    requires Clean(t, i, j) && i < j && StartsWord(t, i) && Upper(t[i]) == 'W'
    ensures Tame(t, i, j - i)
  {
  }

  lemma FromDualIsTame(t: string, i: nat)
    requires i < |t| && MatchFromDual(t, i).Hit?
    ensures Tame(t, i, MatchFromDual(t, i).len)
  {
    hide WordAt, SkipSpaces, BoundaryAt;
    WordIsClean(t, i, "FROM");
    SpacesAreClean(t, i + 4);
    WordIsClean(t, SkipSpaces(t, i + 4), "DUAL");
  }

  lemma WordIsTame(t: string, i: nat, w: string, out: string)
    requires i < |t| && MatchWord(t, i, w, out).Hit? && IsUpperWord(w)
    ensures Tame(t, i, MatchWord(t, i, w, out).len)
  {
    WordIsClean(t, i, w);
  }

  lemma HitIsTame(r: Rule, t: string, i: nat)
    requires i < |t| && MatchRule(r, t, i).Hit?
    ensures Tame(t, i, MatchRule(r, t, i).len)
  {
    hide MatchFromDual, MatchWord, OpenOf, MatchRownum, Tame;
    match r
    case FromDual => FromDualIsTame(t, i);
    case SysDate => WordIsTame(t, i, "SYSDATE", "CURRENT_TIMESTAMP");
    case SysTimestamp => WordIsTame(t, i, "SYSTIMESTAMP", "CURRENT_TIMESTAMP");
    case NvlName => OpenIsTame(t, i, "NVL");
    case RownumUpTo => RownumIsTame(t, i, "<=");
    case RownumBelow => RownumIsTame(t, i, "<");
  }

  // ---- Replacing ------------------------------------------------------------------

  /** With no match in sight the text is copied. */
  lemma {:induction false} ReplaceCopies(r: Rule, t: string, i: nat, j: nat)
    requires i <= j <= |t| && forall k :: i <= k < j ==> MatchRule(r, t, k).Miss?
    ensures ReplaceAll(r, t, i) == t[i..j] + ReplaceAll(r, t, j)
    decreases j - i
  {
    hide MatchRule;
    if i < j {
      ReplaceCopies(r, t, i + 1, j);
      assert t[i..j] == [t[i]] + t[i + 1..j];
      Assoc([t[i]], t[i + 1..j], ReplaceAll(r, t, j));
    }
  }

  /** Every match of the rule stays clear of the text at p. */
  ghost predicate Unhit(r: Rule, t: string, p: nat, u: string) {
    forall k :: 0 <= k < |t| && MatchRule(r, t, k).Hit? ==>
      var len := MatchRule(r, t, k).len; len > 0 && k + len <= |t| && (k + len <= p || p + |u| <= k)
  }

  lemma {:induction false} ReplaceKeeps(r: Rule, t: string, i: nat, p: nat, u: string)
    requires At(t, p, u) && u != "" && i <= p && Unhit(r, t, p, u)
    ensures Contains(ReplaceAll(r, t, i), u)
    decreases p - i
  {
    hide MatchRule, ReplaceAll, Contains;
    if MatchRule(r, t, i).Hit? {
      var len := MatchRule(r, t, i).len;
      ReplaceKeeps(r, t, i + len, p, u);
      ReplaceHead(r, t, i);
      ContainsBehind(MatchRule(r, t, i).out, ReplaceAll(r, t, i + len), u);
    } else if i < p {
      ReplaceKeeps(r, t, i + 1, p, u);
      ReplaceHead(r, t, i);
      ContainsBehind([t[i]], ReplaceAll(r, t, i + 1), u);
    } else {
      ReplaceCopies(r, t, p, p + |u|);
      ContainsItself(u);
      ContainsAhead(u, ReplaceAll(r, t, p + |u|), u);
    }
  }

  /** No rule ever hits a placeholder. */
  lemma MarkIsUnhit(r: Rule, t: string, p: nat, n: nat)
    requires At(t, p, Mark(n))
    ensures Mark(n) != "" && Unhit(r, t, p, Mark(n))
  {
    hide MatchRule, Mark, Tame;
    MarkShape(n);
    forall k | 0 <= k < |t| && MatchRule(r, t, k).Hit?
      ensures var len := MatchRule(r, t, k).len; len > 0 && k + len <= |t| && (k + len <= p || p + |Mark(n)| <= k)
    {
      HitIsTame(r, t, k);
      TameIsProper(t, k, MatchRule(r, t, k).len);
      TameMissesMark(t, k, MatchRule(r, t, k).len, p, n);
    }
  }

  lemma TameIsProper(t: string, i: nat, len: nat)
    requires Tame(t, i, len)
    ensures len > 0 && i + len <= |t|
  {
  }

  lemma ReplaceHead(r: Rule, t: string, i: nat)
    requires i < |t|
    ensures MatchRule(r, t, i).Hit? && MatchRule(r, t, i).len > 0 ==>
      ReplaceAll(r, t, i) == MatchRule(r, t, i).out + ReplaceAll(r, t, i + MatchRule(r, t, i).len)
    ensures MatchRule(r, t, i).Miss? ==> ReplaceAll(r, t, i) == [t[i]] + ReplaceAll(r, t, i + 1)
  {
  }

  // ---- Rewriting calls ------------------------------------------------------------

  /** The text between the parentheses of a call splits into balanced arguments that rejoin. */
  lemma ArgumentsRejoin(t: string, open: nat, close: nat)
    requires open < close < |t| && CloseOf(t, open) == Some(close)
    ensures var args := Pieces(t[open + 1..close], 0, ',');
      AreParts(args, ',') && Join(args, ',') == t[open + 1..close]
  {
    ClosesBalanced(t, open, close);
    SplitIsUnique(t[open + 1..close], Pieces(t[open + 1..close], 0, ','), ',');
  }

  /** Text without a comma in an argument list is in one of the arguments, trimmed. */
  lemma InOneArgument(argList: string, u: string) returns (k: nat)
    requires Join(Pieces(argList, 0, ','), ',') == argList && Contains(argList, u) && HasSolidEnds(u) && ',' !in u
    ensures k < |Pieces(argList, 0, ',')| && Contains(Trim(Pieces(argList, 0, ',')[k]), u)
  {
    hide Pieces, Join, Trim;
    k := JoinContains(Pieces(argList, 0, ','), u);
    TrimContains(Pieces(argList, 0, ',')[k], u);
  }

  lemma CallKeeps(c: Callee, argList: string, literals: seq<string>, n: nat)
    requires Join(Pieces(argList, 0, ','), ',') == argList && Contains(argList, Mark(n))
    requires Mark(n) !in FormatOf(c, argList, literals)
    ensures Contains(CallText(c, argList, literals), Mark(n))
  {
    hide Mark, Pieces, Join, Nvl2Text, DecodeText, DateText, HasFormat;
    match c
    case Nvl2Fn => Nvl2Keeps(argList, n);
    case DecodeFn => DecodeKeeps(argList, n);
    case ToDateFn =>
      MarkIsNotFormat(argList, literals, n);
      DateKeeps("TO_DATE", "strptime", argList, literals, Mark(n));
    case ToCharFn =>
      MarkIsNotFormat(argList, literals, n);
      DateKeeps("TO_CHAR", "strftime", argList, literals, Mark(n));
  }

  lemma Nvl2Keeps(argList: string, n: nat)
    requires Join(Pieces(argList, 0, ','), ',') == argList && Contains(argList, Mark(n))
    ensures Contains(Nvl2Text(argList), Mark(n))
  {
    hide Mark, Pieces, Join, Trim, CaseText, Contains;
    var u, args := Mark(n), Pieces(argList, 0, ',');
    if |args| != 3 {
      ContainsWithin("NVL2(", argList, ")", u);
    } else {
      MarkChars(n);
      var k := InOneArgument(argList, Mark(n));
      var a, b, c := Trim(args[0]), Trim(args[1]), Trim(args[2]);
      Nvl2CaseText(a, b, c);
      Nvl2Parts(a, b, c, u);
    }
  }

  lemma Nvl2Parts(a: string, b: string, c: string, u: string)
    requires Contains(a, u) || Contains(b, u) || Contains(c, u)
    ensures Contains("(CASE WHEN " + a + " IS NOT NULL THEN " + b + " ELSE " + c + " END)", u)
  {
    hide Contains;
    var s := "(CASE WHEN " + a + " IS NOT NULL THEN " + b + " ELSE " + c + " END)";
    if Contains(a, u) {
      ContainsWithin("(CASE WHEN ", a, " IS NOT NULL THEN " + b + " ELSE " + c + " END)", u);
      assert s == "(CASE WHEN " + a + (" IS NOT NULL THEN " + b + " ELSE " + c + " END)");
    } else if Contains(b, u) {
      ContainsWithin("(CASE WHEN " + a + " IS NOT NULL THEN ", b, " ELSE " + c + " END)", u);
      assert s == "(CASE WHEN " + a + " IS NOT NULL THEN " + b + (" ELSE " + c + " END)");
    } else {
      ContainsWithin("(CASE WHEN " + a + " IS NOT NULL THEN " + b + " ELSE ", c, " END)", u);
    }
  }

  lemma {:induction false} PairsOfAt(rest: seq<string>, j: nat)
    ensures |PairsOf(rest)| == |rest| / 2
    ensures 2 * j + 1 < |rest| ==> PairsOf(rest)[j] == Pair(Trim(rest[2 * j]), Trim(rest[2 * j + 1]))
  {
    hide Trim;
    if |rest| >= 2 {
      PairsOfAt(rest[2..], if j == 0 then 0 else j - 1);
    }
  }

  lemma {:induction false} BranchesKeep(bs: seq<Branch>, i: nat, u: string)
    requires i < |bs| && Contains(BranchText(bs[i]), u)
    ensures Contains(BranchesText(bs), u)
  {
    hide BranchText, Contains;
    var n := |bs| - 1;
    if i == n {
      ContainsWithin(BranchesText(bs[..n]), BranchText(bs[n]), " ", u);
    } else {
      BranchesKeep(bs[..n], i, u);
      ContainsAhead(BranchesText(bs[..n]), BranchText(bs[n]) + " ", u);
      Assoc(BranchesText(bs[..n]), BranchText(bs[n]), " ");
    }
  }

  lemma CondKeeps(expr: string, key: string, u: string)
    requires Contains(expr, u) || (Contains(key, u) && !IsNullKey(key))
    ensures Contains(CondText(CondOf(expr, key)), u)
  {
    hide Contains, IsNullKey;
    if Contains(expr, u) {
      var rest := if IsNullKey(key) then " IS NULL" else " = " + key;
      ContainsAhead(expr, rest, u);
      assert CondText(CondOf(expr, key)) == expr + rest;
    } else {
      ContainsBehind(expr + " = ", key, u);
    }
  }

  lemma BranchKeeps(expr: string, p: Pair, u: string)
    requires Contains(expr, u) || Contains(p.value, u) || (Contains(p.key, u) && !IsNullKey(p.key))
    ensures Contains(BranchText(Branch(CondOf(expr, p.key), p.value)), u)
  {
    hide Contains, IsNullKey, CondText;
    var cond := CondText(CondOf(expr, p.key));
    if Contains(p.value, u) {
      ContainsBehind("WHEN " + cond + " THEN ", p.value, u);
    } else {
      CondKeeps(expr, p.key, u);
      ContainsWithin("WHEN ", cond, " THEN " + p.value, u);
      assert "WHEN " + cond + " THEN " + p.value == "WHEN " + cond + (" THEN " + p.value);
    }
  }

  lemma CaseKeeps(c: Case, u: string)
    requires Contains(c.otherwise, u) || Contains(BranchesText(c.branches), u)
    ensures Contains(CaseText(c), u)
  {
    hide Contains, BranchesText;
    var bs := BranchesText(c.branches);
    if Contains(c.otherwise, u) {
      ContainsWithin("CASE " + bs + "ELSE ", c.otherwise, " END", u);
    } else {
      ContainsWithin("CASE ", bs, "ELSE " + c.otherwise + " END", u);
      assert CaseText(c) == "CASE " + bs + ("ELSE " + c.otherwise + " END");
    }
  }

  lemma NullKeyHasNoMark(key: string, n: nat)
    requires IsNullKey(key)
    ensures !Contains(key, Mark(n))
  {
    hide Trim, Contains;
    MarkChars(n);
    MarkShape(n);
    if Contains(key, Mark(n)) {
      TrimContains(key, Mark(n));
      ContainsNonEmpty(Trim(key), Mark(n));
    }
  }

  lemma DecodeKeeps(argList: string, n: nat)
    requires Join(Pieces(argList, 0, ','), ',') == argList && Contains(argList, Mark(n))
    ensures Contains(DecodeText(argList), Mark(n))
  {
    hide Mark, Pieces, Join, Trim, CaseText, BranchesText, BranchText, Contains, IsNullKey, BranchesOf, PairsOf;
    var u, args := Mark(n), Pieces(argList, 0, ',');
    if |args| < 3 {
      ContainsWithin("DECODE(", argList, ")", u);
    } else {
      MarkChars(n);
      var k := InOneArgument(argList, Mark(n));
      var d := DecodeOf(args);
      if k == |args| - 1 && |args| % 2 == 0 {
      } else {
        var j := if k == 0 then 0 else (k - 1) / 2;
        PairsOfAt(args[1..], j);
        var p := d.pairs[j];
        if IsNullKey(p.key) {
          NullKeyHasNoMark(p.key, n);
        }
        assert Contains(d.expr, u) || Contains(p.value, u) || Contains(p.key, u);
        BranchKeeps(d.expr, p, u);
        BranchAt(d, j);
        BranchesKeep(BranchesOf(d.expr, d.pairs), j, u);
      }
      CaseKeeps(CaseOf(d), u);
    }
  }

  lemma BranchAt(d: Decode, j: nat)
    requires j < |d.pairs|
    ensures BranchesOf(d.expr, d.pairs)[j] == Branch(CondOf(d.expr, d.pairs[j].key), d.pairs[j].value)
  {
  }

  lemma {:induction false} DigitsLenDigits(t: string, i: nat)
    requires i < DigitsLen(t)
    ensures IsDigit(t[i])
  {
    if i > 0 {
      DigitsLenDigits(t[1..], i - 1);
    }
  }

  /** A placeholder lies inside another only if they are the same. */
  lemma MarkInMark(s: string, n: nat)
    requires IsMark(s) && Contains(s, Mark(n))
    ensures s == Mark(n)
  {
    hide Mark;
    MarkShape(n);
    var x, y :| Splits(s, x, Mark(n), y);
    var m := |Mark(n)|;
    forall i | 0 < i < |s| - 1
      ensures s[i] != '\U{0001}' && s[i] != CLOSE
    {
      if i < |OPEN| {
        assert s[i] == OPEN[i];
      } else {
        DigitsLenDigits(s[|OPEN|..], i - |OPEN|);
      }
    }
    assert s[|x|] == Mark(n)[0];
    assert s[|x| + m - 1] == Mark(n)[m - 1];
    assert x == "" && y == "";
  }

  /** The format argument does not hold a placeholder that is not the format. */
  lemma MarkIsNotFormat(argList: string, literals: seq<string>, n: nat)
    requires HasFormat(Pieces(argList, 0, ','), literals) ==> Mark(n) != Trim(Pieces(argList, 0, ',')[1])
    ensures HasSolidEnds(Mark(n)) && ',' !in Mark(n)
    ensures HasFormat(Pieces(argList, 0, ','), literals) ==> !Contains(Trim(Pieces(argList, 0, ',')[1]), Mark(n))
  {
    hide Mark, Pieces, Trim, Contains, MarkNumber;
    MarkChars(n);
    var args := Pieces(argList, 0, ',');
    if HasFormat(args, literals) && Contains(Trim(args[1]), Mark(n)) {
      MarkInMark(Trim(args[1]), n);
    }
  }

  lemma DateKeeps(name: string, target: string, argList: string, literals: seq<string>, u: string)
    requires Join(Pieces(argList, 0, ','), ',') == argList && Contains(argList, u) && HasSolidEnds(u) && ',' !in u
    requires HasFormat(Pieces(argList, 0, ','), literals) ==> !Contains(Trim(Pieces(argList, 0, ',')[1]), u)
    ensures Contains(DateText(name, target, argList, literals), u)
  {
    hide Pieces, Join, Trim, Contains, MarkLen, MarkNumber, ConvertedLiteral;
    var args := Pieces(argList, 0, ',');
    if HasFormat(args, literals) {
      var k := InOneArgument(argList, u);
      var converted := ConvertedLiteral(literals[MarkNumber(Trim(args[1]))]);
      ContainsWithin(target + "(", Trim(args[0]), ", " + converted + ")", u);
      assert DateText(name, target, argList, literals) == target + "(" + Trim(args[0]) + (", " + converted + ")");
    } else {
      ContainsWithin(name + "(", argList, ")", u);
    }
  }

  lemma FormatsHead(t: string, i: nat, c: Callee, literals: seq<string>)
    requires i < |t|
    ensures OpenOf(t, i, c.Name()).None? ==> FormatsIn(t, i, c, literals) == FormatsIn(t, i + 1, c, literals)
    ensures var open := OpenOf(t, i, c.Name());
      open.Some? && CloseOf(t, open.value).Some? ==>
        var close := CloseOf(t, open.value).value;
        FormatsIn(t, i, c, literals)
        == FormatOf(c, t[open.value + 1..close], literals) + FormatsIn(t, close + 1, c, literals)
  {
  }

  lemma NamesAreWords(c: Callee)
    ensures IsUpperWord(c.Name())
  {
  }

  /** Every call of the function opens before the text at p, or after it. */
  ghost predicate Uncalled(c: Callee, t: string, p: nat, u: string) {
    forall k :: 0 <= k < |t| && OpenOf(t, k, c.Name()).Some? ==>
      OpenOf(t, k, c.Name()).value < p || p + |u| <= k
  }

  /** Rewriting a call keeps the text, if it is in the arguments and not the format. */
  ghost predicate KeptByCalls(c: Callee, literals: seq<string>, u: string) {
    forall argList ::
      Join(Pieces(argList, 0, ','), ',') == argList && Contains(argList, u) && u !in FormatOf(c, argList, literals) ==>
      Contains(CallText(c, argList, literals), u)
  }

  lemma {:induction false} RewriteKeeps(t: string, i: nat, p: nat, u: string, c: Callee, literals: seq<string>)
    requires At(t, p, u) && u != "" && ')' !in u && i <= p && u !in FormatsIn(t, i, c, literals)
    requires Uncalled(c, t, p, u) && KeptByCalls(c, literals, u)
    ensures Contains(Rewritten(t, i, c, literals), u)
    decreases |t| - i
  {
    hide Rewritten, FormatsIn, OpenOf, CloseOf, CallText, Contains, FormatOf, KeptByCalls;
    FormatsHead(t, i, c, literals);
    var open := OpenOf(t, i, c.Name());
    if open.None? {
      if i < p {
        RewriteKeeps(t, i + 1, p, u, c, literals);
        CopyChar(t, i, c, literals);
        ContainsBehind([t[i]], Rewritten(t, i + 1, c, literals), u);
      } else {
        SkipToCall(t, p, p + |u|, c, literals);
        ContainsItself(u);
        ContainsAhead(u, Rewritten(t, p + |u|, c, literals), u);
      }
    } else {
      var close := CloseOf(t, open.value);
      if close.None? {
        AtWithin(t, p, u, i, |t|);
        NothingIsRewritten(t, i, c, literals);
      } else {
        CallStep(t, i, c, literals);
        var rest := Rewritten(t, close.value + 1, c, literals);
        CloseIsOutside(t, p, u, open.value, close.value);
        if p < close.value {
          InsideIsKept(t, p, u, open.value, close.value, c, literals);
          ContainsAhead(CallText(c, t[open.value + 1..close.value], literals), rest, u);
        } else {
          RewriteKeeps(t, close.value + 1, p, u, c, literals);
          ContainsBehind(CallText(c, t[open.value + 1..close.value], literals), rest, u);
        }
      }
    }
  }

  lemma NothingIsRewritten(t: string, i: nat, c: Callee, literals: seq<string>)
    requires i < |t| && OpenOf(t, i, c.Name()).Some? && CloseOf(t, OpenOf(t, i, c.Name()).value).None?
    ensures Rewritten(t, i, c, literals) == t[i..|t|]
  {
  }

  lemma InsideIsKept(t: string, p: nat, u: string, open: nat, close: nat, c: Callee, literals: seq<string>)
    requires At(t, p, u) && open + 1 <= p && p + |u| <= close < |t| && CloseOf(t, open) == Some(close)
    requires u !in FormatOf(c, t[open + 1..close], literals) && KeptByCalls(c, literals, u)
    ensures Contains(CallText(c, t[open + 1..close], literals), u)
  {
    hide CloseOf, CallText, Contains, FormatOf, Pieces, Join;
    AtWithin(t, p, u, open + 1, close);
    ArgumentsRejoin(t, open, close);
  }

  lemma CloseIsOutside(t: string, p: nat, u: string, open: nat, close: nat)
    requires At(t, p, u) && ')' !in u && open < close < |t| && CloseOf(t, open) == Some(close)
    ensures close < p || p + |u| <= close
  {
    ClosesBalanced(t, open, close);
    assert forall k :: p <= k < p + |u| ==> t[k] == u[k - p];
  }

  /** No call opens inside a placeholder, and every call keeps those it does not use up. */
  lemma MarkIsKept(t: string, p: nat, n: nat, c: Callee, literals: seq<string>)
    requires At(t, p, Mark(n))
    ensures Mark(n) != "" && ')' !in Mark(n) && Uncalled(c, t, p, Mark(n)) && KeptByCalls(c, literals, Mark(n))
  {
    hide Mark, OpenOf, Tame, IsUpperWord, CallText, Contains, FormatOf, Pieces, Join;
    NamesAreWords(c);
    MarkChars(n);
    forall k | 0 <= k < |t| && OpenOf(t, k, c.Name()).Some?
      ensures OpenOf(t, k, c.Name()).value < p || p + |Mark(n)| <= k
    {
      var open := OpenOf(t, k, c.Name()).value;
      OpenIsTame(t, k, c.Name());
      TameMissesMark(t, k, open + 1 - k, p, n);
    }
    forall argList |
      && Join(Pieces(argList, 0, ','), ',') == argList && Contains(argList, Mark(n))
      && Mark(n) !in FormatOf(c, argList, literals)
      ensures Contains(CallText(c, argList, literals), Mark(n))
    {
      CallKeeps(c, argList, literals, n);
    }
  }

  // ---- The whole translation ------------------------------------------------------

  lemma {:induction false} PassesKeep(ps: seq<Pass>, t: string, literals: seq<string>, n: nat)
    requires Contains(t, Mark(n)) && Mark(n) !in Formats(ps, t, literals)
    ensures Contains(RunPasses(ps, t, literals), Mark(n))
  {
    hide Mark, Contains, ReplaceAll, Rewritten, FormatsIn, At, Unhit, Uncalled, KeptByCalls;
    if ps != [] {
      var p := AtSplits(t, Mark(n));
      match ps[0] {
        case Replace(r) =>
          MarkIsUnhit(r, t, p, n);
          ReplaceKeeps(r, t, 0, p, Mark(n));
        case Rewrite(c) =>
          MarkIsKept(t, p, n, c, literals);
          RewriteKeeps(t, 0, p, Mark(n), c, literals);
      }
      PassesKeep(ps[1..], RunPass(ps[0], t, literals), literals, n);
    }
  }

  /** Every literal has its placeholder in the masked text. */
  lemma {:induction false} MaskedHasMark(s: string, n: nat, i: nat)
    requires i < |Mask(s, n).literals|
    ensures Contains(Mask(s, n).text, Mark(n + i))
    decreases |s|
  {
    hide Mark, Contains, LiteralLen;
    if s[0] == '\'' {
      var m := Mask(s[LiteralLen(s)..], n + 1);
      if i == 0 {
        ContainsItself(Mark(n));
        ContainsAhead(Mark(n), m.text, Mark(n));
      } else {
        MaskedHasMark(s[LiteralLen(s)..], n + 1, i - 1);
        ContainsBehind(Mark(n), m.text, Mark(n + i));
      }
    } else {
      MaskedHasMark(s[1..], n, i);
      var m := Mask(s[1..], n);
      ContainsBehind([s[0]], m.text, Mark(n + i));
    }
  }

  /** Restoring puts a literal in the place of its placeholder. */
  lemma RestoredInPlace(a: string, n: nat, b: string, literals: seq<string>)
    ensures Unmask(a + Mark(n) + b, literals)
         == Unmask(a, literals) + Restored(literals, n) + Unmask(b, literals)
  {
    hide Mark, Unmask;
    Assoc(a, Mark(n), b);
    MarkStarts(n, b);
    UnmaskSplit(a, Mark(n) + b, literals);
    UnmaskMark(n, b, literals);
    Assoc(Unmask(a, literals), Restored(literals, n), Unmask(b, literals));
  }

  lemma MarkStarts(n: nat, t: string)
    ensures Mark(n) + t != "" && (Mark(n) + t)[0] == '\U{0001}'
  {
    MarkShape(n);
  }

  /** The n-th literal stands in the translation in the place where the passes left its placeholder. */
  ghost predicate Stands(sql: string, n: nat, a: string, b: string)
    requires n < |Mask(sql, 0).literals|
  {
    var m := Mask(sql, 0);
    && Splits(RunPasses(PASSES, m.text, m.literals), a, Mark(n), b)
    && Splits(Translate(sql), Unmask(a, m.literals), m.literals[n], Unmask(b, m.literals))
  }

  /**
   * For any SQL: every string literal stands verbatim in the translation, in a place of
   * its own, unless some TO_DATE or TO_CHAR call used its placeholder up as a date format.
   */
  lemma LiteralsSurvive(sql: string, n: nat)
    requires n < |Mask(sql, 0).literals|
    ensures var m := Mask(sql, 0);
      Mark(n) in Formats(PASSES, m.text, m.literals) || exists a, b :: Stands(sql, n, a, b)
  {
    hide Mark, Mask, RunPasses, Formats, Unmask;
    var m := Mask(sql, 0);
    if Mark(n) !in Formats(PASSES, m.text, m.literals) {
      MaskedHasMark(sql, 0, n);
      PassesKeep(PASSES, m.text, m.literals, n);
      var a, b :| Splits(RunPasses(PASSES, m.text, m.literals), a, Mark(n), b);
      RestoredInPlace(a, n, b, m.literals);
      assert Stands(sql, n, a, b);
    }
  }
}
