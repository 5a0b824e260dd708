/**
 * Argument lists (engine/src/oracle-shim/translator.ts): finding the parenthesis that
 * closes a call, and splitting what lies between into arguments.
 */
module ArgLists {
  import opened Common
  import opened Text

  // ---- Nesting --------------------------------------------------------------------

  function StepOf(c: char): int {
    if c == '(' then 1 else if c == ')' then -1 else 0
  }

  /** The depth after reading s at depth d; negative for good once a ')' has no partner. */
  function After(s: string, d: int): int {
    if s == "" || d < 0 then d else After(s[1..], d + StepOf(s[0]))
  }

  predicate Balanced(s: string) {
    After(s, 0) == 0
  }

  type Separator = c: char | c != '(' && c != ')' witness ','

  /** A separator outside all parentheses, reading s at depth d. */
  predicate TopSeparator(s: string, d: int, sep: Separator) {
    s != "" && d >= 0 && ((s[0] == sep && d == 0) || TopSeparator(s[1..], d + StepOf(s[0]), sep))
  }

  /** Text that can stand between separators: with a comma, one argument. */
  predicate IsPart(s: string, sep: Separator) {
    Balanced(s) && !TopSeparator(s, 0, sep)
  }

  predicate AreParts(ps: seq<string>, sep: Separator) {
    forall k :: 0 <= k < |ps| ==> IsPart(ps[k], sep)
  }

  function Join(ps: seq<string>, sep: Separator): string
    requires ps != []
  {
    if |ps| == 1 then ps[0] else ps[0] + ([sep] + Join(ps[1..], sep))
  }

  // ---- Closing parenthesis --------------------------------------------------------

  /** Where depth d, counted from i on, first falls to zero. */
  function CloseFrom(s: string, i: nat, d: nat): (r: Option<nat>)
    requires d > 0
    ensures r.Some? ==> i <= r.value < |s|
    decreases |s| - i
  {
    if i >= |s| then None
    else if s[i] == '(' then CloseFrom(s, i + 1, d + 1)
    else if s[i] == ')' then (if d == 1 then Some(i) else CloseFrom(s, i + 1, d - 1))
    else CloseFrom(s, i + 1, d)
  }

  /** The parenthesis that closes the one at open. */
  function CloseOf(s: string, open: nat): (r: Option<nat>)
    ensures r.Some? ==> open < r.value < |s|
  {
    CloseFrom(s, open + 1, 1)
  }

  method MatchParen(s: string, open: nat) returns (r: Option<nat>)
    requires open < |s| && s[open] == '('
    ensures r == CloseOf(s, open)
  {
    var depth := 0;
    var i := open;
    while i < |s|
      invariant open <= i <= |s|
      invariant i == open ==> depth == 0
      invariant i > open ==> depth > 0 && CloseOf(s, open) == CloseFrom(s, i, depth)
    {
      if s[i] == '(' {
        depth := depth + 1;
      } else if s[i] == ')' {
        depth := depth - 1;
        if depth == 0 {
          return Some(i);
        }
      }
      i := i + 1;
    }
    return None;
  }

  lemma {:induction false} CloseFromIs(s: string, i: nat, d: nat, c: nat)
    requires d > 0 && i <= c < |s|
    ensures CloseFrom(s, i, d) == Some(c) <==> s[c] == ')' && After(s[i..c], d - 1) == 0
    decreases |s| - i
  {
    if i == c {
      assert s[i..c] == "";
    } else {
      assert s[i..c][1..] == s[i + 1..c];
      if d + StepOf(s[i]) > 0 {
        CloseFromIs(s, i + 1, d + StepOf(s[i]), c);
      }
    }
  }

  /** The closing parenthesis is the one with balanced text in between. */
  lemma ClosesBalanced(s: string, open: nat, c: nat)
    requires open < c < |s|
    ensures CloseOf(s, open) == Some(c) <==> s[c] == ')' && Balanced(s[open + 1..c])
  {
    CloseFromIs(s, open + 1, 1, c);
  }

  // ---- Arguments ------------------------------------------------------------------

  /** Puts text in front of the first piece. */
  function Glue(p: string, ps: seq<string>): seq<string>
    requires ps != []
  {
    [p + ps[0]] + ps[1..]
  }

  /** The pieces between top-level separators; a ')' without partner ends the list. */
  function Pieces(s: string, d: nat, sep: Separator): (ps: seq<string>)
    ensures ps != []
  {
    if s == "" || (s[0] == ')' && d == 0) then [""]
    else if s[0] == sep && d == 0 then [""] + Pieces(s[1..], 0, sep)
    else Glue([s[0]], Pieces(s[1..], d + StepOf(s[0]), sep))
  }

  method SplitArgs(s: string) returns (args: seq<string>)
    ensures args == Pieces(s, 0, ',')
  {
    hide Pieces, Glue;
    args := [];
    var depth, start, i := 0, 0, 0;
    PiecesBegin(s, ',');
    while i < |s|
      invariant 0 <= start <= i <= |s| && depth >= 0
      invariant Pieces(s, 0, ',') == args + Glue(s[start..i], Pieces(s[i..], depth, ','))
    {
      var ch := s[i];
      PiecesStep(s, start, i, depth, args, ',');
      if ch == '(' {
        depth := depth + 1;
      } else if ch == ')' {
        if depth == 0 {
          args := args + [s[start..i]];
          return;
        }
        depth := depth - 1;
      } else if ch == ',' && depth == 0 {
        args := args + [s[start..i]];
        start := i + 1;
      }
      i := i + 1;
    }
    PiecesEnd(s, start, depth, args, ',');
    args := args + [s[start..]];
  }

  lemma PiecesBegin(s: string, sep: Separator)
    ensures Pieces(s, 0, sep) == [] + Glue(s[0..0], Pieces(s[0..], 0, sep))
  {
    assert s[0..] == s;
    GlueNothing(Pieces(s, 0, sep));
  }

  lemma GlueNothing(ps: seq<string>)
    requires ps != []
    ensures Glue("", ps) == ps
  {
    assert "" + ps[0] == ps[0];
    assert ps == [ps[0]] + ps[1..];
  }

  lemma GlueToEmpty(p: string, ps: seq<string>)
    ensures Glue(p, [""] + ps) == [p] + ps
  {
    assert p + "" == p;
    assert ([""] + ps)[1..] == ps;
  }

  lemma PiecesEnd(s: string, start: nat, d: nat, args: seq<string>, sep: Separator)
    requires start <= |s|
    ensures args + Glue(s[start..|s|], Pieces(s[|s|..], d, sep)) == args + [s[start..]]
  {
    assert s[start..|s|] == s[start..];
    GlueToEmpty(s[start..], []);
    assert [""] + [] == [""] && [s[start..]] + [] == [s[start..]];
  }

  lemma PiecesStep(s: string, start: nat, i: nat, d: nat, args: seq<string>, sep: Separator)
    requires start <= i < |s|
    ensures var now := args + Glue(s[start..i], Pieces(s[i..], d, sep));
      if s[i] == ')' && d == 0 then now == args + [s[start..i]]
      else if s[i] == sep && d == 0 then now == args + [s[start..i]] + Glue(s[i + 1..i + 1], Pieces(s[i + 1..], 0, sep))
      else now == args + Glue(s[start..i + 1], Pieces(s[i + 1..], d + StepOf(s[i]), sep))
  {
    hide Pieces, Glue;
    var p, t := s[start..i], s[i..];
    assert t[1..] == s[i + 1..] && s[i + 1..i + 1] == "";
    if s[i] == ')' && d == 0 {
      PieceCloses(p, t, sep);
    } else if s[i] == sep && d == 0 {
      PieceEnds(p, t, sep);
      assert args + ([p] + Pieces(t[1..], 0, sep)) == args + [p] + Pieces(t[1..], 0, sep);
    } else {
      PieceGrows(p, t, d, sep);
      assert s[start..i + 1] == p + [s[i]];
    }
  }

  lemma PieceCloses(p: string, t: string, sep: Separator)
    requires t != "" && t[0] == ')'
    ensures Glue(p, Pieces(t, 0, sep)) == [p]
  {
    GlueToEmpty(p, []);
    assert [""] + [] == [""] && [p] + [] == [p];
  }

  lemma PieceEnds(p: string, t: string, sep: Separator)
    requires t != "" && t[0] == sep
    ensures Glue(p, Pieces(t, 0, sep)) == [p] + Pieces(t[1..], 0, sep)
    ensures Glue("", Pieces(t[1..], 0, sep)) == Pieces(t[1..], 0, sep)
  {
    hide Glue;
    GlueToEmpty(p, Pieces(t[1..], 0, sep));
    GlueNothing(Pieces(t[1..], 0, sep));
  }

  lemma PieceGrows(p: string, t: string, d: nat, sep: Separator)
    requires t != "" && !(d == 0 && (t[0] == ')' || t[0] == sep))
    ensures Glue(p, Pieces(t, d, sep)) == Glue(p + [t[0]], Pieces(t[1..], d + StepOf(t[0]), sep))
  {
    var ps := Pieces(t[1..], d + StepOf(t[0]), sep);
    Assoc(p, [t[0]], ps[0]);
    assert Glue([t[0]], ps)[1..] == ps[1..];
  }

  /** Pieces of text that closes are parts, and rejoin with separators to the text. */
  lemma {:induction false} PiecesRejoin(s: string, d: nat, sep: Separator)
    requires After(s, d) == 0
    ensures var ps := Pieces(s, d, sep);
      && Join(ps, sep) == s
      && After(ps[0], d) == 0 && !TopSeparator(ps[0], d, sep)
      && AreParts(ps[1..], sep)
  {
    hide Glue;
    if s != "" {
      if s[0] == sep && d == 0 {
        PiecesRejoin(s[1..], 0, sep);
        CommaRejoins(s, Pieces(s[1..], 0, sep), sep);
      } else {
        AfterStaysNegative(s[1..], d + StepOf(s[0]));
        PiecesRejoin(s[1..], d + StepOf(s[0]), sep);
        CharRejoins(s, d, Pieces(s[1..], d + StepOf(s[0]), sep), sep);
      }
    }
  }

  lemma CommaRejoins(s: string, ps: seq<string>, sep: Separator)
    requires s != "" && s[0] == sep && ps != [] && Join(ps, sep) == s[1..]
    requires IsPart(ps[0], sep) && AreParts(ps[1..], sep)
    ensures Join([""] + ps, sep) == s && ([""] + ps)[1..] == ps && AreParts(ps, sep)
  {
    assert "" + ([sep] + Join(ps, sep)) == s;
    assert forall k :: 0 < k < |ps| ==> ps[k] == ps[1..][k - 1];
  }

  lemma CharRejoins(s: string, d: nat, ps: seq<string>, sep: Separator)
    requires s != "" && !(s[0] == sep && d == 0) && ps != [] && Join(ps, sep) == s[1..]
    requires d + StepOf(s[0]) >= 0 && After(ps[0], d + StepOf(s[0])) == 0 && !TopSeparator(ps[0], d + StepOf(s[0]), sep)
    ensures var qs := Glue([s[0]], ps);
      Join(qs, sep) == s && qs[1..] == ps[1..] && After(qs[0], d) == 0 && !TopSeparator(qs[0], d, sep)
  {
    JoinGlue([s[0]], ps, sep);
    assert s == [s[0]] + s[1..];
    assert ([s[0]] + ps[0])[1..] == ps[0];
  }

  lemma AfterStaysNegative(s: string, d: int)
    ensures d < 0 ==> After(s, d) < 0
  {
  }

  lemma JoinGlue(p: string, ps: seq<string>, sep: Separator)
    requires ps != []
    ensures Join(Glue(p, ps), sep) == p + Join(ps, sep)
  {
    if |ps| > 1 {
      Assoc(p, ps[0], [sep] + Join(ps[1..], sep));
    }
  }

  /** Splitting undoes joining. */
  lemma {:induction false} SplitsJoined(ps: seq<string>, d: nat, sep: Separator)
    requires ps != [] && After(ps[0], d) == 0 && !TopSeparator(ps[0], d, sep) && AreParts(ps[1..], sep)
    ensures Pieces(Join(ps, sep), d, sep) == ps
    decreases |ps|, |ps[0]|
  {
    hide Pieces, Glue, Join;
    var p := ps[0];
    if p == "" {
      JoinStep(ps, sep);
      if |ps| > 1 {
        assert IsPart(ps[1..][0], sep);
        SplitsJoined(ps[1..], 0, sep);
        SplitsSeparator(Join(ps[1..], sep), sep);
        assert ps == [""] + ps[1..];
      } else {
        SplitsNothing(d, sep);
        assert ps == [""];
      }
    } else {
      var e := d + StepOf(p[0]);
      AfterStaysNegative(p[1..], e);
      var qs := [p[1..]] + ps[1..];
      assert qs[1..] == ps[1..];
      assert p == [p[0]] + p[1..];
      JoinGlue([p[0]], qs, sep);
      GlueCons([p[0]], qs, ps);
      SplitsJoined(qs, e, sep);
      SplitsChar(p[0], Join(qs, sep), d, sep);
    }
  }

  lemma JoinStep(ps: seq<string>, sep: Separator)
    requires ps != []
    ensures Join(ps, sep) == if |ps| == 1 then ps[0] else ps[0] + ([sep] + Join(ps[1..], sep))
  {
  }

  lemma SplitsNothing(d: nat, sep: Separator)
    ensures Pieces("", d, sep) == [""]
  {
  }

  lemma SplitsSeparator(t: string, sep: Separator)
    ensures Pieces("" + ([sep] + t), 0, sep) == [""] + Pieces(t, 0, sep)
  {
    assert ("" + ([sep] + t))[1..] == t;
  }

  lemma GlueCons(p: string, qs: seq<string>, ps: seq<string>)
    requires qs != [] && ps != [] && ps[0] == p + qs[0] && ps[1..] == qs[1..]
    ensures Glue(p, qs) == ps
  {
    assert ps == [ps[0]] + ps[1..];
  }

  lemma SplitsChar(c: char, t: string, d: nat, sep: Separator)
    requires !(d == 0 && (c == ')' || c == sep))
    ensures Pieces([c] + t, d, sep) == Glue([c], Pieces(t, d + StepOf(c), sep))
  {
    assert ([c] + t)[1..] == t;
  }

  /** The pieces of balanced text are the one way to write it as parts with separators between. */
  lemma SplitIsUnique(s: string, ps: seq<string>, sep: Separator)
    requires Balanced(s) && ps != []
    ensures ps == Pieces(s, 0, sep) <==> Join(ps, sep) == s && AreParts(ps, sep)
  {
    PiecesRejoin(s, 0, sep);
    var qs := Pieces(s, 0, sep);
    assert qs == [qs[0]] + qs[1..];
    if Join(ps, sep) == s && AreParts(ps, sep) {
      assert IsPart(ps[0], sep);
      SplitsJoined(ps, 0, sep);
    }
  }

  lemma {:induction false} AfterConcat(a: string, b: string, d: int)
    ensures After(a + b, d) == After(b, After(a, d))
  {
    if a == "" {
      assert a + b == b;
    } else if d >= 0 {
      assert (a + b)[1..] == a[1..] + b;
      AfterConcat(a[1..], b, d + StepOf(a[0]));
    }
  }

  lemma {:induction false} JoinBalanced(ps: seq<string>, sep: Separator)
    requires ps != [] && AreParts(ps, sep)
    ensures Balanced(Join(ps, sep))
  {
    assert IsPart(ps[0], sep);
    if |ps| > 1 {
      assert AreParts(ps[1..], sep);
      JoinBalanced(ps[1..], sep);
      AfterConcat(ps[0], [sep] + Join(ps[1..], sep), 0);
      assert ([sep] + Join(ps[1..], sep))[1..] == Join(ps[1..], sep);
    }
  }

  /**
   * Reading back a printed call: the parenthesis found is its own, and the text between
   * splits into just the arguments it was printed from.
   */
  lemma CallReadsBack(before: string, ps: seq<string>, after: string)
    requires ps != [] && AreParts(ps, ',')
    ensures var open, close := |before|, |before| + 1 + |Join(ps, ',')|;
      var s := before + "(" + Join(ps, ',') + ")" + after;
      CloseOf(s, open) == Some(close) && Pieces(s[open + 1..close], 0, ',') == ps
  {
    var s := before + "(" + Join(ps, ',') + ")" + after;
    var open, close := |before|, |before| + 1 + |Join(ps, ',')|;
    assert s[open + 1..close] == Join(ps, ',');
    JoinBalanced(ps, ',');
    ClosesBalanced(s, open, close);
    SplitIsUnique(Join(ps, ','), ps, ',');
  }
}
