/**
 * Character and string primitives shared by the SQL scanners: white space as trim and \s
 * see it, trimming, blank lines, word boundaries, doubled quotes.
 */
module Text {
  /** JavaScript WhiteSpace or LineTerminator: what trim() strips and \s matches. */
  predicate IsSpace(c: char) {
    || '\U{0009}' <= c <= '\U{000D}'
    || c == ' ' || c == '\U{00A0}' || c == '\U{1680}'
    || '\U{2000}' <= c <= '\U{200A}'
    || c == '\U{2028}' || c == '\U{2029}' || c == '\U{202F}' || c == '\U{205F}'
    || c == '\U{3000}' || c == '\U{FEFF}'
  }

  predicate IsBlank(s: string) {
    forall i :: 0 <= i < |s| ==> IsSpace(s[i])
  }

  function TrimStart(s: string): (r: string)
    ensures |r| <= |s|
    ensures r == "" || !IsSpace(r[0])
  {
    if s != "" && IsSpace(s[0]) then TrimStart(s[1..]) else s
  }

  function TrimEnd(s: string): (r: string)
    ensures r <= s
    ensures r == "" || !IsSpace(r[|r| - 1])
  {
    if s != "" && IsSpace(s[|s| - 1]) then TrimEnd(s[..|s| - 1]) else s
  }

  function Trim(s: string): string {
    TrimEnd(TrimStart(s))
  }

  /** The two-character lookahead of the scanners. */
  predicate Begins(s: string, a: char, b: char) {
    |s| >= 2 && s[0] == a && s[1] == b
  }

  /** The scanners' one-character lookahead: nothing stands past the end. */
  predicate Peek(s: string, i: nat, c: char) {
    i < |s| && s[i] == c
  }

  /** Whether everything after the last newline of s is blank. */
  predicate LineIsBlank(s: string) {
    s == "" || s[|s| - 1] == '\n' || (IsSpace(s[|s| - 1]) && LineIsBlank(s[..|s| - 1]))
  }

  /** Every q doubled: how quotes are written inside quotes. */
  function Doubled(s: string, q: char): string {
    if s == "" then "" else (if s[0] == q then [q, q] else [s[0]]) + Doubled(s[1..], q)
  }

  // ---- Words ----------------------------------------------------------------------

  predicate IsWordChar(c: char) {
    'a' <= c <= 'z' || 'A' <= c <= 'Z' || '0' <= c <= '9' || c == '_'
  }

  predicate IsDigit(c: char) {
    '0' <= c <= '9'
  }

  function Upper(c: char): char {
    if 'a' <= c <= 'z' then c - 'a' + 'A' else c
  }

  /** The (upper-case) word w stands at i, in any case. */
  predicate WordAt(t: string, i: nat, w: string) {
    i + |w| <= |t| && forall k :: 0 <= k < |w| ==> Upper(t[i + k]) == w[k]
  }

  /** A word boundary, given that a word character follows. */
  predicate StartsWord(t: string, i: nat) {
    i == 0 || i > |t| || !IsWordChar(t[i - 1])
  }

  /** A word boundary, given that a word character precedes. */
  predicate BoundaryAt(t: string, i: nat) {
    i >= |t| || !IsWordChar(t[i])
  }

  function SkipSpaces(t: string, i: nat): (j: nat)
    requires i <= |t|
    ensures i <= j <= |t|
    decreases |t| - i
  {
    if i < |t| && IsSpace(t[i]) then SkipSpaces(t, i + 1) else i
  }

  // ---- Lemmas ---------------------------------------------------------------------

  lemma TrimStartBlank(a: string, s: string)
    requires IsBlank(a)
    ensures TrimStart(a + s) == TrimStart(s)
  {
    if a == "" {
      assert a + s == s;
    } else {
      assert (a + s)[1..] == a[1..] + s;
      TrimStartBlank(a[1..], s);
    }
  }

  lemma TrimStartSplit(s: string) returns (a: string)
    ensures s == a + TrimStart(s) && IsBlank(a)
  {
    if s != "" && IsSpace(s[0]) {
      var b := TrimStartSplit(s[1..]);
      a := [s[0]] + b;
    } else {
      a := "";
    }
  }

  lemma TrimEndSplit(s: string) returns (b: string)
    ensures s == TrimEnd(s) + b && IsBlank(b)
  {
    if s != "" && IsSpace(s[|s| - 1]) {
      var c := TrimEndSplit(s[..|s| - 1]);
      b := c + [s[|s| - 1]];
    } else {
      b := "";
    }
  }

  /** Trim cuts s into blank, core, blank; the core starts and ends with a non-space. */
  lemma TrimSplit(s: string) returns (a: string, b: string)
    ensures s == a + Trim(s) + b && IsBlank(a) && IsBlank(b)
    ensures Trim(s) != "" ==> !IsSpace(Trim(s)[0]) && !IsSpace(Trim(s)[|Trim(s)| - 1])
  {
    a := TrimStartSplit(s);
    b := TrimEndSplit(TrimStart(s));
    assert s == a + (Trim(s) + b);
  }

  /** Trimming a core wrapped in blanks recovers the core. */
  lemma TrimUnwrap(a: string, core: string, b: string)
    requires IsBlank(a) && IsBlank(b)
    requires core == "" || (!IsSpace(core[0]) && !IsSpace(core[|core| - 1]))
    ensures Trim(a + core + b) == core
  {
    assert a + core + b == a + (core + b);
    TrimStartBlank(a, core + b);
    if core == "" {
      assert core + b == b + "";
      TrimStartBlank(b, "");
    } else {
      assert (core + b)[0] == core[0];
      TrimEndBlank(core, b);
    }
  }

  lemma TrimEndBlank(s: string, b: string)
    requires IsBlank(b)
    ensures TrimEnd(s + b) == TrimEnd(s)
  {
    if b == "" {
      assert s + b == s;
    } else {
      assert (s + b)[..|s + b| - 1] == s + b[..|b| - 1];
      TrimEndBlank(s, b[..|b| - 1]);
    }
  }

  /** Blank text in front of s does not change whether its last line is blank. */
  lemma LineIsBlankPrefix(a: string, s: string)
    requires IsBlank(a)
    ensures LineIsBlank(a + s) <==> LineIsBlank(s)
    decreases |a| + |s|
  {
    if s == "" {
      assert a + s == a;
      if a != "" {
        var a' := a[..|a| - 1];
        LineIsBlankPrefix(a', "");
        assert a' + "" == a';
      }
    } else {
      assert (a + s)[..|a + s| - 1] == a + s[..|s| - 1];
      LineIsBlankPrefix(a, s[..|s| - 1]);
    }
  }

  /** A non-space on the current line keeps it from being blank until the next newline. */
  lemma LineNotBlank(s: string, t: string)
    requires '\n' !in t
    requires exists i :: 0 <= i < |t| && !IsSpace(t[i])
    ensures !LineIsBlank(s + t)
  {
    var t' := t[..|t| - 1];
    assert (s + t)[|s + t| - 1] == t[|t| - 1];
    if IsSpace(t[|t| - 1]) {
      var i :| 0 <= i < |t| && !IsSpace(t[i]);
      assert t'[i] == t[i];
      assert (s + t)[..|s + t| - 1] == s + t';
      LineNotBlank(s, t');
    }
  }

  lemma SliceSlice(s: string, n: nat, m: nat)
    requires n + m <= |s|
    ensures s[n..][m..] == s[n + m..]
    ensures s[..n] + s[n..][..m] == s[..n + m]
    ensures s[..n] + s[n..] == s
  {
  }

  lemma Assoc(a: string, b: string, c: string)
    ensures a + b + c == a + (b + c)
  {
  }

  lemma DoubledPlain(s: string, q: char)
    requires forall i :: 0 <= i < |s| ==> s[i] != q
    ensures Doubled(s, q) == s
  {
  }

  lemma SamePrefix(p: string, a: string, b: string)
    ensures p + a == p + b <==> a == b
  {
    if p + a == p + b {
      assert a == (p + a)[|p|..] == (p + b)[|p|..] == b;
    }
  }
}
