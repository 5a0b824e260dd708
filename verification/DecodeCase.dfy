/**
 * DECODE and NVL2 as CASE expressions (engine/src/oracle-shim/translator.ts), and what
 * the two mean: Oracle's DECODE takes two NULLs for equal, a CASE comparison does not.
 */
module DecodeCase {
  import opened Text
  import opened ArgLists

  // ---- The rewriting --------------------------------------------------------------

  datatype Pair = Pair(key: string, value: string)

  /** A DECODE call, its arguments trimmed. */
  datatype Decode = Decode(expr: string, pairs: seq<Pair>, otherwise: string)

  datatype Cond = IsNull(e: string) | IsNotNull(e: string) | Equal(e: string, key: string)

  datatype Branch = Branch(cond: Cond, value: string)

  datatype Case = Case(branches: seq<Branch>, otherwise: string)

  predicate IsNullKey(key: string) {
    |Trim(key)| == 4 && WordAt(Trim(key), 0, "NULL")
  }

  function PairsOf(rest: seq<string>): seq<Pair> {
    if |rest| < 2 then [] else [Pair(Trim(rest[0]), Trim(rest[1]))] + PairsOf(rest[2..])
  }

  /** An even number of arguments leaves one over, which is the default. */
  function DecodeOf(args: seq<string>): Decode
    requires |args| >= 3
  {
    var otherwise := if |args| % 2 == 0 then Trim(args[|args| - 1]) else "NULL";
    Decode(Trim(args[0]), PairsOf(args[1..]), otherwise)
  }

  function CondOf(expr: string, key: string): Cond {
    if IsNullKey(key) then IsNull(expr) else Equal(expr, key)
  }

  function BranchesOf(expr: string, pairs: seq<Pair>): (bs: seq<Branch>)
    ensures |bs| == |pairs|
  {
    seq(|pairs|, i requires 0 <= i < |pairs| => Branch(CondOf(expr, pairs[i].key), pairs[i].value))
  }

  function CaseOf(d: Decode): Case {
    Case(BranchesOf(d.expr, d.pairs), d.otherwise)
  }

  function Nvl2Case(a: string, b: string, c: string): Case {
    Case([Branch(IsNotNull(a), b)], c)
  }

  function CondText(c: Cond): string {
    match c
    case IsNull(e) => e + " IS NULL"
    case IsNotNull(e) => e + " IS NOT NULL"
    case Equal(e, key) => e + " = " + key
  }

  function BranchText(b: Branch): string {
    "WHEN " + CondText(b.cond) + " THEN " + b.value
  }

  /** Each branch followed by a space. */
  function BranchesText(bs: seq<Branch>): string {
    if bs == [] then "" else BranchesText(bs[..|bs| - 1]) + BranchText(bs[|bs| - 1]) + " "
  }

  function CaseText(c: Case): string {
    "CASE " + BranchesText(c.branches) + "ELSE " + c.otherwise + " END"
  }

  function DecodeText(argList: string): string {
    var args := Pieces(argList, 0, ',');
    if |args| < 3 then "DECODE(" + argList + ")" else CaseText(CaseOf(DecodeOf(args)))
  }

  function Nvl2Text(argList: string): string {
    var args := Pieces(argList, 0, ',');
    if |args| != 3 then "NVL2(" + argList + ")"
    else "(" + CaseText(Nvl2Case(Trim(args[0]), Trim(args[1]), Trim(args[2]))) + ")"
  }

  method DecodeCall(argList: string) returns (r: string)
    ensures r == DecodeText(argList)
  {
    hide BranchesText, BranchesOf, PairsOf, IsNullKey, Pieces, Trim;
    var args := SplitArgs(argList);
    if |args| < 3 {
      return "DECODE(" + argList + ")";
    }
    var expr := Trim(args[0]);
    var rest := args[1..];
    var elseClause := "NULL";
    if |rest| % 2 == 1 {
      elseClause := Trim(rest[|rest| - 1]);
      rest := rest[..|rest| - 1];
    }
    DecodeArgs(args, rest, elseClause);
    var whens := Whens(expr, rest);
    return "CASE " + whens + "ELSE " + elseClause + " END";
  }

  lemma DecodeArgs(args: seq<string>, rest: seq<string>, elseClause: string)
    requires |args| >= 3
    requires if |args| % 2 == 0 then rest == args[1..][..|args| - 2] && elseClause == Trim(args[1..][|args| - 2])
             else rest == args[1..] && elseClause == "NULL"
    ensures DecodeOf(args) == Decode(Trim(args[0]), PairsOf(rest), elseClause)
  {
    hide Trim, PairsOf;
    if |args| % 2 == 0 {
      PairsOfEven(args[1..]);
    }
  }

  /** The WHEN clauses, each followed by the space that the join puts after it. */
  method Whens(expr: string, rest: seq<string>) returns (whens: string)
    requires |rest| % 2 == 0
    ensures whens == BranchesText(BranchesOf(expr, PairsOf(rest)))
  {
    hide BranchText, IsNullKey, PairsOf, BranchesText, BranchesOf;
    whens := "";
    var i := 0;
    assert rest[0..] == rest;
    ghost var done: seq<Pair> := [];
    WhensBegin(expr);
    while i < |rest|
      invariant 0 <= i <= |rest| && i % 2 == 0
      invariant PairsOf(rest) == done + PairsOf(rest[i..])
      invariant whens == BranchesText(BranchesOf(expr, done))
    {
      var key := Trim(rest[i]);
      var val := Trim(rest[i + 1]);
      OnePairMore(rest, i, done);
      OneBranchMore(expr, done, Pair(key, val));
      done := done + [Pair(key, val)];
      if IsNullKey(key) {
        whens := whens + BranchText(Branch(IsNull(expr), val)) + " ";
      } else {
        whens := whens + BranchText(Branch(Equal(expr, key), val)) + " ";
      }
      i := i + 2;
    }
    WhensEnd(rest, i, done);
  }

  lemma WhensBegin(expr: string)
    ensures BranchesText(BranchesOf(expr, [])) == ""
  {
  }

  lemma WhensEnd(rest: seq<string>, i: nat, done: seq<Pair>)
    requires i == |rest|
    ensures done + PairsOf(rest[i..]) == done
  {
  }

  lemma OnePairMore(rest: seq<string>, i: nat, done: seq<Pair>)
    requires i + 2 <= |rest|
    ensures done + PairsOf(rest[i..]) == done + [Pair(Trim(rest[i]), Trim(rest[i + 1]))] + PairsOf(rest[i + 2..])
  {
    assert rest[i..][2..] == rest[i + 2..];
    hide Trim;
  }

  lemma OneBranchMore(expr: string, done: seq<Pair>, p: Pair)
    ensures BranchesText(BranchesOf(expr, done + [p]))
         == BranchesText(BranchesOf(expr, done)) + BranchText(Branch(CondOf(expr, p.key), p.value)) + " "
  {
    hide BranchText, CondOf;
    var bs := BranchesOf(expr, done + [p]);
    assert bs[..|bs| - 1] == BranchesOf(expr, done);
  }

  lemma {:induction false} PairsOfEven(rest: seq<string>)
    requires |rest| % 2 == 1
    ensures PairsOf(rest) == PairsOf(rest[..|rest| - 1])
  {
    hide Trim;
    if |rest| > 1 {
      var init := rest[..|rest| - 1];
      assert init[2..] == rest[2..][..|rest| - 3];
      assert init[0] == rest[0] && init[1] == rest[1];
      PairsOfEven(rest[2..]);
    }
  }

  method Nvl2Call(argList: string) returns (r: string)
    ensures r == Nvl2Text(argList)
  {
    var args := SplitArgs(argList);
    if |args| != 3 {
      return "NVL2(" + argList + ")";
    }
    var a, b, c := Trim(args[0]), Trim(args[1]), Trim(args[2]);
    Nvl2CaseText(a, b, c);
    return "(CASE WHEN " + a + " IS NOT NULL THEN " + b + " ELSE " + c + " END)";
  }

  lemma OneBranchText(b: Branch)
    ensures BranchesText([b]) == BranchText(b) + " "
  {
    hide BranchText;
    assert [b][..0] == [];
    assert BranchesText([]) == "";
    assert "" + BranchText(b) == BranchText(b);
  }

  lemma Nvl2CaseText(a: string, b: string, c: string)
    ensures "(" + CaseText(Nvl2Case(a, b, c)) + ")"
         == "(CASE WHEN " + a + " IS NOT NULL THEN " + b + " ELSE " + c + " END)"
  {
    hide BranchesText;
    OneBranchText(Branch(IsNotNull(a), b));
    var w := BranchText(Branch(IsNotNull(a), b));
    Nvl2BranchText(a, b);
    Nvl2Join("WHEN " + a + " IS NOT NULL THEN " + b, c);
    Nvl2Front(a, b);
    assert w == "WHEN " + a + " IS NOT NULL THEN " + b;
  }

  lemma Nvl2BranchText(a: string, b: string)
    ensures BranchText(Branch(IsNotNull(a), b)) == "WHEN " + a + " IS NOT NULL THEN " + b
  {
    Assoc("WHEN ", a, " IS NOT NULL");
    assert a + " IS NOT NULL" + " THEN " == a + " IS NOT NULL THEN ";
    assert "WHEN " + (a + " IS NOT NULL") + " THEN " == "WHEN " + a + " IS NOT NULL THEN ";
  }

  lemma Nvl2Front(a: string, b: string)
    ensures "(CASE " + ("WHEN " + a + " IS NOT NULL THEN " + b) == "(CASE WHEN " + a + " IS NOT NULL THEN " + b
  {
    Assoc("(CASE ", "WHEN ", a);
    Assoc("(CASE ", "WHEN " + a, " IS NOT NULL THEN ");
    Assoc("(CASE ", "WHEN " + a + " IS NOT NULL THEN ", b);
  }

  lemma Nvl2Join(w: string, c: string)
    ensures "(" + ("CASE " + (w + " ") + "ELSE " + c + " END") + ")" == "(CASE " + w + " ELSE " + c + " END)"
  {
    assert "(" + ("CASE " + (w + " ") + "ELSE " + c + " END") + ")" == "(CASE " + w + (" ELSE " + c + " END)");
    assert "(CASE " + w + " ELSE " + c + " END)" == "(CASE " + w + (" ELSE " + c + " END)");
  }

  // ---- Meaning --------------------------------------------------------------------

  datatype Value<V> = Null | Val(v: V)

  datatype Truth = True | False | Unknown

  /** SQL equality: with a NULL on either side it is unknown. */
  function SqlEquals<V(==)>(a: Value<V>, b: Value<V>): Truth {
    if a.Null? || b.Null? then Unknown else if a == b then True else False
  }

  function TruthOf<V(==)>(c: Cond, env: string -> Value<V>): Truth {
    match c
    case IsNull(e) => if env(e).Null? then True else False
    case IsNotNull(e) => if env(e).Null? then False else True
    case Equal(e, key) => SqlEquals(env(e), env(key))
  }

  /** The first branch from i on whose condition is true; the number of branches if none is. */
  function CaseBranch<V(==)>(c: Case, i: nat, env: string -> Value<V>): (r: nat)
    requires i <= |c.branches|
    ensures i <= r <= |c.branches|
    decreases |c.branches| - i
  {
    if i == |c.branches| || TruthOf(c.branches[i].cond, env) == True then i else CaseBranch(c, i + 1, env)
  }

  function CaseValue<V(==)>(c: Case, env: string -> Value<V>): Value<V> {
    var i := CaseBranch(c, 0, env);
    env(if i < |c.branches| then c.branches[i].value else c.otherwise)
  }

  /** Oracle's DECODE: the first key equal to the expression, two NULLs being equal. */
  function DecodeBranch<V(==)>(d: Decode, i: nat, env: string -> Value<V>): (r: nat)
    requires i <= |d.pairs|
    ensures i <= r <= |d.pairs|
    decreases |d.pairs| - i
  {
    if i == |d.pairs| || env(d.pairs[i].key) == env(d.expr) then i else DecodeBranch(d, i + 1, env)
  }

  function DecodeValue<V(==)>(d: Decode, env: string -> Value<V>): Value<V> {
    var i := DecodeBranch(d, 0, env);
    env(if i < |d.pairs| then d.pairs[i].value else d.otherwise)
  }

  /** Oracle's NVL2: the second argument unless the first is NULL, else the third. */
  function Nvl2Value<V>(a: Value<V>, b: Value<V>, c: Value<V>): Value<V> {
    match a
    case Val(_) => b
    case Null => c
  }

  /** The word NULL stands for NULL. */
  ghost predicate Sensible<V(!new)>(env: string -> Value<V>) {
    forall t :: IsNullKey(t) ==> env(t) == Null
  }

  /**
   * The expression is NULL and, before any key that is the word NULL, there is some other
   * key whose value is NULL.
   */
  predicate NullMeetsNull<V(==)>(d: Decode, i: nat, env: string -> Value<V>)
    requires i <= |d.pairs|
  {
    env(d.expr).Null? &&
    exists k :: i <= k < |d.pairs| && !IsNullKey(d.pairs[k].key) && env(d.pairs[k].key).Null?
      && forall j :: i <= j < k ==> !IsNullKey(d.pairs[j].key)
  }

  /**
   * The CASE takes the branch DECODE takes, except when a NULL expression meets a NULL key
   * that is not written as the word NULL; then it takes a later one.
   */
  lemma {:induction false} BranchesAgree<V(!new)>(d: Decode, i: nat, env: string -> Value<V>)
    requires i <= |d.pairs| && Sensible(env)
    ensures CaseBranch(CaseOf(d), i, env) == DecodeBranch(d, i, env) <==> !NullMeetsNull(d, i, env)
    ensures CaseBranch(CaseOf(d), i, env) >= DecodeBranch(d, i, env)
    decreases |d.pairs| - i
  {
    hide IsNullKey, CondOf;
    if i < |d.pairs| {
      var key := d.pairs[i].key;
      BranchesAgree(d, i + 1, env);
      BranchAgrees(d, i, env);
      if env(d.expr).Null? && env(key).Null? && !IsNullKey(key) {
        NullMeetsHere(d, i, env);
      } else if env(d.expr).Null? && IsNullKey(key) {
        NullKeyHere(d, i, env);
      } else {
        NullMeetsLater(d, i, env);
      }
    }
  }

  /** The condition of a branch is true just when the key matches, NULL on NULL apart. */
  lemma BranchAgrees<V(!new)>(d: Decode, i: nat, env: string -> Value<V>)
    requires i < |d.pairs| && Sensible(env)
    ensures var key := d.pairs[i].key;
      TruthOf(CaseOf(d).branches[i].cond, env) == True <==>
        env(key) == env(d.expr) && (env(d.expr).Null? ==> IsNullKey(key))
  {
    hide IsNullKey;
  }

  lemma NullMeetsHere<V>(d: Decode, i: nat, env: string -> Value<V>)
    requires i < |d.pairs| && env(d.expr).Null?
    requires !IsNullKey(d.pairs[i].key) && env(d.pairs[i].key).Null?
    ensures NullMeetsNull(d, i, env)
  {
    hide IsNullKey;
  }

  lemma NullKeyHere<V>(d: Decode, i: nat, env: string -> Value<V>)
    requires i < |d.pairs| && IsNullKey(d.pairs[i].key)
    ensures !NullMeetsNull(d, i, env)
  {
    hide IsNullKey;
  }

  lemma NullMeetsLater<V>(d: Decode, i: nat, env: string -> Value<V>)
    requires i < |d.pairs| && !(env(d.expr).Null? && IsNullKey(d.pairs[i].key))
    requires !(env(d.expr).Null? && env(d.pairs[i].key).Null?)
    ensures NullMeetsNull(d, i, env) <==> NullMeetsNull(d, i + 1, env)
  {
    hide IsNullKey;
    if NullMeetsNull(d, i + 1, env) {
      var k :| i + 1 <= k < |d.pairs| && !IsNullKey(d.pairs[k].key) && env(d.pairs[k].key).Null?
        && forall j :: i + 1 <= j < k ==> !IsNullKey(d.pairs[j].key);
      assert forall j :: i <= j < k ==> !IsNullKey(d.pairs[j].key);
    }
  }

  /** Where no NULL expression meets such a key, the emitted CASE means what DECODE means. */
  lemma CaseMeansDecode<V(!new)>(args: seq<string>, env: string -> Value<V>)
    requires |args| >= 3 && Sensible(env)
    ensures var d := DecodeOf(args);
      && (CaseBranch(CaseOf(d), 0, env) == DecodeBranch(d, 0, env) <==> !NullMeetsNull(d, 0, env))
      && (!NullMeetsNull(d, 0, env) ==> CaseValue(CaseOf(d), env) == DecodeValue(d, env))
  {
    BranchesAgree(DecodeOf(args), 0, env);
  }

  /** DECODE(a, b, 1, 0) with both a and b NULL is 1 in Oracle and 0 as a CASE. */
  lemma NullKeyIsMissed(env: string -> Value<int>)
    requires env("a") == Null && env("b") == Null && env("1") == Val(1) && env("0") == Val(0)
    ensures var d := DecodeOf(["a", "b", "1", "0"]);
      DecodeValue(d, env) == Val(1) && CaseValue(CaseOf(d), env) == Val(0)
  {
    TrimmedLetter("a");
    TrimmedLetter("b");
    TrimmedLetter("1");
    TrimmedLetter("0");
    var rest := ["b", "1", "0"];
    assert ["a", "b", "1", "0"][1..] == rest;
    assert rest[2..] == ["0"];
    assert PairsOf(rest) == [Pair("b", "1")];
  }

  lemma TrimmedLetter(s: string)
    requires |s| == 1 && !IsSpace(s[0])
    ensures Trim(s) == s
  {
  }

  lemma CaseMeansNvl2<V>(a: string, b: string, c: string, env: string -> Value<V>)
    ensures CaseValue(Nvl2Case(a, b, c), env) == Nvl2Value(env(a), env(b), env(c))
  {
    assert TruthOf(IsNotNull(a), env) == True <==> !env(a).Null?;
    assert CaseBranch(Nvl2Case(a, b, c), 1, env) == 1;
  }
}
