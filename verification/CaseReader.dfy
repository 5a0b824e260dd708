/**
 * The CASE expressions emitted for DECODE and NVL2
 * (engine/src/oracle-shim/translator.ts), read back from their text.
 */
module CaseReader {
  import opened Common
  import opened Text
  import opened ArgLists
  import opened DecodeCase

  /* The reader knows only words and keywords; what it finds is the CASE that DecodeCase judges. */

  // ---- Words ----------------------------------------------------------------------

  /** The words of a text: what stands between spaces outside parentheses. */
  function Words(t: string): (ws: seq<string>)
    ensures ws != []
  {
    Pieces(t, 0, ' ')
  }

  function Unwords(ws: seq<string>): string
    requires ws != []
  {
    Join(ws, ' ')
  }

  /** The keywords that an operand ends at. */
  const KEYWORDS := ["WHEN", "THEN", "ELSE", "END", "IS", "="]

  /** The word w is the keyword k, in any case. */
  predicate Spells(w: string, k: string) {
    |w| == |k| && WordAt(w, 0, k)
  }

  predicate IsKeyword(w: string) {
    exists k :: 0 <= k < |KEYWORDS| && Spells(w, KEYWORDS[k])
  }

  /** How many CASE are open after the word. */
  function Opened(w: string, d: nat): nat {
    if Spells(w, "CASE") then d + 1 else if Spells(w, "END") && d > 0 then d - 1 else d
  }

  /** Words read with d CASE open: every CASE has its END, and no other keyword is outside them. */
  predicate Nests(ws: seq<string>, d: nat) {
    if ws == [] then d == 0 else !(d == 0 && IsKeyword(ws[0])) && Nests(ws[1..], Opened(ws[0], d))
  }

  /** An operand: balanced, with no keyword outside parentheses and CASE expressions. */
  predicate IsOperand(t: string) {
    Balanced(t) && Nests(Words(t), 0)
  }

  // ---- The reader -----------------------------------------------------------------

  datatype Read<T> = Read(value: T, rest: seq<string>)

  /** Words up to the next keyword outside the d CASE that are open. */
  function OperandLen(ws: seq<string>, d: nat): (n: nat)
    ensures n <= |ws|
  {
    if ws == [] || (d == 0 && IsKeyword(ws[0])) then 0 else 1 + OperandLen(ws[1..], Opened(ws[0], d))
  }

  function ReadOperand(ws: seq<string>): Option<Read<string>> {
    var n := OperandLen(ws, 0);
    if n == 0 then None else Some(Read(Unwords(ws[..n]), ws[n..]))
  }

  function ReadCond(ws: seq<string>): Option<Read<Cond>> {
    match ReadOperand(ws)
    case None => None
    case Some(Read(e, rest)) =>
      if rest != [] && rest[0] == "=" then
        match ReadOperand(rest[1..])
        case None => None
        case Some(Read(key, rest')) => Some(Read(Equal(e, key), rest'))
      else if |rest| >= 2 && rest[..2] == ["IS", "NULL"] then Some(Read(IsNull(e), rest[2..]))
      else if |rest| >= 3 && rest[..3] == ["IS", "NOT", "NULL"] then Some(Read(IsNotNull(e), rest[3..]))
      else None
  }

  /** A branch, after its WHEN. */
  function ReadBranch(ws: seq<string>): Option<Read<Branch>> {
    match ReadCond(ws)
    case None => None
    case Some(Read(cond, rest)) =>
      if rest == [] || rest[0] != "THEN" then None
      else
        match ReadOperand(rest[1..])
        case None => None
        case Some(Read(value, rest')) => Some(Read(Branch(cond, value), rest'))
  }

  /** Branches, the ELSE and the END. */
  function ReadRest(ws: seq<string>): Option<Case>
    decreases |ws|
  {
    if ws == [] then None
    else if ws[0] == "WHEN" then
      match ReadBranch(ws[1..])
      case None => None
      case Some(Read(b, rest)) =>
        if |rest| >= |ws| then None
        else
          match ReadRest(rest)
          case None => None
          case Some(c) => Some(Case([b] + c.branches, c.otherwise))
    else if ws[0] == "ELSE" then
      match ReadOperand(ws[1..])
      case None => None
      case Some(Read(x, rest)) => if rest == ["END"] then Some(Case([], x)) else None
    else None
  }

  function ReadCase(t: string): Option<Case> {
    var ws := Words(t);
    if ws[0] == "CASE" then ReadRest(ws[1..]) else None
  }

  // ---- The words of an emitted CASE -----------------------------------------------

  predicate PlainCond(c: Cond) {
    match c
    case IsNull(e) => IsOperand(e)
    case IsNotNull(e) => IsOperand(e)
    case Equal(e, key) => IsOperand(e) && IsOperand(key)
  }

  predicate PlainBranch(b: Branch) {
    PlainCond(b.cond) && IsOperand(b.value)
  }

  predicate PlainCase(c: Case) {
    IsOperand(c.otherwise) && forall i :: 0 <= i < |c.branches| ==> PlainBranch(c.branches[i])
  }

  function CondWords(c: Cond): (ws: seq<string>)
    ensures ws != []
  {
    match c
    case IsNull(e) => Words(e) + ["IS", "NULL"]
    case IsNotNull(e) => Words(e) + ["IS", "NOT", "NULL"]
    case Equal(e, key) => Words(e) + (["="] + Words(key))
  }

  function BranchWords(b: Branch): (ws: seq<string>)
    ensures |ws| > 1
  {
    ["WHEN"] + (CondWords(b.cond) + (["THEN"] + Words(b.value)))
  }

  /** The words of the branches, and then some. */
  function BranchesWords(bs: seq<Branch>, last: seq<string>): (ws: seq<string>)
    ensures |ws| >= |last|
    decreases |bs|
  {
    if bs == [] then last else BranchWords(bs[0]) + BranchesWords(bs[1..], last)
  }

  function CaseWords(c: Case): seq<string> {
    ["CASE"] + BranchesWords(c.branches, ["ELSE"] + (Words(c.otherwise) + ["END"]))
  }

  lemma {:induction false} UnwordsConcat(a: seq<string>, b: seq<string>)
    requires a != [] && b != []
    ensures Unwords(a + b) == Unwords(a) + (" " + Unwords(b))
  {
    if |a| > 1 {
      assert (a + b)[1..] == a[1..] + b;
      UnwordsConcat(a[1..], b);
      Assoc([' '], Unwords(a[1..]), " " + Unwords(b));
      Assoc(a[0], [' '] + Unwords(a[1..]), " " + Unwords(b));
    } else {
      assert a == [a[0]] && (a + b)[1..] == b;
    }
  }

  lemma WordsOf(t: string)
    requires Balanced(t)
    ensures Unwords(Words(t)) == t && AreParts(Words(t), ' ')
  {
    SplitIsUnique(t, Words(t), ' ');
  }

  lemma OneWord(w: string)
    ensures Unwords([w]) == w
  {
  }

  lemma CondWordsText(c: Cond)
    requires PlainCond(c)
    ensures Unwords(CondWords(c)) == CondText(c)
  {
    hide Words, Unwords, Nests;
    match c
    case IsNull(e) =>
      WordsOf(e);
      OneWord("IS");
      OneWord("NULL");
      UnwordsConcat(["IS"], ["NULL"]);
      assert ["IS"] + ["NULL"] == ["IS", "NULL"] && " " + ("IS" + (" " + "NULL")) == " IS NULL";
      UnwordsConcat(Words(e), ["IS", "NULL"]);
    case IsNotNull(e) =>
      WordsOf(e);
      OneWord("IS");
      OneWord("NOT");
      OneWord("NULL");
      UnwordsConcat(["NOT"], ["NULL"]);
      UnwordsConcat(["IS"], ["NOT"] + ["NULL"]);
      assert ["IS"] + (["NOT"] + ["NULL"]) == ["IS", "NOT", "NULL"];
      assert " " + ("IS" + (" " + ("NOT" + (" " + "NULL")))) == " IS NOT NULL";
      UnwordsConcat(Words(e), ["IS", "NOT", "NULL"]);
    case Equal(e, key) =>
      WordsOf(e);
      WordsOf(key);
      OneWord("=");
      UnwordsConcat(["="], Words(key));
      UnwordsConcat(Words(e), ["="] + Words(key));
      assert e + (" " + ("=" + (" " + key))) == e + " = " + key;
  }

  lemma BranchWordsText(b: Branch)
    requires PlainBranch(b)
    ensures Unwords(BranchWords(b)) == BranchText(b)
  {
    hide Words, Unwords, CondWords, CondText, PlainCond, Nests;
    CondWordsText(b.cond);
    WordsOf(b.value);
    OneWord("WHEN");
    OneWord("THEN");
    UnwordsConcat(["THEN"], Words(b.value));
    UnwordsConcat(CondWords(b.cond), ["THEN"] + Words(b.value));
    UnwordsConcat(["WHEN"], CondWords(b.cond) + (["THEN"] + Words(b.value)));
    var c, v := CondText(b.cond), b.value;
    assert "WHEN" + (" " + (c + (" " + ("THEN" + (" " + v))))) == "WHEN " + c + " THEN " + v;
  }

  lemma {:induction false} BranchesTextCons(b: Branch, bs: seq<Branch>)
    ensures BranchesText([b] + bs) == BranchText(b) + " " + BranchesText(bs)
  {
    hide BranchText;
    if bs == [] {
      assert [b] + bs == [b];
      OneBranchText(b);
    } else {
      var n := |bs| - 1;
      assert ([b] + bs)[..|bs|] == [b] + bs[..n];
      BranchesTextCons(b, bs[..n]);
      Assoc(BranchText(b) + " ", BranchesText(bs[..n]), BranchText(bs[n]) + " ");
      Assoc(BranchesText(bs[..n]), BranchText(bs[n]), " ");
      Assoc(BranchesText([b] + bs[..n]), BranchText(bs[n]), " ");
    }
  }

  lemma {:induction false} BranchesWordsText(bs: seq<Branch>, last: seq<string>)
    requires last != [] && forall i :: 0 <= i < |bs| ==> PlainBranch(bs[i])
    ensures BranchesWords(bs, last) != []
    ensures Unwords(BranchesWords(bs, last)) == BranchesText(bs) + Unwords(last)
  {
    hide Unwords, BranchWords, BranchText, PlainBranch;
    if bs != [] {
      BranchesWordsText(bs[1..], last);
      BranchWordsText(bs[0]);
      UnwordsConcat(BranchWords(bs[0]), BranchesWords(bs[1..], last));
      assert bs == [bs[0]] + bs[1..];
      BranchesTextCons(bs[0], bs[1..]);
      Assoc(BranchText(bs[0]), " ", BranchesText(bs[1..]));
      Assoc(" ", BranchesText(bs[1..]), Unwords(last));
      Assoc(BranchText(bs[0]), " " + BranchesText(bs[1..]), Unwords(last));
    }
  }

  lemma CaseWordsText(c: Case)
    requires PlainCase(c)
    ensures Unwords(CaseWords(c)) == CaseText(c)
  {
    hide Unwords, Words, BranchesWords, BranchesText, PlainBranch, Nests;
    var last := ["ELSE"] + (Words(c.otherwise) + ["END"]);
    BranchesWordsText(c.branches, last);
    WordsOf(c.otherwise);
    OneWord("CASE");
    OneWord("ELSE");
    OneWord("END");
    UnwordsConcat(Words(c.otherwise), ["END"]);
    UnwordsConcat(["ELSE"], Words(c.otherwise) + ["END"]);
    UnwordsConcat(["CASE"], BranchesWords(c.branches, last));
    var bs, x := BranchesText(c.branches), c.otherwise;
    assert "CASE" + (" " + (bs + ("ELSE" + (" " + (x + (" " + "END")))))) == "CASE " + bs + "ELSE " + x + " END";
  }

  // ---- All of them are words ------------------------------------------------------

  predicate IsBareWord(w: string) {
    forall k :: 0 <= k < |w| ==> w[k] != '(' && w[k] != ')' && w[k] != ' '
  }

  lemma {:induction false} BareWordIsPart(w: string)
    requires IsBareWord(w)
    ensures IsPart(w, ' ')
  {
    if w != "" {
      BareWordIsPart(w[1..]);
    }
  }

  lemma PartsConcat(a: seq<string>, b: seq<string>)
    requires AreParts(a, ' ') && AreParts(b, ' ')
    ensures AreParts(a + b, ' ')
  {
  }

  lemma BareWords(ws: seq<string>)
    requires forall i :: 0 <= i < |ws| ==> IsBareWord(ws[i])
    ensures AreParts(ws, ' ')
  {
    forall i | 0 <= i < |ws|
      ensures IsPart(ws[i], ' ')
    {
      BareWordIsPart(ws[i]);
    }
  }

  lemma BranchWordsAreParts(b: Branch)
    requires PlainBranch(b)
    ensures AreParts(BranchWords(b), ' ')
  {
    hide Words, AreParts, IsPart, Nests;
    CondWordsAreParts(b.cond);
    WordsOf(b.value);
    BareWords(["THEN"]);
    BareWords(["WHEN"]);
    PartsConcat(["THEN"], Words(b.value));
    PartsConcat(CondWords(b.cond), ["THEN"] + Words(b.value));
    PartsConcat(["WHEN"], CondWords(b.cond) + (["THEN"] + Words(b.value)));
  }

  lemma CondWordsAreParts(c: Cond)
    requires PlainCond(c)
    ensures AreParts(CondWords(c), ' ')
  {
    hide Words, AreParts, IsPart, Nests;
    match c
    case IsNull(e) =>
      WordsOf(e);
      BareWords(["IS", "NULL"]);
      PartsConcat(Words(e), ["IS", "NULL"]);
    case IsNotNull(e) =>
      WordsOf(e);
      BareWords(["IS", "NOT", "NULL"]);
      PartsConcat(Words(e), ["IS", "NOT", "NULL"]);
    case Equal(e, key) =>
      WordsOf(e);
      WordsOf(key);
      BareWords(["="]);
      PartsConcat(["="], Words(key));
      PartsConcat(Words(e), ["="] + Words(key));
  }

  lemma {:induction false} BranchesWordsAreParts(bs: seq<Branch>, last: seq<string>)
    requires AreParts(last, ' ') && forall i :: 0 <= i < |bs| ==> PlainBranch(bs[i])
    ensures AreParts(BranchesWords(bs, last), ' ')
  {
    hide BranchWords, AreParts, PlainBranch;
    if bs != [] {
      BranchWordsAreParts(bs[0]);
      BranchesWordsAreParts(bs[1..], last);
      PartsConcat(BranchWords(bs[0]), BranchesWords(bs[1..], last));
    }
  }

  lemma CaseTextWords(c: Case)
    requires PlainCase(c)
    ensures Balanced(CaseText(c)) && Words(CaseText(c)) == CaseWords(c)
  {
    hide AreParts, IsPart, BranchesWords, PlainBranch, CaseText, Nests, Pieces, Join;
    var last := ["ELSE"] + (Words(c.otherwise) + ["END"]);
    WordsOf(c.otherwise);
    BareWords(["ELSE"]);
    BareWords(["END"]);
    BareWords(["CASE"]);
    PartsConcat(Words(c.otherwise), ["END"]);
    PartsConcat(["ELSE"], Words(c.otherwise) + ["END"]);
    BranchesWordsAreParts(c.branches, last);
    PartsConcat(["CASE"], BranchesWords(c.branches, last));
    CaseWordsText(c);
    JoinBalanced(CaseWords(c), ' ');
    SplitIsUnique(CaseText(c), CaseWords(c), ' ');
  }

  // ---- Reading them back ----------------------------------------------------------

  lemma {:induction false} OperandLenIs(ws: seq<string>, d: nat, rest: seq<string>)
    requires Nests(ws, d) && rest != [] && IsKeyword(rest[0])
    ensures OperandLen(ws + rest, d) == |ws|
  {
    hide IsKeyword, Opened;
    if ws == [] {
      assert ws + rest == rest;
    } else {
      assert (ws + rest)[1..] == ws[1..] + rest;
      OperandLenIs(ws[1..], Opened(ws[0], d), rest);
    }
  }

  lemma OperandReadsBack(e: string, rest: seq<string>)
    requires IsOperand(e) && rest != [] && IsKeyword(rest[0])
    ensures ReadOperand(Words(e) + rest) == Some(Read(e, rest))
  {
    hide Words, Unwords, IsKeyword;
    OperandLenIs(Words(e), 0, rest);
    WordsOf(e);
    assert (Words(e) + rest)[..|Words(e)|] == Words(e) && (Words(e) + rest)[|Words(e)|..] == rest;
  }

  lemma Keywords()
    ensures IsKeyword("WHEN") && IsKeyword("THEN") && IsKeyword("ELSE") && IsKeyword("END")
    ensures IsKeyword("IS") && IsKeyword("=")
  {
    hide IsKeyword;
    KeywordIs(0, "WHEN");
    KeywordIs(1, "THEN");
    KeywordIs(2, "ELSE");
    KeywordIs(3, "END");
    KeywordIs(4, "IS");
    KeywordIs(5, "=");
  }

  lemma KeywordIs(k: nat, w: string)
    requires k < |KEYWORDS| && KEYWORDS[k] == w
    ensures IsKeyword(w)
  {
    assert Spells(w, KEYWORDS[k]);
  }

  lemma CondReadsBack(c: Cond, rest: seq<string>)
    requires PlainCond(c) && rest != [] && rest[0] == "THEN"
    ensures ReadCond(CondWords(c) + rest) == Some(Read(c, rest))
  {
    hide Words, IsKeyword, IsOperand, ReadCond;
    Keywords();
    match c
    case IsNull(e) =>
      var tail := ["IS", "NULL"] + rest;
      assert CondWords(c) + rest == Words(e) + tail;
      OperandReadsBack(e, tail);
      assert tail[..2] == ["IS", "NULL"] && tail[2..] == rest;
      ReadIsNull(Words(e) + tail, e, tail);
    case IsNotNull(e) =>
      var tail := ["IS", "NOT", "NULL"] + rest;
      assert CondWords(c) + rest == Words(e) + tail;
      OperandReadsBack(e, tail);
      assert tail[..3] == ["IS", "NOT", "NULL"] && tail[3..] == rest;
      ReadIsNotNull(Words(e) + tail, e, tail);
    case Equal(e, key) =>
      var tail := ["="] + (Words(key) + rest);
      assert CondWords(c) + rest == Words(e) + tail;
      OperandReadsBack(e, tail);
      assert tail[1..] == Words(key) + rest;
      OperandReadsBack(key, rest);
      ReadEqual(Words(e) + tail, e, tail, key, rest);
  }

  lemma ReadIsNull(ws: seq<string>, e: string, tail: seq<string>)
    requires ReadOperand(ws) == Some(Read(e, tail)) && |tail| >= 2 && tail[..2] == ["IS", "NULL"]
    ensures ReadCond(ws) == Some(Read(IsNull(e), tail[2..]))
  {
    hide ReadOperand;
    assert tail[0] == tail[..2][0];
  }

  lemma ReadIsNotNull(ws: seq<string>, e: string, tail: seq<string>)
    requires ReadOperand(ws) == Some(Read(e, tail)) && |tail| >= 3 && tail[..3] == ["IS", "NOT", "NULL"]
    ensures ReadCond(ws) == Some(Read(IsNotNull(e), tail[3..]))
  {
    hide ReadOperand;
    assert tail[0] == tail[..3][0] && tail[..2][1] == tail[..3][1];
  }

  lemma ReadEqual(ws: seq<string>, e: string, tail: seq<string>, key: string, rest: seq<string>)
    requires ReadOperand(ws) == Some(Read(e, tail)) && tail != [] && tail[0] == "="
    requires ReadOperand(tail[1..]) == Some(Read(key, rest))
    ensures ReadCond(ws) == Some(Read(Equal(e, key), rest))
  {
    hide ReadOperand;
  }

  lemma BranchReadsBack(b: Branch, rest: seq<string>)
    requires PlainBranch(b) && rest != [] && IsKeyword(rest[0])
    ensures ReadBranch(BranchWords(b)[1..] + rest) == Some(Read(b, rest))
  {
    hide Words, IsKeyword, IsOperand, ReadOperand, ReadCond, CondWords, PlainCond;
    var tail := ["THEN"] + (Words(b.value) + rest);
    assert BranchWords(b)[1..] + rest == CondWords(b.cond) + tail;
    CondReadsBack(b.cond, tail);
    assert tail[1..] == Words(b.value) + rest;
    OperandReadsBack(b.value, rest);
  }

  lemma {:induction false} BranchesReadBack(bs: seq<Branch>, last: seq<string>, otherwise: string)
    requires forall i :: 0 <= i < |bs| ==> PlainBranch(bs[i])
    requires last != [] && IsKeyword(last[0]) && ReadRest(last) == Some(Case([], otherwise))
    ensures var ws := BranchesWords(bs, last);
      ws != [] && IsKeyword(ws[0]) && ReadRest(ws) == Some(Case(bs, otherwise))
  {
    hide IsKeyword, ReadBranch, PlainBranch, ReadRest, BranchWords;
    if bs != [] {
      Keywords();
      var words, rest := BranchWords(bs[0]), BranchesWords(bs[1..], last);
      BranchesReadBack(bs[1..], last, otherwise);
      BranchReadsBack(bs[0], rest);
      StartsWithWhen(bs[0]);
      var ws := words + rest;
      assert ws[0] == words[0] && ws[1..] == words[1..] + rest;
      ReadWhen(ws, bs[0], rest, Case(bs[1..], otherwise));
      assert [bs[0]] + bs[1..] == bs;
    }
  }

  lemma StartsWithWhen(b: Branch)
    ensures BranchWords(b)[0] == "WHEN"
  {
  }

  lemma RestReadsBack(bs: seq<Branch>, otherwise: string)
    requires IsOperand(otherwise) && forall i :: 0 <= i < |bs| ==> PlainBranch(bs[i])
    ensures ReadRest(BranchesWords(bs, ["ELSE"] + (Words(otherwise) + ["END"]))) == Some(Case(bs, otherwise))
  {
    hide Words, IsKeyword, IsOperand, ReadRest, PlainBranch, BranchesWords;
    Keywords();
    var last := ["ELSE"] + (Words(otherwise) + ["END"]);
    assert last[1..] == Words(otherwise) + ["END"];
    OperandReadsBack(otherwise, ["END"]);
    ReadElse(last, otherwise);
    BranchesReadBack(bs, last, otherwise);
  }

  lemma ReadElse(ws: seq<string>, x: string)
    requires ws != [] && ws[0] == "ELSE" && ReadOperand(ws[1..]) == Some(Read(x, ["END"]))
    ensures ReadRest(ws) == Some(Case([], x))
  {
    hide ReadOperand;
  }

  lemma ReadWhen(ws: seq<string>, b: Branch, rest: seq<string>, c: Case)
    requires ws != [] && ws[0] == "WHEN" && ReadBranch(ws[1..]) == Some(Read(b, rest)) && |rest| < |ws|
    requires ReadRest(rest) == Some(c)
    ensures ReadRest(ws) == Some(Case([b] + c.branches, c.otherwise))
  {
    hide ReadBranch;
  }

  /** Reading an emitted CASE gives back the CASE it was printed from. */
  lemma CaseReadsBack(c: Case)
    requires PlainCase(c)
    ensures ReadCase(CaseText(c)) == Some(c)
  {
    hide Words, CaseText, IsOperand, PlainBranch, ReadRest, BranchesWords;
    CaseTextWords(c);
    RestReadsBack(c.branches, c.otherwise);
    assert CaseWords(c)[1..] == BranchesWords(c.branches, ["ELSE"] + (Words(c.otherwise) + ["END"]));
  }

  // ---- An emitted CASE as an operand ----------------------------------------------

  lemma {:induction false} OperandNests(ws: seq<string>, d: nat, k: nat, rest: seq<string>)
    requires Nests(ws, d) && k > 0
    ensures Nests(ws + rest, d + k) <==> Nests(rest, k)
  {
    hide IsKeyword, Spells;
    if ws == [] {
      assert ws + rest == rest;
    } else {
      assert (ws + rest)[1..] == ws[1..] + rest;
      EndIsKeyword(ws[0]);
      OperandNests(ws[1..], Opened(ws[0], d), k, rest);
    }
  }

  lemma EndIsKeyword(w: string)
    ensures Spells(w, "END") ==> IsKeyword(w)
    ensures Spells(w, "CASE") ==> !Spells(w, "END")
  {
    assert KEYWORDS[3] == "END";
  }

  lemma WordNests(w: string, rest: seq<string>)
    requires !Spells(w, "CASE") && !Spells(w, "END")
    ensures Nests([w] + rest, 1) <==> Nests(rest, 1)
  {
    hide IsKeyword, Spells;
    assert ([w] + rest)[1..] == rest;
  }

  lemma InnerWords(w: string)
    requires w in ["IS", "NOT", "NULL", "=", "WHEN", "THEN"]
    ensures !Spells(w, "CASE") && !Spells(w, "END")
  {
    NotSpelled(w, "CASE");
    NotSpelled(w, "END");
  }

  lemma NotSpelled(w: string, k: string)
    requires k != "" && (w == "" || Upper(w[0]) != k[0])
    ensures !Spells(w, k)
  {
    if w != "" {
      assert Upper(w[0 + 0]) != k[0];
    }
  }

  lemma InnerNests(w: string, rest: seq<string>)
    requires w in ["IS", "NOT", "NULL", "=", "WHEN", "THEN"]
    ensures Nests([w] + rest, 1) <==> Nests(rest, 1)
  {
    hide Nests, Spells;
    InnerWords(w);
    WordNests(w, rest);
  }

  lemma CondNests(c: Cond, rest: seq<string>)
    requires PlainCond(c)
    ensures Nests(CondWords(c) + rest, 1) <==> Nests(rest, 1)
  {
    hide Nests, Words;
    match c
    case IsNull(e) =>
      InnerNests("NULL", rest);
      InnerNests("IS", ["NULL"] + rest);
      OperandNests(Words(e), 0, 1, ["IS"] + (["NULL"] + rest));
      assert CondWords(c) + rest == Words(e) + (["IS"] + (["NULL"] + rest));
    case IsNotNull(e) =>
      InnerNests("NULL", rest);
      InnerNests("NOT", ["NULL"] + rest);
      InnerNests("IS", ["NOT"] + (["NULL"] + rest));
      OperandNests(Words(e), 0, 1, ["IS"] + (["NOT"] + (["NULL"] + rest)));
      assert CondWords(c) + rest == Words(e) + (["IS"] + (["NOT"] + (["NULL"] + rest)));
    case Equal(e, key) =>
      OperandNests(Words(key), 0, 1, rest);
      InnerNests("=", Words(key) + rest);
      OperandNests(Words(e), 0, 1, ["="] + (Words(key) + rest));
      assert CondWords(c) + rest == Words(e) + (["="] + (Words(key) + rest));
  }

  lemma BranchNests(b: Branch, rest: seq<string>)
    requires PlainBranch(b)
    ensures Nests(BranchWords(b) + rest, 1) <==> Nests(rest, 1)
  {
    hide Nests, Words, CondWords;
    OperandNests(Words(b.value), 0, 1, rest);
    InnerNests("THEN", Words(b.value) + rest);
    CondNests(b.cond, ["THEN"] + (Words(b.value) + rest));
    InnerNests("WHEN", CondWords(b.cond) + (["THEN"] + (Words(b.value) + rest)));
    assert BranchWords(b) + rest == ["WHEN"] + (CondWords(b.cond) + (["THEN"] + (Words(b.value) + rest)));
  }

  lemma {:induction false} BranchesNest(bs: seq<Branch>, last: seq<string>)
    requires forall i :: 0 <= i < |bs| ==> PlainBranch(bs[i])
    ensures Nests(BranchesWords(bs, last), 1) <==> Nests(last, 1)
  {
    hide Nests, BranchWords, PlainBranch;
    if bs != [] {
      BranchesNest(bs[1..], last);
      BranchNests(bs[0], BranchesWords(bs[1..], last));
    }
  }

  /** An emitted CASE can be an operand of another one. */
  lemma CaseIsOperand(c: Case)
    requires PlainCase(c)
    ensures IsOperand(CaseText(c))
  {
    hide Nests, Words, BranchesWords, CaseText, PlainBranch, Spells;
    CaseTextWords(c);
    var tail := ["ELSE"] + (Words(c.otherwise) + ["END"]);
    EndCloses();
    OperandNests(Words(c.otherwise), 0, 1, ["END"]);
    ElseIsInner();
    WordNests("ELSE", Words(c.otherwise) + ["END"]);
    BranchesNest(c.branches, tail);
    CaseOpens(BranchesWords(c.branches, tail));
  }

  lemma ElseIsInner()
    ensures !Spells("ELSE", "CASE") && !Spells("ELSE", "END")
  {
    NotSpelled("ELSE", "CASE");
  }

  lemma EndCloses()
    ensures Nests(["END"], 1)
  {
    NotSpelled("END", "CASE");
    assert Spells("END", "END");
    assert Nests([], 0);
    assert ["END"][1..] == [];
  }

  lemma CaseOpens(rest: seq<string>)
    requires Nests(rest, 1)
    ensures Nests(["CASE"] + rest, 0)
  {
    hide IsKeyword;
    CaseIsNoKeyword();
    assert (["CASE"] + rest)[1..] == rest;
    assert Opened("CASE", 0) == 1;
  }

  lemma CaseIsNoKeyword()
    ensures !IsKeyword("CASE") && Spells("CASE", "CASE")
  {
    hide Spells;
    CaseSpelled();
    forall k | 0 <= k < |KEYWORDS|
      ensures !Spells("CASE", KEYWORDS[k])
    {
      NotSpelled("CASE", KEYWORDS[k]);
    }
  }

  lemma CaseSpelled()
    ensures Spells("CASE", "CASE")
  {
  }

  // ---- The emitted text means what the call means ---------------------------------

  predicate PlainDecode(d: Decode) {
    && IsOperand(d.expr) && IsOperand(d.otherwise)
    && forall i :: 0 <= i < |d.pairs| ==> IsOperand(d.pairs[i].key) && IsOperand(d.pairs[i].value)
  }

  /**
   * The text emitted for a DECODE call reads as a CASE that takes the branch DECODE takes,
   * and has its value, unless a NULL expression meets a NULL key not written as NULL.
   */
  lemma DecodeTextMeansDecode<V(!new)>(argList: string, env: string -> Value<V>)
    requires |Pieces(argList, 0, ',')| >= 3 && Sensible(env)
    requires PlainDecode(DecodeOf(Pieces(argList, 0, ',')))
    ensures var d := DecodeOf(Pieces(argList, 0, ','));
      var read := ReadCase(DecodeText(argList));
      && read.Some? && |read.value.branches| == |d.pairs|
      && (CaseBranch(read.value, 0, env) == DecodeBranch(d, 0, env) <==> !NullMeetsNull(d, 0, env))
      && (!NullMeetsNull(d, 0, env) ==> CaseValue(read.value, env) == DecodeValue(d, env))
  {
    hide IsOperand, CaseText, ReadCase, NullMeetsNull, CaseBranch, DecodeBranch, Pieces, DecodeOf, IsNullKey;
    var args := Pieces(argList, 0, ',');
    CaseReadsBack(CaseOf(DecodeOf(args)));
    CaseMeansDecode(args, env);
  }

  /** The text emitted for NVL2, inside its parentheses, reads as a CASE with the value of NVL2. */
  lemma Nvl2TextMeansNvl2<V>(argList: string, env: string -> Value<V>)
    requires var args := Pieces(argList, 0, ',');
      |args| == 3 && IsOperand(Trim(args[0])) && IsOperand(Trim(args[1])) && IsOperand(Trim(args[2]))
    ensures var args := Pieces(argList, 0, ',');
      var text := Nvl2Text(argList);
      && |text| >= 2 && text[0] == '(' && text[|text| - 1] == ')'
      && var read := ReadCase(text[1..|text| - 1]);
      && read.Some?
      && CaseValue(read.value, env) == Nvl2Value(env(Trim(args[0])), env(Trim(args[1])), env(Trim(args[2])))
  {
    hide IsOperand, CaseText, ReadCase, CaseValue, Pieces;
    var args := Pieces(argList, 0, ',');
    var a, b, c := Trim(args[0]), Trim(args[1]), Trim(args[2]);
    var text := "(" + CaseText(Nvl2Case(a, b, c)) + ")";
    assert text[1..|text| - 1] == CaseText(Nvl2Case(a, b, c));
    CaseReadsBack(Nvl2Case(a, b, c));
    CaseMeansNvl2(a, b, c, env);
  }
}
