/**
 * The audit log's HMAC chain (src-tauri/src/commands.rs): what the verifier accepts, and
 * why that is sound. The HMAC is an ideal tag of (previous hash, body).
 */
module AuditChain {
  import opened Common

  /* A body is a JSON object, its serialisation part of the tag function; a line is what it decrypts to. */

  datatype Json = Str(s: string) | Other(text: string)

  type Body = map<string, Json>

  datatype Line = Blank | Garbled | Object(fields: Body)

  type Mac = (string, Body) -> string

  const GENESIS := "genesis"

  /** Tags determine what they were made from, and are never a start marker. */
  ghost predicate IdealMac(mac: Mac) {
    && (forall p, b, p', b' :: mac(p, b) == mac(p', b') ==> p == p' && b == b')
    && (forall p, b :: mac(p, b) != GENESIS && mac(p, b) != "")
  }

  // ---- The verifier ---------------------------------------------------------------

  /** A line that carries both chain fields. */
  datatype Entry = Entry(prev: string, body: Body, tag: string)

  predicate IsChained(l: Line) {
    && l.Object?
    && "hmac" in l.fields && l.fields["hmac"].Str?
    && "prevHash" in l.fields && l.fields["prevHash"].Str?
  }

  function EntryOf(l: Line): Entry
    requires IsChained(l)
  {
    Entry(l.fields["prevHash"].s, l.fields - {"hmac", "prevHash"}, l.fields["hmac"].s)
  }

  /** The HMAC-carrying lines of a file. */
  function Entries(lines: seq<Line>): seq<Entry> {
    if lines == [] then []
    else
      var k := |lines| - 1;
      Entries(lines[..k]) + (if IsChained(lines[k]) then [EntryOf(lines[k])] else [])
  }

  datatype Reason = PrevHashMismatch | HmacMismatch

  datatype Verdict = Verdict(ok: bool, checked: nat, skippedLegacy: nat, subChains: nat, brokenAt: Option<Broken>)

  datatype Broken = Broken(index: nat, reason: Reason)

  function Genuine(e: Entry, mac: Mac): bool {
    e.tag == mac(e.prev, e.body)
  }

  /** The tag the next entry must name, unless it starts a sub-chain. */
  function LastTag(es: seq<Entry>): string {
    if es == [] then "" else es[|es| - 1].tag
  }

  /** Every entry is genuine and starts a sub-chain or follows the entry before it. */
  predicate Linked(es: seq<Entry>, mac: Mac) {
    forall i :: 0 <= i < |es| ==> Genuine(es[i], mac) && Follows(es, i)
  }

  predicate Follows(es: seq<Entry>, i: nat)
    requires i < |es|
  {
    es[i].prev == GENESIS || es[i].prev == LastTag(es[..i])
  }

  function Starts(es: seq<Entry>): nat {
    if es == [] then 0
    else Starts(es[..|es| - 1]) + (if es[|es| - 1].prev == GENESIS then 1 else 0)
  }

  function Legacy(lines: seq<Line>): nat {
    if lines == [] then 0
    else
      var k := |lines| - 1;
      Legacy(lines[..k]) + (if lines[k].Object? && !IsChained(lines[k]) then 1 else 0)
  }

  /** The n-th chained entry is the first that does not verify, for the given reason. */
  predicate BreaksAt(es: seq<Entry>, n: nat, reason: Reason, mac: Mac) {
    && n < |es| && Linked(es[..n], mac)
    && (if Follows(es, n) then reason == HmacMismatch && !Genuine(es[n], mac) else reason == PrevHashMismatch)
  }

  /** Lines that are not blank. */
  function NonBlank(lines: seq<Line>): nat {
    if lines == [] then 0 else NonBlank(lines[..|lines| - 1]) + (if lines[|lines| - 1].Blank? then 0 else 1)
  }

  /** What is reported when the i-th line is the first that breaks the chain. */
  function BrokenAt(lines: seq<Line>, i: nat, reason: Reason): Verdict
    requires i < |lines| && IsChained(lines[i])
  {
    var es := Entries(lines[..i]);
    Verdict(false, |es|, Legacy(lines[..i]),
            Starts(es) + (if EntryOf(lines[i]).prev == GENESIS then 1 else 0),
            Some(Broken(NonBlank(lines[..i]), reason)))
  }

  /** verify_chain_file, on the decrypted lines. */
  method VerifyChainFile(lines: seq<Line>, mac: Mac) returns (v: Verdict)
    ensures v.ok <==> Linked(Entries(lines), mac)
    ensures v.ok ==> v == Verdict(true, |Entries(lines)|, Legacy(lines), Starts(Entries(lines)), None)
    ensures !v.ok ==> v.brokenAt.Some? && BreaksAt(Entries(lines), v.checked, v.brokenAt.value.reason, mac)
    ensures !v.ok ==>
      exists i :: 0 <= i < |lines| && IsChained(lines[i]) && v == BrokenAt(lines, i, v.brokenAt.value.reason)
  {
    hide Entries, Legacy, Starts, Linked, LastTag, IsChained, NonBlank;
    var checked, skipped, subChains, rawIndex := 0, 0, 0, 0;
    var expectedPrev := "";
    NoLines(mac);
    assert lines[..0] == [];
    for i := 0 to |lines|
      invariant Linked(Entries(lines[..i]), mac)
      invariant checked == |Entries(lines[..i])| && subChains == Starts(Entries(lines[..i]))
      invariant skipped == Legacy(lines[..i]) && rawIndex == NonBlank(lines[..i])
      invariant expectedPrev == LastTag(Entries(lines[..i]))
    {
      var l := lines[i];
      ghost var es := Entries(lines[..i]);
      OneMoreLine(lines, i);
      if l.Blank? {
        continue;
      }
      rawIndex := rawIndex + 1;
      if !IsChained(l) {
        skipped := skipped + if l.Object? then 1 else 0;
        continue;
      }
      var e := EntryOf(l);
      LinkedSnoc(es, e, mac);
      if e.prev == GENESIS {
        subChains := subChains + 1;
        expectedPrev := GENESIS;
      }
      if e.prev != expectedPrev {
        BreakFound(lines, i, PrevHashMismatch, mac);
        assert Verdict(false, checked, skipped, subChains, Some(Broken(rawIndex - 1, PrevHashMismatch)))
            == BrokenAt(lines, i, PrevHashMismatch);
        return Verdict(false, checked, skipped, subChains, Some(Broken(rawIndex - 1, PrevHashMismatch)));
      }
      if mac(e.prev, e.body) != e.tag {
        BreakFound(lines, i, HmacMismatch, mac);
        assert Verdict(false, checked, skipped, subChains, Some(Broken(rawIndex - 1, HmacMismatch)))
            == BrokenAt(lines, i, HmacMismatch);
        return Verdict(false, checked, skipped, subChains, Some(Broken(rawIndex - 1, HmacMismatch)));
      }
      expectedPrev := e.tag;
      checked := checked + 1;
    }
    assert lines[..|lines|] == lines;
    v := Verdict(true, checked, skipped, subChains, None);
  }

  lemma NoLines(mac: Mac)
    ensures Entries([]) == [] && Legacy([]) == 0 && NonBlank([]) == 0
    ensures Starts([]) == 0 && Linked([], mac) && LastTag([]) == ""
  {
  }

  lemma OneMoreLine(lines: seq<Line>, i: nat)
    requires i < |lines|
    ensures Entries(lines[..i + 1]) == Entries(lines[..i]) + (if IsChained(lines[i]) then [EntryOf(lines[i])] else [])
    ensures !IsChained(lines[i]) ==> Entries(lines[..i + 1]) == Entries(lines[..i])
    ensures IsChained(lines[i]) ==> lines[i].Object?
    ensures NonBlank(lines[..i + 1]) == NonBlank(lines[..i]) + (if lines[i].Blank? then 0 else 1)
    ensures Legacy(lines[..i + 1]) == Legacy(lines[..i]) + (if lines[i].Object? && !IsChained(lines[i]) then 1 else 0)
  {
    assert lines[..i + 1][..i] == lines[..i];
    assert Entries(lines[..i]) + [] == Entries(lines[..i]);
  }

  lemma BreakFound(lines: seq<Line>, i: nat, reason: Reason, mac: Mac)
    requires i < |lines| && IsChained(lines[i])
    requires var es := Entries(lines[..i]);
      var e := EntryOf(lines[i]);
      && Linked(es, mac)
      && (if e.prev == GENESIS || e.prev == LastTag(es) then reason == HmacMismatch && !Genuine(e, mac)
          else reason == PrevHashMismatch)
    ensures BreaksAt(Entries(lines), |Entries(lines[..i])|, reason, mac)
    ensures !Linked(Entries(lines), mac)
  {
    hide Entries, Linked, IsChained;
    var es, n := Entries(lines), |Entries(lines[..i])|;
    OneMoreLine(lines, i);
    EntriesPrefix(lines, i);
    EntriesPrefix(lines, i + 1);
    assert es[n] == es[..n + 1][n] == EntryOf(lines[i]);
    NotLinkedAt(es, n, mac);
  }

  lemma NotLinkedAt(es: seq<Entry>, n: nat, mac: Mac)
    requires n < |es|
    requires !Genuine(es[n], mac) || !Follows(es, n)
    ensures !Linked(es, mac)
  {
  }

  lemma LinkedSnoc(es: seq<Entry>, e: Entry, mac: Mac)
    requires Linked(es, mac)
    ensures Linked(es + [e], mac) <==> Genuine(e, mac) && (e.prev == GENESIS || e.prev == LastTag(es))
    ensures Starts(es + [e]) == Starts(es) + (if e.prev == GENESIS then 1 else 0)
    ensures LastTag(es + [e]) == e.tag
  {
    hide LastTag;
    var fs, n := es + [e], |es|;
    assert fs[..n] == es && fs[n] == e;
    LastTagSnoc(es, e);
    forall i | 0 <= i < n
      ensures Genuine(fs[i], mac) && Follows(fs, i)
    {
      assert fs[..i] == es[..i] && fs[i] == es[i];
      assert Follows(es, i);
    }
    assert Follows(fs, n) <==> e.prev == GENESIS || e.prev == LastTag(es);
  }

  lemma LastTagSnoc(es: seq<Entry>, e: Entry)
    ensures LastTag(es + [e]) == e.tag
  {
  }

  lemma EntriesPrefix(lines: seq<Line>, i: nat)
    requires i <= |lines|
    ensures |Entries(lines[..i])| <= |Entries(lines)|
    ensures Entries(lines)[..|Entries(lines[..i])|] == Entries(lines[..i])
    decreases |lines| - i
  {
    var n := |Entries(lines[..i])|;
    if i == |lines| {
      assert lines[..i] == lines;
      assert Entries(lines)[..n] == Entries(lines);
    } else {
      assert lines[..i + 1][..i] == lines[..i];
      EntriesPrefix(lines, i + 1);
      var es := Entries(lines[..i + 1]);
      assert es[..n] == Entries(lines[..i]);
      assert Entries(lines)[..|es|][..n] == Entries(lines)[..n];
    }
  }

  lemma LinkedPrefix(es: seq<Entry>, n: nat, mac: Mac)
    requires n <= |es| && Linked(es, mac)
    ensures Linked(es[..n], mac)
  {
    forall i | 0 <= i < n
      ensures Genuine(es[..n][i], mac) && Follows(es[..n], i)
    {
      assert es[..n][..i] == es[..i];
      assert Follows(es, i);
    }
  }

  // ---- Soundness: accepted files are prefixes of writer chains --------------------

  /** The entries a session writes for these bodies, in order. */
  function ChainOf(bodies: seq<Body>, mac: Mac): (es: seq<Entry>)
    ensures |es| == |bodies|
  {
    if bodies == [] then []
    else
      var k := |bodies| - 1;
      var es := ChainOf(bodies[..k], mac);
      var prev := PrevAfter(es);
      es + [Entry(prev, bodies[k], mac(prev, bodies[k]))]
  }

  /** The writer's in-memory hash after its session wrote es. */
  function PrevAfter(es: seq<Entry>): string {
    if es == [] then GENESIS else es[|es| - 1].tag
  }

  /** c is a session chain up to its k-th entry. */
  predicate ChainAt(c: seq<Entry>, k: nat, mac: Mac)
    requires k < |c|
  {
    Genuine(c[k], mac) && c[k].prev == if k == 0 then GENESIS else c[k - 1].tag
  }

  predicate IsChain(c: seq<Entry>, mac: Mac) {
    forall k :: 0 <= k < |c| ==> ChainAt(c, k, mac)
  }

  lemma ChainLast(bodies: seq<Body>, mac: Mac)
    requires bodies != []
    ensures var n := |bodies| - 1;
      var d := ChainOf(bodies[..n], mac);
      var prev := PrevAfter(d);
      ChainOf(bodies, mac) == d + [Entry(prev, bodies[n], mac(prev, bodies[n]))]
  {
  }

  lemma {:induction false} ChainIsChain(bodies: seq<Body>, mac: Mac)
    ensures IsChain(ChainOf(bodies, mac), mac)
    ensures forall k :: 0 <= k < |bodies| ==> ChainOf(bodies, mac)[k].body == bodies[k]
  {
    hide ChainOf;
    if bodies != [] {
      var n := |bodies| - 1;
      ChainIsChain(bodies[..n], mac);
      var c, d := ChainOf(bodies, mac), ChainOf(bodies[..n], mac);
      ChainLast(bodies, mac);
      forall k | 0 <= k < |c|
        ensures ChainAt(c, k, mac) && c[k].body == bodies[k]
      {
        if k < n {
          assert ChainAt(d, k, mac) && c[k] == d[k];
        }
      }
    }
  }

  /** The tag of entry `at` of session `session`. */
  ghost predicate MadeBy(tag: string, sessions: seq<seq<Body>>, session: nat, at: nat, mac: Mac) {
    session < |sessions| && at < |sessions[session]| && tag == ChainOf(sessions[session], mac)[at].tag
  }

  ghost predicate WriterMade(tag: string, sessions: seq<seq<Body>>, mac: Mac) {
    exists session, at :: MadeBy(tag, sessions, session, at, mac)
  }

  /** A prefix of one session's chain. */
  datatype Cut = Cut(session: nat, len: nat)

  predicate ValidCut(c: Cut, sessions: seq<seq<Body>>) {
    c.session < |sessions| && 0 < c.len <= |sessions[c.session]|
  }

  predicate ValidCuts(cuts: seq<Cut>, sessions: seq<seq<Body>>) {
    forall i :: 0 <= i < |cuts| ==> ValidCut(cuts[i], sessions)
  }

  function CutEntries(c: Cut, sessions: seq<seq<Body>>, mac: Mac): seq<Entry>
    requires ValidCut(c, sessions)
  {
    ChainOf(sessions[c.session], mac)[..c.len]
  }

  function Assemble(cuts: seq<Cut>, sessions: seq<seq<Body>>, mac: Mac): seq<Entry>
    requires ValidCuts(cuts, sessions)
  {
    if cuts == [] then []
    else Assemble(cuts[..|cuts| - 1], sessions, mac) + CutEntries(cuts[|cuts| - 1], sessions, mac)
  }

  lemma SameTag(a: Entry, b: Entry, mac: Mac)
    requires IdealMac(mac) && Genuine(a, mac) && Genuine(b, mac) && a.tag == b.tag
    ensures a == b && a.tag != GENESIS && a.tag != ""
  {
  }

  /** Equal tags make the last entry an entry of the chain, and the one before it the one before that. */
  lemma LastLink(es: seq<Entry>, c: seq<Entry>, i: nat, mac: Mac)
    requires IdealMac(mac) && Linked(es, mac) && es != [] && IsChain(c, mac)
    requires i < |c| && es[|es| - 1].tag == c[i].tag
    ensures es[|es| - 1] == c[i]
    ensures i > 0 ==> |es| > 1 && es[..|es| - 1][|es| - 2].tag == c[i - 1].tag
  {
    hide IdealMac;
    var n := |es| - 1;
    assert Genuine(es[n], mac) && Follows(es, n) && ChainAt(c, i, mac);
    SameTag(es[n], c[i], mac);
    if i > 0 {
      assert ChainAt(c, i - 1, mac);
      SameTag(c[i - 1], c[i - 1], mac);
    }
  }

  /** The last sub-chain of a linked list, identified by its last tag. */
  lemma {:induction false} LastSubChain(es: seq<Entry>, c: seq<Entry>, i: nat, mac: Mac) returns (g: nat)
    requires IdealMac(mac) && Linked(es, mac) && es != [] && IsChain(c, mac)
    requires i < |c| && es[|es| - 1].tag == c[i].tag
    ensures g == |es| - 1 - i && es[g..] == c[..i + 1]
  {
    hide IdealMac, Linked, IsChain;
    var n := |es| - 1;
    LastLink(es, c, i, mac);
    if i == 0 {
      g := n;
    } else {
      LinkedPrefix(es, n, mac);
      g := LastSubChain(es[..n], c, i - 1, mac);
      assert es[g..] == es[..n][g..] + [es[n]];
      assert c[..i + 1] == c[..i] + [c[i]];
    }
  }

  /** A linked list whose tags the writer made is put together from prefixes of its chains. */
  lemma LinkedIsAssembled(es: seq<Entry>, sessions: seq<seq<Body>>, mac: Mac) returns (cuts: seq<Cut>)
    requires IdealMac(mac) && Linked(es, mac)
    requires forall i :: 0 <= i < |es| ==> WriterMade(es[i].tag, sessions, mac)
    ensures ValidCuts(cuts, sessions) && Assemble(cuts, sessions, mac) == es
    decreases |es|
  {
    hide Linked, IdealMac, IsChain, ChainOf;
    if es == [] {
      cuts := [];
    } else {
      var s: nat, i: nat :| MadeBy(es[|es| - 1].tag, sessions, s, i, mac);
      var c := ChainOf(sessions[s], mac);
      ChainIsChain(sessions[s], mac);
      var g := LastSubChain(es, c, i, mac);
      LinkedPrefix(es, g, mac);
      var before := LinkedIsAssembled(es[..g], sessions, mac);
      AssembleSnoc(before, Cut(s, i + 1), sessions, mac);
      cuts := before + [Cut(s, i + 1)];
      assert es == es[..g] + es[g..];
    }
  }

  lemma AssembleSnoc(cuts: seq<Cut>, c: Cut, sessions: seq<seq<Body>>, mac: Mac)
    requires ValidCuts(cuts, sessions) && ValidCut(c, sessions)
    ensures ValidCuts(cuts + [c], sessions)
    ensures Assemble(cuts + [c], sessions, mac) == Assemble(cuts, sessions, mac) + CutEntries(c, sessions, mac)
  {
    assert (cuts + [c])[..|cuts|] == cuts;
  }

  /**
   * If the verifier accepts a file and nobody but the writer can make tags, then the
   * HMAC-carrying lines are prefixes of writer session chains, one after another: inside
   * each, no entry is altered, reordered or missing.
   */
  lemma AcceptedFilesAreSound(lines: seq<Line>, sessions: seq<seq<Body>>, mac: Mac)
    requires IdealMac(mac) && Linked(Entries(lines), mac)
    requires forall i :: 0 <= i < |Entries(lines)| ==> WriterMade(Entries(lines)[i].tag, sessions, mac)
    ensures exists cuts :: ValidCuts(cuts, sessions) && Assemble(cuts, sessions, mac) == Entries(lines)
  {
    var cuts := LinkedIsAssembled(Entries(lines), sessions, mac);
  }
}
