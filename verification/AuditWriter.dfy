/** The writer of the audit log (src-tauri/src/commands.rs, lib.rs). */
module AuditWriter {
  import opened Common
  import opened AuditChain

  /* What the verifier says of any log it leaves, over any number of app sessions in one day with the key present. */

  /** A write that fails may leave nothing, or part of a line without its newline. */
  datatype Outcome = Written | NotWritten | Torn

  /** In-memory hash, the day's file, and whether its last line lacks a newline. */
  datatype Log = Log(prev: string, lines: seq<Line>, torn: bool)

  /** What one append does to the file; text after a torn line becomes part of it. */
  function Append(s: Log, l: Line, io: Outcome): Log {
    match io
    case Written => if s.torn then s.(torn := false) else s.(lines := s.lines + [l])
    case NotWritten => s
    case Torn => if s.torn then s else s.(lines := s.lines + [Garbled], torn := true)
  }

  datatype Event =
    | Restart
    | Write(body: Body, io: Outcome)
    | Note(fields: Body, io: Outcome)

  predicate ChainFree(fields: Body) {
    "hmac" !in fields && "prevHash" !in fields
  }

  /** Neither bodies nor DDL event lines have the chain's own fields. */
  predicate WellFormed(e: Event) {
    match e
    case Restart => true
    case Write(body, _) => ChainFree(body)
    case Note(fields, _) => ChainFree(fields)
  }

  function ChainedLine(prev: string, body: Body, mac: Mac): Line {
    Object(body["prevHash" := Str(prev)]["hmac" := Str(mac(prev, body))])
  }

  function Apply(s: Log, e: Event, mac: Mac): Log {
    match e
    case Restart => s.(prev := GENESIS)
    case Write(body, io) =>
      var t := Append(s, ChainedLine(s.prev, body, mac), io);
      if io.Written? then t.(prev := mac(s.prev, body)) else t
    case Note(fields, io) => Append(s, Object(fields), io)
  }

  const FRESH := Log(GENESIS, [], false)

  /** A day's log after some events. */
  function Run(events: seq<Event>, mac: Mac): Log {
    if events == [] then FRESH
    else Apply(Run(events[..|events| - 1], mac), events[|events| - 1], mac)
  }

  class AuditLog {
    const mac: Mac
    var prevHash: string
    var lines: seq<Line>
    var torn: bool

    constructor (mac: Mac)
      ensures State() == FRESH && this.mac == mac
    {
      this.mac := mac;
      prevHash, lines, torn := GENESIS, [], false;
    }

    function State(): Log
      reads this
    {
      Log(prevHash, lines, torn)
    }

    method AppendToFile(l: Line, io: Outcome)
      modifies this`lines, this`torn
      ensures State() == Append(old(State()), l, io)
    {
      match io {
        case Written =>
          if torn {
            torn := false;
          } else {
            lines := lines + [l];
          }
        case NotWritten =>
        case Torn =>
          if !torn {
            lines, torn := lines + [Garbled], true;
          }
      }
    }

    /** The in-memory hash advances only after the line is on disk. */
    method WriteAuditEntry(body: Body, io: Outcome) returns (entry: Option<Line>)
      modifies this
      ensures State() == Apply(old(State()), Write(body, io), mac)
      ensures entry == if io.Written? then Some(ChainedLine(old(prevHash), body, mac)) else None
    {
      var hmac := mac(prevHash, body);
      var line := Object(body["prevHash" := Str(prevHash)]["hmac" := Str(hmac)]);
      AppendToFile(line, io);
      if !io.Written? {
        return None;
      }
      prevHash := hmac;
      return Some(line);
    }

    method WriteDdlEvent(fields: Body, io: Outcome)
      modifies this
      ensures State() == Apply(old(State()), Note(fields, io), mac)
    {
      AppendToFile(Object(fields), io);
    }

    /** A new app process starts from the start marker and appends to the same file. */
    method RestartApp()
      modifies this
      ensures State() == Apply(old(State()), Restart, mac)
    {
      prevHash := GENESIS;
    }
  }

  // ---- What a run leaves, without looking at tags ---------------------------------

  /**
   * started: the session has written an entry; lost: its latest entry went into a torn
   * line; intact: no entry was written after a lost one in the same session.
   */
  datatype Tally = Tally(torn: bool, started: bool, lost: bool, intact: bool, chained: nat, sessions: nat, legacy: nat)

  function Count(t: Tally, e: Event): Tally {
    match e
    case Restart => t.(started := false, lost := false)
    case Write(_, Written) =>
      if t.torn then t.(torn := false, started := true, lost := true)
      else t.(started := true, lost := false, intact := t.intact && !t.lost,
              chained := t.chained + 1, sessions := t.sessions + if t.started then 0 else 1)
    case Note(_, Written) => if t.torn then t.(torn := false) else t.(legacy := t.legacy + 1)
    case Write(_, Torn) => t.(torn := true)
    case Note(_, Torn) => t.(torn := true)
    case _ => t
  }

  function TallyOf(events: seq<Event>): Tally {
    if events == [] then Tally(false, false, false, true, 0, 0, 0)
    else Count(TallyOf(events[..|events| - 1]), events[|events| - 1])
  }

  predicate AllWellFormed(events: seq<Event>) {
    forall i :: 0 <= i < |events| ==> WellFormed(events[i])
  }

  /** How the log and the tally of one run agree while no entry follows a lost one. */
  ghost predicate InStep(s: Log, t: Tally, mac: Mac) {
    && s.torn == t.torn
    && (t.started <==> s.prev != GENESIS)
    && Legacy(s.lines) == t.legacy
    && |Entries(s.lines)| == t.chained
    && (t.intact ==>
          && Linked(Entries(s.lines), mac)
          && Starts(Entries(s.lines)) == t.sessions
          && (t.started && !t.lost ==> s.prev == LastTag(Entries(s.lines))))
  }

  lemma ChainedLineIs(prev: string, body: Body, mac: Mac)
    requires ChainFree(body)
    ensures IsChained(ChainedLine(prev, body, mac))
    ensures EntryOf(ChainedLine(prev, body, mac)) == Entry(prev, body, mac(prev, body))
  {
    var fields := body["prevHash" := Str(prev)]["hmac" := Str(mac(prev, body))];
    assert fields - {"hmac", "prevHash"} == body;
  }

  lemma AppendedLine(lines: seq<Line>, l: Line)
    ensures Entries(lines + [l]) == Entries(lines) + (if IsChained(l) then [EntryOf(l)] else [])
    ensures !IsChained(l) ==> Entries(lines + [l]) == Entries(lines)
    ensures Legacy(lines + [l]) == Legacy(lines) + (if l.Object? && !IsChained(l) then 1 else 0)
  {
    var ls := lines + [l];
    assert ls[..|lines|] == lines && ls[..|lines| + 1] == ls;
    OneMoreLine(ls, |lines|);
  }

  lemma StepKeepsInStep(s: Log, t: Tally, e: Event, mac: Mac)
    requires IdealMac(mac) && InStep(s, t, mac) && WellFormed(e)
    ensures InStep(Apply(s, e, mac), Count(t, e), mac)
  {
    hide Entries, Legacy, Starts, Linked, LastTag;
    match e
    case Restart =>
    case Note(fields, io) =>
      AppendedLine(s.lines, Object(fields));
      AppendedLine(s.lines, Garbled);
    case Write(body, io) =>
      var l := ChainedLine(s.prev, body, mac);
      ChainedLineIs(s.prev, body, mac);
      AppendedLine(s.lines, l);
      AppendedLine(s.lines, Garbled);
      if t.intact {
        LinkedSnoc(Entries(s.lines), EntryOf(l), mac);
      }
  }

  lemma {:induction false} RunInStep(events: seq<Event>, mac: Mac)
    requires IdealMac(mac) && AllWellFormed(events)
    ensures InStep(Run(events, mac), TallyOf(events), mac)
  {
    if events == [] {
      NoLines(mac);
    } else {
      var k := |events| - 1;
      RunInStep(events[..k], mac);
      assert WellFormed(events[k]);
      StepKeepsInStep(Run(events[..k], mac), TallyOf(events[..k]), events[k], mac);
    }
  }

  /**
   * A log in which no entry follows a lost one in its session verifies, with `checked` the
   * number of chained lines and `sub_chains` the number of sessions that wrote one.
   */
  lemma IntactLogsVerify(events: seq<Event>, mac: Mac)
    requires IdealMac(mac) && AllWellFormed(events) && TallyOf(events).intact
    ensures var lines, t := Run(events, mac).lines, TallyOf(events);
      && Linked(Entries(lines), mac)
      && |Entries(lines)| == t.chained && Starts(Entries(lines)) == t.sessions && Legacy(lines) == t.legacy
  {
    RunInStep(events, mac);
  }

  predicate IsTorn(e: Event) {
    (e.Write? || e.Note?) && e.io.Torn?
  }

  /** Without torn writes every log is intact, however many writes fail outright. */
  lemma CleanRunsAreIntact(events: seq<Event>)
    requires forall i :: 0 <= i < |events| ==> !IsTorn(events[i])
    ensures TallyOf(events).intact && !TallyOf(events).torn && !TallyOf(events).lost
  {
    if events != [] {
      CleanRunsAreIntact(events[..|events| - 1]);
      assert !IsTorn(events[|events| - 1]);
    }
  }

  // ---- Only intact logs verify ----------------------------------------------------

  predicate IsEntry(e: Event) {
    e.Write? && e.io.Written?
  }

  function EntryBodies(events: seq<Event>): set<Body> {
    set i | 0 <= i < |events| && IsEntry(events[i]) :: events[i].body
  }

  /** No two entries have the same body; bodies carry the time they were made. */
  predicate DistinctBodies(events: seq<Event>) {
    forall i, k :: 0 <= i < k < |events| && IsEntry(events[i]) && IsEntry(events[k]) ==>
      events[i].body != events[k].body
  }

  /** The hash in memory was made from a body the file's readable entries do not have. */
  ghost predicate Unseen(prev: string, es: seq<Entry>, bodies: set<Body>, mac: Mac) {
    exists p, b :: prev == mac(p, b) && b in bodies && forall i :: 0 <= i < |es| ==> es[i].body != b
  }

  ghost predicate Diverges(s: Log, t: Tally, bodies: set<Body>, mac: Mac) {
    var es := Entries(s.lines);
    && (forall i :: 0 <= i < |es| ==> Genuine(es[i], mac) && es[i].body in bodies)
    && (t.lost ==> Unseen(s.prev, es, bodies, mac))
    && (!t.intact ==> !Linked(es, mac))
  }

  lemma LinkedGrows(es: seq<Entry>, e: Entry, mac: Mac)
    ensures Linked(es + [e], mac) ==> Linked(es, mac)
  {
    if Linked(es + [e], mac) {
      LinkedPrefix(es + [e], |es|, mac);
      assert (es + [e])[..|es|] == es;
    }
  }

  /** An entry that names a tag the file does not show breaks the chain. */
  lemma LostTagBreaks(es: seq<Entry>, e: Entry, bodies: set<Body>, mac: Mac)
    requires IdealMac(mac) && Unseen(e.prev, es, bodies, mac)
    requires forall i :: 0 <= i < |es| ==> Genuine(es[i], mac)
    ensures !Linked(es + [e], mac)
  {
    var fs := es + [e];
    assert fs[..|es|] == es;
    if es != [] {
      assert Genuine(es[|es| - 1], mac);
    }
    assert !Follows(fs, |es|);
  }

  lemma EntryKeepsDiverges(s: Log, t: Tally, body: Body, bodies: set<Body>, mac: Mac)
    requires IdealMac(mac) && Diverges(s, t, bodies, mac) && ChainFree(body) && body !in bodies && !t.torn && !s.torn
    ensures Diverges(Apply(s, Write(body, Written), mac), Count(t, Write(body, Written)), bodies + {body}, mac)
  {
    hide Entries, Linked;
    var l := ChainedLine(s.prev, body, mac);
    ChainedLineIs(s.prev, body, mac);
    AppendedLine(s.lines, l);
    var es, e := Entries(s.lines), EntryOf(l);
    LinkedGrows(es, e, mac);
    if t.lost {
      LostTagBreaks(es, e, bodies, mac);
    }
  }

  lemma LossKeepsDiverges(s: Log, t: Tally, body: Body, bodies: set<Body>, mac: Mac)
    requires IdealMac(mac) && Diverges(s, t, bodies, mac) && body !in bodies && t.torn && s.torn
    ensures Diverges(Apply(s, Write(body, Written), mac), Count(t, Write(body, Written)), bodies + {body}, mac)
  {
    hide Entries, Linked;
    var es := Entries(s.lines);
    assert forall i :: 0 <= i < |es| ==> Genuine(es[i], mac) && es[i].body != body;
    assert Unseen(mac(s.prev, body), es, bodies + {body}, mac);
  }

  lemma OtherKeepsDiverges(s: Log, t: Tally, e: Event, bodies: set<Body>, mac: Mac)
    requires Diverges(s, t, bodies, mac) && WellFormed(e) && !IsEntry(e) && s.torn == t.torn
    ensures Diverges(Apply(s, e, mac), Count(t, e), bodies, mac)
  {
    hide Entries, Linked;
    match e
    case Restart =>
    case Note(fields, io) =>
      AppendedLine(s.lines, Object(fields));
      AppendedLine(s.lines, Garbled);
    case Write(body, io) =>
      AppendedLine(s.lines, Garbled);
  }

  lemma {:induction false} RunDiverges(events: seq<Event>, mac: Mac)
    requires IdealMac(mac) && AllWellFormed(events) && DistinctBodies(events)
    ensures Diverges(Run(events, mac), TallyOf(events), EntryBodies(events), mac)
  {
    hide Diverges, InStep;
    if events == [] {
      NothingDiverges(mac);
    } else {
      var k := |events| - 1;
      var before, e := events[..k], events[k];
      RunDiverges(before, mac);
      RunInStep(before, mac);
      var s, t := Run(before, mac), TallyOf(before);
      SameTorn(s, t, mac);
      assert WellFormed(e);
      assert EntryBodies(events) == EntryBodies(before) + (if IsEntry(e) then {e.body} else {});
      if !IsEntry(e) {
        OtherKeepsDiverges(s, t, e, EntryBodies(before), mac);
        assert EntryBodies(events) == EntryBodies(before);
      } else if t.torn {
        LossKeepsDiverges(s, t, e.body, EntryBodies(before), mac);
      } else {
        EntryKeepsDiverges(s, t, e.body, EntryBodies(before), mac);
      }
    }
  }

  lemma NothingDiverges(mac: Mac)
    ensures Diverges(FRESH, TallyOf([]), EntryBodies([]), mac)
  {
  }

  lemma SameTorn(s: Log, t: Tally, mac: Mac)
    requires InStep(s, t, mac)
    ensures s.torn == t.torn
  {
  }

  /**
   * Exactly when a day's log verifies: when in no session an entry follows one that was
   * written onto the end of a torn line. Failed writes that leave nothing never matter.
   */
  lemma LogVerifiesIffIntact(events: seq<Event>, mac: Mac)
    requires IdealMac(mac) && AllWellFormed(events) && DistinctBodies(events)
    ensures Linked(Entries(Run(events, mac).lines), mac) <==> TallyOf(events).intact
  {
    RunInStep(events, mac);
    RunDiverges(events, mac);
  }

  /** The smallest failing run: a write that leaves part of a line, an entry that is lost in it, one more entry. */
  lemma TornLineBreaksTheLog(lost: Body, next: Body, torn: Body, mac: Mac)
    requires IdealMac(mac) && ChainFree(lost) && ChainFree(next) && ChainFree(torn) && lost != next
    ensures !Linked(Entries(Run([Write(torn, Torn), Write(lost, Written), Write(next, Written)], mac).lines), mac)
  {
    hide Run, Linked, Entries;
    var e0, e1, e2 := Write(torn, Torn), Write(lost, Written), Write(next, Written);
    var events := [e0, e1, e2];
    assert events[..2] == [e0, e1] && events[..2][..1] == [e0] && [e0][..0] == [];
    assert TallyOf([e0]) == Count(TallyOf([]), e0);
    assert TallyOf([e0, e1]) == Count(TallyOf([e0]), e1) by {
      assert [e0, e1][..1] == [e0];
    }
    assert TallyOf(events) == Count(TallyOf([e0, e1]), e2);
    assert !TallyOf(events).intact;
    LogVerifiesIffIntact(events, mac);
  }

  // ---- The writer's hash is the end of its session's chain ------------------------

  /** The bodies written since the last restart, in order. */
  function SessionBodies(events: seq<Event>): seq<Body> {
    if events == [] then []
    else
      var e := events[|events| - 1];
      var before := events[..|events| - 1];
      if e.Restart? then [] else if IsEntry(e) then SessionBodies(before) + [e.body] else SessionBodies(before)
  }

  /** In memory the writer always holds the last tag of the chain of its own session. */
  lemma {:induction false} WriterHoldsItsChain(events: seq<Event>, mac: Mac)
    ensures Run(events, mac).prev == PrevAfter(ChainOf(SessionBodies(events), mac))
  {
    hide ChainOf, ChainedLine;
    if events != [] {
      var e := events[|events| - 1];
      var before := events[..|events| - 1];
      WriterHoldsItsChain(before, mac);
      if IsEntry(e) {
        ChainSnoc(SessionBodies(before), e.body, mac);
      }
    }
  }

  lemma ChainSnoc(bodies: seq<Body>, b: Body, mac: Mac)
    ensures PrevAfter(ChainOf(bodies + [b], mac)) == mac(PrevAfter(ChainOf(bodies, mac)), b)
  {
    assert (bodies + [b])[..|bodies|] == bodies;
  }

  // ---- Every tag in a log is one of its own sessions' -----------------------------

  /** The bodies each session of a run wrote, oldest session first. */
  function SessionsOf(events: seq<Event>): (sessions: seq<seq<Body>>)
    ensures sessions != []
  {
    if events == [] then [[]]
    else
      var e := events[|events| - 1];
      var before := SessionsOf(events[..|events| - 1]);
      var k := |before| - 1;
      if e.Restart? then before + [[]]
      else if IsEntry(e) then before[k := before[k] + [e.body]]
      else before
  }

  lemma {:induction false} LastSession(events: seq<Event>)
    ensures SessionsOf(events)[|SessionsOf(events)| - 1] == SessionBodies(events)
  {
    if events != [] {
      LastSession(events[..|events| - 1]);
    }
  }

  ghost predicate AllWriterMade(es: seq<Entry>, sessions: seq<seq<Body>>, mac: Mac) {
    forall i :: 0 <= i < |es| ==> WriterMade(es[i].tag, sessions, mac)
  }

  /** What one session has tagged stays tagged as it and later sessions go on. */
  lemma TagsStay(tag: string, sessions: seq<seq<Body>>, e: Event, mac: Mac)
    requires sessions != [] && WriterMade(tag, sessions, mac)
    ensures WriterMade(tag, sessions + [[]], mac)
    ensures e.Write? ==>
      WriterMade(tag, sessions[|sessions| - 1 := sessions[|sessions| - 1] + [e.body]], mac)
  {
    hide ChainOf;
    var s: nat, i: nat :| MadeBy(tag, sessions, s, i, mac);
    assert MadeBy(tag, sessions + [[]], s, i, mac);
    if e.Write? {
      var k := |sessions| - 1;
      var later := sessions[k := sessions[k] + [e.body]];
      ChainLast(sessions[k] + [e.body], mac);
      assert (sessions[k] + [e.body])[..|sessions[k]|] == sessions[k];
      assert MadeBy(tag, later, s, i, mac);
    }
  }

  lemma NewTag(sessions: seq<seq<Body>>, body: Body, mac: Mac)
    requires sessions != []
    ensures var k := |sessions| - 1;
      WriterMade(mac(PrevAfter(ChainOf(sessions[k], mac)), body), sessions[k := sessions[k] + [body]], mac)
  {
    hide ChainOf;
    var k := |sessions| - 1;
    var later := sessions[k := sessions[k] + [body]];
    ChainLast(later[k], mac);
    assert later[k][..|sessions[k]|] == sessions[k];
    assert MadeBy(mac(PrevAfter(ChainOf(sessions[k], mac)), body), later, k, |sessions[k]|, mac);
  }

  /** Every HMAC-carrying line of a run's log was made by one of that run's sessions. */
  lemma {:induction false} RunIsWriterMade(events: seq<Event>, mac: Mac)
    requires AllWellFormed(events)
    ensures AllWriterMade(Entries(Run(events, mac).lines), SessionsOf(events), mac)
  {
    hide Entries, WriterMade, ChainOf, IsChained, EntryOf, ChainedLine;
    if events == [] {
      NoLines(mac);
    } else {
      var n := |events| - 1;
      var e, before := events[n], events[..n];
      assert WellFormed(e);
      RunIsWriterMade(before, mac);
      var s := Run(before, mac);
      var sessions := SessionsOf(before);
      LogGrows(s, e, mac);
      forall i | 0 <= i < |Entries(s.lines)|
        ensures WriterMade(Entries(s.lines)[i].tag, SessionsOf(events), mac)
      {
        TagsStay(Entries(s.lines)[i].tag, sessions, e, mac);
      }
      if IsEntry(e) {
        LastSession(before);
        WriterHoldsItsChain(before, mac);
        NewTag(sessions, e.body, mac);
      }
    }
  }

  /** An event adds at most one entry, and its tag is the one the writer then holds. */
  lemma LogGrows(s: Log, e: Event, mac: Mac)
    requires WellFormed(e)
    ensures var es, es' := Entries(s.lines), Entries(Apply(s, e, mac).lines);
      es' == es || (IsEntry(e) && es' == es + [Entry(s.prev, e.body, mac(s.prev, e.body))])
  {
    hide Entries, IsChained, EntryOf, ChainedLine;
    match e
    case Restart =>
    case Note(fields, io) =>
      NoteIsNotChained(fields);
      AppendedLine(s.lines, Object(fields));
      GarbledIsNotChained();
      AppendedLine(s.lines, Garbled);
    case Write(body, io) =>
      ChainedLineIs(s.prev, body, mac);
      AppendedLine(s.lines, ChainedLine(s.prev, body, mac));
      GarbledIsNotChained();
      AppendedLine(s.lines, Garbled);
  }

  lemma NoteIsNotChained(fields: Body)
    requires ChainFree(fields)
    ensures !IsChained(Object(fields))
  {
  }

  lemma GarbledIsNotChained()
    ensures !IsChained(Garbled)
  {
  }

  /**
   * Whatever is done to the log of a run, as long as nobody else can make tags: if the
   * verifier accepts the result, its HMAC-carrying lines are prefixes of the chains of
   * that run's own sessions, one after another.
   */
  lemma AcceptedLogsAreTheRuns(events: seq<Event>, lines: seq<Line>, mac: Mac)
    requires IdealMac(mac) && AllWellFormed(events) && Linked(Entries(lines), mac)
    requires forall e :: e in Entries(lines) ==> exists w :: w in Entries(Run(events, mac).lines) && w.tag == e.tag
    ensures exists cuts ::
      ValidCuts(cuts, SessionsOf(events)) && Assemble(cuts, SessionsOf(events), mac) == Entries(lines)
  {
    hide Linked, IdealMac, WriterMade, Entries, Run, SessionsOf;
    RunIsWriterMade(events, mac);
    var es := Entries(lines);
    forall i | 0 <= i < |es|
      ensures WriterMade(es[i].tag, SessionsOf(events), mac)
    {
      assert es[i] in es;
      var w :| w in Entries(Run(events, mac).lines) && w.tag == es[i].tag;
      var k :| 0 <= k < |Entries(Run(events, mac).lines)| && Entries(Run(events, mac).lines)[k] == w;
    }
    AcceptedFilesAreSound(lines, SessionsOf(events), mac);
  }
}
