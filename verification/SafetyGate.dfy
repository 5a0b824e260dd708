/**
 * The execution safety gate (sidecar/src/oracle.ts). Statement classifiers are fields of a
 * statement, each RPC is one step, and what the database does is a parameter.
 */
module SafetyGate {
  import opened Common

  // ---- Data -----------------------------------------------------------------------

  datatype Env = Prod | Staging | Dev | Local | Unset

  datatype Safety = Safety(env: Env, readOnly: bool, warnUnsafeDml: bool, psdpm: bool)

  const NO_SAFETY := Safety(Unset, false, false, false)

  datatype DdlRisk = Comment | Normal | Destructive

  /** A statement with its classifiers' answers; table names come trimmed and upper-cased. */
  datatype Stmt = Stmt(
    readOnlySafe: bool, isDdl: bool, risk: DdlRisk,
    isMerge: bool, isBulkDml: bool, isTruncate: bool, table: string)
  {
    predicate IsUnsafe() {
      isMerge || isBulkDml
    }

    /** DDL that only the DDL gate looks at. */
    predicate IsGatedDdl() {
      isDdl && risk != Comment && !IsUnsafe() && !isTruncate
    }
  }

  /** What the caller acknowledges: the warning, and the table name it typed ("" if none). */
  datatype Ack = Ack(unsafe: bool, table: string)

  datatype DmlWindow = DmlWindow(table: string, expiresAt: int)

  datatype DdlWindow = DdlWindow(kind: DdlRisk, openedAt: int, expiresAt: int)

  const UNSAFE_DML_WINDOW_TTL_MS := 15 * 60 * 1000
  const DDL_WINDOW_TTL_MS := 5 * 60 * 1000

  datatype Refusal =
    | ReadOnlyBlocked | TruncateProdBlocked | UnsafeDmlProdBlocked | UnsafeDmlStaging
    | UnsafeDmlWarning | DdlUnlockRequired | DdlBlocked

  /** The windows open in the process. */
  datatype Windows = Windows(dml: Option<DmlWindow>, ddl: Option<DdlWindow>)

  datatype Checked = Checked(refusal: Option<Refusal>, windows: Windows)

  // ---- The gate for one statement -------------------------------------------------

  function CheckDdl(w: Windows, s: Stmt, now: int): Checked {
    var live := w.ddl.Some? && now < w.ddl.value.expiresAt;
    var stale := w.ddl.Some? && now >= w.ddl.value.expiresAt;
    if live && (s.risk != Destructive || w.ddl.value.kind == Destructive) then Checked(None, w)
    else
      Checked(Some(if s.risk == Destructive then DdlUnlockRequired else DdlBlocked),
              if stale then w.(ddl := None) else w)
  }

  function CheckKind(w: Windows, env: Env, s: Stmt, now: int): Checked {
    if !s.isDdl || s.risk == Comment || s.isTruncate || env == Dev || env == Local then Checked(None, w)
    else CheckDdl(w, s, now)
  }

  function Check(w: Windows, safety: Safety, s: Stmt, ack: Ack, now: int): Checked {
    if safety.readOnly && !s.readOnlySafe then Checked(Some(ReadOnlyBlocked), w)
    else
      match safety.env
      case Prod =>
        if s.isTruncate then Checked(Some(TruncateProdBlocked), w)
        else if s.IsUnsafe() then
          if w.dml.Some? && now < w.dml.value.expiresAt && w.dml.value.table == s.table
          then Checked(None, w.(dml := None))
          else Checked(Some(UnsafeDmlProdBlocked), w)
        else CheckKind(w, Prod, s, now)
      case Staging =>
        if s.IsUnsafe() && (ack.table == "" || ack.table != s.table) then Checked(Some(UnsafeDmlStaging), w)
        else CheckKind(w, Staging, s, now)
      case _ =>
        if safety.warnUnsafeDml && !ack.unsafe && s.isBulkDml then Checked(Some(UnsafeDmlWarning), w)
        else CheckKind(w, safety.env, s, now)
  }

  /** The pre-scan: every statement in turn, stopping at the first refusal. */
  function CheckAll(w: Windows, safety: Safety, stmts: seq<Stmt>, ack: Ack, now: int): Checked
    decreases |stmts|
  {
    if stmts == [] then Checked(None, w)
    else
      var c := Check(w, safety, stmts[0], ack, now);
      if c.refusal.Some? then c else CheckAll(c.windows, safety, stmts[1..], ack, now)
  }

  // ---- Executing ------------------------------------------------------------------

  /** What happens when a statement's turn comes. */
  datatype Fate = Succeeds | Fails | IsCancelled | CancelledBefore | LosesSession

  datatype Status = OkStatus | ErrorStatus | CancelledStatus

  /** Results so far, the statements sent to the database, and whether the session is left. */
  datatype Execution = Execution(results: seq<Status>, sent: seq<Stmt>, session: bool)

  function FateAt(fates: seq<Fate>, i: nat): Fate {
    if i < |fates| then fates[i] else Succeeds
  }

  function StatusOf(f: Fate): Status {
    match f
    case Succeeds => OkStatus
    case IsCancelled => CancelledStatus
    case CancelledBefore => CancelledStatus
    case _ => ErrorStatus
  }

  function ExecuteFrom(stmts: seq<Stmt>, fates: seq<Fate>, i: nat, e: Execution): Execution
    requires i <= |stmts|
    decreases |stmts| - i
  {
    if i == |stmts| then e
    else
      var f := FateAt(fates, i);
      if f == CancelledBefore then e.(results := e.results + [CancelledStatus])
      else if !e.session then e.(results := e.results + [ErrorStatus])
      else
        var e' := Execution(e.results + [StatusOf(f)], e.sent + [stmts[i]], f != LosesSession);
        if f == Succeeds then ExecuteFrom(stmts, fates, i + 1, e') else e'
  }

  // ---- The process as a step machine ----------------------------------------------

  datatype State = State(session: bool, safety: Safety, windows: Windows, running: bool, now: int)

  const START := State(false, NO_SAFETY, Windows(None, None), false, 0)

  datatype Query =
    | Single(stmt: Stmt)
    | Batch(stmts: seq<Stmt>)
    | BadBatch

  datatype Event =
    | Open(safety: Safety, succeeds: bool)
    | Close
    | Unlock(table: string)
    | Confirm(kind: DdlRisk)
    | DdlUnlock
    | Tick(ms: int)
    | Run(query: Query, ack: Ack, userOrigin: bool, fates: seq<Fate>)

  datatype Reply =
    | Done
    | Rejected
    | Refused(refusal: Refusal)
    | Ran(results: seq<Status>, sent: seq<Stmt>)

  datatype Outcome = Outcome(state: State, reply: Reply)

  function Statements(q: Query): seq<Stmt> {
    match q
    case Single(s) => [s]
    case Batch(ss) => ss
    case BadBatch => []
  }

  /** Only a batch looks at the cancel flag before a statement. */
  function FatesFor(q: Query, fates: seq<Fate>): seq<Fate> {
    if q.Single? && FateAt(fates, 0) == CancelledBefore then [IsCancelled] else fates
  }

  /** queryExecute; the runner flag is up only inside the step. */
  function RunQuery(s: State, q: Query, ack: Ack, userOrigin: bool, fates: seq<Fate>): Outcome {
    if (s.safety.psdpm || s.safety.env == Prod) && !userOrigin then Outcome(s, Rejected)
    else if s.running then Outcome(s, Rejected)
    else if q.BadBatch? then Outcome(s, Rejected)
    else
      var c := CheckAll(s.windows, s.safety, Statements(q), ack, s.now);
      var s' := s.(windows := c.windows);
      if c.refusal.Some? then Outcome(s', Refused(c.refusal.value))
      else
        var e := ExecuteFrom(Statements(q), FatesFor(q, fates), 0, Execution([], [], s.session));
        Outcome(
          if e.session == s.session then s' else s'.(session := false, safety := NO_SAFETY),
          Ran(e.results, e.sent))
  }

  function Step(s: State, e: Event): Outcome {
    match e
    case Open(safety, succeeds) =>
      var t := s.(windows := Windows(None, None));
      if succeeds then Outcome(t.(session := true, safety := safety), Done)
      else Outcome(if s.session then t.(session := false, safety := NO_SAFETY) else t, Rejected)
    case Close =>
      var t := s.(windows := Windows(None, None));
      Outcome(if s.session then t.(session := false, safety := NO_SAFETY) else t, Done)
    case Unlock(table) =>
      if s.safety.env != Prod || table == "" then Outcome(s, Rejected)
      else Outcome(s.(windows := s.windows.(dml := Some(DmlWindow(table, s.now + UNSAFE_DML_WINDOW_TTL_MS)))), Done)
    case Confirm(kind) =>
      Outcome(s.(windows := s.windows.(ddl := Some(DdlWindow(kind, s.now, s.now + DDL_WINDOW_TTL_MS)))), Done)
    case DdlUnlock => Outcome(s.(windows := s.windows.(ddl := None)), Done)
    case Tick(ms) => Outcome(s.(now := s.now + ms), Done)
    case Run(q, ack, userOrigin, fates) => RunQuery(s, q, ack, userOrigin, fates)
  }

  /** The state before the i-th event. */
  function At(events: seq<Event>, i: nat): State
    requires i <= |events|
  {
    if i == 0 then START else Step(At(events, i - 1), events[i - 1]).state
  }

  function ReplyAt(events: seq<Event>, i: nat): Reply
    requires i < |events|
  {
    Step(At(events, i), events[i]).reply
  }

  // ---- One gate check -------------------------------------------------------------

  /** Passing a check costs the unlock window exactly when the statement is unsafe on prod. */
  lemma PassedCheck(w: Windows, safety: Safety, s: Stmt, ack: Ack, now: int)
    requires Check(w, safety, s, ack, now).refusal.None?
    ensures var w' := Check(w, safety, s, ack, now).windows;
      && w'.ddl == w.ddl
      && (safety.env == Prod && s.IsUnsafe() ==>
            w.dml.Some? && now < w.dml.value.expiresAt && w.dml.value.table == s.table && w'.dml.None?)
      && (safety.env != Prod || !s.IsUnsafe() ==> w'.dml == w.dml)
      && (s.IsGatedDdl() && safety.env != Dev && safety.env != Local ==>
            w.ddl.Some? && now < w.ddl.value.expiresAt && (s.risk == Destructive ==> w.ddl.value.kind == Destructive))
  {
  }

  /** The DDL window has to be open for this statement. */
  predicate NeedsDdlWindow(env: Env, s: Stmt) {
    s.isDdl && s.risk != Comment && !s.isTruncate && env != Dev && env != Local && !(env == Prod && s.IsUnsafe())
  }

  predicate HasDdlWindow(w: Windows, s: Stmt, now: int) {
    w.ddl.Some? && now < w.ddl.value.expiresAt && (s.risk == Destructive ==> w.ddl.value.kind == Destructive)
  }

  predicate HasUnlock(w: Windows, s: Stmt, now: int) {
    w.dml.Some? && now < w.dml.value.expiresAt && w.dml.value.table == s.table
  }

  /** The rules of the gate, one by one: what each environment asks of a statement. */
  predicate Allowed(w: Windows, safety: Safety, s: Stmt, ack: Ack, now: int) {
    && (safety.readOnly ==> s.readOnlySafe)
    && (safety.env == Prod ==> !s.isTruncate && (s.IsUnsafe() ==> HasUnlock(w, s, now)))
    && (safety.env == Staging && s.IsUnsafe() ==> ack.table != "" && ack.table == s.table)
    && (safety.env != Prod && safety.env != Staging && safety.warnUnsafeDml && s.isBulkDml ==> ack.unsafe)
    && (NeedsDdlWindow(safety.env, s) ==> HasDdlWindow(w, s, now))
  }

  /** The gate lets a statement through exactly when no rule is against it. */
  lemma PassesIffAllowed(w: Windows, safety: Safety, s: Stmt, ack: Ack, now: int)
    ensures Check(w, safety, s, ack, now).refusal.None? <==> Allowed(w, safety, s, ack, now)
  {
    hide CheckDdl;
    DdlPassesIff(w, s, now);
  }

  lemma DdlPassesIff(w: Windows, s: Stmt, now: int)
    ensures CheckDdl(w, s, now).refusal.None? <==> HasDdlWindow(w, s, now)
  {
  }

  lemma RefusedCheck(w: Windows, safety: Safety, s: Stmt, ack: Ack, now: int)
    ensures var c := Check(w, safety, s, ack, now);
      c.refusal.Some? ==> c.windows.dml == w.dml && (c.windows.ddl == w.ddl || c.windows.ddl.None?)
  {
  }

  predicate AnyUnsafe(stmts: seq<Stmt>) {
    exists i :: 0 <= i < |stmts| && stmts[i].IsUnsafe()
  }

  /** What a pre-scan that refuses nothing says of the windows it found. */
  lemma {:induction false} PassedScan(w: Windows, safety: Safety, stmts: seq<Stmt>, ack: Ack, now: int)
    requires CheckAll(w, safety, stmts, ack, now).refusal.None?
    ensures var w' := CheckAll(w, safety, stmts, ack, now).windows;
      && w'.ddl == w.ddl
      && (safety.env != Prod || !AnyUnsafe(stmts) ==> w'.dml == w.dml)
      && (safety.env == Prod && AnyUnsafe(stmts) ==> w.dml.Some? && now < w.dml.value.expiresAt && w'.dml.None?)
    ensures safety.env == Prod ==> forall i :: 0 <= i < |stmts| && stmts[i].IsUnsafe() ==>
      w.dml.Some? && w.dml.value.table == stmts[i].table && !AnyUnsafe(stmts[..i])
    ensures safety.env != Dev && safety.env != Local ==> forall i :: 0 <= i < |stmts| && stmts[i].IsGatedDdl() ==>
      w.ddl.Some? && now < w.ddl.value.expiresAt && (stmts[i].risk == Destructive ==> w.ddl.value.kind == Destructive)
    decreases |stmts|
  {
    hide Check;
    if stmts != [] {
      var s, rest := stmts[0], stmts[1..];
      var w1 := Check(w, safety, s, ack, now).windows;
      PassedCheck(w, safety, s, ack, now);
      PassedScan(w1, safety, rest, ack, now);
      assert AnyUnsafe(rest) ==> AnyUnsafe(stmts) by {
        if AnyUnsafe(rest) {
          var i :| 0 <= i < |rest| && rest[i].IsUnsafe();
          assert stmts[i + 1].IsUnsafe();
        }
      }
      forall i | 0 <= i < |stmts| && stmts[i].IsUnsafe()
        ensures i > 0 ==> rest[i - 1].IsUnsafe()
        ensures safety.env == Prod ==> !AnyUnsafe(stmts[..i])
      {
        if safety.env == Prod && i > 0 {
          assert rest[i - 1] == stmts[i];
          assert !s.IsUnsafe();
          assert stmts[..i] == [s] + rest[..i - 1];
        }
      }
    }
  }

  // ---- Batches --------------------------------------------------------------------

  /** Statements go out in order; all results but the last are ok. */
  predicate Orderly(stmts: seq<Stmt>, e: Execution, i: nat) {
    && |e.results| == i <= |stmts|
    && (forall k :: 0 <= k < i - 1 ==> e.results[k] == OkStatus)
    && |e.sent| <= i && e.sent == stmts[..|e.sent|] && |e.sent| >= i - 1
  }

  lemma {:induction false} ExecutionIsOrderly(stmts: seq<Stmt>, fates: seq<Fate>, i: nat, e: Execution)
    requires Orderly(stmts, e, i) && |e.sent| == i && forall k :: 0 <= k < i ==> e.results[k] == OkStatus
    ensures var e' := ExecuteFrom(stmts, fates, i, e);
      && Orderly(stmts, e', |e'.results|)
      && (|e'.results| < |stmts| ==> e'.results != [] && e'.results[|e'.results| - 1] != OkStatus)
      && e.sent <= e'.sent
    decreases |stmts| - i
  {
    if i < |stmts| {
      var f := FateAt(fates, i);
      if f == Succeeds && e.session {
        var e' := Execution(e.results + [StatusOf(f)], e.sent + [stmts[i]], true);
        assert stmts[..i + 1] == stmts[..i] + [stmts[i]];
        ExecutionIsOrderly(stmts, fates, i + 1, e');
      } else if e.session && f != CancelledBefore {
        assert stmts[..i + 1] == stmts[..i] + [stmts[i]];
      }
    }
  }

  /** The i-th statement is refused when its turn comes in the pre-scan. */
  predicate RefusedAt(w: Windows, safety: Safety, stmts: seq<Stmt>, ack: Ack, now: int, i: nat)
    requires i < |stmts|
  {
    var c := CheckAll(w, safety, stmts[..i], ack, now);
    c.refusal.None? && Check(c.windows, safety, stmts[i], ack, now).refusal.Some?
  }

  lemma {:induction false} ScanRefusesAt(w: Windows, safety: Safety, stmts: seq<Stmt>, ack: Ack, now: int)
    ensures CheckAll(w, safety, stmts, ack, now).refusal.Some? <==>
      exists i :: 0 <= i < |stmts| && RefusedAt(w, safety, stmts, ack, now, i)
    decreases |stmts|
  {
    hide Check;
    if stmts != [] {
      var c := Check(w, safety, stmts[0], ack, now);
      if c.refusal.Some? {
        assert RefusedAt(w, safety, stmts, ack, now, 0);
      } else {
        var rest := stmts[1..];
        ScanRefusesAt(c.windows, safety, rest, ack, now);
        forall i | 0 <= i < |rest|
          ensures RefusedAt(w, safety, stmts, ack, now, i + 1) <==> RefusedAt(c.windows, safety, rest, ack, now, i)
        {
          assert stmts[..i + 1] == [stmts[0]] + rest[..i];
          assert stmts[..i + 1][1..] == rest[..i];
        }
        forall i | 0 <= i < |stmts| && RefusedAt(w, safety, stmts, ack, now, i)
          ensures i > 0 && RefusedAt(c.windows, safety, rest, ack, now, i - 1)
        {
        }
      }
    }
  }

  /**
   * A batch with any refused statement executes nothing. Otherwise its statements go to
   * the database in order, and the results are those of a prefix, all ok but the last.
   */
  lemma BatchIsAllOrNothing(s: State, stmts: seq<Stmt>, ack: Ack, userOrigin: bool, fates: seq<Fate>)
    ensures var o := RunQuery(s, Batch(stmts), ack, userOrigin, fates);
      !o.reply.Rejected? ==>
        if exists i :: 0 <= i < |stmts| && RefusedAt(s.windows, s.safety, stmts, ack, s.now, i) then o.reply.Refused?
        else
          && o.reply.Ran?
          && |o.reply.results| <= |stmts| && |o.reply.sent| <= |stmts|
          && o.reply.sent == stmts[..|o.reply.sent|]
          && |o.reply.results| - 1 <= |o.reply.sent| <= |o.reply.results|
          && (forall k :: 0 <= k < |o.reply.results| - 1 ==> o.reply.results[k] == OkStatus)
          && (|o.reply.results| < |stmts| ==>
                o.reply.results != [] && o.reply.results[|o.reply.results| - 1] != OkStatus)
  {
    hide CheckAll, ExecuteFrom, RefusedAt;
    ScanRefusesAt(s.windows, s.safety, stmts, ack, s.now);
    ExecutionIsOrderly(stmts, FatesFor(Batch(stmts), fates), 0, Execution([], [], s.session));
  }

  lemma SentIsPrefix(q: Query, fates: seq<Fate>, session: bool)
    ensures var e := ExecuteFrom(Statements(q), fates, 0, Execution([], [], session));
      |e.sent| <= |Statements(q)| && e.sent == Statements(q)[..|e.sent|]
  {
    hide ExecuteFrom;
    ExecutionIsOrderly(Statements(q), fates, 0, Execution([], [], session));
  }

  // ---- Bulk DML on prod, over whole runs ------------------------------------------

  /** The i-th event sends bulk DML or MERGE to a prod database. */
  predicate RunsUnsafe(events: seq<Event>, i: nat)
    requires i < |events|
  {
    events[i].Run? && At(events, i).safety.env == Prod && ReplyAt(events, i).Ran? && AnyUnsafe(ReplyAt(events, i).sent)
  }

  predicate ChangesSession(e: Event) {
    e.Open? || e.Close?
  }

  /** The j-th event opened the unlock window that is still unspent before the n-th. */
  predicate OpenedDml(events: seq<Event>, n: nat, j: nat)
    requires n <= |events|
  {
    && j < n && events[j].Unlock? && ReplyAt(events, j) == Done
    && At(events, n).windows.dml == Some(DmlWindow(events[j].table, At(events, j).now + UNSAFE_DML_WINDOW_TTL_MS))
    && forall k :: j < k < n ==> !ChangesSession(events[k]) && !RunsUnsafe(events, k)
  }

  lemma QueryAndDml(s: State, e: Event)
    requires e.Run?
    ensures var o := Step(s, e);
      && (o.state.windows.dml == s.windows.dml || o.state.windows.dml.None?)
      && (o.reply.Ran? && s.safety.env == Prod && AnyUnsafe(o.reply.sent) ==> o.state.windows.dml.None?)
      && o.state.now == s.now
  {
    hide CheckAll, ExecuteFrom;
    var q := e.query;
    ScanKeepsDml(s.windows, s.safety, Statements(q), e.ack, s.now);
    if CheckAll(s.windows, s.safety, Statements(q), e.ack, s.now).refusal.None? {
      PassedScan(s.windows, s.safety, Statements(q), e.ack, s.now);
      SentIsPrefix(q, FatesFor(q, e.fates), s.session);
    }
  }

  lemma {:induction false} ScanKeepsDml(w: Windows, safety: Safety, stmts: seq<Stmt>, ack: Ack, now: int)
    ensures var w' := CheckAll(w, safety, stmts, ack, now).windows;
      (w'.dml == w.dml || w'.dml.None?) && (w'.ddl == w.ddl || w'.ddl.None?)
    decreases |stmts|
  {
    hide Check;
    if stmts != [] {
      var c := Check(w, safety, stmts[0], ack, now);
      RefusedCheck(w, safety, stmts[0], ack, now);
      if c.refusal.None? {
        PassedCheck(w, safety, stmts[0], ack, now);
        ScanKeepsDml(c.windows, safety, stmts[1..], ack, now);
      }
    }
  }

  /** An open unlock window always comes from an unlock of this session not yet spent. */
  lemma {:induction false} DmlWindowHasSource(events: seq<Event>, n: nat) returns (j: nat)
    requires n <= |events|
    ensures At(events, n).windows.dml.Some? ==> OpenedDml(events, n, j)
  {
    hide RunQuery;
    j := 0;
    if n > 0 && At(events, n).windows.dml.Some? {
      var e := events[n - 1];
      if e.Unlock? && ReplyAt(events, n - 1) == Done {
        j := n - 1;
      } else {
        if e.Run? {
          QueryAndDml(At(events, n - 1), e);
        }
        j := DmlWindowHasSource(events, n - 1);
      }
    }
  }

  /** The j-th event is the unlock that the i-th spent on statement x. */
  predicate UnlockSpentBy(events: seq<Event>, j: nat, i: nat, x: Stmt)
    requires i < |events|
  {
    && j < i && events[j].Unlock? && ReplyAt(events, j) == Done
    && events[j].table == x.table
    && At(events, i).now - At(events, j).now < UNSAFE_DML_WINDOW_TTL_MS
    && forall k :: j < k < i ==> !ChangesSession(events[k]) && !RunsUnsafe(events, k)
  }

  lemma NoneUnsafeBefore(stmts: seq<Stmt>, i: nat)
    requires i <= |stmts| && !AnyUnsafe(stmts[..i])
    ensures forall k :: 0 <= k < i ==> !stmts[k].IsUnsafe()
  {
    forall k | 0 <= k < i
      ensures !stmts[k].IsUnsafe()
    {
      assert stmts[..i][k] == stmts[k];
    }
  }

  /**
   * Over any run: every MERGE or bulk DML sent to prod was let through by an unlock of the
   * same session, for the same table, less than 15 minutes before, that nothing else had
   * been sent on; and one query sends at most one such statement.
   */
  lemma UnsafeDmlWasUnlocked(events: seq<Event>, i: nat, a: nat) returns (j: nat)
    requires i < |events| && RunsUnsafe(events, i)
    requires a < |ReplyAt(events, i).sent| && ReplyAt(events, i).sent[a].IsUnsafe()
    ensures UnlockSpentBy(events, j, i, ReplyAt(events, i).sent[a])
    ensures forall b :: 0 <= b < |ReplyAt(events, i).sent| && ReplyAt(events, i).sent[b].IsUnsafe() ==> b == a
  {
    hide CheckAll, ExecuteFrom;
    var s, e := At(events, i), events[i];
    var stmts := Statements(e.query);
    SentIsPrefix(e.query, FatesFor(e.query, e.fates), s.session);
    var sent := ReplyAt(events, i).sent;
    PassedScan(s.windows, s.safety, stmts, e.ack, s.now);
    assert stmts[a] == sent[a] && AnyUnsafe(stmts);
    j := DmlWindowHasSource(events, i);
    NoneUnsafeBefore(stmts, a);
    forall b | 0 <= b < |sent| && sent[b].IsUnsafe()
      ensures b == a
    {
      assert stmts[b] == sent[b];
      NoneUnsafeBefore(stmts, b);
    }
  }

  /** The j-th event is the unlock behind the one unsafe statement that the i-th sends. */
  ghost predicate Unlocks(events: seq<Event>, j: nat, i: nat) {
    && j < i < |events| && RunsUnsafe(events, i)
    && forall a :: 0 <= a < |ReplyAt(events, i).sent| && ReplyAt(events, i).sent[a].IsUnsafe() ==>
      UnlockSpentBy(events, j, i, ReplyAt(events, i).sent[a])
  }

  /**
   * Over any run: the queries that send bulk DML or MERGE to prod map one-to-one into the
   * unlocks that let them through. One unlock, one statement.
   */
  lemma {:induction false} UnlocksAreOneToOne(events: seq<Event>, n: nat) returns (f: map<nat, nat>)
    requires n <= |events|
    ensures forall i: nat :: i in f <==> i < n && RunsUnsafe(events, i)
    ensures forall i :: i in f ==> Unlocks(events, f[i], i)
    ensures forall i, i' :: i in f && i' in f && i < i' ==> f[i] < i < f[i'] < i'
  {
    hide RunsUnsafe;
    f := map[];
    if n > 0 {
      f := UnlocksAreOneToOne(events, n - 1);
      if RunsUnsafe(events, n - 1) {
        var a := UnsafeIsSent(events, n - 1);
        var j := UnsafeDmlWasUnlocked(events, n - 1, a);
        forall i | i in f
          ensures i < j
        {
          UnlockIsLater(events, i, j, n - 1, ReplyAt(events, n - 1).sent[a]);
        }
        f := f[n - 1 := j];
      }
    }
  }

  /** An unlock that is spent at i' comes after every earlier query that spent one. */
  lemma UnlockIsLater(events: seq<Event>, i: nat, j: nat, i': nat, x: Stmt)
    requires i < i' < |events| && RunsUnsafe(events, i) && UnlockSpentBy(events, j, i', x)
    ensures i < j
  {
    assert i != j;
  }

  lemma UnsafeIsSent(events: seq<Event>, i: nat) returns (a: nat)
    requires i < |events| && RunsUnsafe(events, i)
    ensures events[i].Run? && ReplyAt(events, i).Ran?
    ensures a < |ReplyAt(events, i).sent| && ReplyAt(events, i).sent[a].IsUnsafe()
  {
    a :| 0 <= a < |ReplyAt(events, i).sent| && ReplyAt(events, i).sent[a].IsUnsafe();
  }

  /** Unlock, wait, send: what an unlock is good for. */
  function Redeem(s: State, stmt: Stmt, wait: int, ack: Ack, fates: seq<Fate>): Outcome {
    var unlocked := Step(s, Unlock(stmt.table)).state;
    var later := Step(unlocked, Tick(wait)).state;
    Step(later, Run(Single(stmt), ack, true, fates))
  }

  /**
   * An unlock is good for one statement: sent in under 15 minutes the bulk DML goes out
   * whatever else is open, after that it does not, and a second time it is refused.
   */
  lemma UnlockIsGoodForOne(s: State, stmt: Stmt, wait: int, ack: Ack, fates: seq<Fate>)
    requires s.session && !s.running && s.safety.env == Prod && !s.safety.readOnly
    requires stmt.IsUnsafe() && !stmt.isTruncate && stmt.table != ""
    ensures var first := Redeem(s, stmt, wait, ack, fates);
      var again := Step(first.state, Run(Single(stmt), ack, true, fates));
      && (wait < UNSAFE_DML_WINDOW_TTL_MS ==> first.reply.Ran? && first.reply.sent == [stmt])
      && (wait >= UNSAFE_DML_WINDOW_TTL_MS ==> first.reply == Refused(UnsafeDmlProdBlocked))
      && (first.state.safety == s.safety ==> again.reply == Refused(UnsafeDmlProdBlocked))
  {
    OneStatementScan(stmt);
    OneStatementRun(stmt, fates);
  }

  lemma OneStatementRun(stmt: Stmt, fates: seq<Fate>)
    ensures ExecuteFrom([stmt], FatesFor(Single(stmt), fates), 0, Execution([], [], true)).sent == [stmt]
  {
    var fs := FatesFor(Single(stmt), fates);
    var f := FateAt(fs, 0);
    var e' := Execution([] + [StatusOf(f)], [] + [stmt], f != LosesSession);
    assert ExecuteFrom([stmt], fs, 1, e') == e';
  }

  lemma OneStatementScan(stmt: Stmt)
    ensures forall w, safety, ack, now :: CheckAll(w, safety, [stmt], ack, now) == Check(w, safety, stmt, ack, now)
  {
    forall w, safety, ack, now
      ensures CheckAll(w, safety, [stmt], ack, now) == Check(w, safety, stmt, ack, now)
    {
      assert [stmt][1..] == [];
    }
  }

  // ---- DDL on staging and prod, over whole runs -----------------------------------

  predicate TouchesDdlWindow(e: Event) {
    ChangesSession(e) || e.DdlUnlock? || e.Confirm?
  }

  /** The j-th event is the latest confirmation, with no unlock, open or close since. */
  predicate ConfirmedBy(events: seq<Event>, j: nat, n: nat)
    requires n <= |events|
  {
    j < n && events[j].Confirm? && forall k :: j < k < n ==> !TouchesDdlWindow(events[k])
  }

  predicate OpenedDdl(events: seq<Event>, n: nat, j: nat)
    requires n <= |events|
  {
    && ConfirmedBy(events, j, n)
    && At(events, n).windows.ddl
       == Some(DdlWindow(events[j].kind, At(events, j).now, At(events, j).now + DDL_WINDOW_TTL_MS))
  }

  lemma QueryAndDdl(s: State, e: Event)
    requires e.Run?
    ensures var o := Step(s, e); o.state.windows.ddl == s.windows.ddl || o.state.windows.ddl.None?
  {
    hide CheckAll, ExecuteFrom;
    ScanKeepsDml(s.windows, s.safety, Statements(e.query), e.ack, s.now);
  }

  lemma {:induction false} DdlWindowHasSource(events: seq<Event>, n: nat) returns (j: nat)
    requires n <= |events|
    ensures At(events, n).windows.ddl.Some? ==> OpenedDdl(events, n, j)
  {
    hide RunQuery;
    j := 0;
    if n > 0 && At(events, n).windows.ddl.Some? {
      var e := events[n - 1];
      if e.Confirm? {
        j := n - 1;
      } else {
        if e.Run? {
          QueryAndDdl(At(events, n - 1), e);
        }
        j := DdlWindowHasSource(events, n - 1);
      }
    }
  }

  /**
   * Over any run: outside dev and local, DDL that no other rule covers passes the gate
   * only while the latest confirmation is under 5 minutes old, with no unlock, open or
   * close since, and only a destructive confirmation lets destructive DDL pass.
   */
  lemma DdlWasConfirmed(events: seq<Event>, i: nat, a: nat) returns (j: nat)
    requires i < |events| && events[i].Run? && ReplyAt(events, i).Ran?
    requires At(events, i).safety.env != Dev && At(events, i).safety.env != Local
    requires a < |Statements(events[i].query)| && Statements(events[i].query)[a].IsGatedDdl()
    ensures ConfirmedBy(events, j, i)
    ensures At(events, i).now - At(events, j).now < DDL_WINDOW_TTL_MS
    ensures Statements(events[i].query)[a].risk == Destructive ==> events[j].kind == Destructive
  {
    hide CheckAll, ExecuteFrom;
    var s, e := At(events, i), events[i];
    PassedScan(s.windows, s.safety, Statements(e.query), e.ack, s.now);
    j := DdlWindowHasSource(events, i);
  }

  /** Between RPCs nothing is running, so no query is ever turned away as a second one. */
  lemma {:induction false} RunnerIsFree(events: seq<Event>, i: nat)
    requires i <= |events|
    ensures !At(events, i).running
    ensures !At(events, i).session ==> At(events, i).safety == NO_SAFETY
  {
    hide CheckAll, ExecuteFrom;
    if i > 0 {
      RunnerIsFree(events, i - 1);
    }
  }

  // ---- The process itself ---------------------------------------------------------

  /** The module state of the sidecar and its RPCs, each one step of the machine above. */
  class Sidecar {
    var session: bool
    var safety: Safety
    var unsafeDmlWindow: Option<DmlWindow>
    var ddlWindow: Option<DdlWindow>
    var running: bool
    var now: int

    ghost function Snapshot(): State
      reads this
    {
      State(session, safety, Windows(unsafeDmlWindow, ddlWindow), running, now)
    }

    constructor ()
      ensures Snapshot() == START
    {
      session, safety, running, now := false, NO_SAFETY, false, 0;
      unsafeDmlWindow, ddlWindow := None, None;
    }

    method ClearSession()
      modifies this
      ensures Snapshot() == old(Snapshot()).(session := false, safety := NO_SAFETY)
    {
      session := false;
      safety := NO_SAFETY;
    }

    method OpenSession(params: Safety, succeeds: bool) returns (r: Reply)
      modifies this
      ensures Outcome(Snapshot(), r) == Step(old(Snapshot()), Open(params, succeeds))
    {
      if session {
        ClearSession();
      }
      unsafeDmlWindow := None;
      ddlWindow := None;
      if !succeeds {
        return Rejected;
      }
      session := true;
      safety := params;
      return Done;
    }

    method CloseSession() returns (r: Reply)
      modifies this
      ensures Outcome(Snapshot(), r) == Step(old(Snapshot()), Close)
    {
      if session {
        ClearSession();
      }
      unsafeDmlWindow := None;
      ddlWindow := None;
      return Done;
    }

    method UnlockUnsafeDml(table: string) returns (r: Reply)
      modifies this
      ensures Outcome(Snapshot(), r) == Step(old(Snapshot()), Unlock(table))
    {
      if safety.env != Prod || table == "" {
        return Rejected;
      }
      unsafeDmlWindow := Some(DmlWindow(table, now + UNSAFE_DML_WINDOW_TTL_MS));
      return Done;
    }

    method ConfirmDdl(kind: DdlRisk) returns (r: Reply)
      modifies this
      ensures Outcome(Snapshot(), r) == Step(old(Snapshot()), Confirm(kind))
    {
      ddlWindow := Some(DdlWindow(kind, now, now + DDL_WINDOW_TTL_MS));
      return Done;
    }

    method CloseDdlWindow() returns (r: Reply)
      modifies this
      ensures Outcome(Snapshot(), r) == Step(old(Snapshot()), DdlUnlock)
    {
      if ddlWindow.Some? {
        ddlWindow := None;
      }
      return Done;
    }

    /** The gate for one statement: spends the unlock window, or drops a stale DDL window. */
    method EnforceSafety(s: Stmt, ack: Ack) returns (refusal: Option<Refusal>)
      modifies this
      ensures var c := Check(old(Snapshot()).windows, safety, s, ack, now);
        refusal == c.refusal && Snapshot() == old(Snapshot()).(windows := c.windows)
    {
      hide CheckDdl;
      if safety.readOnly && !s.readOnlySafe {
        return Some(ReadOnlyBlocked);
      }
      if safety.env == Prod {
        if s.isTruncate {
          return Some(TruncateProdBlocked);
        }
        if s.isMerge || s.isBulkDml {
          var w := unsafeDmlWindow;
          if w.Some? && now < w.value.expiresAt && w.value.table == s.table {
            unsafeDmlWindow := None;
            return None;
          }
          return Some(UnsafeDmlProdBlocked);
        }
      } else if safety.env == Staging {
        if s.isMerge || s.isBulkDml {
          if ack.table == "" {
            return Some(UnsafeDmlStaging);
          }
          if ack.table != s.table {
            return Some(UnsafeDmlStaging);
          }
        }
      } else if safety.warnUnsafeDml && !ack.unsafe && s.isBulkDml {
        return Some(UnsafeDmlWarning);
      }
      if s.isDdl {
        if s.risk == Comment || s.isTruncate || safety.env == Dev || safety.env == Local {
          return None;
        }
        refusal := EnforceDdl(s);
        return;
      }
      return None;
    }

    /** The part of the gate that looks at the DDL window. */
    method EnforceDdl(s: Stmt) returns (refusal: Option<Refusal>)
      modifies this
      ensures var c := CheckDdl(old(Snapshot()).windows, s, now);
        refusal == c.refusal && Snapshot() == old(Snapshot()).(windows := c.windows)
    {
      var w := ddlWindow;
      if s.risk == Destructive {
        if w.Some? && w.value.kind == Destructive && now < w.value.expiresAt {
          return None;
        }
        if w.Some? && now >= w.value.expiresAt {
          ddlWindow := None;
        }
        return Some(DdlUnlockRequired);
      } else {
        if w.Some? && now < w.value.expiresAt {
          return None;
        }
        if w.Some? && now >= w.value.expiresAt {
          ddlWindow := None;
        }
        return Some(DdlBlocked);
      }
    }

    /** The pre-scan of a batch, with the runner flag up. */
    method EnforceAll(stmts: seq<Stmt>, ack: Ack) returns (refusal: Option<Refusal>)
      requires running
      modifies this
      ensures var c := CheckAll(old(Snapshot()).windows, safety, stmts, ack, now);
        refusal == c.refusal && Snapshot() == old(Snapshot()).(windows := c.windows)
    {
      hide Check;
      ghost var before := Snapshot();
      var i := 0;
      while i < |stmts|
        invariant 0 <= i <= |stmts|
        invariant Snapshot() == before.(windows := Snapshot().windows)
        invariant CheckAll(before.windows, safety, stmts, ack, now)
               == CheckAll(Snapshot().windows, safety, stmts[i..], ack, now)
      {
        refusal := EnforceSafety(stmts[i], ack);
        assert stmts[i..][0] == stmts[i] && stmts[i..][1..] == stmts[i + 1..];
        if refusal.Some? {
          return;
        }
        i := i + 1;
      }
      return None;
    }

    /** With the runner flag up, executes statements in turn until one of them is not ok. */
    method ExecuteAll(stmts: seq<Stmt>, fates: seq<Fate>) returns (results: seq<Status>, sent: seq<Stmt>)
      requires running
      modifies this
      ensures var e := ExecuteFrom(stmts, fates, 0, Execution([], [], old(session)));
        && results == e.results && sent == e.sent
        && Snapshot() == (if e.session == old(session) then old(Snapshot())
                          else old(Snapshot()).(session := false, safety := NO_SAFETY))
    {
      results, sent := [], [];
      ghost var before := Snapshot();
      ghost var whole := ExecuteFrom(stmts, fates, 0, Execution([], [], session));
      var i := 0;
      while i < |stmts|
        invariant 0 <= i <= |stmts|
        invariant Snapshot() == before
        invariant whole == ExecuteFrom(stmts, fates, i, Execution(results, sent, session))
      {
        var fate := FateAt(fates, i);
        if fate == CancelledBefore {
          results := results + [CancelledStatus];
          return;
        }
        if !session {
          results := results + [ErrorStatus];
          return;
        }
        sent := sent + [stmts[i]];
        if fate == LosesSession {
          ClearSession();
        }
        results := results + [StatusOf(fate)];
        if fate != Succeeds {
          return;
        }
        i := i + 1;
      }
    }

    /** Origin gate, single-runner flag, pre-scan, then execution; the flag comes down on every path. */
    method QueryExecute(query: Query, ack: Ack, userOrigin: bool, fates: seq<Fate>) returns (r: Reply)
      modifies this
      ensures Outcome(Snapshot(), r) == Step(old(Snapshot()), Run(query, ack, userOrigin, fates))
    {
      hide CheckAll, ExecuteFrom;
      if (safety.psdpm || safety.env == Prod) && !userOrigin {
        return Rejected;
      }
      if running {
        return Rejected;
      }
      running := true;
      if query.BadBatch? {
        running := false;
        return Rejected;
      }
      var refusal := EnforceAll(Statements(query), ack);
      if refusal.Some? {
        running := false;
        return Refused(refusal.value);
      }
      var results, sent := ExecuteAll(Statements(query), FatesFor(query, fates));
      running := false;
      return Ran(results, sent);
    }
  }
}
