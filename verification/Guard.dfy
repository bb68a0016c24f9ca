/** The access decision of `src/guard.rs`: session check, risk, evaluation and audit, with the
    direct write as the fallback when the audit channel is closed. */
module Guard {
  import opened Wrappers
  import opened Errors
  import opened Policy
  import opened PolicyOrder
  import opened Risk
  import opened Text
  import opened AuditEntry
  import PolicyEngine
  import Session
  import Audit
  import Json

  const SESSION_DB_ERROR := DatabaseError("select from sessions")
  const DIRECT_WRITE_ERROR := DatabaseError("insert into audit_log")

  /** One access check: who asks for what, the fresh entry id, the clock and the local hour. */
  datatype Call = Call(
    session: Session.GuardSession,
    action: string,
    resource: string,
    task: string,
    entryId: Uuid,
    now: int,
    hour: nat)

  function BaseEntry(call: Call): Entry {
    Entry(call.entryId, Some(call.session.id), call.session.workspaceId, Some(call.session.agentId),
          call.action, call.resource, None, "", None, 0.0, Json.Object([]), call.now)
  }

  function Context(call: Call, risk: real): EvalContext {
    EvalContext(call.session.agentId, call.session.workspaceId, call.session.role, call.session.scopes,
                call.task, call.resource, call.action, risk)
  }

  function ScoreOf(config: GuardConfig, call: Call): (score: real)
    ensures 0.0 <= score <= 1.0
  {
    Score(config, Context(call, 0.0), call.hour)
  }

  /** The score of a call is that of its own action and resource. */
  lemma ScoreOfCall(config: GuardConfig, call: Call, ctx: EvalContext)
    requires ctx.action == call.action && ctx.resource == call.resource
    ensures ScoreOf(config, call) == Score(config, ctx, call.hour)
  {
    hide Contains, AsciiLower;
  }

  function FieldsJson(fields: seq<string>): Json.Value {
    var texts := seq(|fields|, k requires 0 <= k < |fields| => Json.String(fields[k]));
    Json.Object([Json.Field("fields", Json.Array(texts))])
  }

  /** The record of a decision: everything the base entry says of the call, with the label, the
      reason of a denial, the fields of a mask, and the risk. */
  ghost predicate Records(entry: Entry, call: Call, decision: Decision, risk: real) {
    entry.id == call.entryId && entry.sessionId == Some(call.session.id) &&
    entry.workspaceId == call.session.workspaceId && entry.agentId == Some(call.session.agentId) &&
    entry.action == call.action && entry.resource == call.resource && entry.resourceId == None &&
    entry.ts == call.now && entry.riskScore == risk &&
    match decision
    case Allow => entry.decision == "Allow" && entry.reason == None && entry.metadata == Json.Object([])
    case Deny(reason) => entry.decision == "Deny" && entry.reason == Some(reason) && entry.metadata == Json.Object([])
    case Mask(fields) => entry.decision == "Mask" && entry.reason == None && ListsFields(entry.metadata, fields)
  }

  /** The JSON object `{"fields": [..]}` over these texts. */
  ghost predicate ListsFields(json: Json.Value, fields: seq<string>) {
    json.Object? && |json.fields| == 1 && json.fields[0].key == "fields" &&
    json.fields[0].value.Array? && |json.fields[0].value.items| == |fields| &&
    forall k :: 0 <= k < |fields| ==> json.fields[0].value.items[k] == Json.String(fields[k])
  }

  function Finished(entry: Entry, decision: Decision, risk: real): Entry {
    (match decision
     case Allow => entry.(decision := "Allow")
     case Deny(reason) => entry.(decision := "Deny", reason := Some(reason))
     case Mask(fields) => entry.(decision := "Mask", metadata := FieldsJson(fields)))
    .(riskScore := risk)
  }

  /** The record a call is to leave, given what the session check and the evaluation said: none if
      the evaluation failed. */
  function RecordOf(config: GuardConfig, call: Call, active: Result<(), GuardError>,
                    evaluated: Result<Decision, GuardError>): Option<Entry> {
    match active
    case Err(e) => Some(Finished(BaseEntry(call), Deny(e.Text()), 1.0))
    case Ok(_) =>
      if evaluated.Err? then None else Some(Finished(BaseEntry(call), evaluated.value, ScoreOf(config, call)))
  }

  // ---------- runs ----------

  /** A finished call: what it returned and the record it left, if any. */
  datatype Done = Done(call: Call, returned: Result<Decision, GuardError>, record: Option<Entry>)

  /** The audit table is the rows of the worker (`pipe.log`) and the rows written `direct`. */
  datatype State = State(pipe: Audit.Pipeline, direct: seq<Entry>, history: seq<Done>)

  datatype Event =
    | Access(call: Call, active: Result<(), GuardError>, evaluated: Result<Decision, GuardError>, directOk: bool)
    | Work(event: Audit.Event)

  predicate Enabled(s: State, e: Event) {
    match e
    case Access(_, _, _, _) =>
      !s.pipe.sendersGone && (s.pipe.worker.Running? ==> |s.pipe.queue| < Audit.Capacity(s.pipe))
    case Work(event) => !event.Send? && Audit.Enabled(s.pipe, event)
  }

  /** Whether a record is written, and what the caller then gets. */
  function DoneBy(config: GuardConfig, s: State, e: Event): Done
    requires e.Access?
  {
    var record := RecordOf(config, e.call, e.active, e.evaluated);
    if record.None? then Done(e.call, Err(e.evaluated.error), None)
    else if !s.pipe.worker.Running? && !e.directOk then Done(e.call, Err(DIRECT_WRITE_ERROR), None)
    else Done(e.call, if e.active.Err? then Err(e.active.error) else e.evaluated, record)
  }

  function Next(config: GuardConfig, s: State, e: Event): State
    requires Enabled(s, e)
  {
    match e
    case Work(event) => s.(pipe := Audit.Next(s.pipe, event))
    case Access(_, _, _, _) =>
      var done := DoneBy(config, s, e);
      var t := s.(history := s.history + [done]);
      if done.record.None? then t
      else if s.pipe.worker.Running? then t.(pipe := Audit.Next(s.pipe, Audit.Send(done.record.value)))
      else t.(direct := s.direct + [done.record.value])
  }

  function Written(history: seq<Done>): seq<Entry> {
    if history == [] then []
    else
      var last := history[|history| - 1].record;
      Written(history[..|history| - 1]) + if last.Some? then [last.value] else []
  }

  /** The session errors: what the session check itself finds. */
  predicate IsSessionError(e: GuardError) {
    e.InvalidToken? || e.SessionExpired? || e.SessionRevoked?
  }

  /** What the record of a finished call says about what it returned: a decision stands with the
      score of the call, an error with risk 1. */
  ghost predicate Accounted(config: GuardConfig, done: Done) {
    (done.returned.Ok? ==>
       done.record.Some? && Records(done.record.value, done.call, done.returned.value, ScoreOf(config, done.call))) &&
    (done.returned.Err? && done.record.Some? ==>
       Records(done.record.value, done.call, Deny(done.returned.error.Text()), 1.0)) &&
    (done.returned.Err? && IsSessionError(done.returned.error) ==> done.record.Some?)
  }

  /** Evaluation has nothing to do with sessions: it never fails with one of their errors. */
  predicate KnowsNoSessions(e: Event) {
    e.Access? && e.evaluated.Err? ==> !IsSessionError(e.evaluated.error)
  }

  ghost predicate Inv(config: GuardConfig, s: State) {
    Audit.Conserves(s.pipe) &&
    (forall done :: done in s.history ==> Accounted(config, done)) &&
    s.pipe.accepted + s.direct == Written(s.history) &&
    (!s.pipe.worker.Crashed? ==> s.direct == [])
  }

  lemma FinishedRecords(call: Call, decision: Decision, risk: real)
    ensures Records(Finished(BaseEntry(call), decision, risk), call, decision, risk)
  {
  }

  lemma DoneIsAccounted(config: GuardConfig, s: State, e: Event)
    requires e.Access? && KnowsNoSessions(e)
    ensures Accounted(config, DoneBy(config, s, e))
  {
    if e.active.Err? {
      FinishedRecords(e.call, Deny(e.active.error.Text()), 1.0);
    } else if e.evaluated.Ok? {
      FinishedRecords(e.call, e.evaluated.value, ScoreOf(config, e.call));
    }
  }

  lemma StepKeepsInv(config: GuardConfig, s: State, e: Event)
    requires Inv(config, s) && Enabled(s, e) && KnowsNoSessions(e)
    ensures Inv(config, Next(config, s, e))
  {
    hide Audit.Conserves, Accounted, DoneBy;
    var t := Next(config, s, e);
    match e
    case Work(event) =>
      Audit.StepConserves(s.pipe, event);
      WorkKeepsAccepted(s.pipe, event);
    case Access(_, _, _, _) =>
      var done := DoneBy(config, s, e);
      DoneIsAccounted(config, s, e);
      assert (s.history + [done])[..|s.history|] == s.history;
      if done.record.Some? {
        var entry := done.record.value;
        if s.pipe.worker.Running? {
          Audit.StepConserves(s.pipe, Audit.Send(entry));
          assert s.pipe.accepted + [entry] + [] == Written(s.history) + [entry];
        } else {
          StoppedHasNoSenders(s.pipe);
          assert s.pipe.accepted + (s.direct + [entry]) == Written(s.history) + [entry];
        }
      }
  }

  lemma WorkKeepsAccepted(p: Audit.Pipeline, event: Audit.Event)
    requires Audit.Enabled(p, event) && !event.Send?
    ensures Audit.Next(p, event).accepted == p.accepted
    ensures !Audit.Next(p, event).worker.Crashed? ==> !p.worker.Crashed?
  {
  }

  lemma StoppedHasNoSenders(p: Audit.Pipeline)
    requires Audit.Conserves(p) && !p.sendersGone && !p.worker.Running?
    ensures p.worker.Crashed?
  {
  }

  predicate Runs(config: GuardConfig, s: State, events: seq<Event>)
    decreases |events|
  {
    events == [] ||
    (Enabled(s, events[0]) && KnowsNoSessions(events[0]) && Runs(config, Next(config, s, events[0]), events[1..]))
  }

  function After(config: GuardConfig, s: State, events: seq<Event>): State
    requires Runs(config, s, events)
    decreases |events|
  {
    if events == [] then s else After(config, Next(config, s, events[0]), events[1..])
  }

  function Start(config: GuardConfig): State {
    State(Audit.Fresh(config.auditBatchSize), [], [])
  }

  lemma {:induction false} RunKeepsInv(config: GuardConfig, s: State, events: seq<Event>)
    requires Inv(config, s) && Runs(config, s, events)
    ensures Inv(config, After(config, s, events))
    decreases |events|
  {
    if events != [] {
      StepKeepsInv(config, s, events[0]);
      RunKeepsInv(config, Next(config, s, events[0]), events[1..]);
    }
  }

  /** Over any run of access checks and worker events: every returned decision and every session
      error has left exactly one record that tells it, and the records left, in order, are those
      the queue accepted followed by those written directly. */
  lemma EveryDecisionIsAudited(config: GuardConfig, events: seq<Event>)
    requires Runs(config, Start(config), events)
    ensures var s := After(config, Start(config), events);
            (forall done :: done in s.history ==> Accounted(config, done)) &&
            s.pipe.accepted + s.direct == Written(s.history) && Audit.Conserves(s.pipe)
  {
    RunKeepsInv(config, Start(config), events);
  }

  /** The calls come with entry ids of their own. */
  ghost predicate OwnIds(history: seq<Done>) {
    forall i, j :: 0 <= i < j < |history| ==> history[i].call.entryId != history[j].call.entryId
  }

  lemma {:induction false} WrittenOnce(config: GuardConfig, history: seq<Done>)
    requires OwnIds(history) && forall done :: done in history ==> Accounted(config, done)
    ensures forall entry :: entry in Written(history) ==>
              exists k :: 0 <= k < |history| && history[k].call.entryId == entry.id
    ensures forall i, j :: 0 <= i < j < |Written(history)| ==> Written(history)[i].id != Written(history)[j].id
  {
    if history != [] {
      var front, last := history[..|history| - 1], history[|history| - 1];
      WrittenOnce(config, front);
      assert last in history && Accounted(config, last);
      assert forall k :: 0 <= k < |front| ==> front[k] == history[k];
      forall entry | entry in Written(history)
        ensures exists k :: 0 <= k < |history| && history[k].call.entryId == entry.id
      {
        if entry in Written(front) {
          var k :| 0 <= k < |front| && front[k].call.entryId == entry.id;
          assert history[k].call.entryId == entry.id;
        } else {
          assert history[|history| - 1].call.entryId == entry.id;
        }
      }
    }
  }

  /** So with fresh entry ids no record is in the queue's entries and among the direct ones, nor
      twice in either. */
  lemma RecordsAppearOnce(config: GuardConfig, events: seq<Event>)
    requires Runs(config, Start(config), events) && OwnIds(After(config, Start(config), events).history)
    ensures var s := After(config, Start(config), events);
            var all := s.pipe.accepted + s.direct;
            forall i, j :: 0 <= i < j < |all| ==> all[i].id != all[j].id
  {
    RunKeepsInv(config, Start(config), events);
    WrittenOnce(config, After(config, Start(config), events).history);
  }

  /** And when the worker has stopped with no failed flush, the log is exactly those records. */
  lemma DrainedLogIsComplete(config: GuardConfig, events: seq<Event>)
    requires Runs(config, Start(config), events)
    ensures var s := After(config, Start(config), events);
            s.pipe.worker.Stopped? && (forall c :: c in s.pipe.chunks ==> c.persisted) ==>
              s.direct == [] && s.pipe.log == Written(s.history)
  {
    RunKeepsInv(config, Start(config), events);
    var s := After(config, Start(config), events);
    if s.pipe.worker.Stopped? && forall c :: c in s.pipe.chunks ==> c.persisted {
      Audit.AllPersisted(s.pipe.chunks);
      assert Audit.Flat(s.pipe.chunks) + [] + [] + [] == Audit.Flat(s.pipe.chunks);
      assert s.pipe.accepted + [] == s.pipe.accepted;
    }
  }

  /** Whether a check leaves a record: the session check or the evaluation gave it something to
      record, and there was a queue or a table to take it. */
  predicate LeavesRecord(s: State, e: Event) {
    e.Access? && (e.active.Err? || e.evaluated.Ok?) && (s.pipe.worker.Running? || e.directOk)
  }

  /** A check leaves a record exactly then: of the session error at risk 1, which it returns, or of the
      decision at its score, which it returns. Otherwise neither the queue nor the table changes, and
      it returns the error of the evaluation, or that of the refused direct insert. */
  lemma RecordExactly(config: GuardConfig, s: State, e: Event)
    requires e.Access? && Enabled(s, e)
    ensures DoneBy(config, s, e).record.Some? <==> LeavesRecord(s, e)
    ensures LeavesRecord(s, e) ==>
              var done := DoneBy(config, s, e);
              match e.active
              case Err(error) =>
                done.returned == Err(error) && Records(done.record.value, e.call, Deny(error.Text()), 1.0)
              case Ok(_) =>
                done.returned == e.evaluated && e.evaluated.Ok? &&
                Records(done.record.value, e.call, e.evaluated.value, ScoreOf(config, e.call))
    ensures !LeavesRecord(s, e) ==>
              Next(config, s, e).pipe == s.pipe && Next(config, s, e).direct == s.direct &&
              DoneBy(config, s, e).returned ==
              Err(if e.active.Ok? && e.evaluated.Err? then e.evaluated.error else DIRECT_WRITE_ERROR)
  {
  }

  /** The reasons recorded for refused sessions. */
  lemma SessionErrorReasons(config: GuardConfig, s: State, e: Event)
    requires e.Access? && LeavesRecord(s, e) && e.active.Err? && IsSessionError(e.active.error)
    ensures var entry := DoneBy(config, s, e).record.value;
            entry.decision == "Deny" && entry.riskScore == 1.0 &&
            entry.reason == Some(match e.active.error
                                 case InvalidToken => "invalid token"
                                 case SessionExpired => "session expired"
                                 case _ => "session revoked")
  {
  }

  /** How many events of a run leave a record. */
  function Leaving(config: GuardConfig, s: State, events: seq<Event>): nat
    requires Runs(config, s, events)
    decreases |events|
  {
    if events == [] then 0
    else (if LeavesRecord(s, events[0]) then 1 else 0) + Leaving(config, Next(config, s, events[0]), events[1..])
  }

  lemma {:induction false} WrittenGrows(config: GuardConfig, s: State, events: seq<Event>)
    requires Runs(config, s, events)
    ensures |Written(After(config, s, events).history)| == |Written(s.history)| + Leaving(config, s, events)
    decreases |events|
  {
    if events != [] {
      var e, t := events[0], Next(config, s, events[0]);
      if e.Access? {
        RecordExactly(config, s, e);
        assert t.history[..|s.history|] == s.history;
      }
      WrittenGrows(config, t, events[1..]);
    }
  }

  /** So over any run there are exactly as many records, queued or direct, as events that leave
      one. */
  lemma RecordsCounted(config: GuardConfig, events: seq<Event>)
    requires Runs(config, Start(config), events)
    ensures var s := After(config, Start(config), events);
            |s.pipe.accepted| + |s.direct| == Leaving(config, Start(config), events)
  {
    RunKeepsInv(config, Start(config), events);
    WrittenGrows(config, Start(config), events);
    var s := After(config, Start(config), events);
    assert |s.pipe.accepted + s.direct| == |s.pipe.accepted| + |s.direct|;
  }

  /** Once a session is revoked or expired, no access check on it succeeds, ever after. */
  lemma DeadSessionsAreRefused(config: GuardConfig, sessions: Session.State, later: seq<Session.Event>,
                               s: State, e: Event)
    requires e.Access? && e.call.session.id in sessions.rows
    requires var row := sessions.rows[e.call.session.id];
             row.revoked || Session.StoredExpiry(row) <= sessions.clock
    requires var t := Session.After(sessions, later);
             e.active == Session.Active(t.rows, e.call.session.id, t.clock)
    ensures DoneBy(config, s, e).returned.Err?
  {
    Session.DeadStaysDead(sessions, later, e.call.session.id, Session.Foreign(""), 0);
  }

  // ---------- the guard as an object ----------

  /** The decision of some listing the database may give for these rows. */
  ghost predicate SomeListingDecides(rows: seq<Policy>, ctx: EvalContext, decision: Decision) {
    exists listing :: ValidListing(listing, rows) && decision == Decide(listing, ctx)
  }

  /** The answers of the database during one call. */
  datatype Answers = Answers(checkOk: bool, listing: Result<seq<Policy>, GuardError>, directOk: bool)

  class Guard {
    const config: GuardConfig
    const sessions: Session.SessionManager
    const policy: PolicyEngine.Engine
    const audit: Audit.AuditWriter
    var direct: seq<Entry>
    ghost var history: seq<Done>

    constructor (config: GuardConfig, sessions: Session.SessionManager, policy: PolicyEngine.Engine)
      ensures this.config == config && this.sessions == sessions && this.policy == policy
      ensures fresh(audit) && Snapshot() == Start(config)
      ensures audit.batchSize == if config.auditBatchSize < 1 then 1 else config.auditBatchSize
    {
      this.config, this.sessions, this.policy := config, sessions, policy;
      audit := new Audit.AuditWriter(config.auditBatchSize);
      direct, history := [], [];
    }

    ghost function Snapshot(): State
      reads this, audit
    {
      State(audit.Snapshot(), direct, history)
    }

    method WriteDirect(entry: Entry, ok: bool) returns (r: Result<(), GuardError>)
      modifies this`direct
      ensures ok ==> r.Ok? && direct == old(direct) + [entry]
      ensures !ok ==> r == Err(DIRECT_WRITE_ERROR) && direct == old(direct)
    {
      if !ok {
        return Err(DIRECT_WRITE_ERROR);
      }
      direct := direct + [entry];
      return Ok(());
    }

    /** Fills the entry in, then queues it, or writes it directly if the channel is closed. */
    method WriteAudit(base: Entry, decision: Decision, risk: real, directOk: bool) returns (r: Result<(), GuardError>)
      requires !audit.sendersGone
      requires audit.worker.Running? ==> |audit.queue| < Audit.Capacity(audit.Snapshot())
      modifies this`direct, audit
      ensures var entry := Finished(base, decision, risk);
              if old(audit.worker).Running? then
                r.Ok? && direct == old(direct) &&
                audit.Snapshot() == Audit.Next(old(audit.Snapshot()), Audit.Send(entry))
              else
                audit.Snapshot() == old(audit.Snapshot()) &&
                if directOk then r.Ok? && direct == old(direct) + [entry]
                else r == Err(DIRECT_WRITE_ERROR) && direct == old(direct)
    {
      var entry := base;
      match decision {
        case Allow => entry := entry.(decision := "Allow");
        case Deny(reason) => entry := entry.(decision := "Deny", reason := Some(reason));
        case Mask(fields) => entry := entry.(decision := "Mask", metadata := FieldsJson(fields));
      }
      entry := entry.(riskScore := risk);
      var queued := audit.Write(entry);
      if queued.Ok? {
        return Ok(());
      }
      r := WriteDirect(entry, directOk);
    }

    /** `check_access_with_task`. It waits while the queue is full, so it is run when there is room
        or when the worker is gone. The step it makes is `Access`, with the session check on the
        current rows and an evaluation on a valid listing of the current policies, for the agent,
        workspace, role and scopes of the session and the task, resource and action of the call. */
    method CheckAccessWithTask(call: Call, db: Answers) returns (r: Result<Decision, GuardError>,
                                                                 ghost evaluated: Result<Decision, GuardError>)
      requires policy.Valid() && PolicyEngine.CanAnswer(policy.rows, db.listing)
      requires !audit.sendersGone
      requires audit.worker.Running? ==> |audit.queue| < Audit.Capacity(audit.Snapshot())
      modifies this, policy`cache, audit
      ensures policy.Valid()
      ensures r.Ok? ==> evaluated == r
      ensures var active := if db.checkOk then Session.Active(sessions.rows, call.session.id, call.now)
                            else Err(SESSION_DB_ERROR);
              var step := Access(call, active, evaluated, db.directOk);
              (evaluated.Err? ==> old(policy.cache) == [] && db.listing == Err(evaluated.error)) &&
              (active.Ok? && evaluated.Ok? ==>
                 var ctx := EvalContext(call.session.agentId, call.session.workspaceId, call.session.role,
                                        call.session.scopes, call.task, call.resource, call.action,
                                        ScoreOf(config, call));
                 SomeListingDecides(policy.rows, ctx, evaluated.value)) &&
              Enabled(old(Snapshot()), step) && KnowsNoSessions(step) &&
              Snapshot() == Next(config, old(Snapshot()), step) &&
              r == DoneBy(config, old(Snapshot()), step).returned
    {
      hide Decide, Score, Session.Active, ValidListing;
      var base := BaseEntry(call);
      var active := sessions.AssertSessionActive(call.session, call.now, db.checkOk);
      evaluated := Ok(NO_MATCH);
      match active
      case Ok(_) =>
        var ctx := Context(call, 0.0);
        var risk := ComputeRisk(config, ctx, call.hour);
        ctx := ctx.(riskScore := risk);
        var decision := policy.EvaluateAccess(ctx, db.listing);
        evaluated := decision;
        if decision.Err? {
          history := history + [Done(call, Err(decision.error), None)];
          return Err(decision.error), evaluated;
        }
        var written := WriteAudit(base, decision.value, ctx.riskScore, db.directOk);
        if written.Err? {
          history := history + [Done(call, Err(written.error), None)];
          return Err(written.error), evaluated;
        }
        history := history + [Done(call, decision, Some(Finished(base, decision.value, risk)))];
        return decision, evaluated;
      case Err(error) =>
        var decision := Deny(error.Text());
        var written := WriteAudit(base, decision, 1.0, db.directOk);
        if written.Err? {
          history := history + [Done(call, Err(written.error), None)];
          return Err(written.error), evaluated;
        }
        history := history + [Done(call, Err(error), Some(Finished(base, decision, 1.0)))];
        return Err(error), evaluated;
    }
  }
}
