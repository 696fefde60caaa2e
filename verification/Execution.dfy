// Passive execution of approved requests: eligibility and the three reservation transactions
// (src/flop_bench/execution.py, src/flop_bench/state.py).
module Execution {
  import opened Common
  import opened Mailbox
  import opened Intake
  import opened LiteralEquality

  const BENCH_SERVICE_CAPABILITIES: set<string> :=
    {"software.testing", "software.api", "software.debugging", "technocore.api", "technocore.signed_post",
     "technocore.protocol", "reproducibility", "verification"}

  // The code never writes `FailedInternal`; a row may carry it after a manual recovery.
  datatype Status = Reserved | Running | Completed | FailedInternal

  // A row of mailbox_request_executions; the table is keyed by the unique request id.
  datatype Execution = Execution(
    status: Status, evidenceId: Option<string>, evidenceHash: Option<string>, result: Option<string>)

  // An evidence record in the ledger, as far as the protocol depends on it.
  datatype Evidence = Evidence(requestId: string, number: int, evidenceId: string, hash: string, result: string)

  datatype Blocker =
    | IntakeNotActive | RequestNotFound | NotValidRequest | NotApproved | UnsupportedCapability | ExpiresMissing
    | RequestExpired | ReservedOrRunning | InternalFailure | PayloadUnusable

  // _load_envelope and _procedure_from_test_spec on the stored request text
  type Loader = string -> Option<Procedure>

  function Load(load: Loader, row: Row): Option<Procedure> {
    if row.item.request.Some? then load(row.item.request.value.body) else None
  }

  function Find<V>(m: map<string, V>, id: string): Option<V> {
    if id in m then Some(m[id]) else None
  }

  // The row that mailbox_request_for_execution selects.
  ghost predicate IsLookup(rows: seq<Row>, id: string, found: Option<Row>) {
    match found
    case Some(row) => row in rows && row.item.requestId == Some(id)
    case None => forall row :: row in rows ==> row.item.requestId != Some(id)
  }

  function When(condition: bool, blocker: Blocker): (r: set<Blocker>)
    ensures forall x :: x in r <==> condition && x == blocker
  {
    if condition then {blocker} else {}
  }

  predicate HasStatus(execution: Option<Execution>, statuses: set<Status>) {
    execution.Some? && execution.value.status in statuses
  }

  predicate IsSupported(row: Row) {
    row.item.request.Some? && row.item.request.value.capability in BENCH_SERVICE_CAPABILITIES
  }

  predicate IsExpired(row: Row, now: int) {
    row.item.request.Some? && row.item.request.value.expiresAt <= now
  }

  // The blockers that _eligibility collects.
  function Blockers(load: Loader, active: bool, found: Option<Row>, execution: Option<Execution>, now: int)
    : set<Blocker>
  {
    When(!active, IntakeNotActive)
    + match found
      case None => {RequestNotFound}
      case Some(row) =>
        When(row.item.classification != ValidRequest, NotValidRequest)
        + When(row.item.review != ApprovedForManualExecution, NotApproved)
        + When(!IsSupported(row), UnsupportedCapability)
        + When(row.item.request.None?, ExpiresMissing)
        + When(IsExpired(row, now), RequestExpired)
        + When(HasStatus(execution, {Reserved, Running}), ReservedOrRunning)
        + When(HasStatus(execution, {FailedInternal}), InternalFailure)
        + When(Load(load, row).None?, PayloadUnusable)
  }

  // A request id labels one row at most, as the unique index of the table demands.
  predicate OneRowPerLabel(rows: seq<Row>) {
    forall i, j :: 0 <= i < j < |rows| && rows[i].item.requestId.Some? ==>
      rows[i].item.requestId != rows[j].item.requestId
  }

  // The request with this id may run at this time.
  ghost predicate Runnable(load: Loader, rows: seq<Row>, id: string, now: int) {
    exists row :: row in rows && row.item.requestId == Some(id) && MayRun(load, row, now)
  }

  lemma LookupIsOnly(rows: seq<Row>, id: string, found: Option<Row>, load: Loader, now: int)
    requires OneRowPerLabel(rows) && IsLookup(rows, id, found)
    ensures Runnable(load, rows, id, now) <==> found.Some? && MayRun(load, found.value, now)
  {
    hide MayRun;
    if Runnable(load, rows, id, now) {
      var row :| row in rows && row.item.requestId == Some(id) && MayRun(load, row, now);
      assert found.Some?;
      var i :| 0 <= i < |rows| && rows[i] == row;
      var j :| 0 <= j < |rows| && rows[j] == found.value;
      assert i == j;
    }
  }

  // What an empty report, or one that names the reservation only, says about the request.
  predicate MayRun(load: Loader, row: Row, now: int) {
    row.item.classification == ValidRequest && row.item.review == ApprovedForManualExecution
    && row.item.request.Some? && row.item.request.value.capability in BENCH_SERVICE_CAPABILITIES
    && now < row.item.request.value.expiresAt && Load(load, row).Some?
  }

  // What each blocker says about the request.
  ghost predicate Applies(b: Blocker, load: Loader, active: bool, found: Option<Row>, execution: Option<Execution>,
                          now: int)
  {
    match b
    case IntakeNotActive => !active
    case RequestNotFound => found.None?
    case NotValidRequest => found.Some? && found.value.item.classification != ValidRequest
    case NotApproved => found.Some? && found.value.item.review != ApprovedForManualExecution
    case UnsupportedCapability => found.Some? && !IsSupported(found.value)
    case ExpiresMissing => found.Some? && found.value.item.request.None?
    case RequestExpired => found.Some? && IsExpired(found.value, now)
    case ReservedOrRunning => found.Some? && HasStatus(execution, {Reserved, Running})
    case InternalFailure => found.Some? && HasStatus(execution, {FailedInternal})
    case PayloadUnusable => found.Some? && Load(load, found.value).None?
  }

  lemma CollectedIffApplies(b: Blocker, load: Loader, active: bool, found: Option<Row>, execution: Option<Execution>,
                            now: int)
    ensures b in Blockers(load, active, found, execution, now) <==> Applies(b, load, active, found, execution, now)
  {
    hide HasStatus, IsSupported, IsExpired, Load, When;
  }

  // No blocker but perhaps the reservation: the request may run. No blocker at all: nobody has reserved it either.
  lemma NoOtherBlocker(load: Loader, active: bool, found: Option<Row>, execution: Option<Execution>, now: int)
    ensures Blockers(load, active, found, execution, now) <= {ReservedOrRunning}
            <==> active && found.Some? && MayRun(load, found.value, now)
                 && !(execution.Some? && execution.value.status.FailedInternal?)
    ensures Blockers(load, active, found, execution, now) == {}
            <==> active && found.Some? && MayRun(load, found.value, now)
                 && (execution.Some? ==> execution.value.status.Completed?)
  {
    hide Blockers, Load, BENCH_SERVICE_CAPABILITIES;
    var all := Blockers(load, active, found, execution, now);
    forall b
      ensures b in all <==> Applies(b, load, active, found, execution, now)
    {
      CollectedIffApplies(b, load, active, found, execution, now);
    }
    assert all <= {ReservedOrRunning} <==> forall b :: b != ReservedOrRunning ==> b !in all;
    assert all == {} <==> all <= {ReservedOrRunning} && ReservedOrRunning !in all;
    assert IntakeNotActive !in all && RequestNotFound !in all && NotValidRequest !in all && NotApproved !in all
           && UnsupportedCapability !in all && ExpiresMissing !in all && RequestExpired !in all
           && InternalFailure !in all && PayloadUnusable !in all
      <==> forall b :: b != ReservedOrRunning ==> b !in all;
  }

  function Verdict(procedure: Procedure): string {
    if RunLiteralEquality(text => text, procedure).pass then "PASS" else "FAIL"
  }

  lemma VerdictMeans(p: Procedure)
    requires WellFormed(p.actual) && WellFormed(p.expected)
    ensures Verdict(p) == if p.actual == p.expected then "PASS" else "FAIL"
  {
    PassesIffSame(text => text, p);
  }

  function Coalesce<T>(stored: Option<T>, x: T): Option<T> {
    if stored.Some? then stored else Some(x)
  }

  // reserve_mailbox_execution on a new request id
  function Reserving(m: map<string, Execution>, id: string): map<string, Execution> {
    if id in m then m else m[id := Execution(Reserved, None, None, None)]
  }

  // mark_mailbox_execution_running
  function Marking(m: map<string, Execution>, id: string): map<string, Execution> {
    if id in m && m[id].status == Reserved then m[id := m[id].(status := Running)] else m
  }

  // The first UPDATE of complete_mailbox_execution, where it finds its row.
  function Completing(m: map<string, Execution>, id: string, e: Evidence): map<string, Execution>
    requires id in m
  {
    m[id := Execution(Completed, Coalesce(m[id].evidenceId, e.evidenceId),
                      Coalesce(m[id].evidenceHash, e.hash), Coalesce(m[id].result, e.result))]
  }

  predicate IsRunning(m: map<string, Execution>, id: string) {
    id in m && m[id].status == Running
  }

  datatype Report = Executed(evidence: Evidence) | AlreadyCompleted(execution: Execution) | Declined

  class ExecutionDb {
    var rows: seq<Row>
    var active: bool
    var executions: map<string, Execution>
    var ledger: seq<Evidence>

    // A state directory in which nothing was executed yet, beside the mailbox rows at hand.
    constructor (mailbox: seq<Row>, intake: bool)
      ensures rows == mailbox && active == intake && executions == map[] && ledger == []
    {
      rows, active, executions, ledger := mailbox, intake, map[], [];
    }

    method Reserve(id: string) returns (created: bool)
      modifies this`executions
      ensures created <==> id !in old(executions)
      ensures executions == Reserving(old(executions), id)
    {
      created := id !in executions;
      if created {
        executions := executions[id := Execution(Reserved, None, None, None)];
      }
    }

    method MarkRunning(id: string)
      modifies this`executions
      ensures executions == Marking(old(executions), id)
    {
      if id in executions && executions[id].status == Reserved {
        executions := executions[id := executions[id].(status := Running)];
      }
    }

    // One transaction over both tables; false stands for the SafetyError, after a rollback.
    method CompleteExecution(id: string, e: Evidence) returns (ok: bool)
      modifies this`executions, this`rows
      ensures ok <==> IsRunning(old(executions), id)
      ensures executions == if ok then Completing(old(executions), id, e) else old(executions)
      ensures rows == if ok then Linked(old(rows), id, e.evidenceId, e.hash) else old(rows)
    {
      ok := id in executions && executions[id].status == Running;
      if ok {
        executions := Completing(executions, id, e);
        rows := Linked(rows, id, e.evidenceId, e.hash);
      }
    }

    method Lookup(id: string) returns (found: Option<Row>)
      ensures IsLookup(rows, id, found)
    {
      found := None;
      for i := 0 to |rows|
        invariant forall k :: 0 <= k < i ==> rows[k].item.requestId != Some(id)
      {
        if rows[i].item.requestId == Some(id) {
          return Some(rows[i]);
        }
      }
    }

    // _eligibility: the blockers and the row behind them.
    method Eligibility(load: Loader, id: string, now: int) returns (blockers: set<Blocker>, found: Option<Row>)
      ensures IsLookup(rows, id, found)
      ensures blockers == Blockers(load, active, found, Find(executions, id), now)
    {
      hide Blockers;
      found := Lookup(id);
      blockers := Blockers(load, active, found, Find(executions, id), now);
    }

    // execute_passive with nothing else running, from the first check to the completed execution. The clock is
    // read at both checks; evidence id and hash come from SHA-256.
    method ExecutePassive(load: Loader, id: string, now: int, later: int, evidenceId: string, hash: string)
      returns (r: Report)
      modifies this
      ensures active == old(active)
      ensures r.Executed? ==>
                exists row :: row in old(rows) && row.item.requestId == Some(id) && old(active)
                  && MayRun(load, row, later)
                  && r.evidence == Evidence(id, row.item.number, evidenceId, hash, Verdict(Load(load, row).value))
      ensures r.Executed? ==>
                id !in old(executions) && ledger == old(ledger) + [r.evidence]
                && rows == Linked(old(rows), id, evidenceId, hash)
                && executions == old(executions)[
                     id := Execution(Completed, Some(evidenceId), Some(hash), Some(r.evidence.result))]
      // It executes exactly when the id is new, intake is active and the request may run at both checks.
      ensures OneRowPerLabel(old(rows)) ==>
                (r.Executed? <==>
                   id !in old(executions) && old(active)
                   && Runnable(load, old(rows), id, now) && Runnable(load, old(rows), id, later))
      // It reports a completed execution exactly when there is one and the request could run again.
      ensures OneRowPerLabel(old(rows)) ==>
                (r.AlreadyCompleted? <==>
                   id in old(executions) && old(executions)[id].status.Completed? && old(active)
                   && Runnable(load, old(rows), id, now))
      // Whoever declines after the reservation leaves it behind; everyone else leaves the table alone.
      ensures !r.Executed? ==>
                ledger == old(ledger) && rows == old(rows)
                && (executions == old(executions) || executions == Reserving(old(executions), id))
      ensures r.AlreadyCompleted? ==>
                executions == old(executions) && Find(executions, id) == Some(r.execution)
                && r.execution.status.Completed?
    {
      hide Blockers, Verdict, Linked, MayRun, RunLiteralEquality, OneRowPerLabel, Runnable, IsLookup;
      var blockers, found := Eligibility(load, id, now);
      NoOtherBlocker(load, active, found, Find(executions, id), now);
      if OneRowPerLabel(rows) {
        LookupIsOnly(rows, id, found, load, now);
      }
      if blockers != {} {
        return Declined;
      }
      var created := Reserve(id);
      if !created {
        return if executions[id].status.Completed? then AlreadyCompleted(executions[id]) else Declined;
      }
      var again, held := Eligibility(load, id, later);
      NoOtherBlocker(load, active, held, Find(executions, id), later);
      if OneRowPerLabel(rows) {
        LookupIsOnly(rows, id, held, load, later);
      }
      assert again - {ReservedOrRunning} == {} <==> again <= {ReservedOrRunning};
      if again - {ReservedOrRunning} != {} {
        return Declined;
      }
      FoundRow(rows, id, held);
      MayRunLoads(load, held.value, later);
      MarkRunning(id);
      var e := Evidence(id, held.value.item.number, evidenceId, hash, Verdict(Load(load, held.value).value));
      ledger := ledger + [e];
      var ok := CompleteExecution(id, e);
      r := Executed(e);
    }
  }

  lemma FoundRow(rows: seq<Row>, id: string, found: Option<Row>)
    requires IsLookup(rows, id, found) && found.Some?
    ensures found.value in rows && found.value.item.requestId == Some(id)
  {
  }

  lemma MayRunLoads(load: Loader, row: Row, now: int)
    requires MayRun(load, row, now)
    ensures Load(load, row).Some?
  {
  }
}
