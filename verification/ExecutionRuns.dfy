// Any number of executors beside pollers, review decisions and activation changes, with crashes between any two
// transactions.
module ExecutionRuns {
  import opened Common
  import opened Mailbox
  import opened Intake
  import opened LiteralEquality
  import opened Execution
  import IntakeRuns

  // Where execute_passive stands. `held` tells the recheck after the reservation from the first check.
  datatype Phase =
    | Idle
    | Asked(id: string, held: bool)
    | SawActivation(id: string, held: bool, active: bool)
    | SawRow(id: string, held: bool, active: bool, found: Option<Row>)
    | Eligible(id: string)
    | Ready(id: string, row: Row)
    | Marked(id: string, row: Row)
    | Ran(id: string, row: Row)
    | Written(id: string, evidence: Evidence)

  // `ran` is the history of procedure runs.
  datatype Sys = Sys(
    mail: IntakeRuns.Sys, executions: map<string, Execution>, ran: seq<string>, ledger: seq<Evidence>,
    phases: seq<Phase>)

  datatype Event =
    | Ask(p: nat, id: string)
    | SeeActivation(p: nat)
    | SeeRow(p: nat, found: Option<Row>)
    | Check(p: nat, now: int)
    | Reserve(p: nat)
    | Mark(p: nat)
    | RunProcedure(p: nat)
    | Write(p: nat, evidenceId: string, hash: string)
    | Complete(p: nat)
    | Crash(p: nat)
    | Mail(e: IntakeRuns.Event)

  function Move(s: Sys, p: nat, phase: Phase): Sys
    requires p < |s.phases|
  {
    s.(phases := s.phases[p := phase])
  }

  // The outcome of a check: on to the reservation, on to the run, or out.
  function Checked(load: Loader, s: Sys, phase: Phase, now: int): Phase
    requires phase.SawRow?
  {
    var blockers := Blockers(load, phase.active, phase.found, Find(s.executions, phase.id), now);
    if !phase.held then (if blockers == {} then Eligible(phase.id) else Idle)
    else if blockers - {ReservedOrRunning} == {} && phase.found.Some? then Ready(phase.id, phase.found.value)
    else Idle
  }

  ghost predicate Step(load: Loader, s: Sys, e: Event, s': Sys) {
    if e.Mail? then !e.e.Complete? && IntakeRuns.Step(s.mail, e.e, s'.mail) && s' == s.(mail := s'.mail)
    else e.p < |s.phases| && ExecutorStep(load, s, e, s', s.phases[e.p])
  }

  ghost predicate ExecutorStep(load: Loader, s: Sys, e: Event, s': Sys, phase: Phase)
    requires !e.Mail? && e.p < |s.phases|
  {
    match e
    case Ask(p, id) => phase.Idle? && s' == Move(s, p, Asked(id, false))
    case SeeActivation(p) => phase.Asked? && s' == Move(s, p, SawActivation(phase.id, phase.held, s.mail.active))
    case SeeRow(p, found) =>
      phase.SawActivation? && IsLookup(s.mail.rows, phase.id, found)
      && s' == Move(s, p, SawRow(phase.id, phase.held, phase.active, found))
    case Check(p, now) => phase.SawRow? && s' == Move(s, p, Checked(load, s, phase, now))
    case Reserve(p) =>
      phase.Eligible?
      && s' == Move(s.(executions := Reserving(s.executions, phase.id)), p,
                    if phase.id in s.executions then Idle else Asked(phase.id, true))
    case Mark(p) =>
      phase.Ready? && s' == Move(s.(executions := Marking(s.executions, phase.id)), p, Marked(phase.id, phase.row))
    case RunProcedure(p) =>
      phase.Marked? && s' == Move(s.(ran := s.ran + [phase.id]), p, Ran(phase.id, phase.row))
    case Write(p, evidenceId, hash) =>
      phase.Ran? && Load(load, phase.row).Some? && (
        var verdict := Verdict(Load(load, phase.row).value);
        var evidence := Evidence(phase.id, phase.row.item.number, evidenceId, hash, verdict);
        s' == Move(s.(ledger := s.ledger + [evidence]), p, Written(phase.id, evidence)))
    case Complete(p) =>
      phase.Written?
      && (if IsRunning(s.executions, phase.id) then
            s' == Move(s, p, Idle).(
                    executions := Completing(s.executions, phase.id, phase.evidence), mail := s'.mail)
            && IntakeRuns.Step(
                 s.mail, IntakeRuns.Complete(phase.id, phase.evidence.evidenceId, phase.evidence.hash), s'.mail)
          else s' == Move(s, p, Idle))
    case Crash(p) => s' == Move(s, p, Idle)
  }

  predicate Init(s: Sys) {
    IntakeRuns.Init(s.mail) && s.executions == map[] && s.ran == [] && s.ledger == []
    && forall p :: 0 <= p < |s.phases| ==> s.phases[p] == Idle
  }

  ghost predicate IsRun(load: Loader, ss: seq<Sys>, es: seq<Event>) {
    |ss| == |es| + 1 && Init(ss[0]) && forall k :: 0 <= k < |es| ==> Step(load, ss[k], es[k], ss[k + 1])
  }

  lemma StepAt(load: Loader, ss: seq<Sys>, es: seq<Event>, k: nat)
    requires IsRun(load, ss, es) && 0 < k < |ss|
    ensures k - 1 < |es| && Step(load, ss[k - 1], es[k - 1], ss[k])
  {
  }

  // The phases that only the creator of a reservation reaches.
  predicate Holds(phase: Phase, id: string) {
    match phase
    case Idle => false
    case Eligible(_) => false
    case Asked(i, held) => held && i == id
    case SawActivation(i, held, _) => held && i == id
    case SawRow(i, held, _, _) => held && i == id
    case Ready(i, _) => i == id
    case Marked(i, _) => i == id
    case Ran(i, _) => i == id
    case Written(i, _) => i == id
  }

  function Subject(phase: Phase): Option<string> {
    if phase.Idle? then None else Some(phase.id)
  }

  function Count(ran: seq<string>, id: string): nat {
    if ran == [] then 0 else Count(ran[..|ran| - 1], id) + if ran[|ran| - 1] == id then 1 else 0
  }

  function Records(ledger: seq<Evidence>, id: string): seq<Evidence> {
    if ledger == [] then []
    else
      var last := ledger[|ledger| - 1];
      Records(ledger[..|ledger| - 1], id) + if last.requestId == id then [last] else []
  }

  lemma CountAppend(ran: seq<string>, x: string, id: string)
    ensures Count(ran + [x], id) == Count(ran, id) + if x == id then 1 else 0
  {
    assert (ran + [x])[..|ran|] == ran;
  }

  lemma RecordsAppend(ledger: seq<Evidence>, e: Evidence, id: string)
    ensures Records(ledger + [e], id) == Records(ledger, id) + if e.requestId == id then [e] else []
  {
    assert (ledger + [e])[..|ledger|] == ledger;
  }

  // Everything the database, the history and the ledger may hold about one request id.
  datatype Account = Unseen | Held | Started | Performed | Recorded(e: Evidence) | Closed(e: Evidence)

  predicate IsAccount(s: Sys, id: string, a: Account) {
    var execution, runs, records := Find(s.executions, id), Count(s.ran, id), Records(s.ledger, id);
    match a
    case Unseen => execution == None && runs == 0 && records == []
    case Held => execution == Some(Execution(Reserved, None, None, None)) && runs == 0 && records == []
    case Started => execution == Some(Execution(Running, None, None, None)) && runs == 0 && records == []
    case Performed => execution == Some(Execution(Running, None, None, None)) && runs == 1 && records == []
    case Recorded(e) => execution == Some(Execution(Running, None, None, None)) && runs == 1 && records == [e]
    case Closed(e) =>
      execution == Some(Execution(Completed, Some(e.evidenceId), Some(e.hash), Some(e.result))) && runs == 1
      && records == [e]
  }

  function AccountOf(s: Sys, id: string): Account {
    var execution, records := Find(s.executions, id), Records(s.ledger, id);
    if execution.None? then Unseen
    else
      match execution.value.status
      case Reserved => Held
      case Running =>
        if Count(s.ran, id) == 0 then Started else if records == [] then Performed else Recorded(records[0])
      case Completed => if records == [] then Unseen else Closed(records[0])
      case FailedInternal => Unseen
  }

  predicate Consistent(s: Sys, id: string) {
    IsAccount(s, id, AccountOf(s, id))
  }

  // The account of the id that a phase holds.
  function Expected(phase: Phase): Account {
    match phase
    case Marked(_, _) => Started
    case Ran(_, _) => Performed
    case Written(_, evidence) => Recorded(evidence)
    case _ => Held
  }

  ghost predicate AccountsOk(s: Sys) {
    (forall id :: Consistent(s, id))
    && (forall p, id :: 0 <= p < |s.phases| && Holds(s.phases[p], id) ==> IsAccount(s, id, Expected(s.phases[p])))
    && forall p, q, id :: 0 <= p < |s.phases| && 0 <= q < |s.phases| && Holds(s.phases[p], id) && Holds(s.phases[q], id)
         ==> p == q
  }

  // One step on, if any.
  predicate Follows(a: Account, b: Account) {
    match a
    case Unseen => b == Held
    case Held => b == Started
    case Started => b == Performed
    case Performed => b.Recorded?
    case Recorded(e) => b == Closed(e)
    case Closed(_) => false
  }

  predicate Untouched(s: Sys, s': Sys, id: string) {
    Find(s'.executions, id) == Find(s.executions, id) && Count(s'.ran, id) == Count(s.ran, id)
    && Records(s'.ledger, id) == Records(s.ledger, id)
  }

  lemma UntouchedAccount(s: Sys, s': Sys, id: string)
    requires Untouched(s, s', id)
    ensures AccountOf(s', id) == AccountOf(s, id) && forall a :: IsAccount(s', id, a) <==> IsAccount(s, id, a)
  {
  }

  // A step touches the tables for the id of its own executor only.
  lemma OthersUntouched(load: Loader, s: Sys, e: Event, s': Sys, id: string)
    requires Step(load, s, e, s') && (!e.Mail? ==> Subject(s.phases[e.p]) != Some(id))
    ensures Untouched(s, s', id)
  {
    hide Blockers, IsLookup, Verdict, Load, Count, Records;
    if e.RunProcedure? {
      CountAppend(s.ran, s.phases[e.p].id, id);
    } else if e.Write? {
      RecordsAppend(s.ledger, s'.ledger[|s.ledger|], id);
    }
  }

  // What a step of an executor does to its own id: the account stays or moves one step on, and only the holder
  // moves it, or the first reservation.
  predicate OwnStep(s: Sys, s': Sys, phase: Phase, phase': Phase, id: string) {
    var a, b := AccountOf(s, id), AccountOf(s', id);
    Consistent(s', id)
    && (Holds(phase', id) ==> IsAccount(s', id, Expected(phase')) && (Holds(phase, id) || a == Unseen))
    && (a == b || Follows(a, b))
    && (Holds(phase, id) || a == Unseen || Untouched(s, s', id))
  }

  lemma OwnAdvances(load: Loader, s: Sys, e: Event, s': Sys)
    requires AccountsOk(s) && Step(load, s, e, s') && !e.Mail? && !s.phases[e.p].Idle?
    ensures e.p < |s'.phases| && OwnStep(s, s', s.phases[e.p], s'.phases[e.p], s.phases[e.p].id)
  {
    var phase := s.phases[e.p];
    assert Consistent(s, phase.id);
    assert Holds(phase, phase.id) ==> IsAccount(s, phase.id, Expected(phase));
    hide AccountsOk, Blockers, IsLookup, Verdict, Load, IntakeRuns.Step;
    if e.Check? || e.SeeRow? || e.SeeActivation? || e.Crash? || e.Ask? {
      OwnLook(load, s, e, s');
    } else {
      OwnWrite(load, s, e, s');
    }
  }

  lemma OwnLook(load: Loader, s: Sys, e: Event, s': Sys)
    requires Step(load, s, e, s') && (e.Check? || e.SeeRow? || e.SeeActivation? || e.Crash? || e.Ask?)
    requires var phase := s.phases[e.p];
             !phase.Idle? && Consistent(s, phase.id)
             && (Holds(phase, phase.id) ==> IsAccount(s, phase.id, Expected(phase)))
    ensures e.p < |s'.phases| && OwnStep(s, s', s.phases[e.p], s'.phases[e.p], s.phases[e.p].id)
  {
    hide Blockers, IsLookup, IsAccount, AccountOf;
    UntouchedAccount(s, s', s.phases[e.p].id);
  }

  lemma OwnWrite(load: Loader, s: Sys, e: Event, s': Sys)
    requires Step(load, s, e, s') && !(e.Check? || e.SeeRow? || e.SeeActivation? || e.Crash? || e.Ask? || e.Mail?)
    requires var phase := s.phases[e.p];
             !phase.Idle? && Consistent(s, phase.id)
             && (Holds(phase, phase.id) ==> IsAccount(s, phase.id, Expected(phase)))
    ensures e.p < |s'.phases| && OwnStep(s, s', s.phases[e.p], s'.phases[e.p], s.phases[e.p].id)
  {
    hide Blockers, IsLookup, Verdict, Load, IntakeRuns.Step, Count, Records;
    var id := s.phases[e.p].id;
    if e.RunProcedure? {
      CountAppend(s.ran, id, id);
    } else if e.Write? {
      RecordsAppend(s.ledger, s'.ledger[|s.ledger|], id);
    }
  }

  lemma PhasesElsewhere(load: Loader, s: Sys, e: Event, s': Sys)
    requires Step(load, s, e, s')
    ensures |s'.phases| == |s.phases|
    ensures forall q :: 0 <= q < |s.phases| && (!e.Mail? ==> q != e.p) ==> s'.phases[q] == s.phases[q]
    ensures !e.Mail? ==> forall id :: Holds(s'.phases[e.p], id) ==> Subject(s.phases[e.p]) == Some(id)
  {
    hide Blockers, IsLookup, Verdict, Load, IntakeRuns.Step;
  }

  // Whoever holds an id afterwards has the account it expects, and holds it alone.
  lemma HolderOk(load: Loader, s: Sys, e: Event, s': Sys, q: nat, id: string)
    requires AccountsOk(s) && Step(load, s, e, s') && q < |s'.phases| && Holds(s'.phases[q], id)
    ensures IsAccount(s', id, Expected(s'.phases[q]))
    ensures (q < |s.phases| && Holds(s.phases[q], id)) || AccountOf(s, id) == Unseen
  {
    PhasesElsewhere(load, s, e, s');
    if !e.Mail? && q == e.p {
      OwnAdvances(load, s, e, s');
    } else {
      assert IsAccount(s, id, Expected(s.phases[q]));
      if !e.Mail? && Subject(s.phases[e.p]) == Some(id) {
        OwnAdvances(load, s, e, s');
      } else {
        OthersUntouched(load, s, e, s', id);
      }
      hide Step, AccountsOk, AccountOf;
      UntouchedAccount(s, s', id);
    }
  }

  lemma StepAccounts(load: Loader, s: Sys, e: Event, s': Sys)
    requires AccountsOk(s) && Step(load, s, e, s')
    ensures AccountsOk(s')
  {
    forall id
      ensures Consistent(s', id)
    {
      AccountAdvances(load, s, e, s', id);
    }
    forall p, id | 0 <= p < |s'.phases| && Holds(s'.phases[p], id)
      ensures IsAccount(s', id, Expected(s'.phases[p]))
    {
      HolderOk(load, s, e, s', p, id);
    }
    forall p, q, id | 0 <= p < |s'.phases| && 0 <= q < |s'.phases| && Holds(s'.phases[p], id) && Holds(s'.phases[q], id)
      ensures p == q
    {
      OnlyHolder(load, s, e, s', p, q, id);
    }
  }

  // The account of every id stays or moves one step on.
  lemma AccountAdvances(load: Loader, s: Sys, e: Event, s': Sys, id: string)
    requires AccountsOk(s) && Step(load, s, e, s')
    ensures Consistent(s', id)
    ensures AccountOf(s', id) == AccountOf(s, id) || Follows(AccountOf(s, id), AccountOf(s', id))
  {
    if !e.Mail? && Subject(s.phases[e.p]) == Some(id) {
      OwnAdvances(load, s, e, s');
    } else {
      OthersUntouched(load, s, e, s', id);
      hide Step, AccountOf, IsAccount;
      UntouchedAccount(s, s', id);
      assert Consistent(s, id);
    }
  }

  lemma OnlyHolder(load: Loader, s: Sys, e: Event, s': Sys, p: nat, q: nat, id: string)
    requires AccountsOk(s) && Step(load, s, e, s') && p < |s'.phases| && q < |s'.phases|
    requires Holds(s'.phases[p], id) && Holds(s'.phases[q], id)
    ensures p == q
  {
    PhasesElsewhere(load, s, e, s');
    HolderOk(load, s, e, s', p, id);
    HolderOk(load, s, e, s', q, id);
    hide Step, AccountOf, IsAccount, Expected, Consistent, Holds;
    if p < |s.phases| && Holds(s.phases[p], id) {
      HolderSeen(s, p, id);
    } else if q < |s.phases| && Holds(s.phases[q], id) {
      HolderSeen(s, q, id);
    }
  }

  lemma HolderSeen(s: Sys, p: nat, id: string)
    requires AccountsOk(s) && p < |s.phases| && Holds(s.phases[p], id)
    ensures AccountOf(s, id) != Unseen
  {
    assert IsAccount(s, id, Expected(s.phases[p]));
  }

  // The row as read is the row as stored, up to later decisions and links.
  predicate KnownRow(rows: seq<Row>, id: string, row: Row) {
    row.item.requestId == Some(id) && 1 <= row.item.number <= |rows|
    && IntakeRuns.Settles(row, rows[row.item.number - 1])
  }

  predicate PhaseOk(load: Loader, rows: seq<Row>, phase: Phase) {
    match phase
    case SawRow(id, _, _, Some(row)) => KnownRow(rows, id, row)
    case Ready(id, row) => KnownRow(rows, id, row) && Load(load, row).Some?
    case Marked(id, row) => KnownRow(rows, id, row) && Load(load, row).Some?
    case Ran(id, row) => KnownRow(rows, id, row) && Load(load, row).Some?
    case _ => true
  }

  // Evidence names a stored request and the verdict of its procedure.
  predicate EvidenceOk(load: Loader, rows: seq<Row>, e: Evidence) {
    1 <= e.number <= |rows| && (
      var row := rows[e.number - 1];
      row.item.requestId == Some(e.requestId) && Load(load, row).Some? && e.result == Verdict(Load(load, row).value))
  }

  // A message row is linked to its evidence exactly when the execution is completed.
  predicate LinkOk(s: Sys, row: Row) {
    row.item.requestId.Some? ==>
      var a := AccountOf(s, row.item.requestId.value);
      row.evidenceId == (if a.Closed? then Some(a.e.evidenceId) else None)
      && row.resultLink == (if a.Closed? then Some(a.e.hash) else None)
  }

  ghost predicate RecordsOk(load: Loader, s: Sys) {
    IntakeRuns.Inv(s.mail)
    && (forall p :: 0 <= p < |s.phases| ==> PhaseOk(load, s.mail.rows, s.phases[p]))
    && (forall e :: e in s.ledger ==> EvidenceOk(load, s.mail.rows, e))
    && forall i :: 0 <= i < |s.mail.rows| ==> LinkOk(s, s.mail.rows[i])
  }

  lemma MailSettles(load: Loader, s: Sys, e: Event, s': Sys)
    requires IntakeRuns.Inv(s.mail) && Step(load, s, e, s')
    ensures IntakeRuns.Inv(s'.mail) && IntakeRuns.RowsSettle(s.mail.rows, s'.mail.rows)
  {
    hide IntakeRuns.Step, IntakeRuns.Inv, Blockers, IsLookup, Load, Verdict, Reserving, Marking, Completing;
    if e.Mail? {
      IntakeRuns.StepInv(s.mail, e.e, s'.mail);
    } else if e.Complete? && IsRunning(s.executions, s.phases[e.p].id) {
      var evidence := s.phases[e.p].evidence;
      IntakeRuns.StepInv(
        s.mail, IntakeRuns.Complete(s.phases[e.p].id, evidence.evidenceId, evidence.hash), s'.mail);
    } else {
      assert s'.mail == s.mail;
    }
  }

  lemma PhaseStays(load: Loader, rows: seq<Row>, later: seq<Row>, phase: Phase)
    requires IntakeRuns.RowsSettle(rows, later) && PhaseOk(load, rows, phase)
    ensures PhaseOk(load, later, phase)
  {
    hide Load;
  }

  lemma EvidenceStays(load: Loader, rows: seq<Row>, later: seq<Row>, e: Evidence)
    requires IntakeRuns.RowsSettle(rows, later) && EvidenceOk(load, rows, e)
    ensures EvidenceOk(load, later, e)
  {
    assert IntakeRuns.Settles(rows[e.number - 1], later[e.number - 1]);
    hide Verdict;
  }

  lemma NewPhaseOk(load: Loader, s: Sys, e: Event, s': Sys)
    requires RecordsOk(load, s) && Step(load, s, e, s') && !e.Mail?
    ensures PhaseOk(load, s.mail.rows, s'.phases[e.p])
  {
    hide LinkOk, EvidenceOk, IntakeRuns.Step, MayRun, Blockers, Load, Verdict, Reserving, Marking, Completing;
    var phase := s.phases[e.p];
    assert PhaseOk(load, s.mail.rows, phase);
    match e {
      case SeeRow(p, Some(row)) =>
        var i :| 0 <= i < |s.mail.rows| && s.mail.rows[i] == row;
      case Check(p, now) =>
        NoOtherBlocker(load, phase.active, phase.found, Find(s.executions, phase.id), now);
        if phase.found.Some? && MayRun(load, phase.found.value, now) {
          MayRunLoads(load, phase.found.value, now);
        }
      case _ =>
    }
  }

  lemma NewEvidenceOk(load: Loader, s: Sys, e: Event, s': Sys)
    requires RecordsOk(load, s) && Step(load, s, e, s') && e.Write?
    ensures s'.ledger != [] && s'.ledger[..|s'.ledger| - 1] == s.ledger
    ensures EvidenceOk(load, s.mail.rows, s'.ledger[|s'.ledger| - 1])
  {
    hide LinkOk, IntakeRuns.Inv, Verdict;
    assert PhaseOk(load, s.mail.rows, s.phases[e.p]);
  }

  // A closed account has its evidence in the ledger, and so a labelled row.
  lemma {:induction false} RecordsInLedger(ledger: seq<Evidence>, id: string)
    ensures forall e :: e in Records(ledger, id) ==> e in ledger && e.requestId == id
  {
    if ledger == [] {
    } else {
      RecordsInLedger(ledger[..|ledger| - 1], id);
    }
  }

  lemma LinkedRow(load: Loader, s: Sys, e: Event, s': Sys, i: nat)
    requires AccountsOk(s) && RecordsOk(load, s) && Step(load, s, e, s') && i < |s'.mail.rows|
    ensures LinkOk(s', s'.mail.rows[i])
  {
    var row := s'.mail.rows[i];
    MailSettles(load, s, e, s');
    if row.item.requestId.Some? {
      var id := row.item.requestId.value;
      if e.Mail? {
        OthersUntouched(load, s, e, s', id);
        UntouchedAccount(s, s', id);
        MailLink(load, s, e, s', i, id);
      } else {
        ExecutorLink(load, s, e, s', i, id);
      }
    }
  }

  lemma MailLink(load: Loader, s: Sys, e: Event, s': Sys, i: nat, id: string)
    requires AccountsOk(s) && RecordsOk(load, s) && Step(load, s, e, s') && i < |s'.mail.rows| && e.Mail?
    requires s'.mail.rows[i].item.requestId == Some(id) && AccountOf(s', id) == AccountOf(s, id)
    ensures LinkOk(s', s'.mail.rows[i])
  {
    hide IntakeRuns.Step, IntakeRuns.Inv, PhaseOk, Holds, Expected;
    IntakeRuns.LinksKept(s.mail, e.e, s'.mail, i);
    IntakeRuns.StepInv(s.mail, e.e, s'.mail);
    if i < |s.mail.rows| {
      assert LinkOk(s, s.mail.rows[i]);
      assert IntakeRuns.Settles(s.mail.rows[i], s'.mail.rows[i]);
    } else if AccountOf(s, id).Closed? {
      assert Consistent(s, id);
      var evidence := AccountOf(s, id).e;
      RecordsInLedger(s.ledger, id);
      assert evidence in Records(s.ledger, id);
      EvidenceStays(load, s.mail.rows, s'.mail.rows, evidence);
      IntakeRuns.OneLabel(s'.mail, evidence.number - 1, i, id);
    }
  }

  lemma ExecutorLink(load: Loader, s: Sys, e: Event, s': Sys, i: nat, id: string)
    requires AccountsOk(s) && RecordsOk(load, s) && Step(load, s, e, s') && i < |s'.mail.rows| && !e.Mail?
    requires s'.mail.rows[i].item.requestId == Some(id)
    ensures LinkOk(s', s'.mail.rows[i])
  {
    hide IntakeRuns.Inv, PhaseOk, EvidenceOk, Blockers, IsLookup, Load, Verdict, Count, Records;
    assert i < |s.mail.rows| && LinkOk(s, s.mail.rows[i]);
    assert Consistent(s, id);
    AccountAdvances(load, s, e, s', id);
  }

  lemma StepRecords(load: Loader, s: Sys, e: Event, s': Sys)
    requires AccountsOk(s) && RecordsOk(load, s) && Step(load, s, e, s')
    ensures RecordsOk(load, s')
  {
    MailSettles(load, s, e, s');
    forall p | 0 <= p < |s'.phases|
      ensures PhaseOk(load, s'.mail.rows, s'.phases[p])
    {
      PhasesElsewhere(load, s, e, s');
      hide PhaseOk, Step, ExecutorStep, EvidenceOk, LinkOk, AccountsOk;
      if !e.Mail? && p == e.p {
        NewPhaseOk(load, s, e, s');
      }
      PhaseStays(load, s.mail.rows, s'.mail.rows, s'.phases[p]);
    }
    forall v | v in s'.ledger
      ensures EvidenceOk(load, s'.mail.rows, v)
    {
      hide PhaseOk, EvidenceOk, LinkOk, AccountsOk;
      if e.Write? {
        NewEvidenceOk(load, s, e, s');
      } else {
        LedgerStays(load, s, e, s');
      }
      EvidenceStays(load, s.mail.rows, s'.mail.rows, v);
    }
    forall i | 0 <= i < |s'.mail.rows|
      ensures LinkOk(s', s'.mail.rows[i])
    {
      LinkedRow(load, s, e, s', i);
    }
  }

  lemma LedgerStays(load: Loader, s: Sys, e: Event, s': Sys)
    requires Step(load, s, e, s') && !e.Write?
    ensures s'.ledger == s.ledger
  {
    hide IntakeRuns.Step, Blockers, IsLookup;
  }

  lemma {:induction false} Reachable(load: Loader, ss: seq<Sys>, es: seq<Event>, k: nat)
    requires IsRun(load, ss, es) && k < |ss|
    ensures AccountsOk(ss[k]) && RecordsOk(load, ss[k])
  {
    hide AccountsOk, RecordsOk, Step;
    if k == 0 {
      InitOk(load, ss[0]);
    } else {
      Reachable(load, ss, es, k - 1);
      StepAt(load, ss, es, k);
      StepAccounts(load, ss[k - 1], es[k - 1], ss[k]);
      StepRecords(load, ss[k - 1], es[k - 1], ss[k]);
    }
  }

  // Along a run the request ids label one row each, and the manual-recovery status never appears.
  lemma LabelsAndStatuses(load: Loader, ss: seq<Sys>, es: seq<Event>, k: nat)
    requires IsRun(load, ss, es) && k < |ss|
    ensures OneRowPerLabel(ss[k].mail.rows)
    ensures forall id :: id in ss[k].executions ==> ss[k].executions[id].status != FailedInternal
  {
    var s := ss[k];
    Reachable(load, ss, es, k);
    forall id | id in s.executions
      ensures s.executions[id].status != FailedInternal
    {
      assert Consistent(s, id);
    }
    forall i, j | 0 <= i < j < |s.mail.rows| && s.mail.rows[i].item.requestId.Some?
      ensures s.mail.rows[i].item.requestId != s.mail.rows[j].item.requestId
    {
      if s.mail.rows[i].item.requestId == s.mail.rows[j].item.requestId {
        IntakeRuns.OneLabel(s.mail, i, j, s.mail.rows[i].item.requestId.value);
      }
    }
  }

  lemma InitOk(load: Loader, s: Sys)
    requires Init(s)
    ensures AccountsOk(s) && RecordsOk(load, s)
  {
  }

  // Each request id runs its procedure at most once and has at most one evidence record, which follows a run.
  lemma AtMostOnce(load: Loader, ss: seq<Sys>, es: seq<Event>, k: nat, id: string)
    requires IsRun(load, ss, es) && k < |ss|
    ensures Count(ss[k].ran, id) <= 1 && |Records(ss[k].ledger, id)| <= Count(ss[k].ran, id)
    ensures Count(ss[k].ran, id) == 1 ==> id in ss[k].executions && ss[k].executions[id].status != Reserved
  {
    Reachable(load, ss, es, k);
    hide RecordsOk;
    assert Consistent(ss[k], id);
  }

  function Rank(a: Account): nat {
    match a
    case Unseen => 0
    case Held => 1
    case Started => 2
    case Performed => 3
    case Recorded(_) => 4
    case Closed(_) => 5
  }

  predicate Later(a: Account, b: Account) {
    Rank(a) <= Rank(b) && (Rank(a) == Rank(b) ==> a == b) && (a.Recorded? && b.Closed? ==> a.e == b.e)
  }

  lemma LaterStep(b: Account, c: Account)
    requires c == b || Follows(b, c)
    ensures forall a :: Later(a, b) ==> Later(a, c)
    ensures c == b ==> Later(b, c)
  {
  }

  lemma {:induction false} AccountsOnlyAdvance(load: Loader, ss: seq<Sys>, es: seq<Event>, i: nat, k: nat, id: string)
    requires IsRun(load, ss, es) && i <= k < |ss|
    ensures Later(AccountOf(ss[i], id), AccountOf(ss[k], id))
    decreases k
  {
    hide IsRun, Step, AccountOf, RecordsOk, AccountsOk, Consistent, Later, Follows;
    if i == k {
      LaterStep(AccountOf(ss[i], id), AccountOf(ss[k], id));
    } else {
      AccountsOnlyAdvance(load, ss, es, i, k - 1, id);
      Reachable(load, ss, es, k - 1);
      StepAt(load, ss, es, k);
      AccountAdvances(load, ss[k - 1], es[k - 1], ss[k], id);
      LaterStep(AccountOf(ss[k - 1], id), AccountOf(ss[k], id));
    }
  }

  // The stored status only goes from reserved over running to completed, and a completed row never changes.
  lemma StatusOnlyAdvances(load: Loader, ss: seq<Sys>, es: seq<Event>, i: nat, k: nat, id: string)
    requires IsRun(load, ss, es) && i <= k < |ss| && id in ss[i].executions
    ensures id in ss[k].executions
    ensures ss[k].executions[id].status == Reserved ==> ss[i].executions[id].status == Reserved
    ensures ss[i].executions[id].status == Completed ==> ss[k].executions[id] == ss[i].executions[id]
    ensures ss[i].executions[id].status == Running ==> ss[k].executions[id].status != Reserved
  {
    Reachable(load, ss, es, i);
    Reachable(load, ss, es, k);
    AccountsOnlyAdvance(load, ss, es, i, k, id);
    hide RecordsOk;
    assert Consistent(ss[i], id) && Consistent(ss[k], id);
    hide AccountsOk;
  }

  // A completed execution agrees with the ledger and with its message row, and its result is the verdict of the
  // procedure that the request named.
  lemma CompletedAgrees(load: Loader, ss: seq<Sys>, es: seq<Event>, k: nat, id: string) returns (e: Evidence)
    requires IsRun(load, ss, es) && k < |ss|
    requires id in ss[k].executions && ss[k].executions[id].status == Completed
    ensures Records(ss[k].ledger, id) == [e]
    ensures ss[k].executions[id] == Execution(Completed, Some(e.evidenceId), Some(e.hash), Some(e.result))
    ensures 1 <= e.number <= |ss[k].mail.rows|
    ensures var row := ss[k].mail.rows[e.number - 1];
            row.item.requestId == Some(id) && row.evidenceId == Some(e.evidenceId) && row.resultLink == Some(e.hash)
            && Load(load, row).Some? && e.result == Verdict(Load(load, row).value)
  {
    var s := ss[k];
    Reachable(load, ss, es, k);
    assert Consistent(s, id);
    e := AccountOf(s, id).e;
    hide AccountsOk, Load, Verdict;
    RecordsInLedger(s.ledger, id);
    assert e in Records(s.ledger, id);
    assert EvidenceOk(load, s.mail.rows, e);
    assert LinkOk(s, s.mail.rows[e.number - 1]);
  }

  // Looking back along a run: where an executor got its reservation, what it read afterwards, and when.
  ghost predicate ReservedAt(ss: seq<Sys>, es: seq<Event>, p: nat, id: string, i: nat) {
    i < |es| && i < |ss| && es[i] == Reserve(p) && id !in ss[i].executions
  }

  ghost predicate ActivationAt(ss: seq<Sys>, es: seq<Event>, p: nat, active: bool, i: nat) {
    i < |es| && i < |ss| && es[i] == SeeActivation(p) && ss[i].mail.active == active
  }

  ghost predicate RowAt(ss: seq<Sys>, es: seq<Event>, p: nat, id: string, found: Option<Row>, i: nat) {
    i < |es| && i < |ss| && es[i] == SeeRow(p, found) && IsLookup(ss[i].mail.rows, id, found)
  }

  // The phase of an executor before a step: the same, unless the step is its own.
  predicate Own(e: Event, p: nat) {
    !e.Mail? && e.p == p
  }

  lemma Before(load: Loader, ss: seq<Sys>, es: seq<Event>, k: nat, p: nat)
    requires IsRun(load, ss, es) && k < |ss| && p < |ss[k].phases| && ss[k].phases[p] != Idle
    ensures 0 < k <= |es| && p < |ss[k - 1].phases|
    ensures !Own(es[k - 1], p) ==> ss[k - 1].phases[p] == ss[k].phases[p]
    ensures Own(es[k - 1], p) ==> Step(load, ss[k - 1], es[k - 1], ss[k])
  {
    hide ExecutorStep;
    if k > 0 {
      StepAt(load, ss, es, k);
      PhasesElsewhere(load, ss[k - 1], es[k - 1], ss[k]);
    }
  }

  lemma {:induction false} TrailAsked(load: Loader, ss: seq<Sys>, es: seq<Event>, k: nat, p: nat, id: string)
    returns (i: nat)
    requires IsRun(load, ss, es) && k < |ss| && p < |ss[k].phases| && ss[k].phases[p] == Asked(id, true)
    ensures i < k && ReservedAt(ss, es, p, id, i)
  {
    hide IsRun, Blockers, IsLookup;
    Before(load, ss, es, k, p);
    if Own(es[k - 1], p) {
      i := k - 1;
    } else {
      i := TrailAsked(load, ss, es, k - 1, p, id);
    }
  }

  lemma {:induction false} TrailActivation(load: Loader, ss: seq<Sys>, es: seq<Event>, k: nat, p: nat, id: string)
    returns (i: nat, j: nat)
    requires IsRun(load, ss, es) && k < |ss| && p < |ss[k].phases|
    requires ss[k].phases[p].SawActivation? && ss[k].phases[p].id == id && ss[k].phases[p].held
    ensures i < j < k && ReservedAt(ss, es, p, id, i) && ActivationAt(ss, es, p, ss[k].phases[p].active, j)
  {
    hide IsRun, Blockers, IsLookup;
    Before(load, ss, es, k, p);
    if Own(es[k - 1], p) {
      j := k - 1;
      i := TrailAsked(load, ss, es, k - 1, p, id);
    } else {
      i, j := TrailActivation(load, ss, es, k - 1, p, id);
    }
  }

  lemma {:induction false} TrailRow(load: Loader, ss: seq<Sys>, es: seq<Event>, k: nat, p: nat, id: string)
    returns (i: nat, j: nat, m: nat)
    requires IsRun(load, ss, es) && k < |ss| && p < |ss[k].phases|
    requires ss[k].phases[p].SawRow? && ss[k].phases[p].id == id && ss[k].phases[p].held
    ensures i < j < m < k && ReservedAt(ss, es, p, id, i) && ActivationAt(ss, es, p, ss[k].phases[p].active, j)
    ensures RowAt(ss, es, p, id, ss[k].phases[p].found, m)
  {
    hide IsRun, Blockers, IsLookup;
    Before(load, ss, es, k, p);
    if Own(es[k - 1], p) {
      m := k - 1;
      i, j := TrailActivation(load, ss, es, k - 1, p, id);
    } else {
      i, j, m := TrailRow(load, ss, es, k - 1, p, id);
    }
  }

  predicate Cleared(phase: Phase, id: string) {
    (phase.Ready? || phase.Marked? || phase.Ran? || phase.Written?) && phase.id == id
  }

  // Whoever runs the procedure of a request got through the full check after its own reservation: activation read
  // as active, then the row read as approved and valid, then found unexpired.
  lemma {:induction false} RecheckedAfterReservation(
      load: Loader, ss: seq<Sys>, es: seq<Event>, k: nat, p: nat, id: string)
    returns (i: nat, j: nat, m: nat, c: nat, row: Row)
    requires IsRun(load, ss, es) && k < |ss| && p < |ss[k].phases| && Cleared(ss[k].phases[p], id)
    ensures i < j < m < c < k <= |es|
    ensures ReservedAt(ss, es, p, id, i) && ActivationAt(ss, es, p, true, j) && RowAt(ss, es, p, id, Some(row), m)
    ensures es[c].Check? && es[c].p == p && MayRun(load, row, es[c].now)
  {
    hide IsRun, Blockers, IsLookup, Load, MayRun, BENCH_SERVICE_CAPABILITIES;
    Before(load, ss, es, k, p);
    if Own(es[k - 1], p) && es[k - 1].Check? {
      var s, phase := ss[k - 1], ss[k - 1].phases[p];
      i, j, m := TrailRow(load, ss, es, k - 1, p, id);
      c, row := k - 1, phase.found.value;
      NoOtherBlocker(load, phase.active, phase.found, Find(s.executions, id), es[c].now);
    } else {
      i, j, m, c, row := RecheckedAfterReservation(load, ss, es, k - 1, p, id);
    }
  }

  predicate IsCompleted(s: Sys, id: string) {
    id in s.executions && s.executions[id].status == Completed
  }

  // Every completed execution was completed by an executor that had passed that check.
  lemma {:induction false} CompletionWasRechecked(load: Loader, ss: seq<Sys>, es: seq<Event>, k: nat, id: string)
    returns (i: nat, j: nat, m: nat, c: nat, d: nat, p: nat, row: Row)
    requires IsRun(load, ss, es) && k < |ss| && IsCompleted(ss[k], id)
    ensures i < j < m < c < d < k <= |es| && es[d] == Complete(p)
    ensures ReservedAt(ss, es, p, id, i) && ActivationAt(ss, es, p, true, j) && RowAt(ss, es, p, id, Some(row), m)
    ensures es[c].Check? && es[c].p == p && MayRun(load, row, es[c].now)
  {
    hide IsRun, MayRun, RowAt, ReservedAt, ActivationAt;
    NothingCompletedYet(load, ss, es, k, id);
    StepAt(load, ss, es, k);
    if IsCompleted(ss[k - 1], id) {
      i, j, m, c, d, p, row := CompletionWasRechecked(load, ss, es, k - 1, id);
    } else {
      CompletedByHolder(load, ss[k - 1], es[k - 1], ss[k], id);
      d, p := k - 1, es[k - 1].p;
      i, j, m, c, row := RecheckedAfterReservation(load, ss, es, k - 1, p, id);
    }
  }

  lemma NothingCompletedYet(load: Loader, ss: seq<Sys>, es: seq<Event>, k: nat, id: string)
    requires IsRun(load, ss, es) && k < |ss| && IsCompleted(ss[k], id)
    ensures 0 < k <= |es|
  {
  }

  lemma CompletedByHolder(load: Loader, s: Sys, e: Event, s': Sys, id: string)
    requires Step(load, s, e, s') && IsCompleted(s', id) && !IsCompleted(s, id)
    ensures e.Complete? && e.p < |s.phases| && Cleared(s.phases[e.p], id)
  {
    hide IntakeRuns.Step, Blockers, IsLookup, Load, Verdict;
  }

  // A reservation whose holder is gone stays as it is: nobody runs, records or completes that request any more.
  lemma {:induction false} OrphansStay(load: Loader, ss: seq<Sys>, es: seq<Event>, i: nat, k: nat, id: string)
    requires IsRun(load, ss, es) && i <= k < |ss| && id in ss[i].executions
    requires forall p :: 0 <= p < |ss[i].phases| ==> !Holds(ss[i].phases[p], id)
    ensures Untouched(ss[i], ss[k], id)
    ensures forall p :: 0 <= p < |ss[k].phases| ==> !Holds(ss[k].phases[p], id)
    decreases k
  {
    hide IsRun, RecordsOk, Step;
    if i == k {
    } else {
      OrphansStay(load, ss, es, i, k - 1, id);
      Reachable(load, ss, es, k - 1);
      StepAt(load, ss, es, k);
      OrphanStep(load, ss[k - 1], es[k - 1], ss[k], id);
    }
  }

  lemma OrphanStep(load: Loader, s: Sys, e: Event, s': Sys, id: string)
    requires AccountsOk(s) && Step(load, s, e, s') && id in s.executions
    requires forall p :: 0 <= p < |s.phases| ==> !Holds(s.phases[p], id)
    ensures Untouched(s, s', id) && forall p :: 0 <= p < |s'.phases| ==> !Holds(s'.phases[p], id)
  {
    hide ExecutorStep, Holds, IsAccount, AccountOf;
    KnownNotUnseen(s, id);
    if !e.Mail? && Subject(s.phases[e.p]) == Some(id) {
      OwnAdvances(load, s, e, s');
    } else {
      OthersUntouched(load, s, e, s', id);
    }
    forall p | 0 <= p < |s'.phases|
      ensures !Holds(s'.phases[p], id)
    {
      if Holds(s'.phases[p], id) {
        HolderOk(load, s, e, s', p, id);
      }
    }
  }

  lemma KnownNotUnseen(s: Sys, id: string)
    requires AccountsOk(s) && id in s.executions
    ensures AccountOf(s, id) != Unseen
  {
    assert Consistent(s, id);
  }
}
