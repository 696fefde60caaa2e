// Any number of pollers, workers that lost their lease among them, against one mailbox table.
module IntakeRuns {
  import opened Common
  import opened RoomLog
  import opened Mailbox
  import opened Intake

  // One poll between its transactions: the cursor is read first, then the activation, then the pages.
  datatype Poller = Idle | Opened(since: int) | Scanning(since: int, active: bool)

  datatype Sys = Sys(rows: seq<Row>, cursor: Option<int>, active: bool, pollers: seq<Poller>)

  // `Commit` stores a complete scan. Its messages and its parser are whatever the server sent and whatever the
  // time was, since MailboxPoll.Poll completes with the classification of a gapless run of messages only.
  datatype Event =
    | Open(p: nat)
    | ReadActivation(p: nat)
    | Commit(p: nat, parse: Parser, raws: seq<Raw>)
    | Abandon(p: nat)
    | Decide(id: string, review: Review)
    | SetActivation(active: bool)
    | Complete(id: string, evidenceId: string, link: string)

  ghost predicate Step(s: Sys, e: Event, s': Sys) {
    match e
    case Open(p) =>
      p < |s.pollers| && s.pollers[p].Idle?
      && s' == s.(pollers := s.pollers[p := Opened(CursorOf(s.cursor))])
    case ReadActivation(p) =>
      p < |s.pollers| && s.pollers[p].Opened?
      && s' == s.(pollers := s.pollers[p := Scanning(s.pollers[p].since, s.active)])
    case Commit(p, parse, raws) =>
      p < |s.pollers| && s.pollers[p].Scanning? && Gapless(raws, s.pollers[p].since)
      && s' == s.(rows := StoreAll(s.rows, ClassifyAll(parse, s.pollers[p].active, raws, s.pollers[p].since)),
                  cursor := Some(s.pollers[p].since + |raws|), pollers := s.pollers[p := Idle])
    case Abandon(p) => p < |s.pollers| && s' == s.(pollers := s.pollers[p := Idle])
    case Decide(id, review) => !review.PendingHumanReview? && s' == s.(rows := Reviewed(s.rows, id, review))
    case SetActivation(active) => s' == s.(active := active)
    case Complete(id, evidenceId, link) => s' == s.(rows := Linked(s.rows, id, evidenceId, link))
  }

  predicate Init(s: Sys) {
    s.rows == [] && s.cursor == None && forall p :: 0 <= p < |s.pollers| ==> s.pollers[p].Idle?
  }

  ghost predicate IsRun(ss: seq<Sys>, es: seq<Event>) {
    |ss| == |es| + 1 && Init(ss[0]) && forall k :: 0 <= k < |es| ==> Step(ss[k], es[k], ss[k + 1])
  }

  // Sequence numbers 1, 2, 3, ... each have exactly one row.
  predicate Covered(rows: seq<Row>) {
    forall i :: 0 <= i < |rows| ==> rows[i].item.number == i + 1
  }

  predicate Carries(row: Row, id: string) {
    row.item.request.Some? && row.item.request.value.id == id
  }

  predicate ExactlyOneRow(rows: seq<Row>, n: int) {
    exists i :: 0 <= i < |rows| && rows[i].item.number == n
                && forall j :: 0 <= j < |rows| && rows[j].item.number == n ==> j == i
  }

  // The label of a row: the id of its request, when no lower row carries a request with that id.
  predicate WellLabelled(rows: seq<Row>, i: nat)
    requires i < |rows|
  {
    var item := rows[i].item;
    if item.request.Some? && !exists j :: 0 <= j < i && Carries(rows[j], item.request.value.id)
    then item.requestId == Some(item.request.value.id) else item.requestId == None
  }

  predicate WellReviewed(row: Row) {
    (row.item.classification.DuplicateRequestId? <==> row.item.request.Some? && row.item.requestId.None?)
    && (row.item.requestId.Some? ==> row.item.classification.ValidRequest? || row.item.classification.IntakeInactive?)
    && (!row.item.review.Rejected? ==> row.item.classification.ValidRequest? && row.item.requestId.Some?)
  }

  predicate RowsOk(rows: seq<Row>) {
    Covered(rows) && forall i :: 0 <= i < |rows| ==> WellLabelled(rows, i) && WellReviewed(rows[i])
  }

  predicate Inv(s: Sys) {
    RowsOk(s.rows) && 0 <= CursorOf(s.cursor) <= |s.rows|
    && forall p :: 0 <= p < |s.pollers| ==> s.pollers[p].Idle? || 0 <= s.pollers[p].since <= |s.rows|
  }

  // What a row may become: only the review moves, once and away from pending, and links are set once.
  predicate Settles(row: Row, later: Row) {
    later.item == row.item.(review := later.item.review)
    && (row.item.review.PendingHumanReview? || later.item.review == row.item.review)
    && (row.evidenceId.Some? ==> later.evidenceId == row.evidenceId)
    && (row.resultLink.Some? ==> later.resultLink == row.resultLink)
  }

  predicate RowsSettle(rows: seq<Row>, later: seq<Row>) {
    |rows| <= |later| && forall i :: 0 <= i < |rows| ==> Settles(rows[i], later[i])
  }

  // The lowest row that carries an id is labelled with it.
  lemma {:induction false} LowestIsLabelled(rows: seq<Row>, j: nat, id: string)
    requires RowsOk(rows) && j < |rows| && Carries(rows[j], id)
    ensures IdTaken(rows, Some(id))
  {
    if i :| 0 <= i < j && Carries(rows[i], id) {
      LowestIsLabelled(rows, i, id);
    } else {
      assert WellLabelled(rows, j);
      assert rows[j].item.requestId == Some(id) && rows[j] in rows;
    }
  }

  lemma TakenIffCarried(rows: seq<Row>, id: string)
    requires RowsOk(rows)
    ensures IdTaken(rows, Some(id)) <==> exists j :: 0 <= j < |rows| && Carries(rows[j], id)
  {
    if IdTaken(rows, Some(id)) {
      var r :| r in rows && r.item.requestId == Some(id);
      var i :| 0 <= i < |rows| && rows[i] == r;
      assert WellLabelled(rows, i);
    }
    if j :| 0 <= j < |rows| && Carries(rows[j], id) {
      LowestIsLabelled(rows, j, id);
    }
  }

  lemma LabelsAgree(rows: seq<Row>, later: seq<Row>, i: nat)
    requires i < |rows| && i < |later|
    requires forall j :: 0 <= j <= i ==>
               later[j].item.request == rows[j].item.request && later[j].item.requestId == rows[j].item.requestId
    ensures WellLabelled(later, i) <==> WellLabelled(rows, i)
  {
    assert forall j, id :: 0 <= j < i ==> Carries(later[j], id) == Carries(rows[j], id);
  }

  // The row that a message gets when its sequence number is new.
  predicate Keeps(row: Row, item: Item) {
    row == Row(item, None, None) || row == Row(Fallback(item), None, None)
  }

  lemma NewLabel(rows: seq<Row>, item: Item)
    requires RowsOk(rows) && WellClassified(item) && item.number == |rows| + 1
    ensures var after := StoreOne(rows, item);
            |after| == |rows| + 1 && rows <= after && Keeps(after[|rows|], item)
            && WellLabelled(after, |rows|) && WellReviewed(after[|rows|])
  {
    var after := StoreOne(rows, item);
    assert !NumberTaken(rows, item.number);
    if item.request.Some? {
      var id := item.request.value.id;
      TakenIffCarried(rows, id);
      assert forall j :: 0 <= j < |rows| ==> Carries(after[j], id) == Carries(rows[j], id);
    }
  }

  lemma StoreOneOk(rows: seq<Row>, item: Item)
    requires RowsOk(rows) && WellClassified(item) && 1 <= item.number <= |rows| + 1
    ensures RowsOk(StoreOne(rows, item))
    ensures item.number <= |rows| ==> StoreOne(rows, item) == rows
    ensures item.number == |rows| + 1 ==>
              var after := StoreOne(rows, item);
              |after| == |rows| + 1 && rows <= after && Keeps(after[|rows|], item)
  {
    var after := StoreOne(rows, item);
    if item.number <= |rows| {
      assert rows[item.number - 1] in rows;
    } else {
      NewLabel(rows, item);
      forall i | 0 <= i < |rows|
        ensures WellLabelled(after, i)
      {
        LabelsAgree(rows, after, i);
      }
    }
  }

  // Row k, as kept from message k + 1 of a slice that starts behind `since`.
  predicate KeptFrom(row: Row, k: int, items: seq<Item>, since: int) {
    since <= k < since + |items| && Keeps(row, items[k - since])
  }

  // The table after a slice: the old rows, then a row for every message beyond them.
  predicate Extends(rows: seq<Row>, items: seq<Item>, since: int, after: seq<Row>) {
    rows <= after && |after| == (if since + |items| > |rows| then since + |items| else |rows|)
    && forall k :: |rows| <= k < |after| ==> KeptFrom(after[k], k, items, since)
  }

  lemma ExtendsNext(rows: seq<Row>, items: seq<Item>, since: nat, mid: seq<Row>, after: seq<Row>)
    requires items != [] && since <= |rows| && Extends(rows, items[..|items| - 1], since, mid)
    requires since + |items| <= |mid| ==> after == mid
    requires since + |items| == |mid| + 1 ==>
               |after| == |mid| + 1 && mid <= after && Keeps(after[|mid|], items[|items| - 1])
    ensures Extends(rows, items, since, after)
  {
    hide Keeps;
    forall k | |rows| <= k < |after|
      ensures KeptFrom(after[k], k, items, since)
    {
      if k < |mid| {
        assert after[k] == mid[k];
        assert KeptFrom(mid[k], k, items[..|items| - 1], since);
      }
    }
  }

  // Storing a gapless slice that starts within the table.
  lemma {:induction false} StoreAllOk(rows: seq<Row>, items: seq<Item>, since: nat)
    requires RowsOk(rows) && since <= |rows|
    requires forall i :: 0 <= i < |items| ==> items[i].number == since + 1 + i && WellClassified(items[i])
    ensures RowsOk(StoreAll(rows, items)) && Extends(rows, items, since, StoreAll(rows, items))
  {
    if items == [] {
    } else {
      hide RowsOk, WellClassified, StoreOne, Keeps, KeptFrom;
      var n := |items| - 1;
      var mid := StoreAll(rows, items[..n]);
      StoreAllOk(rows, items[..n], since);
      StoreOneOk(mid, items[n]);
      ExtendsNext(rows, items, since, mid, StoreOne(mid, items[n]));
    }
  }

  lemma UpdatedOk(rows: seq<Row>, later: seq<Row>)
    requires RowsOk(rows) && |later| == |rows|
    requires forall i :: 0 <= i < |rows| ==>
               Settles(rows[i], later[i]) && (later[i].item.review.Rejected? || !rows[i].item.review.Rejected?)
    ensures RowsOk(later)
  {
    forall i | 0 <= i < |rows|
      ensures WellLabelled(later, i)
    {
      LabelsAgree(rows, later, i);
    }
  }

  // Row i, as stored from message i + 1 of a scan of `raws` behind `since`.
  predicate StoredFrom(row: Row, i: int, since: int, active: bool, parse: Parser, raws: seq<Raw>) {
    since <= i < since + |raws| && Classify(parse, raws[i - since]).Some?
    && Keeps(row, ClassifyFor(parse, active, raws[i - since]))
  }

  lemma CommitStores(s: Sys, e: Event, s': Sys, since: nat, active: bool)
    requires Inv(s) && e.Commit? && Step(s, e, s') && s.pollers[e.p] == Scanning(since, active)
    ensures RowsOk(s'.rows) && s.rows <= s'.rows
    ensures |s'.rows| == if since + |e.raws| > |s.rows| then since + |e.raws| else |s.rows|
    ensures forall i :: |s.rows| <= i < |s'.rows| ==>
              StoredFrom(s'.rows[i], i, since, active, e.parse, e.raws)
  {
    hide RowsOk, WellClassified, ClassifyFor, Classify, Keeps, StoreAll;
    var items := ClassifyAll(e.parse, active, e.raws, since);
    ClassifyAllWell(e.parse, active, e.raws, since);
    StoreAllOk(s.rows, items, since);
    forall i | |s.rows| <= i < |s'.rows|
      ensures StoredFrom(s'.rows[i], i, since, active, e.parse, e.raws)
    {
      hide MessageSeq, ClassifyAll;
      var raw := e.raws[i - since];
      assert KeptFrom(s'.rows[i], i, items, since);
      assert items[i - since] == ClassifyFor(e.parse, active, raw);
    }
  }

  lemma StepInv(s: Sys, e: Event, s': Sys)
    requires Inv(s) && Step(s, e, s')
    ensures Inv(s') && RowsSettle(s.rows, s'.rows)
    ensures e.Commit? ==> s.rows <= s'.rows
    ensures e.Open? || e.ReadActivation? || e.Abandon? || e.SetActivation? ==> s'.rows == s.rows
  {
    hide RowsOk, ClassifyAll, StoreAll, Gapless, StoredFrom;
    match e {
      case Commit(p, parse, raws) => CommitStores(s, e, s', s.pollers[p].since, s.pollers[p].active);
      case Decide(id, review) => UpdatedOk(s.rows, s'.rows);
      case Complete(id, evidenceId, link) => UpdatedOk(s.rows, s'.rows);
      case _ =>
    }
  }

  // Links belong to completions: other steps keep them, and new rows start without.
  lemma LinksKept(s: Sys, e: Event, s': Sys, i: nat)
    requires Inv(s) && Step(s, e, s') && !e.Complete? && i < |s'.rows|
    ensures s'.rows[i].evidenceId == (if i < |s.rows| then s.rows[i].evidenceId else None)
    ensures s'.rows[i].resultLink == (if i < |s.rows| then s.rows[i].resultLink else None)
  {
    hide RowsOk, ClassifyAll, StoreAll, Gapless, StoredFrom;
    StepInv(s, e, s');
    if e.Commit? {
      var since, active := s.pollers[e.p].since, s.pollers[e.p].active;
      CommitStores(s, e, s', since, active);
      if i >= |s.rows| {
        StoredUnlinked(s'.rows[i], i, since, active, e.parse, e.raws);
      }
    }
  }

  lemma StoredUnlinked(row: Row, i: int, since: int, active: bool, parse: Parser, raws: seq<Raw>)
    requires StoredFrom(row, i, since, active, parse, raws)
    ensures row.evidenceId.None? && row.resultLink.None?
  {
    hide ClassifyFor, Classify;
  }

  // Every sequence number up to the cursor has exactly one row, in every interleaving and against any server.
  lemma {:induction false} Coverage(ss: seq<Sys>, es: seq<Event>, k: nat)
    requires IsRun(ss, es) && k < |ss|
    ensures Inv(ss[k])
    ensures forall n :: 1 <= n <= CursorOf(ss[k].cursor) ==> ExactlyOneRow(ss[k].rows, n)
  {
    if k == 0 {
    } else {
      hide Inv;
      Coverage(ss, es, k - 1);
      StepInv(ss[k - 1], es[k - 1], ss[k]);
    }
    forall n | 1 <= n <= CursorOf(ss[k].cursor)
      ensures ExactlyOneRow(ss[k].rows, n)
    {
      CoveredOnce(ss[k], n);
    }
  }

  lemma CoveredOnce(s: Sys, n: int)
    requires Inv(s) && 1 <= n <= CursorOf(s.cursor)
    ensures ExactlyOneRow(s.rows, n)
  {
    assert s.rows[n - 1].item.number == n;
  }

  // Rows only settle along a run: no decision is revised, no content changes, nothing is deleted.
  lemma {:induction false} DecisionsAreFinal(ss: seq<Sys>, es: seq<Event>, i: nat, k: nat)
    requires IsRun(ss, es) && i <= k < |ss|
    ensures RowsSettle(ss[i].rows, ss[k].rows)
    decreases k
  {
    hide IsRun, Step, Inv;
    if i == k {
    } else {
      DecisionsAreFinal(ss, es, i, k - 1);
      Coverage(ss, es, k - 1);
      StepAt(ss, es, k);
      StepInv(ss[k - 1], es[k - 1], ss[k]);
      SettleOn(ss[i].rows, ss[k - 1].rows, ss[k].rows);
    }
  }

  lemma SettleOn(rows: seq<Row>, later: seq<Row>, last: seq<Row>)
    requires RowsSettle(rows, later) && RowsSettle(later, last)
    ensures RowsSettle(rows, last)
  {
    forall i | 0 <= i < |rows|
      ensures Settles(rows[i], last[i])
    {
      assert Settles(rows[i], later[i]) && Settles(later[i], last[i]);
    }
  }

  // No request id labels two rows, and it labels the lowest row that carries a request with that id.
  lemma LabelsUnique(s: Sys, i: nat, j: nat, id: string)
    requires Inv(s) && i < |s.rows| && j < |s.rows|
    requires s.rows[i].item.requestId == Some(id) && Carries(s.rows[j], id)
    ensures i <= j && Carries(s.rows[i], id)
    ensures s.rows[j].item.requestId == Some(id) ==> i == j
    ensures i < j ==> s.rows[j].item.classification.DuplicateRequestId?
  {
    assert WellLabelled(s.rows, i) && WellLabelled(s.rows, j) && WellReviewed(s.rows[j]);
  }

  lemma OneLabel(s: Sys, i: nat, j: nat, id: string)
    requires Inv(s) && i < |s.rows| && j < |s.rows|
    requires s.rows[i].item.requestId == Some(id) && s.rows[j].item.requestId == Some(id)
    ensures i == j
  {
    assert WellLabelled(s.rows, i) && WellLabelled(s.rows, j);
    LabelsUnique(s, i, j, id);
  }

  // A decision and a completion each change the one row that is labelled with the id, and nothing else.
  lemma DecisionHitsOneRow(s: Sys, id: string, review: Review) returns (i: nat)
    requires Inv(s) && IsPending(s.rows, id)
    ensures i < |s.rows| && s.rows[i].item.requestId == Some(id) && Carries(s.rows[i], id)
    ensures var row := s.rows[i];
            Reviewed(s.rows, id, review) == s.rows[i := row.(item := row.item.(review := review))]
  {
    var r :| r in s.rows && r.item.requestId == Some(id) && r.item.review == PendingHumanReview;
    i :| 0 <= i < |s.rows| && s.rows[i] == r;
    assert WellLabelled(s.rows, i);
    hide Inv;
    forall j | 0 <= j < |s.rows| && j != i
      ensures s.rows[j].item.requestId != Some(id)
    {
      if s.rows[j].item.requestId == Some(id) {
        OneLabel(s, i, j, id);
      }
    }
  }

  lemma CompletionHitsOneRow(s: Sys, id: string, evidenceId: string, link: string, i: nat)
    requires Inv(s) && i < |s.rows| && s.rows[i].item.requestId == Some(id)
    requires s.rows[i].evidenceId.None? && s.rows[i].resultLink.None?
    ensures Linked(s.rows, id, evidenceId, link)
            == s.rows[i := s.rows[i].(evidenceId := Some(evidenceId), resultLink := Some(link))]
  {
    hide Inv;
    forall j | 0 <= j < |s.rows| && j != i
      ensures s.rows[j].item.requestId != Some(id)
    {
      if s.rows[j].item.requestId == Some(id) {
        OneLabel(s, i, j, id);
      }
    }
  }

  // The polls of a run are serial when each opens with no other one under way.
  ghost predicate Serial(ss: seq<Sys>, es: seq<Event>)
    requires |ss| == |es| + 1
  {
    forall k, q :: 0 <= k < |es| && es[k].Open? && 0 <= q < |ss[k].pollers| ==> ss[k].pollers[q].Idle?
  }

  predicate OnlyOne(s: Sys) {
    forall p :: 0 <= p < |s.pollers| && !s.pollers[p].Idle? ==>
      s.pollers[p].since == CursorOf(s.cursor)
      && forall q :: 0 <= q < |s.pollers| && q != p ==> s.pollers[q].Idle?
  }

  lemma SerialStep(s: Sys, e: Event, s': Sys)
    requires Step(s, e, s') && OnlyOne(s)
    requires e.Open? ==> forall q :: 0 <= q < |s.pollers| ==> s.pollers[q].Idle?
    ensures OnlyOne(s') && CursorOf(s.cursor) <= CursorOf(s'.cursor)
  {
    hide ClassifyAll, StoreAll, Gapless, Reviewed, Linked;
  }

  lemma StepAt(ss: seq<Sys>, es: seq<Event>, k: nat)
    requires IsRun(ss, es) && 0 < k < |ss|
    ensures k - 1 < |es| && |ss| == |es| + 1 && Step(ss[k - 1], es[k - 1], ss[k])
  {
  }

  lemma InitOnlyOne(ss: seq<Sys>, es: seq<Event>)
    requires IsRun(ss, es)
    ensures |ss| > 0 && OnlyOne(ss[0])
  {
  }

  lemma {:induction false} SerialCursorNeverFalls(ss: seq<Sys>, es: seq<Event>, k: nat)
    requires IsRun(ss, es) && Serial(ss, es) && k < |ss|
    ensures OnlyOne(ss[k]) && (k > 0 ==> CursorOf(ss[k - 1].cursor) <= CursorOf(ss[k].cursor))
  {
    hide IsRun, OnlyOne, Step;
    if k == 0 {
      InitOnlyOne(ss, es);
    } else {
      SerialCursorNeverFalls(ss, es, k - 1);
      StepAt(ss, es, k);
      SerialStep(ss[k - 1], es[k - 1], ss[k]);
    }
  }

  // Poller p opened the scan that it has under way at k with step o.
  predicate OpensScan(es: seq<Event>, o: nat, k: nat, p: nat)
    requires k <= |es|
  {
    o < k && es[o] == Open(p) && forall j :: o < j < k ==> es[j] != Open(p)
  }

  predicate IsLastCommit(es: seq<Event>, m: nat, k: nat)
    requires k <= |es|
  {
    m < k && es[m].Commit? && forall j :: m < j < k ==> !es[j].Commit?
  }

  // The sequence number at which a commit leaves the cursor.
  function EndOf(ss: seq<Sys>, es: seq<Event>, m: nat): int
    requires m < |es| && m < |ss| && es[m].Commit? && es[m].p < |ss[m].pollers| && !ss[m].pollers[es[m].p].Idle?
  {
    ss[m].pollers[es[m].p].since + |es[m].raws|
  }

  predicate Commits(s: Sys, e: Event) {
    e.Commit? && e.p < |s.pollers| && !s.pollers[e.p].Idle?
  }

  // The commit at k comes too late: since its scan was opened others have committed, the last of them further on.
  ghost predicate Overtaken(ss: seq<Sys>, es: seq<Event>, k: nat)
    requires |ss| == |es| + 1 && k < |es| && Commits(ss[k], es[k])
  {
    exists o: nat, m: nat ::
      OpensScan(es, o, k, es[k].p) && o < m && IsLastCommit(es, m, k) && Commits(ss[m], es[m])
      && EndOf(ss, es, m) > EndOf(ss, es, k)
  }

  lemma PollerStep(s: Sys, e: Event, s': Sys, p: nat)
    requires Step(s, e, s') && p < |s'.pollers| && !s'.pollers[p].Idle?
    ensures p < |s.pollers|
    ensures e == Open(p) ==> s'.pollers[p].since == CursorOf(s.cursor)
    ensures e != Open(p) ==> !s.pollers[p].Idle? && s'.pollers[p].since == s.pollers[p].since
  {
    hide ClassifyAll, StoreAll, Gapless, Reviewed, Linked;
  }

  lemma InitIdle(ss: seq<Sys>, es: seq<Event>)
    requires IsRun(ss, es)
    ensures |ss| == |es| + 1 && forall p :: 0 <= p < |ss[0].pollers| ==> ss[0].pollers[p].Idle?
  {
  }

  // Behind every scan under way stands its opening, at which it read the cursor.
  lemma {:induction false} ScanWasOpened(ss: seq<Sys>, es: seq<Event>, k: nat, p: nat) returns (o: nat)
    requires IsRun(ss, es) && k < |ss| && p < |ss[k].pollers| && !ss[k].pollers[p].Idle?
    ensures k <= |es| && OpensScan(es, o, k, p) && ss[k].pollers[p].since == CursorOf(ss[o].cursor)
  {
    hide IsRun, Step;
    InitIdle(ss, es);
    if k == 0 {
    } else {
      StepAt(ss, es, k);
      PollerStep(ss[k - 1], es[k - 1], ss[k], p);
      if es[k - 1] == Open(p) {
        o := k - 1;
      } else {
        o := ScanWasOpened(ss, es, k - 1, p);
      }
    }
  }

  lemma CursorStep(s: Sys, e: Event, s': Sys)
    requires Step(s, e, s')
    ensures e.Commit? ==> Commits(s, e) && s'.cursor == Some(s.pollers[e.p].since + |e.raws|)
    ensures !e.Commit? ==> s'.cursor == s.cursor
  {
    hide ClassifyAll, StoreAll, Gapless, Reviewed, Linked;
  }

  // The cursor is where the last commit left it.
  lemma {:induction false} CursorIsLastEnd(ss: seq<Sys>, es: seq<Event>, o: nat, k: nat) returns (m: Option<nat>)
    requires IsRun(ss, es) && o <= k < |ss|
    ensures k <= |es|
    ensures m.None? ==> ss[k].cursor == ss[o].cursor && forall j :: o <= j < k ==> !es[j].Commit?
    ensures m.Some? ==>
              o <= m.value && IsLastCommit(es, m.value, k) && Commits(ss[m.value], es[m.value])
              && ss[k].cursor == Some(EndOf(ss, es, m.value))
    decreases k
  {
    hide IsRun, Step;
    InitIdle(ss, es);
    if o == k {
      m := None;
    } else {
      StepAt(ss, es, k);
      CursorStep(ss[k - 1], es[k - 1], ss[k]);
      if es[k - 1].Commit? {
        m := Some(k - 1);
      } else {
        m := CursorIsLastEnd(ss, es, o, k - 1);
      }
    }
  }

  ghost predicate FallsAt(ss: seq<Sys>, k: nat)
    requires k + 1 < |ss|
  {
    CursorOf(ss[k + 1].cursor) < CursorOf(ss[k].cursor)
  }

  // In every interleaving a step moves the cursor back exactly when it is an overtaken commit.
  lemma FallsIffOvertaken(ss: seq<Sys>, es: seq<Event>, k: nat)
    requires IsRun(ss, es) && k < |es|
    ensures |ss| == |es| + 1 && (es[k].Commit? ==> Commits(ss[k], es[k]))
    ensures FallsAt(ss, k) <==> es[k].Commit? && Overtaken(ss, es, k)
  {
    hide IsRun, Step;
    InitIdle(ss, es);
    StepAt(ss, es, k + 1);
    CursorStep(ss[k], es[k], ss[k + 1]);
    if es[k].Commit? {
      var o := ScanWasOpened(ss, es, k, es[k].p);
      var m := CursorIsLastEnd(ss, es, o, k);
      if Overtaken(ss, es, k) {
        var o': nat, m': nat :|
          OpensScan(es, o', k, es[k].p) && o' < m' && IsLastCommit(es, m', k) && Commits(ss[m'], es[m'])
          && EndOf(ss, es, m') > EndOf(ss, es, k);
        assert o == o';
        assert m == Some(m');
      }
    }
  }

  ghost predicate OvertakenAt(ss: seq<Sys>, es: seq<Event>, k: nat)
    requires |ss| == |es| + 1 && k < |es|
  {
    Commits(ss[k], es[k]) && Overtaken(ss, es, k)
  }

  // So a run never moves the cursor back exactly when none of its commits is overtaken.
  lemma CursorNeverFallsIff(ss: seq<Sys>, es: seq<Event>)
    requires IsRun(ss, es)
    ensures |ss| == |es| + 1
    ensures (forall k: nat :: k < |es| ==> !FallsAt(ss, k)) <==> forall k: nat :: k < |es| ==> !OvertakenAt(ss, es, k)
  {
    hide IsRun, Step, Overtaken, FallsAt;
    InitIdle(ss, es);
    forall k: nat | k < |es|
      ensures FallsAt(ss, k) <==> OvertakenAt(ss, es, k)
    {
      FallsIffOvertaken(ss, es, k);
    }
  }

  // The server is honest along a run: every committed scan is a slice of one append-only log.
  ghost predicate HonestCommits(ss: seq<Sys>, es: seq<Event>, log: seq<Raw>)
    requires |ss| == |es| + 1
  {
    forall k :: 0 <= k < |es| && es[k].Commit? && es[k].p < |ss[k].pollers| && ss[k].pollers[es[k].p].Scanning? ==>
      var since := ss[k].pollers[es[k].p].since;
      0 <= since <= since + |es[k].raws| <= |log| && es[k].raws == log[since..since + |es[k].raws|]
  }

  // A row holds what the room said at its sequence number.
  predicate Records(row: Row, raw: Raw) {
    raw.text == Some(row.item.text) && row.item.sender == VerifiedSender(raw) && row.item.nonce == ReadNonce(raw.nonce)
  }

  ghost predicate Mirrors(rows: seq<Row>, log: seq<Raw>) {
    |rows| <= |log| && forall i :: 0 <= i < |rows| ==> Records(rows[i], log[i])
  }

  lemma RecordsItem(parse: Parser, active: bool, raw: Raw, row: Row)
    requires Classify(parse, raw).Some? && Keeps(row, ClassifyFor(parse, active, raw))
    ensures Records(row, raw)
  {
    hide Base58.IsValidEd25519Did;
  }

  lemma RecordsSettle(row: Row, later: Row, raw: Raw)
    requires Records(row, raw) && Settles(row, later)
    ensures Records(later, raw)
  {
  }

  lemma CommitMirrors(s: Sys, e: Event, s': Sys, log: seq<Raw>)
    requires Inv(s) && e.Commit? && Step(s, e, s') && Mirrors(s.rows, log)
    requires var since := s.pollers[e.p].since;
             0 <= since <= since + |e.raws| <= |log| && e.raws == log[since..since + |e.raws|]
    ensures Mirrors(s'.rows, log)
  {
    hide Records, Classify, ClassifyFor, Keeps, RowsOk, StoreAll, ClassifyAll, Gapless;
    var since := s.pollers[e.p].since;
    CommitStores(s, e, s', since, s.pollers[e.p].active);
    forall i | |s.rows| <= i < |s'.rows|
      ensures Records(s'.rows[i], log[i])
    {
      assert StoredFrom(s'.rows[i], i, since, s.pollers[e.p].active, e.parse, e.raws);
      assert log[i] == e.raws[i - since];
      RecordsItem(e.parse, s.pollers[e.p].active, log[i], s'.rows[i]);
    }
  }

  lemma OtherMirrors(s: Sys, e: Event, s': Sys, log: seq<Raw>)
    requires Inv(s) && !e.Commit? && Step(s, e, s') && Mirrors(s.rows, log)
    ensures Mirrors(s'.rows, log)
  {
    StepInv(s, e, s');
    hide Inv, Records, ClassifyAll, StoreAll, Gapless, Settles;
    assert |s'.rows| == |s.rows|;
    forall i | 0 <= i < |s.rows|
      ensures Records(s'.rows[i], log[i])
    {
      RecordsSettle(s.rows[i], s'.rows[i], log[i]);
    }
  }

  lemma HonestAt(ss: seq<Sys>, es: seq<Event>, log: seq<Raw>, k: nat)
    requires |ss| == |es| + 1 && HonestCommits(ss, es, log) && k < |es|
    requires es[k].Commit? && Step(ss[k], es[k], ss[k + 1])
    ensures var since := ss[k].pollers[es[k].p].since;
            0 <= since <= since + |es[k].raws| <= |log| && es[k].raws == log[since..since + |es[k].raws|]
  {
    hide ClassifyAll, StoreAll, Gapless;
  }

  // Whatever the interleaving, the table mirrors the room message by message.
  lemma {:induction false} TableMirrorsRoom(ss: seq<Sys>, es: seq<Event>, log: seq<Raw>, k: nat)
    requires IsRun(ss, es) && HonestCommits(ss, es, log) && k < |ss|
    ensures Mirrors(ss[k].rows, log)
  {
    hide HonestCommits, Inv, Step;
    if k == 0 {
      assert ss[0].rows == [];
    } else {
      hide Mirrors, IsRun;
      TableMirrorsRoom(ss, es, log, k - 1);
      Coverage(ss, es, k - 1);
      StepAt(ss, es, k);
      if es[k - 1].Commit? {
        HonestAt(ss, es, log, k - 1);
        CommitMirrors(ss[k - 1], es[k - 1], ss[k], log);
      } else {
        OtherMirrors(ss[k - 1], es[k - 1], ss[k], log);
      }
    }
  }

  // Two overlapping polls can move the cursor back; the rows stay.
  lemma OverlappingPollsRewind(parse: Parser, first: Raw, second: Raw) returns (ss: seq<Sys>, es: seq<Event>)
    requires Gapless([first, second], 0)
    ensures IsRun(ss, es) && |es| == 6 && CursorOf(ss[5].cursor) == 2 && CursorOf(ss[6].cursor) == 1
    ensures |ss[5].rows| == 2 && ss[6].rows == ss[5].rows
    ensures Commits(ss[5], es[5]) && Overtaken(ss, es, 5)
  {
    hide ClassifyFor, ClassifyAll, StoreAll, WellClassified, WellLabelled, WellReviewed, MessageSeq;
    assert Gapless([first], 0) by {
      assert [first][0] == [first, second][0];
    }
    var s0 := Sys([], None, true, [Idle, Idle]);
    var s1 := s0.(pollers := [Opened(0), Idle]);
    var s2 := s0.(pollers := [Scanning(0, true), Idle]);
    var s3 := s0.(pollers := [Scanning(0, true), Opened(0)]);
    var s4 := s0.(pollers := [Scanning(0, true), Scanning(0, true)]);
    var both, one := ClassifyAll(parse, true, [first, second], 0), ClassifyAll(parse, true, [first], 0);
    var s5 := Sys(StoreAll([], both), Some(2), true, [Idle, Scanning(0, true)]);
    var s6 := Sys(StoreAll(s5.rows, one), Some(1), true, [Idle, Idle]);
    ClassifyAllWell(parse, true, [first, second], 0);
    ClassifyAllWell(parse, true, [first], 0);
    StoreAllOk([], both, 0);
    StoreAllOk(s5.rows, one, 0);
    ss, es := [s0, s1, s2, s3, s4, s5, s6],
      [Open(0), ReadActivation(0), Open(1), ReadActivation(1), Commit(0, parse, [first, second]),
       Commit(1, parse, [first])];
    assert OpensScan(es, 2, 5, 1) && IsLastCommit(es, 4, 5);
    assert EndOf(ss, es, 4) == 2 && EndOf(ss, es, 5) == 1;
  }
}
