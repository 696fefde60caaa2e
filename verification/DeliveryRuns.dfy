// Concrete runs that show where serialization is needed.
module DeliveryRuns {
  import opened Common
  import opened RoomLog
  import opened HistoryScan
  import opened Reconcile
  import opened Delivery
  import opened SerialDelivery
  import opened Downgrades

  const NOTHING := Tally(None, None, None, None, None)

  const EMPTY_WORLD := World(None, [], [], {}, [])

  // A run whose sends are cleared, and whose reconciliations conclude a complete search, behind complete scans only.
  ghost predicate IsScannedRun(b: Bench, ws: seq<World>, es: seq<Event>) {
    IsRun(b, 0, ws, es) && CompleteScans(b, ws, es) && CompleteReads(b, ws, es)
  }

  lemma Step(b: Bench, ws: seq<World>, es: seq<Event>, e: Event, w: World)
    returns (ws': seq<World>, es': seq<Event>)
    requires IsScannedRun(b, ws, es) && Next(b, ws[|ws| - 1], e, w)
    requires e.ClearPreflight? ==> exists r: nat :: ScannedAt(b, ws + [w], es + [e], e.i, r, |es|)
    requires e.Reconcile? && e.report.complete ==> exists l: nat :: ReadAt(b, ws + [w], es + [e], l, |es|)
    ensures IsScannedRun(b, ws', es') && ws' == ws + [w] && es' == es + [e] && |ws'| == |es'| + 1
  {
    ws', es' := ws + [w], es + [e];
    ScansExtend(b, ws, es, e, w);
    ReadsExtend(b, ws, es, e, w);
  }

  lemma EmptyRun(b: Bench)
    ensures IsScannedRun(b, [EMPTY_WORLD], [])
  {
  }

  function SendAt(b: Bench, room: string, text: string, p: Phase): Attempt {
    Attempt(NewRow(b, PostAttempts, room, text), text, p)
  }

  // A fresh send in an empty room reads its one empty page and is cleared.
  lemma SendAlone(b: Bench, ws: seq<World>, es: seq<Event>, w: World, room: string, text: string)
    returns (ws': seq<World>, es': seq<Event>)
    requires IsScannedRun(b, ws, es) && w == ws[|ws| - 1] && w.log == []
    ensures IsScannedRun(b, ws', es') && ws <= ws' && |ws'| == |es'| + 1
    ensures var i := |w.attempts|;
            es' == es + [Begin(PostAttempts, room, text)] + [ReadHistory(i, [])] + [ClearPreflight(i, NOTHING)]
            && ws'[|ws'| - 1] == w.(attempts := w.attempts + [SendAt(b, room, text, Cleared)])
            && ScannedAt(b, ws', es', i, |es| + 1, |es| + 2)
  {
    var i := |w.attempts|;
    var scanning := SendAt(b, room, text, Scanning([]));
    var w1 := w.(attempts := w.attempts + [scanning]);
    ws', es' := Step(b, ws, es, Begin(PostAttempts, room, text), w1);
    assert scanning.phase.seen + [] == [];
    assert SetAttempt(w1, i, scanning) == w1;
    ws', es' := Step(b, ws', es', ReadHistory(i, []), w1);
    DescribesNothing(KeyOf(b, scanning.row), None);
    var w2 := SetAttempt(w1, i, SendAt(b, room, text, Cleared));
    assert ScannedAt(b, ws' + [w2], es' + [ClearPreflight(i, NOTHING)], i, |es| + 1, |es'|);
    ws', es' := Step(b, ws', es', ClearPreflight(i, NOTHING), w2);
  }

  // A cleared send reserves, signs and transmits.
  lemma TransmitIt(b: Bench, ws: seq<World>, es: seq<Event>, w: World, i: nat)
    returns (ws': seq<World>, es': seq<Event>)
    requires IsScannedRun(b, ws, es) && w == ws[|ws| - 1]
    requires i < |w.attempts| && w.attempts[i].phase.Cleared?
    ensures IsScannedRun(b, ws', es') && ws <= ws' && es <= es' && |ws'| == |es'| + 1
    ensures var n := NextNonce(w.counter, 0); var a := w.attempts[i];
            ws'[|ws'| - 1] == SetAttempt(w, i, a.(phase := Sent(n)))
                              .(counter := Some(n), posts := w.posts + {Post(i, a.row.room, n, a.text)})
  {
    hide IsScannedRun, Describes, Genuine;
    var n, a := NextNonce(w.counter, 0), w.attempts[i];
    var w1 := SetAttempt(w, i, a.(phase := Reserved(n))).(counter := Some(n));
    var w2 := SetAttempt(w1, i, a.(phase := Signed(n)));
    var w3 := SetAttempt(w2, i, a.(phase := Sent(n))).(posts := w.posts + {Post(i, a.row.room, n, a.text)});
    ws', es' := Step(b, ws, es, ReserveNonce(i, 0), w1);
    ws', es' := Step(b, ws', es', Sign(i, true), w2);
    ws', es' := Step(b, ws', es', Transmit(i, true), w3);
  }

  // Two sends of one text on their way; the scans of both ended before either POST is applied.
  lemma ReachBothSent(b: Bench, room: string, text: string)
    returns (ws: seq<World>, es: seq<Event>)
    ensures IsScannedRun(b, ws, es) && |ws| == |es| + 1 && |es| > 5 && ws[0].log == []
    ensures ScannedAt(b, ws, es, 1, 4, 5)
    ensures Post(0, room, 1, text) in ws[|es|].posts && Post(1, room, 2, text) in ws[|es|].posts
  {
    hide IsScannedRun, ScannedAt;
    EmptyRun(b);
    ws, es := SendAlone(b, [EMPTY_WORLD], [], EMPTY_WORLD, room, text);
    ws, es := SendAlone(b, ws, es, ws[|ws| - 1], room, text);
    ghost var ws1, es1 := ws, es;
    ws, es := TransmitIt(b, ws, es, ws[|ws| - 1], 0);
    ws, es := TransmitIt(b, ws, es, ws[|ws| - 1], 1);
    ScannedLater(b, ws1, es1, ws, es, 1, 4, 5);
  }

  // The second POST is overtaken, and so leaves the text twice in the room.
  lemma OverlappingSendsDuplicate(b: Bench, room: string, text: string)
    returns (ws: seq<World>, es: seq<Event>)
    ensures IsScannedRun(b, ws, es) && NoDuplicates(b, ws[0].log)
    ensures es != [] && es[|es| - 1].Apply? && Overtaken(b, ws, es, |es| - 1)
    ensures !NoDuplicates(b, ws[|ws| - 1].log)
  {
    ws, es := ReachBothSent(b, room, text);
    ghost var ws1, es1 := ws, es;
    hide ScannedAt, Describes, Genuine, IsScannedRun;
    var m := |es|;
    var w2 := ws[m];
    var p0, p1 := Post(0, room, 1, text), Post(1, room, 2, text);
    var w3 := w2.(log := w2.log + [Entry(room, AppliedMessage(b, p0, 1), FromAttempt(0))]);
    var w4 := w3.(log := w3.log + [Entry(room, AppliedMessage(b, p1, 2), FromAttempt(1))]);
    ws, es := Step(b, ws, es, Apply(p0, 1), w3);
    ws, es := Step(b, ws, es, Apply(p1, 2), w4);
    ScannedLater(b, ws1, es1, ws, es, 1, 4, 5);
    assert SamePost(es[m], es[m + 1]);
    hide Overtaken, NoDuplicates;
    ScannedRunParts(b, ws, es);
    NoDuplicatesIff(b, 0, ws, es, |es|);
  }

  lemma ScannedRunParts(b: Bench, ws: seq<World>, es: seq<Event>)
    requires IsScannedRun(b, ws, es)
    ensures IsRun(b, 0, ws, es) && CompleteScans(b, ws, es)
  {
    hide IsRun, CompleteScans, CompleteReads;
  }

  const ABSENT_REPORT := Report(NOTHING, true, None, 1, 0, 0)

  // The send of the next lemma after its POST failed locally, with the given audit columns.
  function LostSend(b: Bench, room: string, text: string, audit: Audit): Attempt {
    Finish(SendAt(b, room, text, Sent(1)), audit, None, Some(1))
  }

  function LateMessage(b: Bench, text: string): Message {
    Message(Some(1), b.did, Some(1), Some(text))
  }

  const FAULT := Audit(Failed, None, Some("unexpected_local_failure"))

  // Both reconciliations have read the row; the second also read the late entry.
  function BeforeWrites(b: Bench, room: string, text: string): World {
    var rec := Reconciliation(0, LostSend(b, room, text, FAULT).row, [], true);
    World(Some(1), [LostSend(b, room, text, FAULT)], [rec, rec.(seen := [LateMessage(b, text)])],
          {Post(0, room, 1, text)}, [Entry(room, LateMessage(b, text), FromAttempt(0))])
  }

  lemma ReachLostSend(b: Bench, room: string, text: string)
    returns (ws: seq<World>, es: seq<Event>)
    ensures IsScannedRun(b, ws, es) && |ws| == |es| + 1
    ensures ws[|ws| - 1] == World(Some(1), [LostSend(b, room, text, FAULT)], [], {Post(0, room, 1, text)}, [])
  {
    EmptyRun(b);
    ws, es := SendAlone(b, [EMPTY_WORLD], [], EMPTY_WORLD, room, text);
    ws, es := TransmitIt(b, ws, es, ws[|ws| - 1], 0);
    var w1 := ws[|ws| - 1];
    ws, es := Step(b, ws, es, Conclude(0, LocalFault), SetAttempt(w1, 0, LostSend(b, room, text, FAULT)));
  }

  // The row is lost, and both reconciliations have read it; no POST has been applied.
  function BothBegun(b: Bench, room: string, text: string): World {
    var rec := Reconciliation(0, LostSend(b, room, text, FAULT).row, [], true);
    World(Some(1), [LostSend(b, room, text, FAULT)], [rec, rec], {Post(0, room, 1, text)}, [])
  }

  // Both reconciliations read the row, and the first one scans the room.
  lemma ReachBothBegun(b: Bench, room: string, text: string)
    returns (ws: seq<World>, es: seq<Event>, j: nat)
    ensures IsScannedRun(b, ws, es) && |es| == j + 3 && |ws| == j + 4 && ws[j + 3] == BothBegun(b, room, text)
    ensures es[j] == BeginReconcile(0) && ws[j].recs == [] && |ws[j].attempts| == 1
    ensures ws[j].attempts[0].row.audit == FAULT && ws[j + 2].log == []
    ensures es[j + 2] == ReadForReconcile(0, [])
  {
    ws, es := ReachLostSend(b, room, text);
    hide Describes, SenderStep, IsScannedRun;
    j := |es|;
    var w2 := ws[j];
    var rec := Reconciliation(0, w2.attempts[0].row, [], true);
    var w3 := w2.(recs := w2.recs + [rec]);
    ws, es := Step(b, ws, es, BeginReconcile(0), w3);
    var w4 := w3.(recs := w3.recs + [rec]);
    ws, es := Step(b, ws, es, BeginReconcile(0), w4);
    assert w4.recs == [rec, rec] && rec.seen + [] == rec.seen && w4.recs[0 := rec] == w4.recs;
    ws, es := Step(b, ws, es, ReadForReconcile(0, []), w4);
  }

  // The late POST is applied, and the second reconciliation reads its entry.
  lemma ReachBeforeWrites(b: Bench, room: string, text: string)
    returns (ws: seq<World>, es: seq<Event>, j: nat)
    ensures IsScannedRun(b, ws, es) && |es| == j + 5 && |ws| == j + 6 && ws[j + 5] == BeforeWrites(b, room, text)
    ensures es[j] == BeginReconcile(0) && ws[j].recs == [] && |ws[j].attempts| == 1
    ensures ws[j].attempts[0].row.audit == FAULT && ws[j + 2].log == []
    ensures es[j + 2] == ReadForReconcile(0, []) && es[j + 4] == ReadForReconcile(1, [LateMessage(b, text)])
    ensures ws[j + 4].log == BeforeWrites(b, room, text).log
  {
    ws, es, j := ReachBothBegun(b, room, text);
    hide Describes, SenderStep, IsScannedRun, LostSend;
    var w4 := ws[j + 3];
    var m := LateMessage(b, text);
    var x := Entry(room, m, FromAttempt(0));
    var w5 := w4.(log := w4.log + [x]);
    ws, es := Step(b, ws, es, Apply(Post(0, room, 1, text), 1), w5);
    assert x in w5.log && InRoom(w5.log, room, m);
    LostRoom(b, room, text);
    var rec := w5.recs[1];
    var w6 := w5.(recs := w5.recs[1 := rec.(seen := rec.seen + [m])]);
    ws, es := Step(b, ws, es, ReadForReconcile(1, [m]), w6);
    assert rec.seen + [m] == [m];
    assert w6.recs == BeforeWrites(b, room, text).recs && w6.log == [x];
  }

  lemma LostRoom(b: Bench, room: string, text: string)
    ensures LostSend(b, room, text, FAULT).row.room == room
  {
  }

  function FoundReport(b: Bench, room: string, text: string): Report {
    Report(Observe(NOTHING, LateMessage(b, text), KeyOf(b, LostSend(b, room, text, FAULT).row), Some(1)),
           true, None, 1, 1, 0)
  }

  function Confirmed(b: Bench, room: string, text: string): World {
    var w := BeforeWrites(b, room, text);
    SetAttempt(w, 0, LostSend(b, room, text, Audit(ReconciledPosted, Some(1), None)))
    .(recs := w.recs[1 := w.recs[1].(live := false)])
  }

  lemma ConfirmStep(b: Bench, room: string, text: string)
    ensures Next(b, BeforeWrites(b, room, text), Event.Reconcile(1, FoundReport(b, room, text)),
                 Confirmed(b, room, text))
    ensures FoundReport(b, room, text).tally.attemptSeq.Some?
  {
    var w, m := BeforeWrites(b, room, text), LateMessage(b, text);
    var key := KeyOf(b, w.recs[1].snapshot);
    DescribesNothing(key, Some(1));
    DescribesNext(NOTHING, [], m, key, Some(1));
    assert [] + [m] == [m];
    assert FoundReport(b, room, text).tally.attemptSeq == Some(1);
    hide Describes, Observe;
  }

  // The reconciliation that saw the late entry confirms the row.
  lemma ConfirmIt(b: Bench, room: string, text: string, ws: seq<World>, es: seq<Event>, j: nat)
    returns (ws': seq<World>, es': seq<Event>)
    requires IsScannedRun(b, ws, es) && ws[|ws| - 1] == BeforeWrites(b, room, text)
    requires |es| == j + 5 && |ws| == j + 6 && es[j + 4] == ReadForReconcile(1, [LateMessage(b, text)])
    requires ws[j + 4].log == BeforeWrites(b, room, text).log
    ensures IsScannedRun(b, ws', es') && ws <= ws' && es <= es' && |es'| == j + 6 && |ws'| == j + 7
    ensures ws'[j + 6] == Confirmed(b, room, text) && Confirms(ws', es', 0, j + 5)
  {
    hide Describes, Genuine, Observe, IsScannedRun, Next;
    var w, w' := BeforeWrites(b, room, text), Confirmed(b, room, text);
    var e := Event.Reconcile(1, FoundReport(b, room, text));
    ConfirmStep(b, room, text);
    assert SeenAll(b, w.log, room, [LateMessage(b, text)]);
    assert ReadAt(b, ws + [w'], es + [e], j + 4, j + 5);
    ws', es' := Step(b, ws, es, e, w');
  }

  // The first reconciliation, which has seen nothing, writes its absence.
  lemma WriteAbsence(b: Bench, room: string, text: string, ws: seq<World>, es: seq<Event>, j: nat)
    returns (ws': seq<World>, es': seq<Event>)
    requires IsScannedRun(b, ws, es) && |es| == j + 6 && |ws| == j + 7 && ws[j + 6] == Confirmed(b, room, text)
    requires es[j + 2] == ReadForReconcile(0, []) && ws[j + 2].log == []
    ensures IsScannedRun(b, ws', es') && ws <= ws' && es' == es + [Event.Reconcile(0, ABSENT_REPORT)]
    ensures |ws'| == j + 8 && ws'[j + 7].log == BeforeWrites(b, room, text).log
  {
    var w := ws[j + 6];
    var gone := LostSend(b, room, text, Audit(ReconciledAbsent, None, Some(ABSENT)));
    var w' := SetAttempt(w, 0, gone).(recs := w.recs[0 := w.recs[0].(live := false)]);
    DescribesNothing(KeyOf(b, w.recs[0].snapshot), Some(1));
    hide Describes, Genuine, IsScannedRun;
    assert Reconciled(w.attempts[0], w.recs[0].snapshot, ABSENT_REPORT) == gone;
    ReadNothing(b, ws + [w'], es + [Event.Reconcile(0, ABSENT_REPORT)], j + 2, j + 6);
    ws', es' := Step(b, ws, es, Event.Reconcile(0, ABSENT_REPORT), w');
  }

  lemma ReadNothing(b: Bench, ws: seq<World>, es: seq<Event>, l: nat, k: nat)
    requires |ws| == |es| + 1 && l < k < |es| && es[l].ReadForReconcile? && es[k].Reconcile? && es[l].r == es[k].r
    requires ws[l].log == [] && es[k].r < |ws[k].recs|
    ensures ReadAt(b, ws, es, l, k)
  {
  }

  // Two reconciliations of one row: the one that scanned the whole room before the late POST was applied writes last.
  // That is a stale absence, and so the row goes from reconciled_posted back to reconciled_absent although its entry
  // is in the room.
  lemma OverlappingReconcilesDowngrade(b: Bench, room: string, text: string)
    returns (ws: seq<World>, es: seq<Event>, j: nat, m: nat, k: nat)
    ensures IsScannedRun(b, ws, es) && |es| == k + 1 && |ws| == k + 2 && StaleAbsence(ws, es, 0, j, m, k)
    ensures StrongRow(ws[k], 0) && !StrongRow(ws[k + 1], 0)
    ensures exists x | x in ws[k + 1].log :: x.origin == FromAttempt(0)
  {
    hide IsScannedRun, Confirms, Confirmed, BeforeWrites, StaleAbsence;
    ws, es, j := ReachBeforeWrites(b, room, text);
    ghost var ws1, es1 := ws, es;
    ws, es := ConfirmIt(b, room, text, ws, es, j);
    ghost var ws2, es2 := ws, es;
    assert ws[j] == ws1[j] && es[j] == es1[j] && ws[j + 2] == ws1[j + 2] && es[j + 2] == es1[j + 2];
    ws, es := WriteAbsence(b, room, text, ws, es, j);
    m, k := j + 5, j + 6;
    ConfirmsLater(ws2, es2, ws, es, 0, m);
    assert ws[j] == ws1[j] && es[j] == es1[j] && ws[m + 1] == ws2[j + 6];
    EndsStale(b, ws, es, j, m, k);
    LateEntry(b, room, text);
  }

  lemma LateEntry(b: Bench, room: string, text: string)
    ensures Entry(room, LateMessage(b, text), FromAttempt(0)) in BeforeWrites(b, room, text).log
  {
  }

  lemma EndsStale(b: Bench, ws: seq<World>, es: seq<Event>, j: nat, m: nat, k: nat)
    requires IsScannedRun(b, ws, es) && |es| == k + 1 && |ws| == k + 2 && k == m + 1 && j < m
    requires es[j] == BeginReconcile(0) && ws[j].recs == [] && |ws[j].attempts| == 1
    requires ws[j].attempts[0].row.audit == FAULT && Confirms(ws, es, 0, m)
    requires es[k] == Event.Reconcile(0, ABSENT_REPORT)
    ensures StaleAbsence(ws, es, 0, j, m, k) && StrongRow(ws[k], 0) && !StrongRow(ws[k + 1], 0)
  {
    hide IsRun, CompleteScans, CompleteReads;
    WeakensIffStale(b, 0, ws, es, k, 0);
  }

  lemma ConfirmsLater(ws: seq<World>, es: seq<Event>, ws': seq<World>, es': seq<Event>, i: nat, m: nat)
    requires |ws| == |es| + 1 && |ws'| == |es'| + 1 && ws <= ws' && es <= es' && Confirms(ws, es, i, m)
    ensures Confirms(ws', es', i, m)
  {
    assert ws'[m] == ws[m] && ws'[m + 1] == ws[m + 1] && es'[m] == es[m];
  }
}
