// Exact-content idempotency: exactly when a POST repeats a text of its room (src/flop_bench/posting.py, execution.py).
module SerialDelivery {
  import opened Common
  import opened RoomLog
  import opened HistoryScan
  import opened Reconcile
  import opened Delivery

  // Two different entries of one room with the agent's DID and the same text.
  ghost predicate DuplicateAt(b: Bench, log: seq<Entry>, m: nat, n: nat) {
    m < n < |log| && log[m].room == log[n].room
    && log[m].message.sender == b.did && log[n].message.sender == b.did
    && log[m].message.text.Some? && log[m].message.text == log[n].message.text
  }

  ghost predicate NoDuplicates(b: Bench, log: seq<Entry>) {
    forall m, n :: !DuplicateAt(b, log, m, n)
  }

  predicate FromBench(b: Bench, x: Entry, room: string) {
    x.room == room && x.message.sender == b.did
  }

  // Every Bench entry of the room in the log was seen.
  ghost predicate SeenAll(b: Bench, log: seq<Entry>, room: string, seen: seq<Message>) {
    forall x | x in log :: FromBench(b, x, room) ==> x.message in seen
  }

  // Step r is the last request of a complete scan: what attempt i had read when step c cleared it contains every
  // Bench entry that its room held at r.
  ghost predicate ScannedAt(b: Bench, ws: seq<World>, es: seq<Event>, i: nat, r: nat, c: nat)
    requires |ws| == |es| + 1
  {
    r < c < |es| && es[r].ReadHistory? && es[r].i == i && es[c].ClearPreflight? && es[c].i == i
    && i < |ws[c].attempts| && ws[c].attempts[i].phase.Scanning?
    && SeenAll(b, ws[r].log, ws[c].attempts[i].row.room, ws[c].attempts[i].phase.seen)
  }

  // Sends are cleared by complete scans only.
  ghost predicate CompleteScans(b: Bench, ws: seq<World>, es: seq<Event>)
    requires |ws| == |es| + 1
  {
    forall c: nat :: c < |es| && es[c].ClearPreflight? ==> exists r: nat :: ScannedAt(b, ws, es, es[c].i, r, c)
  }

  lemma ScannedLater(b: Bench, ws: seq<World>, es: seq<Event>, ws': seq<World>, es': seq<Event>, i: nat, r: nat, c: nat)
    requires |ws| == |es| + 1 && |ws'| == |es'| + 1 && ws <= ws' && es <= es' && ScannedAt(b, ws, es, i, r, c)
    ensures ScannedAt(b, ws', es', i, r, c)
  {
    assert ws'[r] == ws[r] && ws'[c] == ws[c] && es'[r] == es[r] && es'[c] == es[c];
  }

  lemma ScansExtend(b: Bench, ws: seq<World>, es: seq<Event>, e: Event, w: World)
    requires |ws| == |es| + 1 && CompleteScans(b, ws, es)
    requires e.ClearPreflight? ==> exists r: nat :: ScannedAt(b, ws + [w], es + [e], e.i, r, |es|)
    ensures CompleteScans(b, ws + [w], es + [e])
  {
    var ws', es' := ws + [w], es + [e];
    hide ScannedAt;
    forall c: nat | c < |es'| && es'[c].ClearPreflight?
      ensures exists r: nat :: ScannedAt(b, ws', es', es'[c].i, r, c)
    {
      if c < |es| {
        var r: nat :| ScannedAt(b, ws, es, es[c].i, r, c);
        ScannedLater(b, ws, es, ws', es', es[c].i, r, c);
      }
    }
  }

  ghost predicate Numbered(b: Bench, log: seq<Entry>) {
    forall x | x in log :: x.message.sender == b.did ==> x.message.number.Some?
  }

  predicate SamePost(e: Event, e': Event) {
    e.Apply? && e'.Apply? && e.post.room == e'.post.room && e.post.text == e'.post.text
  }

  // The text of a POST is already in its room.
  ghost predicate AlreadyThere(b: Bench, log: seq<Entry>, p: Post) {
    exists x | x in log :: FromBench(b, x, p.room) && x.message.text == Some(p.text)
  }

  // The POST applied at step k is overtaken: the same text was applied to the same room after the last request of
  // the scan that cleared it.
  ghost predicate Overtaken(b: Bench, ws: seq<World>, es: seq<Event>, k: nat)
    requires |ws| == |es| + 1 && k < |es| && es[k].Apply?
  {
    exists r: nat, c: nat, m: nat ::
      ScannedAt(b, ws, es, es[k].post.attempt, r, c) && c < k && r < m < k && SamePost(es[m], es[k])
  }

  predicate PastClear(p: Phase) {
    p.Cleared? || NonceOf(p).Some?
  }

  lemma StepAt(b: Bench, base: nat, ws: seq<World>, es: seq<Event>, k: nat)
    requires IsRun(b, base, ws, es) && 0 < k < |ws|
    ensures k - 1 < |es| && Next(b, ws[k - 1], es[k - 1], ws[k])
    ensures Inv(b, base, ws[k - 1]) && Grows(ws[k - 1], ws[k])
  {
    RunInv(b, base, ws, es, k - 1);
    NextGrows(b, ws[k - 1], es[k - 1], ws[k]);
  }

  // Only a cleared preflight lets a send go on to a nonce and a POST.
  lemma OnlyClearsAdvance(b: Bench, w: World, e: Event, w': World, i: nat)
    requires AttemptsOk(b, w) && RecsOk(w) && Next(b, w, e, w') && i < |w'.attempts|
    requires PastClear(w'.attempts[i].phase)
    ensures i < |w.attempts|
    ensures PastClear(w.attempts[i].phase) || (e.ClearPreflight? && e.i == i && w.attempts[i].phase.Scanning?)
  {
    hide Describes, Genuine, AttemptOk;
    if e.Reconcile? {
      ReconcileShape(b, w, e, w');
    }
  }

  lemma {:induction false} WasCleared(b: Bench, base: nat, ws: seq<World>, es: seq<Event>, k: nat, i: nat)
    returns (c: nat)
    requires IsRun(b, base, ws, es) && k < |ws| && i < |ws[k].attempts| && PastClear(ws[k].attempts[i].phase)
    ensures c < k <= |es| && es[c].ClearPreflight? && es[c].i == i
    ensures i < |ws[c].attempts| && ws[c].attempts[i].phase.Scanning?
  {
    hide Inv, Next, Grows, PastClear;
    if k == 0 {
      NothingYet(b, base, ws, es, i);
    } else {
      StepAt(b, base, ws, es, k);
      InvParts(b, base, ws[k - 1]);
      OnlyClearsAdvance(b, ws[k - 1], es[k - 1], ws[k], i);
      if PastClear(ws[k - 1].attempts[i].phase) {
        c := WasCleared(b, base, ws, es, k - 1, i);
      } else {
        c := k - 1;
      }
    }
  }

  lemma NothingYet(b: Bench, base: nat, ws: seq<World>, es: seq<Event>, i: nat)
    requires IsRun(b, base, ws, es)
    ensures !(i < |ws[0].attempts|)
  {
  }

  lemma InvParts(b: Bench, base: nat, w: World)
    requires Inv(b, base, w)
    ensures AttemptsOk(b, w) && RecsOk(w) && PostsOk(w)
  {
  }

  // Along a run attempts keep their target and text, and the log only grows.
  lemma {:induction false} RunGrows(b: Bench, base: nat, ws: seq<World>, es: seq<Event>, j: nat, k: nat)
    requires IsRun(b, base, ws, es) && j <= k < |ws|
    ensures Grows(ws[j], ws[k])
    decreases k
  {
    hide Next, Inv;
    if j == k {
    } else {
      RunGrows(b, base, ws, es, j, k - 1);
      StepAt(b, base, ws, es, k);
      GrowsOn(ws[j], ws[k - 1], ws[k]);
    }
  }

  lemma GrowsOn(w: World, w': World, w'': World)
    requires Grows(w, w') && Grows(w', w'')
    ensures Grows(w, w'')
  {
    forall i | 0 <= i < |w.attempts|
      ensures Keeps(w.attempts[i], w''.attempts[i])
    {
      assert Keeps(w.attempts[i], w'.attempts[i]) && Keeps(w'.attempts[i], w''.attempts[i]);
    }
  }

  // A step adds a Bench entry to a log only by applying a POST with its room and text.
  lemma OnlyAppliesAdd(b: Bench, w: World, e: Event, w': World, x: Entry)
    requires AttemptsOk(b, w) && RecsOk(w) && Next(b, w, e, w')
    requires x in w'.log && x !in w.log && x.message.sender == b.did
    ensures e.Apply? && x.room == e.post.room && x.message.text == Some(e.post.text)
    ensures x.origin == FromAttempt(e.post.attempt) && x.message.number.Some?
  {
    hide Describes, Genuine;
    if Sends(e) {
      SenderShape(b, w, e, w');
    } else if e.Reconcile? {
      ReconcileShape(b, w, e, w');
    }
  }

  lemma {:induction false} AppliedBetween(
      b: Bench, base: nat, ws: seq<World>, es: seq<Event>, j: nat, k: nat, x: Entry)
    returns (m: nat)
    requires IsRun(b, base, ws, es) && j <= k < |ws| && x.message.sender == b.did
    requires x !in ws[j].log && x in ws[k].log
    ensures j <= m < k <= |es| && es[m].Apply? && x.room == es[m].post.room && x.message.text == Some(es[m].post.text)
    ensures x.origin == FromAttempt(es[m].post.attempt) && x.message.number.Some?
    decreases k
  {
    hide Inv, Next, Grows;
    assert j != k;
    StepAt(b, base, ws, es, k);
    if x in ws[k - 1].log {
      m := AppliedBetween(b, base, ws, es, j, k - 1, x);
    } else {
      InvParts(b, base, ws[k - 1]);
      OnlyAppliesAdd(b, ws[k - 1], es[k - 1], ws[k], x);
      m := k - 1;
    }
  }

  // A clear after a complete scan: at its last request no entry with the text was in the room.
  lemma ClearMeansFresh(b: Bench, base: nat, ws: seq<World>, es: seq<Event>, i: nat, r: nat, c: nat, x: Entry)
    requires IsRun(b, base, ws, es) && ScannedAt(b, ws, es, i, r, c) && Numbered(b, ws[r].log)
    requires x in ws[r].log && FromBench(b, x, ws[c].attempts[i].row.room)
    ensures x.message.text != Some(ws[c].attempts[i].text)
  {
    RunInv(b, base, ws, es, c);
    var a := ws[c].attempts[i];
    assert AttemptOk(b, a);
    assert Next(b, ws[c], es[c], ws[c + 1]);
    assert x.message in a.phase.seen;
    assert !Hit(x.message, KeyOf(b, a.row), None, Any);
  }

  lemma {:induction false} StaysNumbered(b: Bench, base: nat, ws: seq<World>, es: seq<Event>, k: nat)
    requires IsRun(b, base, ws, es) && Numbered(b, ws[0].log) && k < |ws|
    ensures Numbered(b, ws[k].log)
  {
    hide Inv, Grows, Describes, Genuine;
    if k == 0 {
    } else {
      StaysNumbered(b, base, ws, es, k - 1);
      StepAt(b, base, ws, es, k);
      InvParts(b, base, ws[k - 1]);
      forall x | x in ws[k].log && x.message.sender == b.did
        ensures x.message.number.Some?
      {
        if x !in ws[k - 1].log {
          OnlyAppliesAdd(b, ws[k - 1], es[k - 1], ws[k], x);
        }
      }
    }
  }

  lemma AppliedIsThere(b: Bench, base: nat, ws: seq<World>, es: seq<Event>, m: nat, k: nat)
    requires IsRun(b, base, ws, es) && m < k < |ws| && es[m].Apply?
    ensures AlreadyThere(b, ws[k].log, es[m].post)
  {
    RunGrows(b, base, ws, es, m + 1, k);
    assert Next(b, ws[m], es[m], ws[m + 1]);
    var x := ws[m + 1].log[|ws[m].log|];
    assert x in ws[m + 1].log && x in ws[k].log;
  }

  // The scan behind a POST: its last request, and its clear.
  lemma ScanBehind(b: Bench, base: nat, ws: seq<World>, es: seq<Event>, k: nat)
    returns (r: nat, c: nat)
    requires IsRun(b, base, ws, es) && CompleteScans(b, ws, es) && k < |es| && es[k].Apply?
    ensures ScannedAt(b, ws, es, es[k].post.attempt, r, c) && c < k
  {
    var p := es[k].post;
    RunInv(b, base, ws, es, k);
    assert Next(b, ws[k], es[k], ws[k + 1]);
    assert SentBy(ws[k], p.attempt, p.room, p.nonce, p.text);
    c := WasCleared(b, base, ws, es, k, p.attempt);
    r :| ScannedAt(b, ws, es, es[c].i, r, c);
  }

  // For every scan behind a POST: the room holds its text already exactly when the same text was applied to the
  // same room since the last request of that scan.
  lemma ThereIffAppliedSince(b: Bench, base: nat, ws: seq<World>, es: seq<Event>, k: nat, r: nat, c: nat)
    requires IsRun(b, base, ws, es) && Numbered(b, ws[0].log) && k < |es| && es[k].Apply?
    requires ScannedAt(b, ws, es, es[k].post.attempt, r, c) && c < k
    ensures AlreadyThere(b, ws[k].log, es[k].post) <==> exists m :: r < m < k && SamePost(es[m], es[k])
  {
    var p := es[k].post;
    TargetAt(b, base, ws, es, k, c);
    if AlreadyThere(b, ws[k].log, p) {
      var x :| x in ws[k].log && FromBench(b, x, p.room) && x.message.text == Some(p.text);
      StaysNumbered(b, base, ws, es, r);
      if x in ws[r].log {
        ClearMeansFresh(b, base, ws, es, p.attempt, r, c, x);
      } else {
        var m := AppliedBetween(b, base, ws, es, r, k, x);
        assert r < m < k && SamePost(es[m], es[k]);
      }
    }
    if m :| r < m < k && SamePost(es[m], es[k]) {
      AppliedIsThere(b, base, ws, es, m, k);
    }
  }

  lemma TargetAt(b: Bench, base: nat, ws: seq<World>, es: seq<Event>, k: nat, c: nat)
    requires IsRun(b, base, ws, es) && c <= k < |es| && es[k].Apply? && es[k].post.attempt < |ws[c].attempts|
    ensures ws[c].attempts[es[k].post.attempt].row.room == es[k].post.room
    ensures ws[c].attempts[es[k].post.attempt].text == es[k].post.text
  {
    var p := es[k].post;
    RunInv(b, base, ws, es, k);
    assert Next(b, ws[k], es[k], ws[k + 1]);
    assert SentBy(ws[k], p.attempt, p.room, p.nonce, p.text);
    RunGrows(b, base, ws, es, c, k);
    assert Keeps(ws[c].attempts[p.attempt], ws[k].attempts[p.attempt]);
  }

  // In every interleaving with complete scans, a POST repeats a text of its room exactly when it is overtaken.
  lemma RepeatsIffOvertaken(b: Bench, base: nat, ws: seq<World>, es: seq<Event>, k: nat)
    requires IsRun(b, base, ws, es) && CompleteScans(b, ws, es) && Numbered(b, ws[0].log)
    requires k < |es| && es[k].Apply?
    ensures AlreadyThere(b, ws[k].log, es[k].post) <==> Overtaken(b, ws, es, k)
  {
    hide Next, Init, CompleteScans, ScannedAt, AlreadyThere;
    var r, c := ScanBehind(b, base, ws, es, k);
    ThereIffAppliedSince(b, base, ws, es, k, r, c);
    if Overtaken(b, ws, es, k) {
      var r': nat, c': nat, m: nat :|
        ScannedAt(b, ws, es, es[k].post.attempt, r', c') && c' < k && r' < m < k && SamePost(es[m], es[k]);
      ThereIffAppliedSince(b, base, ws, es, k, r', c');
    }
  }

  // Appending a POST's entry repeats a text exactly when the text is already there.
  lemma ApplyDuplicates(b: Bench, log: seq<Entry>, p: Post, number: int)
    requires NoDuplicates(b, log)
    ensures var x := Entry(p.room, AppliedMessage(b, p, number), FromAttempt(p.attempt));
            NoDuplicates(b, log + [x]) <==> !AlreadyThere(b, log, p)
  {
    var x := Entry(p.room, AppliedMessage(b, p, number), FromAttempt(p.attempt));
    var all := log + [x];
    assert all[|log|] == x && forall i :: 0 <= i < |log| ==> all[i] == log[i];
    if AlreadyThere(b, log, p) {
      var y :| y in log && FromBench(b, y, p.room) && y.message.text == Some(p.text);
      var m :| 0 <= m < |log| && log[m] == y;
      assert DuplicateAt(b, all, m, |log|);
    }
    if !NoDuplicates(b, all) {
      var m: nat, n: nat :| DuplicateAt(b, all, m, n);
      assert !DuplicateAt(b, log, m, n);
      assert n == |log| && all[m] == log[m];
    }
  }

  lemma OthersKeepNoDuplicates(b: Bench, w: World, e: Event, w': World)
    requires AttemptsOk(b, w) && RecsOk(w) && Next(b, w, e, w') && !e.Apply? && NoDuplicates(b, w.log)
    ensures NoDuplicates(b, w'.log)
  {
    hide Describes, Genuine;
    if Sends(e) {
      SenderShape(b, w, e, w');
    } else if e.Reconcile? {
      ReconcileShape(b, w, e, w');
    } else if e.Foreign? {
      assert forall m, n :: DuplicateAt(b, w'.log, m, n) ==> DuplicateAt(b, w.log, m, n);
    }
  }

  lemma DuplicatesStay(b: Bench, log: seq<Entry>, later: seq<Entry>)
    requires log <= later && NoDuplicates(b, later)
    ensures NoDuplicates(b, log)
  {
    forall m: nat, n: nat
      ensures !DuplicateAt(b, log, m, n)
    {
      assert !DuplicateAt(b, later, m, n);
    }
  }

  // Exactly when a run repeats no text: no POST of it is overtaken.
  lemma {:induction false} NoDuplicatesIff(b: Bench, base: nat, ws: seq<World>, es: seq<Event>, n: nat)
    requires IsRun(b, base, ws, es) && CompleteScans(b, ws, es) && n < |ws|
    requires Numbered(b, ws[0].log) && NoDuplicates(b, ws[0].log)
    ensures NoDuplicates(b, ws[n].log) <==> forall k: nat :: k < n && es[k].Apply? ==> !Overtaken(b, ws, es, k)
  {
    hide NoDuplicates, CompleteScans, Overtaken, AlreadyThere, Inv, Next;
    if n == 0 {
    } else {
      var w, e, w' := ws[n - 1], es[n - 1], ws[n];
      NoDuplicatesIff(b, base, ws, es, n - 1);
      StepAt(b, base, ws, es, n);
      InvParts(b, base, w);
      if !NoDuplicates(b, w.log) {
        if NoDuplicates(b, w'.log) {
          DuplicatesStay(b, w.log, w'.log);
        }
      } else if e.Apply? {
        RepeatsIffOvertaken(b, base, ws, es, n - 1);
        AppliedLog(b, w, e, w');
        ApplyDuplicates(b, w.log, e.post, e.number);
      } else {
        OthersKeepNoDuplicates(b, w, e, w');
      }
    }
  }

  lemma AppliedLog(b: Bench, w: World, e: Event, w': World)
    requires e.Apply? && Next(b, w, e, w')
    ensures w'.log == w.log + [Entry(e.post.room, AppliedMessage(b, e.post, e.number), FromAttempt(e.post.attempt))]
  {
  }

  ghost predicate Unapplied(w: World, i: nat) {
    forall x | x in w.log :: x.origin != FromAttempt(i)
  }

  // Sends one after another: only the latest attempt acts (an earlier one has ended or crashed), and its POST is
  // applied at most once, while no later attempt has begun. Reconciliations and outsiders interleave freely.
  ghost predicate SerialStep(w: World, e: Event) {
    (Sends(e) ==> e.i == |w.attempts| - 1)
    && (e.Apply? ==> e.post.attempt == |w.attempts| - 1 && Unapplied(w, e.post.attempt))
  }

  ghost predicate IsSerial(ws: seq<World>, es: seq<Event>)
    requires |ws| == |es| + 1
  {
    forall k :: 0 <= k < |es| ==> SerialStep(ws[k], es[k])
  }

  lemma AppliedOnce(b: Bench, base: nat, ws: seq<World>, es: seq<Event>, m: nat, k: nat)
    requires IsRun(b, base, ws, es) && m < k < |ws| && es[m].Apply?
    ensures !Unapplied(ws[k], es[m].post.attempt)
  {
    RunGrows(b, base, ws, es, m + 1, k);
    assert Next(b, ws[m], es[m], ws[m + 1]);
    var x := ws[m + 1].log[|ws[m].log|];
    assert x in ws[k].log && x.origin == FromAttempt(es[m].post.attempt);
  }

  // In a serial run nothing comes between the scan of an attempt and its own POST.
  lemma SerialNeverOvertaken(b: Bench, base: nat, ws: seq<World>, es: seq<Event>, k: nat)
    requires IsRun(b, base, ws, es) && IsSerial(ws, es) && k < |es| && es[k].Apply?
    ensures !Overtaken(b, ws, es, k)
  {
    if Overtaken(b, ws, es, k) {
      var i := es[k].post.attempt;
      var r: nat, c: nat, m: nat :| ScannedAt(b, ws, es, i, r, c) && c < k && r < m < k && SamePost(es[m], es[k]);
      assert SerialStep(ws[r], es[r]) && SerialStep(ws[m], es[m]) && SerialStep(ws[k], es[k]);
      RunGrows(b, base, ws, es, r, m);
      RunGrows(b, base, ws, es, m, k);
      assert es[m].post.attempt == i;
      AppliedOnce(b, base, ws, es, m, k);
    }
  }

  // In every serial run of sends and crashes with complete scans, no room ever holds one text twice.
  lemma SerialSendsNeverDuplicate(b: Bench, base: nat, ws: seq<World>, es: seq<Event>, n: nat)
    requires IsRun(b, base, ws, es) && IsSerial(ws, es) && CompleteScans(b, ws, es) && n < |ws|
    requires Numbered(b, ws[0].log) && NoDuplicates(b, ws[0].log)
    ensures NoDuplicates(b, ws[n].log)
  {
    hide Next, Init, Overtaken, NoDuplicates, CompleteScans;
    forall k: nat | k < n && es[k].Apply?
      ensures !Overtaken(b, ws, es, k)
    {
      SerialNeverOvertaken(b, base, ws, es, k);
    }
    NoDuplicatesIff(b, base, ws, es, n);
  }
}
