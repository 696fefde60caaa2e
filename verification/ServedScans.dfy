// From the page loop to whole runs: what a complete scan of a growing room has seen (src/flop_bench/posting.py).
module ServedScans {
  import opened Common
  import opened RoomLog
  import opened HistoryScan
  import opened Delivery
  import opened SerialDelivery
  import opened Downgrades

  // The log that a server pages through holds the entries of the room, and no others.
  ghost predicate IsRoom(log: seq<Raw>, entries: seq<Entry>, room: string) {
    Genuine(entries, room, CanonicalAll(log))
    && forall x | x in entries :: x.room == room ==> x.message in CanonicalAll(log)
  }

  // A complete scan against an honest server has seen every Bench entry that the room held at its last request.
  lemma CompleteSeesAll(b: Bench, net: Network, t: Truth, entries: seq<Entry>, room: string, seen: seq<Message>, k: nat)
    requires IsHonest(net, HISTORY_LIMITS, t) && SeenAllOf(net.server, HISTORY_LIMITS.pageLimit, t.logs, seen, k)
    requires k > 0 ==> IsRoom(t.logs(k - 1), entries, room)
    ensures k > 0 && SeenAll(b, entries, room, seen)
  {
    hide Genuine, Honest;
    assert k > 0 && seen == CanonicalAll(t.logs(k - 1));
  }

  // A finished scan of a run: request n was answered at step at[n].
  datatype Search = Search(net: Network, truth: Truth, report: Report, seen: seq<Message>, at: seq<nat>)

  // The search is a complete one of row, by an honest server that at every request serves the room as it is then.
  ghost predicate IsComplete(b: Bench, ws: seq<World>, row: Row, attempt: Option<int>, s: Search) {
    Scanned(KeyOf(b, row), attempt, s.net, HISTORY_LIMITS, s.truth, s.report, s.seen, |s.at|) && s.report.complete
    && IsHonest(s.net, HISTORY_LIMITS, s.truth)
    && forall n :: 0 <= n < |s.at| ==> s.at[n] < |ws| && IsRoom(s.truth.logs(n), ws[s.at[n]].log, row.room)
  }

  // Step c clears a send with what its search had read.
  ghost predicate ClearsAfter(b: Bench, ws: seq<World>, es: seq<Event>, c: nat, s: Search)
    requires |ws| == |es| + 1
  {
    c < |es| && es[c].ClearPreflight? && es[c].i < |ws[c].attempts|
    && IsComplete(b, ws, ws[c].attempts[es[c].i].row, None, s)
    && ws[c].attempts[es[c].i].phase == Scanning(s.seen) && es[c].tally == s.report.tally
    && forall n :: 0 <= n < |s.at| ==> s.at[n] < c && es[s.at[n]].ReadHistory? && es[s.at[n]].i == es[c].i
  }

  // Step k concludes a reconciliation with what its search had read.
  ghost predicate ConcludesAfter(b: Bench, ws: seq<World>, es: seq<Event>, k: nat, s: Search)
    requires |ws| == |es| + 1
  {
    k < |es| && es[k].Reconcile? && es[k].r < |ws[k].recs|
    && IsComplete(b, ws, ws[k].recs[es[k].r].snapshot, ws[k].recs[es[k].r].snapshot.nonce, s)
    && ws[k].recs[es[k].r].seen == s.seen && es[k].report == s.report
    && forall n :: 0 <= n < |s.at| ==> s.at[n] < k && es[s.at[n]].ReadForReconcile? && es[s.at[n]].r == es[k].r
  }

  lemma SearchSeesAll(b: Bench, ws: seq<World>, row: Row, attempt: Option<int>, s: Search)
    requires IsComplete(b, ws, row, attempt, s)
    ensures s.at != [] && s.at[|s.at| - 1] < |ws| && SeenAll(b, ws[s.at[|s.at| - 1]].log, row.room, s.seen)
  {
    hide IsRoom, SeenAll, SeenAllOf, SeenPartOf, Describes, Undisturbed, IsHonest;
    ScannedParts(KeyOf(b, row), attempt, s.net, HISTORY_LIMITS, s.truth, s.report, s.seen, |s.at|);
    hide Scanned;
    var log := if s.at == [] then [] else ws[s.at[|s.at| - 1]].log;
    CompleteSeesAll(b, s.net, s.truth, log, row.room, s.seen, |s.at|);
  }

  // Runs in which every clear and every complete reconciliation follows such a search meet the hypotheses of the
  // theorems of SerialDelivery and Downgrades, however much the rooms grow while they are searched.
  lemma SearchedRunsComplete(b: Bench, ws: seq<World>, es: seq<Event>, searches: nat -> Search)
    requires |ws| == |es| + 1
    requires forall c: nat :: c < |es| && es[c].ClearPreflight? ==> ClearsAfter(b, ws, es, c, searches(c))
    requires forall k: nat :: k < |es| && es[k].Reconcile? && es[k].report.complete ==>
               ConcludesAfter(b, ws, es, k, searches(k))
    ensures CompleteScans(b, ws, es) && CompleteReads(b, ws, es)
  {
    forall c: nat | c < |es| && es[c].ClearPreflight?
      ensures exists r: nat :: ScannedAt(b, ws, es, es[c].i, r, c)
    {
      ClearIsScanned(b, ws, es, c, searches(c));
    }
    forall k: nat | k < |es| && es[k].Reconcile? && es[k].report.complete
      ensures exists l: nat :: ReadAt(b, ws, es, l, k)
    {
      ConclusionIsRead(b, ws, es, k, searches(k));
    }
  }

  lemma ClearIsScanned(b: Bench, ws: seq<World>, es: seq<Event>, c: nat, s: Search)
    requires |ws| == |es| + 1 && ClearsAfter(b, ws, es, c, s)
    ensures s.at != [] && ScannedAt(b, ws, es, es[c].i, s.at[|s.at| - 1], c)
  {
    hide IsComplete, SeenAll;
    SearchSeesAll(b, ws, ws[c].attempts[es[c].i].row, None, s);
  }

  lemma ConclusionIsRead(b: Bench, ws: seq<World>, es: seq<Event>, k: nat, s: Search)
    requires |ws| == |es| + 1 && ConcludesAfter(b, ws, es, k, s)
    ensures s.at != [] && ReadAt(b, ws, es, s.at[|s.at| - 1], k)
  {
    hide IsComplete, SeenAll;
    var snapshot := ws[k].recs[es[k].r].snapshot;
    SearchSeesAll(b, ws, snapshot, snapshot.nonce, s);
  }
}
