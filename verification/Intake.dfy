// The mailbox table: storing a poll, reviewing requests, and any number of pollers at once
// (src/flop_bench/state.py, src/flop_bench/mailbox.py).
module Intake {
  import opened Common
  import opened RoomLog
  import opened Mailbox
  import MailboxPoll

  // A row of mailbox_messages; the last two columns start out NULL.
  datatype Row = Row(item: Item, evidenceId: Option<string>, resultLink: Option<string>)

  predicate NumberTaken(rows: seq<Row>, number: int) {
    exists r | r in rows :: r.item.number == number
  }

  predicate IdTaken(rows: seq<Row>, id: Option<string>) {
    id.Some? && exists r | r in rows :: r.item.requestId == id
  }

  // The row kept for a message whose request id is already in use.
  function Fallback(item: Item): Item {
    item.(requestId := None, classification := DuplicateRequestId, review := Rejected)
  }

  function StoreOne(rows: seq<Row>, item: Item): seq<Row> {
    if NumberTaken(rows, item.number) then rows
    else if IdTaken(rows, item.requestId) then rows + [Row(Fallback(item), None, None)]
    else rows + [Row(item, None, None)]
  }

  function StoreAll(rows: seq<Row>, items: seq<Item>): seq<Row> {
    if items == [] then rows else StoreOne(StoreAll(rows, items[..|items| - 1]), items[|items| - 1])
  }

  // How many of the messages found their sequence number already stored.
  function KnownCount(rows: seq<Row>, items: seq<Item>): nat {
    if items == [] then 0
    else
      var before := items[..|items| - 1];
      KnownCount(rows, before)
      + if NumberTaken(StoreAll(rows, before), items[|items| - 1].number) then 1 else 0
  }

  // How many of the messages SQLite reports as a violation of the request id: those whose id is in use and whose
  // number is new, and those with both in use where it names the id.
  function IdReports(rows: seq<Row>, items: seq<Item>, namesId: nat -> bool): nat {
    if items == [] then 0
    else
      var n := |items| - 1;
      var stored := StoreAll(rows, items[..n]);
      IdReports(rows, items[..n], namesId)
      + if IdTaken(stored, items[n].requestId) && (!NumberTaken(stored, items[n].number) || namesId(n)) then 1 else 0
  }

  // Of these, how many have their number in use too, so that their fallback row is dropped.
  function DroppedFallbacks(rows: seq<Row>, items: seq<Item>, namesId: nat -> bool): nat {
    if items == [] then 0
    else
      var n := |items| - 1;
      var stored := StoreAll(rows, items[..n]);
      DroppedFallbacks(rows, items[..n], namesId)
      + if IdTaken(stored, items[n].requestId) && NumberTaken(stored, items[n].number) && namesId(n) then 1 else 0
  }

  function CursorOf(stored: Option<int>): int {
    if stored.Some? then stored.value else 0
  }

  // A decision: every pending row labelled with the id gets the new review status.
  function Reviewed(rows: seq<Row>, id: string, review: Review): (r: seq<Row>)
    ensures |r| == |rows|
  {
    seq(|rows|, i requires 0 <= i < |rows| =>
      if rows[i].item.requestId == Some(id) && rows[i].item.review == PendingHumanReview
      then rows[i].(item := rows[i].item.(review := review)) else rows[i])
  }

  predicate IsPending(rows: seq<Row>, id: string) {
    exists r | r in rows :: r.item.requestId == Some(id) && r.item.review == PendingHumanReview
  }

  // A completion's write to the mailbox table: rows labelled with the id get the links they do not have yet.
  function Linked(rows: seq<Row>, id: string, evidenceId: string, link: string): (r: seq<Row>)
    ensures |r| == |rows|
  {
    seq(|rows|, i requires 0 <= i < |rows| =>
      if rows[i].item.requestId == Some(id)
      then rows[i].(evidenceId := if rows[i].evidenceId.Some? then rows[i].evidenceId else Some(evidenceId),
                    resultLink := if rows[i].resultLink.Some? then rows[i].resultLink else Some(link))
      else rows[i])
  }

  datatype Counts = Counts(inserted: nat, duplicates: nat, duplicateRequestIds: nat)

  class MailboxDb {
    var rows: seq<Row>
    var cursor: Option<int>

    // The table and the cursor of a fresh state directory.
    constructor ()
      ensures rows == [] && cursor.None?
    {
      rows, cursor := [], None;
    }

    // store_mailbox_poll: one transaction. `namesId(i)` is SQLite's choice when message i violates both unique
    // constraints; `fault` is the statement at which another database error strikes.
    method StoreMailboxPoll(messages: seq<Item>, newCursor: int, namesId: nat -> bool, fault: Option<nat>)
      returns (r: Option<Counts>)
      modifies this
      ensures r.None? <==> fault.Some? && fault.value <= |messages|
      ensures r.None? ==> rows == old(rows) && cursor == old(cursor)
      ensures r.Some? ==> rows == StoreAll(old(rows), messages) && cursor == Some(newCursor)
      // Every message counts once, as inserted, as duplicate or as dropped fallback.
      ensures r.Some? ==>
                r.value.inserted == |rows| - |old(rows)|
                && r.value.duplicateRequestIds == IdReports(old(rows), messages, namesId)
                && r.value.duplicates + DroppedFallbacks(old(rows), messages, namesId)
                   == KnownCount(old(rows), messages)
                && r.value.inserted + KnownCount(old(rows), messages) == |messages|
    {
      hide NumberTaken, IdTaken, Fallback;
      var saved := rows;
      var c := Counts(0, 0, 0);
      for i := 0 to |messages|
        invariant saved == old(rows) && cursor == old(cursor)
        invariant rows == StoreAll(saved, messages[..i])
        invariant fault.Some? ==> fault.value >= i
        invariant c.inserted == |rows| - |saved| && c.inserted + KnownCount(saved, messages[..i]) == i
        invariant c.duplicates + DroppedFallbacks(saved, messages[..i], namesId) == KnownCount(saved, messages[..i])
        invariant c.duplicateRequestIds == IdReports(saved, messages[..i], namesId)
      {
        if fault == Some(i) {
          rows := saved;
          return None;
        }
        assert messages[..i + 1][..i] == messages[..i];
        var item := messages[i];
        var known, used := NumberTaken(rows, item.number), IdTaken(rows, item.requestId);
        if !known && !used {
          rows := rows + [Row(item, None, None)];
          c := c.(inserted := c.inserted + 1);
        } else if used && (!known || namesId(i)) {
          c := c.(duplicateRequestIds := c.duplicateRequestIds + 1);
          if !known {
            rows := rows + [Row(Fallback(item), None, None)];
            c := c.(inserted := c.inserted + 1);
          }
        } else {
          c := c.(duplicates := c.duplicates + 1);
        }
      }
      assert messages[..|messages|] == messages;
      if fault == Some(|messages|) {
        rows := saved;
        return None;
      }
      cursor := Some(newCursor);
      r := Some(c);
    }

    // _set_review_status; false stands for the SafetyError when no pending row matched.
    method SetReviewStatus(id: string, review: Review) returns (ok: bool)
      modifies this`rows
      ensures ok <==> IsPending(old(rows), id)
      ensures rows == Reviewed(old(rows), id, review)
    {
      ok := IsPending(rows, id);
      rows := Reviewed(rows, id, review);
    }

    // poll_mailbox with nothing else running: all of a completed poll is stored, or nothing changes.
    method PollMailbox(active: bool, j0: MailboxPoll.Job, ghost t: MailboxPoll.Truth, namesId: nat -> bool)
      returns (r: MailboxPoll.Outcome, ghost raws: seq<Raw>)
      requires CursorOf(cursor) >= 0
      modifies this
      ensures !r.Complete? ==> rows == old(rows) && cursor == old(cursor)
      ensures r.Complete? ==>
                Gapless(raws, CursorOf(old(cursor)))
                && rows == StoreAll(old(rows), ClassifyAll(j0.parse, active, raws, CursorOf(old(cursor))))
                && cursor == Some(CursorOf(old(cursor)) + |raws|)
      // Undisturbed it completes exactly when the unread messages fit the limits.
      ensures var j := j0.(cursor := CursorOf(old(cursor)), active := active);
              MailboxPoll.Undisturbed(j, t) ==> (r.Complete? <==> MailboxPoll.CanComplete(j, t))
      ensures var j := j0.(cursor := CursorOf(old(cursor)), active := active);
              r.Complete? ==> exists k: nat :: MailboxPoll.ReadEverything(j, t, raws, k)
    {
      hide MailboxPoll.Finished, MailboxPoll.Undisturbed, MailboxPoll.CanComplete, MailboxPoll.ReadEverything, Gapless,
           ClassifyAll, StoreAll, KnownCount;
      var since := CursorOf(cursor);
      var c;
      r, c := MailboxPoll.Poll(j0.(cursor := since, active := active), t);
      raws := c.raws;
      MailboxPoll.FinishedMeans(j0.(cursor := since, active := active), t, c, r);
      if r.Complete? {
        MailboxPoll.CompleteMeans(j0.(cursor := since, active := active), t, c, r);
        assert r.items == ClassifyAll(j0.parse, active, raws, since) && r.cursor == since + |raws|;
        var counts := StoreMailboxPoll(r.items, r.cursor, namesId, None);
      }
    }
  }
}
