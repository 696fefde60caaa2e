// Bounded reading of a log in pages, as the history scan and the mailbox poll do it
// (src/flop_bench/posting.py, mailbox.py).
module Paging {
  import opened RoomLog

  const MAX_PAGE_LIMIT := 200
  const MAX_RESPONSE_BYTES := 1_000_000

  datatype Limits = Limits(maxPages: int, pageLimit: int, maxItems: int, maxBytes: int)

  // The body size counts from the redirect check on.
  function BytesRead(reply: Reply, bytes: nat): nat {
    if reply.Unreachable? || reply.redirected then bytes else bytes + reply.size
  }

  // A clean reply of the given size with the next entries of a log.
  predicate AnswersFrom(reply: Reply, log: seq<Raw>, since: int, limit: nat, size: nat) {
    reply.Response? && !reply.redirected && reply.size == size && reply.status == 200
    && reply.body == Page(Take(EntriesAfter(log, since), limit))
  }

  // n unread entries fit when the final short page is still requested.
  predicate Fits(n: int, lim: Limits) {
    lim.pageLimit >= 1 && n / lim.pageLimit < lim.maxPages && lim.pageLimit * (n / lim.pageLimit) < lim.maxItems
  }

  // The size of the first k replies together.
  function TotalSize(sizes: nat -> nat, k: nat): nat {
    if k == 0 then 0 else TotalSize(sizes, k - 1) + sizes(k - 1)
  }

  // The log behind request j holds a full page j of what follows the first `start` entries, for all j below k.
  ghost predicate FullPages(logs: nat -> seq<Raw>, start: nat, limit: int, k: nat) {
    forall j: nat :: j < k ==> |logs(j)| >= start + (j + 1) * limit
  }

  // Request k is the first that the log answers with a short page.
  ghost predicate EndsAt(logs: nat -> seq<Raw>, start: nat, limit: int, k: nat) {
    FullPages(logs, start, limit, k) && |logs(k)| < start + (k + 1) * limit
  }

  // It does so within the limits on pages, items and bytes.
  ghost predicate CompletesAt(logs: nat -> seq<Raw>, start: nat, lim: Limits, sizes: nat -> nat, k: nat) {
    EndsAt(logs, start, lim.pageLimit, k)
    && k < lim.maxPages && k * lim.pageLimit < lim.maxItems && TotalSize(sizes, k + 1) <= lim.maxBytes
  }

  // The pages that n entries take, the short one included, stay within the byte limit.
  predicate WithinBytes(n: nat, lim: Limits, sizes: nat -> nat) {
    lim.pageLimit >= 1 && TotalSize(sizes, n / lim.pageLimit + 1) <= lim.maxBytes
  }

  lemma {:induction false} TotalSizeGrows(sizes: nat -> nat, j: nat, k: nat)
    requires j <= k
    ensures TotalSize(sizes, j) <= TotalSize(sizes, k)
    decreases k
  {
    if j == k {
    } else {
      TotalSizeGrows(sizes, j, k - 1);
    }
  }

  lemma MonotoneProduct(a: nat, x: int, y: int)
    requires x <= y
    ensures a * x <= a * y
  {
  }

  lemma Quotient(n: nat, p: nat, q: nat, r: nat)
    requires p >= 1 && n == q * p + r && r < p
    ensures n / p == q
  {
    var e := n / p - q;
    assert e * p == r - n % p;
    assert e >= 1 ==> e * p >= p;
    assert e <= -1 ==> e * p + p <= 0;
  }

  // A short page after k full ones: the entries fit the pages and items that were allowed.
  lemma ShortPageFits(n: nat, lim: Limits, k: nat, rest: nat)
    requires lim.pageLimit >= 1 && n == k * lim.pageLimit + rest && rest < lim.pageLimit
    requires k < lim.maxPages && k * lim.pageLimit < lim.maxItems
    ensures n / lim.pageLimit == k && Fits(n, lim)
  {
    Quotient(n, lim.pageLimit, k, rest);
  }

  // A log ends once.
  lemma EndsOnce(logs: nat -> seq<Raw>, start: nat, limit: int, k: nat, k': nat)
    requires FullPages(logs, start, limit, k) && EndsAt(logs, start, limit, k')
    ensures k <= k' && (EndsAt(logs, start, limit, k) ==> k == k')
  {
  }

  // Running out of pages, items or bytes after full pages means that no request completes.
  lemma StoppedNeverCompletes(logs: nat -> seq<Raw>, start: nat, lim: Limits, sizes: nat -> nat, k: nat)
    requires lim.pageLimit >= 1 && FullPages(logs, start, lim.pageLimit, k)
    requires k >= lim.maxPages || k * lim.pageLimit >= lim.maxItems || TotalSize(sizes, k + 1) > lim.maxBytes
    ensures forall k': nat :: !CompletesAt(logs, start, lim, sizes, k')
  {
    forall k': nat
      ensures !CompletesAt(logs, start, lim, sizes, k')
    {
      if CompletesAt(logs, start, lim, sizes, k') {
        EndsOnce(logs, start, lim.pageLimit, k, k');
        MonotoneProduct(lim.pageLimit, k, k');
        TotalSizeGrows(sizes, k + 1, k' + 1);
      }
    }
  }

  lemma QuotientBounds(n: nat, p: nat)
    requires p >= 1
    ensures (n / p) * p <= n < (n / p + 1) * p
  {
  }

  // A log that stands still while it is read ends at the page that its length says.
  lemma StillLogEnds(logs: nat -> seq<Raw>, start: nat, limit: nat, q: nat)
    requires limit >= 1 && start <= |logs(0)| && q == (|logs(0)| - start) / limit
    requires forall j: nat :: j <= q ==> |logs(j)| == |logs(0)|
    ensures EndsAt(logs, start, limit, q)
  {
    QuotientBounds(|logs(0)| - start, limit);
    forall j: nat | j < q
      ensures |logs(j)| >= start + (j + 1) * limit
    {
      MonotoneProduct(limit, j + 1, q);
    }
  }

  // Such a log completes exactly when what follows `start` fits the limits.
  lemma StandingStill(logs: nat -> seq<Raw>, start: nat, lim: Limits, sizes: nat -> nat)
    requires lim.pageLimit >= 1 && start <= |logs(0)|
    requires forall j: nat :: j <= (|logs(0)| - start) / lim.pageLimit ==> |logs(j)| == |logs(0)|
    ensures var n := |logs(0)| - start;
            (exists k: nat :: CompletesAt(logs, start, lim, sizes, k)) <==> Fits(n, lim) && WithinBytes(n, lim, sizes)
  {
    var q: nat := (|logs(0)| - start) / lim.pageLimit;
    StillLogEnds(logs, start, lim.pageLimit, q);
    hide EndsAt, FullPages, TotalSize;
    assert CompletesAt(logs, start, lim, sizes, q)
           <==> Fits(|logs(0)| - start, lim) && WithinBytes(|logs(0)| - start, lim, sizes);
    if k: nat :| CompletesAt(logs, start, lim, sizes, k) {
      EndTwice(logs, start, lim.pageLimit, q, k);
    }
  }

  lemma EndTwice(logs: nat -> seq<Raw>, start: nat, limit: int, k: nat, k': nat)
    requires EndsAt(logs, start, limit, k) && EndsAt(logs, start, limit, k')
    ensures k == k'
  {
    EndsOnce(logs, start, limit, k, k');
  }
}
