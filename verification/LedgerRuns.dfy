// Appends of several processes to one ledger file, which no lock protects (src/flop_bench/ledger.py,
// called from src/flop_bench/execution.py).
module LedgerRuns {
  import opened Common
  import opened Ledger

  // One append between its two file operations: it has read the previous hash and not yet written its record.
  datatype Writer = Idle | Holding(prior: Option<string>)

  datatype Sys = Sys(lines: seq<Line>, writers: seq<Writer>)

  datatype Event = Look(p: nat) | Write(p: nat, record: Fields)

  ghost predicate Step(d: Digest, s: Sys, e: Event, s': Sys) {
    e.p < |s.writers|
    && match e
       case Look(p) =>
         s.writers[p].Idle? && !PreviousOf(s.lines).Unreadable?
         && s' == s.(writers := s.writers[p := Holding(Prior(PreviousOf(s.lines)))])
       case Write(p, record) =>
         s.writers[p].Holding?
         && s' == Sys(s.lines + [Record(Sealed(d, record, s.writers[p].prior))], s.writers[p := Idle])
  }

  // Runs start at an accepted ledger, with no append under way.
  ghost predicate IsRun(d: Digest, ss: seq<Sys>, es: seq<Event>) {
    |ss| == |es| + 1 && Accepted(d, ss[0].lines)
    && (forall p :: 0 <= p < |ss[0].writers| ==> ss[0].writers[p].Idle?)
    && forall k :: 0 <= k < |es| ==> Step(d, ss[k], es[k], ss[k + 1])
  }

  // The write at k goes with the look at o.
  predicate LookBehind(es: seq<Event>, o: nat, k: nat)
    requires k < |es|
  {
    o < k && es[o] == Look(es[k].p) && forall j :: o < j < k ==> es[j] != Look(es[k].p)
  }

  // Another record was written between the look and the write at k.
  ghost predicate IsInterrupted(es: seq<Event>, k: nat)
    requires k < |es|
  {
    exists o: nat, m: nat :: LookBehind(es, o, k) && o < m < k && es[m].Write?
  }

  lemma StepAt(d: Digest, ss: seq<Sys>, es: seq<Event>, k: nat)
    requires IsRun(d, ss, es) && 0 < k < |ss|
    ensures k - 1 < |es| && Step(d, ss[k - 1], es[k - 1], ss[k])
  {
  }

  lemma Start(d: Digest, ss: seq<Sys>, es: seq<Event>)
    requires IsRun(d, ss, es)
    ensures |ss| == |es| + 1 && Accepted(d, ss[0].lines)
    ensures forall p :: 0 <= p < |ss[0].writers| ==> ss[0].writers[p].Idle?
  {
  }

  // What a writer holds is what it found at its look.
  lemma {:induction false} HoldsWhatItFound(d: Digest, ss: seq<Sys>, es: seq<Event>, k: nat)
    returns (o: nat)
    requires IsRun(d, ss, es) && k < |es| && es[k].Write?
    ensures LookBehind(es, o, k) && o < |ss| && k < |ss| && es[k].p < |ss[k].writers|
    ensures ss[k].writers[es[k].p] == Holding(Prior(PreviousOf(ss[o].lines)))
  {
    Start(d, ss, es);
    StepAt(d, ss, es, k + 1);
    hide IsRun, Step, PreviousOf;
    assert es[k].p < |ss[k].writers| && ss[k].writers[es[k].p].Holding? by {
      WriterHolds(d, ss[k], es[k], ss[k + 1]);
    }
    o := LookOf(d, ss, es, k, es[k].p);
  }

  lemma WriterHolds(d: Digest, s: Sys, e: Event, s': Sys)
    requires Step(d, s, e, s') && e.Write?
    ensures e.p < |s.writers| && s.writers[e.p].Holding?
    ensures s'.lines == s.lines + [Record(Sealed(d, e.record, s.writers[e.p].prior))]
  {
    hide Sealed;
  }

  lemma WriterStep(d: Digest, s: Sys, e: Event, s': Sys, p: nat)
    requires Step(d, s, e, s') && p < |s'.writers| && s'.writers[p].Holding?
    ensures e == Look(p) ==> s'.writers[p].prior == Prior(PreviousOf(s.lines))
    ensures e != Look(p) ==> p < |s.writers| && s.writers[p] == s'.writers[p]
  {
    hide PreviousOf, Sealed;
  }

  lemma {:induction false} LookOf(d: Digest, ss: seq<Sys>, es: seq<Event>, k: nat, p: nat) returns (o: nat)
    requires IsRun(d, ss, es) && k < |ss| && p < |ss[k].writers| && ss[k].writers[p].Holding?
    ensures o < k <= |es| && es[o] == Look(p) && forall j :: o < j < k ==> es[j] != Look(p)
    ensures ss[k].writers[p].prior == Prior(PreviousOf(ss[o].lines))
  {
    hide IsRun, Step, PreviousOf;
    Start(d, ss, es);
    if k == 0 {
    } else {
      StepAt(d, ss, es, k);
      WriterStep(d, ss[k - 1], es[k - 1], ss[k], p);
      if es[k - 1] == Look(p) {
        o := k - 1;
      } else {
        o := LookOf(d, ss, es, k - 1, p);
      }
    }
  }

  // Only writes change the file, and each adds a record.
  lemma {:induction false} FileGrows(d: Digest, ss: seq<Sys>, es: seq<Event>, j: nat, k: nat)
    requires IsRun(d, ss, es) && j <= k < |ss|
    ensures k <= |es| && ss[j].lines <= ss[k].lines
    ensures (forall m :: j <= m < k ==> !es[m].Write?) ==> ss[k].lines == ss[j].lines
    ensures (exists m :: j <= m < k && es[m].Write?) ==> |Records(ss[j].lines)| < |Records(ss[k].lines)|
    ensures |Records(ss[j].lines)| <= |Records(ss[k].lines)|
    decreases k
  {
    hide IsRun, Records;
    Start(d, ss, es);
    if j == k {
    } else {
      FileGrows(d, ss, es, j, k - 1);
      StepAt(d, ss, es, k);
      LinesStep(d, ss[k - 1], es[k - 1], ss[k]);
    }
  }

  lemma LinesStep(d: Digest, s: Sys, e: Event, s': Sys)
    requires Step(d, s, e, s')
    ensures s.lines <= s'.lines && (e.Look? ==> s'.lines == s.lines)
    ensures e.Write? ==> |Records(s'.lines)| == |Records(s.lines)| + 1
  {
    hide PreviousOf, Sealed;
    if e.Write? {
      assert s'.lines[..|s.lines|] == s.lines;
    }
  }

  // One write keeps the ledger accepted exactly when what it holds is the last hash.
  lemma WriteAccepted(d: Digest, s: Sys, e: Event, s': Sys)
    requires Step(d, s, e, s') && e.Write? && Accepted(d, s.lines)
    ensures e.p < |s.writers| && s.writers[e.p].Holding?
    ensures Accepted(d, s'.lines) <==> s.writers[e.p].prior == LastHash(d, Records(s.lines))
  {
    hide Accepted, Records, Sealed, RecordHash, CarriesHash, LinksTo;
    WriterHolds(d, s, e, s');
    var prior, n := s.writers[e.p].prior, |s.lines|;
    var r := Sealed(d, e.record, prior);
    SealedIsSound(d, e.record, prior);
    assert s'.lines[..n] == s.lines && s'.lines[n] == Record(r) && s'.lines[..n + 1] == s'.lines;
    AcceptedNext(d, s'.lines, n);
    if LinksTo(r, LastHash(d, Records(s.lines))) {
      LinkUnique(r, prior, LastHash(d, Records(s.lines)));
    }
  }

  // A rejected ledger stays rejected.
  lemma RejectedStays(d: Digest, ss: seq<Sys>, es: seq<Event>, j: nat, k: nat)
    requires IsRun(d, ss, es) && j <= k < |ss| && Accepted(d, ss[k].lines)
    ensures Accepted(d, ss[j].lines)
  {
    FileGrows(d, ss, es, j, k);
    hide IsRun, Accepted;
    AcceptedPrefix(d, ss[k].lines, |ss[j].lines|);
    assert ss[k].lines[..|ss[j].lines|] == ss[j].lines;
  }

  // In every run an uninterrupted write to an accepted ledger leaves an accepted one.
  lemma UninterruptedAccepted(d: Digest, ss: seq<Sys>, es: seq<Event>, k: nat)
    requires IsRun(d, ss, es) && k < |es| && es[k].Write? && Accepted(d, ss[k].lines) && !IsInterrupted(es, k)
    ensures Accepted(d, ss[k + 1].lines)
  {
    hide Accepted, Step, PreviousOf, Records;
    Start(d, ss, es);
    var o := HoldsWhatItFound(d, ss, es, k);
    forall m | o + 1 <= m < k
      ensures !es[m].Write?
    {
      assert LookBehind(es, o, k);
    }
    FileGrows(d, ss, es, o, k);
    assert ss[k].lines == ss[o].lines;
    PreviousOfAccepted(d, ss[k].lines);
    StepAt(d, ss, es, k + 1);
    WriteAccepted(d, ss[k], es[k], ss[k + 1]);
  }

  // An interrupted one leaves a rejected ledger, unless the hash function collides.
  lemma InterruptedRejected(d: Digest, ss: seq<Sys>, es: seq<Event>, k: nat) returns (x: string, y: string)
    requires IsRun(d, ss, es) && Faithful(d) && k < |es| && es[k].Write? && Accepted(d, ss[k].lines)
    requires IsInterrupted(es, k)
    ensures !Accepted(d, ss[k + 1].lines) || Collision(d, x, y)
  {
    hide Accepted, Step, PreviousOf, Records, Faithful, Collision, LastHash;
    x, y := "", "";
    Start(d, ss, es);
    var o := HoldsWhatItFound(d, ss, es, k);
    var o': nat, m: nat :| LookBehind(es, o', k) && o' < m < k && es[m].Write?;
    assert o == o';
    FileGrows(d, ss, es, o, k);
    RejectedStays(d, ss, es, o, k);
    PreviousOfAccepted(d, ss[o].lines);
    StepAt(d, ss, es, k + 1);
    WriteAccepted(d, ss[k], es[k], ss[k + 1]);
    if Accepted(d, ss[k + 1].lines) {
      var a, b := Records(ss[o].lines), Records(ss[k].lines);
      assert Chain(d, a) && Chain(d, b) by {
        ChainOfAccepted(d, ss[o].lines);
        ChainOfAccepted(d, ss[k].lines);
      }
      x, y := LastHashFixesLedger(d, a, b);
    }
  }

  lemma ChainOfAccepted(d: Digest, lines: seq<Line>)
    requires Accepted(d, lines)
    ensures Chain(d, Records(lines))
  {
  }

  ghost predicate InterruptedAt(es: seq<Event>, k: nat)
    requires k < |es|
  {
    es[k].Write? && IsInterrupted(es, k)
  }

  // A run of split appends leaves a ledger that verifies exactly when no append falls between the look and the write
  // of another, unless it exhibits a collision of the hash function.
  lemma {:induction false} VerifiesIffUninterrupted(d: Digest, ss: seq<Sys>, es: seq<Event>, n: nat)
    returns (x: string, y: string)
    requires IsRun(d, ss, es) && Faithful(d) && n < |ss|
    ensures n <= |es|
    ensures Collision(d, x, y)
            || (Accepted(d, ss[n].lines) <==> forall k: nat :: k < n ==> !InterruptedAt(es, k))
  {
    hide IsRun, Accepted, Faithful, Collision, IsInterrupted, Step;
    x, y := "", "";
    Start(d, ss, es);
    if n == 0 {
    } else {
      x, y := VerifiesIffUninterrupted(d, ss, es, n - 1);
      StepAt(d, ss, es, n);
      LinesStep(d, ss[n - 1], es[n - 1], ss[n]);
      if Accepted(d, ss[n].lines) {
        RejectedStays(d, ss, es, n - 1, n);
      }
      assert InterruptedAt(es, n - 1) ==> es[n - 1].Write?;
      if !Collision(d, x, y) && Accepted(d, ss[n - 1].lines) && es[n - 1].Write? {
        if IsInterrupted(es, n - 1) {
          assert InterruptedAt(es, n - 1);
          x, y := InterruptedRejected(d, ss, es, n - 1);
        } else {
          UninterruptedAccepted(d, ss, es, n - 1);
        }
      }
    }
  }

  lemma EmptyLedger(d: Digest)
    ensures Accepted(d, []) && PreviousOf([]) == Missing && LastHash(d, Records([])) == None
  {
    AcceptedNothing(d, []);
  }

  // Two executions that both look at the empty ledger before either writes leave one that no longer verifies.
  lemma OverlappingAppendsReject(d: Digest, first: Fields, second: Fields) returns (ss: seq<Sys>, es: seq<Event>)
    ensures IsRun(d, ss, es) && |es| == 4 && InterruptedAt(es, 3)
    ensures Accepted(d, ss[3].lines) && !Accepted(d, ss[4].lines)
  {
    hide Accepted, Records, PreviousOf, Sealed, RecordHash;
    var s0 := Sys([], [Idle, Idle]);
    var s1 := s0.(writers := [Holding(None), Idle]);
    var s2 := s0.(writers := [Holding(None), Holding(None)]);
    var s3 := Sys([] + [Record(Sealed(d, first, None))], [Idle, Holding(None)]);
    var s4 := Sys(s3.lines + [Record(Sealed(d, second, None))], [Idle, Idle]);
    ss, es := [s0, s1, s2, s3, s4], [Look(0), Look(1), Write(0, first), Write(1, second)];
    EmptyLedger(d);
    assert Step(d, s0, es[0], s1) && Step(d, s1, es[1], s2) && Step(d, s2, es[2], s3) && Step(d, s3, es[3], s4);
    hide Step;
    WriteAccepted(d, s2, es[2], s3);
    LinesStep(d, s2, es[2], s3);
    WriteAccepted(d, s3, es[3], s4);
    assert LookBehind(es, 1, 3) && es[2].Write?;
  }
}
