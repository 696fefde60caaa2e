// The hash-chained evidence ledger (src/flop_bench/ledger.py).
module Ledger {
  import opened Common

  // A JSON value, as far as the ledger looks into it; `printed` is Python's str() of any other value.
  datatype Value = Null | Text(s: string) | Other(printed: string)

  type Fields = map<string, Value>

  datatype Line = Blank | BadJson | JsonNull | NotAnObject | Record(fields: Fields)

  // Canonical JSON text of a record and SHA-256 of a text.
  datatype Digest = Digest(canonical: Fields -> string, hash: string -> string)

  ghost predicate Collision(d: Digest, x: string, y: string) {
    x != y && d.hash(x) == d.hash(y)
  }

  ghost predicate Faithful(d: Digest) {
    forall a, b :: d.canonical(a) == d.canonical(b) ==> a == b
  }

  function Payload(r: Fields): Fields {
    r - {"record_hash"}
  }

  // compute_record_hash
  function RecordHash(d: Digest, r: Fields): string {
    d.hash(d.canonical(Payload(r)))
  }

  // The value of a key, null when it is missing.
  function Get(r: Fields, key: string): Value {
    if key in r then r[key] else Null
  }

  function Linked(prior: Option<string>): Value {
    if prior.Some? then Text(prior.value) else Null
  }

  function Str(v: Value): string {
    match v
    case Null => "None"
    case Text(s) => s
    case Other(printed) => printed
  }

  // Python's text of a value.
  lemma StrCases(v: Value)
    ensures v == Null ==> Str(v) == "None"
    ensures v.Text? ==> Str(v) == v.s
    ensures v.Other? ==> Str(v) == v.printed
  {
  }

  function LastHash(d: Digest, records: seq<Fields>): Option<string> {
    if records == [] then None else Some(RecordHash(d, records[|records| - 1]))
  }

  predicate CarriesHash(d: Digest, r: Fields) {
    Get(r, "record_hash") == Text(RecordHash(d, r))
  }

  predicate LinksTo(r: Fields, prior: Option<string>) {
    Get(r, "previous_ledger_hash") == Linked(prior)
  }

  // Each record carries its own hash and the hash of the record before it.
  ghost predicate Chain(d: Digest, records: seq<Fields>) {
    forall i :: 0 <= i < |records| ==>
      CarriesHash(d, records[i]) && LinksTo(records[i], LastHash(d, records[..i]))
  }

  // The records of the lines before the first one that is not a record.
  function Records(lines: seq<Line>): (records: seq<Fields>)
    ensures |records| <= |lines|
  {
    if lines == [] then []
    else
      var rest := Records(lines[..|lines| - 1]);
      if lines[|lines| - 1].Record? then rest + [lines[|lines| - 1].fields] else rest
  }

  predicate Readable(lines: seq<Line>) {
    forall i :: 0 <= i < |lines| ==> lines[i].Blank? || lines[i].Record?
  }

  ghost predicate Accepted(d: Digest, lines: seq<Line>) {
    Readable(lines) && Chain(d, Records(lines))
  }

  datatype Defect = InvalidJson | BrokenLinkage | HashMismatch | NoObject

  datatype Verdict = Sound(records: nat, lastHash: Option<string>) | Unsound(defect: Defect, lineNumber: nat)

  // The defect that a line shows behind an accepted ledger, in the order in which it is looked for.
  predicate Shows(d: Digest, line: Line, prior: Option<string>, defect: Defect) {
    match line
    case Blank => false
    case BadJson => defect.InvalidJson?
    case JsonNull => defect.NoObject?
    case NotAnObject => defect.NoObject?
    case Record(r) =>
      if !LinksTo(r, prior) then defect.BrokenLinkage? else defect.HashMismatch? && !CarriesHash(d, r)
  }

  lemma ChainNext(d: Digest, records: seq<Fields>, r: Fields)
    requires Chain(d, records)
    ensures Chain(d, records + [r]) <==> CarriesHash(d, r) && LinksTo(r, LastHash(d, records))
  {
    var all := records + [r];
    assert all[|records|] == r && all[..|records|] == records;
    forall i | 0 <= i < |records|
      ensures all[i] == records[i] && all[..i] == records[..i]
    {
    }
  }

  lemma ChainPrefix(d: Digest, records: seq<Fields>, k: nat)
    requires Chain(d, records) && k <= |records|
    ensures Chain(d, records[..k])
  {
    forall i | 0 <= i < k
      ensures records[..k][i] == records[i] && records[..k][..i] == records[..i]
    {
    }
  }

  // A line continues an accepted ledger when it is blank, or a record with the right link and hash.
  predicate Continues(d: Digest, line: Line, prior: Option<string>) {
    line.Blank?
    || (line.Record? && LinksTo(line.fields, prior) && CarriesHash(d, line.fields))
  }

  lemma AcceptedNext(d: Digest, lines: seq<Line>, i: nat)
    requires i < |lines| && Accepted(d, lines[..i])
    ensures Records(lines[..i + 1]) == Records(lines[..i]) + if lines[i].Record? then [lines[i].fields] else []
    ensures Accepted(d, lines[..i + 1]) <==> Continues(d, lines[i], LastHash(d, Records(lines[..i])))
  {
    assert lines[..i + 1][..i] == lines[..i];
    assert Readable(lines[..i + 1]) <==> lines[i].Blank? || lines[i].Record? by {
      assert forall k :: 0 <= k < i ==> lines[..i + 1][k] == lines[..i][k];
      assert lines[..i + 1][i] == lines[i];
    }
    hide Chain;
    if lines[i].Record? {
      ChainNext(d, Records(lines[..i]), lines[i].fields);
    }
  }

  lemma AcceptedNothing(d: Digest, lines: seq<Line>)
    ensures Accepted(d, lines[..0]) && Records(lines[..0]) == []
  {
  }

  // verify_ledger over the lines of an existing file.
  method VerifyLedger(d: Digest, lines: seq<Line>) returns (v: Verdict)
    ensures v.Sound? <==> Accepted(d, lines)
    ensures v.Sound? ==> v.records == |Records(lines)| && v.lastHash == LastHash(d, Records(lines))
    ensures v.Unsound? ==>
              1 <= v.lineNumber <= |lines| && Accepted(d, lines[..v.lineNumber - 1])
              && Shows(d, lines[v.lineNumber - 1], LastHash(d, Records(lines[..v.lineNumber - 1])), v.defect)
  {
    var prior, count := None, 0;
    hide Accepted, Records, RecordHash;
    AcceptedNothing(d, lines);
    assert lines[..|lines|] == lines;
    for i := 0 to |lines|
      invariant Accepted(d, lines[..i])
      invariant count == |Records(lines[..i])| && prior == LastHash(d, Records(lines[..i]))
    {
      AcceptedNext(d, lines, i);
      match lines[i] {
        case Blank =>
        case BadJson =>
          Spoiled(d, lines, i);
          return Unsound(InvalidJson, i + 1);
        case JsonNull =>
          Spoiled(d, lines, i);
          return Unsound(NoObject, i + 1);
        case NotAnObject =>
          Spoiled(d, lines, i);
          return Unsound(NoObject, i + 1);
        case Record(r) =>
          if Get(r, "previous_ledger_hash") != Linked(prior) {
            Spoiled(d, lines, i);
            return Unsound(BrokenLinkage, i + 1);
          }
          var expected := RecordHash(d, r);
          if Get(r, "record_hash") != Text(expected) {
            Spoiled(d, lines, i);
            return Unsound(HashMismatch, i + 1);
          }
          prior := Some(expected);
          count := count + 1;
      }
    }
    v := Sound(count, prior);
  }

  lemma {:induction false} RecordsPrefix(lines: seq<Line>, k: nat)
    requires k <= |lines|
    ensures Records(lines[..k]) <= Records(lines)
    decreases |lines|
  {
    if k == |lines| {
      assert lines[..k] == lines;
    } else {
      RecordsPrefix(lines[..|lines| - 1], k);
      assert lines[..|lines| - 1][..k] == lines[..k];
    }
  }

  lemma AcceptedPrefix(d: Digest, lines: seq<Line>, k: nat)
    requires k <= |lines| && Accepted(d, lines)
    ensures Accepted(d, lines[..k])
  {
    RecordsPrefix(lines, k);
    ChainPrefix(d, Records(lines), |Records(lines[..k])|);
    assert forall i :: 0 <= i < k ==> lines[..k][i] == lines[i];
  }

  lemma Spoiled(d: Digest, lines: seq<Line>, i: nat)
    requires i < |lines| && !Accepted(d, lines[..i + 1])
    ensures !Accepted(d, lines)
  {
    if Accepted(d, lines) {
      AcceptedPrefix(d, lines, i + 1);
    }
  }

  function LastLine(lines: seq<Line>): Line {
    if lines == [] then Blank
    else if lines[|lines| - 1].Blank? then LastLine(lines[..|lines| - 1])
    else lines[|lines| - 1]
  }

  datatype Previous = Missing | Found(hash: string) | Unreadable

  // What the last line that is not blank says about its record hash; one line of invalid JSON spoils it, and a
  // last line of null counts as no record.
  function PreviousOf(lines: seq<Line>): Previous {
    if BadJson in lines then Unreadable
    else
      match LastLine(lines)
      case Blank => Missing
      case JsonNull => Missing
      case Record(r) => if "record_hash" in r then Found(Str(r["record_hash"])) else Unreadable
      case _ => Unreadable
  }

  // The record as append_record completes it.
  function Sealed(d: Digest, record: Fields, prior: Option<string>): Fields {
    var linked := record["previous_ledger_hash" := Linked(prior)];
    linked["record_hash" := Text(RecordHash(d, linked))]
  }

  lemma SealedIsSound(d: Digest, record: Fields, prior: Option<string>)
    ensures var r := Sealed(d, record, prior);
            CarriesHash(d, r) && LinksTo(r, prior)
            && (forall key :: key != "record_hash" && key != "previous_ledger_hash" ==> Get(r, key) == Get(record, key))
  {
    var linked := record["previous_ledger_hash" := Linked(prior)];
    assert Payload(Sealed(d, record, prior)) == Payload(linked);
    var a, b := "record_hash", "previous_ledger_hash";
    assert a[0] != b[0];
  }

  function Prior(p: Previous): Option<string> {
    if p.Found? then Some(p.hash) else None
  }

  class LedgerFile {
    // None while the file does not exist.
    var lines: Option<seq<Line>>

    function Contents(): seq<Line>
      reads this
    {
      if lines.Some? then lines.value else []
    }

    constructor ()
      ensures lines == None
    {
      lines := None;
    }

    method PreviousHash() returns (p: Previous)
      ensures p == PreviousOf(Contents())
    {
      if lines.None? {
        return Missing;
      }
      var last := Blank;
      var all := lines.value;
      for i := 0 to |all|
        invariant BadJson !in all[..i] && last == LastLine(all[..i])
      {
        assert all[..i + 1][..i] == all[..i] && all[..i + 1][i] == all[i];
        if all[i] == BadJson {
          return Unreadable;
        }
        if !all[i].Blank? {
          last := all[i];
        }
      }
      assert all[..|all|] == all;
      match last
      case Blank => p := Missing;
      case JsonNull => p := Missing;
      case Record(r) => p := if "record_hash" in r then Found(Str(r["record_hash"])) else Unreadable;
      case _ => p := Unreadable;
    }

    // append_record; None stands for the exception on an unreadable last record.
    method Append(d: Digest, record: Fields) returns (r: Option<Fields>)
      modifies this
      ensures r.None? <==> PreviousOf(old(Contents())).Unreadable?
      ensures r.None? ==> lines == old(lines)
      ensures r.Some? ==> r.value == Sealed(d, record, Prior(PreviousOf(old(Contents()))))
      ensures r.Some? ==> lines == Some(old(Contents()) + [Record(r.value)])
    {
      var p := PreviousHash();
      if p.Unreadable? {
        return None;
      }
      var linked := record["previous_ledger_hash" := Linked(Prior(p))];
      var sealed := linked["record_hash" := Text(RecordHash(d, linked))];
      lines := Some(Contents() + [Record(sealed)]);
      r := Some(sealed);
    }

    method Verify(d: Digest) returns (v: Verdict)
      ensures v.Sound? <==> Accepted(d, Contents())
      ensures v.Sound? ==> v.records == |Records(Contents())| && v.lastHash == LastHash(d, Records(Contents()))
    {
      if lines.None? {
        return Sound(0, None);
      }
      v := VerifyLedger(d, lines.value);
    }
  }

  lemma {:induction false} LastLineIsLastRecord(lines: seq<Line>)
    requires Readable(lines)
    ensures BadJson !in lines
    ensures Records(lines) == [] ==> LastLine(lines).Blank?
    ensures Records(lines) != [] ==> LastLine(lines) == Record(Records(lines)[|Records(lines)| - 1])
  {
    if lines == [] {
    } else {
      var rest := lines[..|lines| - 1];
      assert forall i :: 0 <= i < |rest| ==> rest[i] == lines[i];
      LastLineIsLastRecord(rest);
    }
  }

  lemma PreviousOfAccepted(d: Digest, lines: seq<Line>)
    requires Accepted(d, lines)
    ensures !PreviousOf(lines).Unreadable? && Prior(PreviousOf(lines)) == LastHash(d, Records(lines))
  {
    hide Records, RecordHash, LinksTo;
    LastLineIsLastRecord(lines);
    var records := Records(lines);
    if records != [] {
      assert CarriesHash(d, records[|records| - 1]);
    }
  }

  // The file after appending the given records one by one.
  function AppendAll(d: Digest, records: seq<Fields>): (lines: seq<Line>)
    ensures |lines| == |records|
  {
    if records == [] then []
    else
      var before := AppendAll(d, records[..|records| - 1]);
      before + [Record(Sealed(d, records[|records| - 1], Prior(PreviousOf(before))))]
  }

  // Every run of appends makes a ledger that the verifier accepts, with the right count and the given contents.
  lemma {:induction false} AppendsVerify(d: Digest, records: seq<Fields>)
    ensures var lines := AppendAll(d, records);
            Accepted(d, lines) && !PreviousOf(lines).Unreadable? && |Records(lines)| == |records|
            && forall i, key :: 0 <= i < |records| && key != "record_hash" && key != "previous_ledger_hash" ==>
                 Get(Records(lines)[i], key) == Get(records[i], key)
  {
    var lines := AppendAll(d, records);
    hide Accepted, PreviousOf, Sealed, Records;
    if records != [] {
      var n := |records| - 1;
      AppendsVerify(d, records[..n]);
      var before := AppendAll(d, records[..n]);
      PreviousOfAccepted(d, before);
      var prior := LastHash(d, Records(before));
      SealedIsSound(d, records[n], prior);
      assert lines[..n] == before && lines[n] == Record(Sealed(d, records[n], prior));
      assert lines[..n + 1] == lines;
      AcceptedNext(d, lines, n);
    } else {
      AcceptedNothing(d, lines);
      assert lines[..0] == lines;
    }
    PreviousOfAccepted(d, lines);
  }

  lemma SameRecord(d: Digest, a: Fields, b: Fields) returns (x: string, y: string)
    requires Faithful(d) && RecordHash(d, a) == RecordHash(d, b)
    requires CarriesHash(d, a) && CarriesHash(d, b)
    ensures a == b || Collision(d, x, y)
  {
    x, y := d.canonical(Payload(a)), d.canonical(Payload(b));
    if x == y {
      assert Payload(a) == Payload(b);
      forall key
        ensures (key in a <==> key in b) && (key in a ==> a[key] == b[key])
      {
        assert key != "record_hash" ==> (key in a <==> key in Payload(a)) && (key in b <==> key in Payload(b));
      }
    }
  }

  lemma LinkUnique(r: Fields, p: Option<string>, q: Option<string>)
    requires LinksTo(r, p) && LinksTo(r, q)
    ensures p == q
  {
  }

  lemma LastOfChain(d: Digest, a: seq<Fields>)
    requires Chain(d, a) && a != []
    ensures var i := |a| - 1;
            CarriesHash(d, a[i]) && LinksTo(a[i], LastHash(d, a[..i])) && Chain(d, a[..i])
  {
    ChainPrefix(d, a, |a| - 1);
  }

  // Two chains with the same last hash are the same records, or the hash function collides: no edit, deletion,
  // insertion or reordering keeps the last hash.
  lemma {:induction false} LastHashFixesLedger(d: Digest, a: seq<Fields>, b: seq<Fields>) returns (x: string, y: string)
    requires Faithful(d) && Chain(d, a) && Chain(d, b) && LastHash(d, a) == LastHash(d, b)
    ensures a == b || Collision(d, x, y)
  {
    hide Chain, RecordHash, Faithful, CarriesHash, LinksTo, Collision;
    x, y := "", "";
    if a == [] || b == [] {
    } else {
      var i, j := |a| - 1, |b| - 1;
      LastOfChain(d, a);
      LastOfChain(d, b);
      x, y := SameRecord(d, a[i], b[j]);
      if a[i] == b[j] {
        LinkUnique(a[i], LastHash(d, a[..i]), LastHash(d, b[..j]));
        x, y := LastHashFixesLedger(d, a[..i], b[..j]);
        assert a == a[..i] + [a[i]] && b == b[..j] + [b[j]];
      }
    }
  }

  // Taking records out of the middle while the rest stays accepted takes a collision.
  lemma MiddleDeletionCollides(d: Digest, a: seq<Fields>, i: nat, j: nat) returns (x: string, y: string)
    requires Faithful(d) && Chain(d, a) && i < j < |a| && Chain(d, a[..i] + a[j..])
    ensures Collision(d, x, y)
  {
    var cut := a[..i] + a[j..];
    assert cut[i] == a[j] && cut[..i] == a[..i];
    LinkUnique(a[j], LastHash(d, a[..i]), LastHash(d, a[..j]));
    ChainPrefix(d, a, i);
    ChainPrefix(d, a, j);
    x, y := LastHashFixesLedger(d, a[..i], a[..j]);
  }

  // What the chain cannot show: every prefix of an accepted ledger is accepted, with another last hash unless the
  // hash function collides.
  lemma TailTruncationAccepted(d: Digest, lines: seq<Line>, k: nat) returns (x: string, y: string)
    requires Faithful(d) && Accepted(d, lines) && k <= |lines|
    ensures Accepted(d, lines[..k])
    ensures |Records(lines[..k])| < |Records(lines)| ==>
              LastHash(d, Records(lines[..k])) != LastHash(d, Records(lines)) || Collision(d, x, y)
  {
    AcceptedPrefix(d, lines, k);
    x, y := "", "";
    if LastHash(d, Records(lines[..k])) == LastHash(d, Records(lines)) {
      x, y := LastHashFixesLedger(d, Records(lines[..k]), Records(lines));
    }
  }
}
