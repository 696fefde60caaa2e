// The streaming check of a room export against its manifest (src/flop_bench/provenance.py).
module Export {
  import opened Common
  import opened Provenance

  const MAX_EXPORT_BYTES := 25_000_000

  // A line of the export: empty, a JSON object, or anything else.
  datatype Line = EmptyLine | BadLine | Object(fields: Fields)

  // An export file; `lines` is None when it is not UTF-8.
  datatype File = File(size: nat, hash: string, lines: Option<seq<Line>>)

  datatype Place = Place(room: string, generation: string, number: int)

  function PlaceOf(v: Verified): Place {
    Place(v.room, v.generation, v.number)
  }

  function Judge(k: Crypto, line: Line, room: Option<string>, generation: Option<string>): Option<Verified> {
    if line.Object? then VerifyRecord(k, line.fields, room, generation) else None
  }

  // The accepted records of an export, in order.
  function AcceptedRecords(k: Crypto, lines: seq<Line>, room: Option<string>, generation: Option<string>)
    : (accepted: seq<Verified>)
  {
    if lines == [] then []
    else
      var rest := AcceptedRecords(k, lines[..|lines| - 1], room, generation);
      var last := Judge(k, lines[|lines| - 1], room, generation);
      if last.Some? then rest + [last.value] else rest
  }

  function CountNonEmpty(lines: seq<Line>): nat {
    if lines == [] then 0
    else CountNonEmpty(lines[..|lines| - 1]) + if lines[|lines| - 1].EmptyLine? then 0 else 1
  }

  function CountStatus(accepted: seq<Verified>, status: Status): nat {
    if accepted == [] then 0
    else CountStatus(accepted[..|accepted| - 1], status) + if accepted[|accepted| - 1].status == status then 1 else 0
  }

  function LastHashAt(accepted: seq<Verified>, p: Place): Option<string> {
    if accepted == [] then None
    else if PlaceOf(accepted[|accepted| - 1]) == p then Some(accepted[|accepted| - 1].hash)
    else LastHashAt(accepted[..|accepted| - 1], p)
  }

  predicate Clashes(accepted: seq<Verified>, v: Verified) {
    var h := LastHashAt(accepted, PlaceOf(v));
    h.Some? && h.value != v.hash
  }

  // How many records differ from the last one before them at the same place.
  function CountConflicts(accepted: seq<Verified>): nat {
    if accepted == [] then 0
    else
      var rest := accepted[..|accepted| - 1];
      CountConflicts(rest) + if Clashes(rest, accepted[|accepted| - 1]) then 1 else 0
  }

  // No two accepted records at the same place differ in hash.
  predicate ConflictFree(accepted: seq<Verified>) {
    forall i, j :: 0 <= i < j < |accepted| && PlaceOf(accepted[i]) == PlaceOf(accepted[j]) ==>
      accepted[i].hash == accepted[j].hash
  }

  lemma {:induction false} LastHashMeaning(accepted: seq<Verified>, p: Place)
    ensures var h := LastHashAt(accepted, p);
            if h.None? then forall i :: 0 <= i < |accepted| ==> PlaceOf(accepted[i]) != p
            else exists i :: 0 <= i < |accepted| && PlaceOf(accepted[i]) == p && accepted[i].hash == h.value
  {
    if accepted == [] {
    } else {
      var rest := accepted[..|accepted| - 1];
      LastHashMeaning(rest, p);
      assert forall i :: 0 <= i < |rest| ==> rest[i] == accepted[i];
      if PlaceOf(accepted[|accepted| - 1]) != p && LastHashAt(rest, p).Some? {
        var i :| 0 <= i < |rest| && PlaceOf(rest[i]) == p && rest[i].hash == LastHashAt(rest, p).value;
        assert accepted[i] == rest[i];
      }
    }
  }

  lemma ConflictFreeNext(accepted: seq<Verified>, v: Verified)
    ensures ConflictFree(accepted + [v]) <==> ConflictFree(accepted) && !Clashes(accepted, v)
  {
    hide LastHashAt;
    var all := accepted + [v];
    LastHashMeaning(accepted, PlaceOf(v));
    assert all[|accepted|] == v && forall i :: 0 <= i < |accepted| ==> all[i] == accepted[i];
  }

  // The streaming conflict count vanishes exactly when no two records anywhere in the export conflict.
  lemma {:induction false} NoConflictsIffConflictFree(accepted: seq<Verified>)
    ensures CountConflicts(accepted) == 0 <==> ConflictFree(accepted)
  {
    hide ConflictFree, Clashes;
    if accepted == [] {
      NothingConflicts(accepted);
    } else {
      var n := |accepted| - 1;
      NoConflictsIffConflictFree(accepted[..n]);
      ConflictFreeNext(accepted[..n], accepted[n]);
      assert accepted == accepted[..n] + [accepted[n]];
    }
  }

  lemma NothingConflicts(accepted: seq<Verified>)
    requires accepted == []
    ensures ConflictFree(accepted)
  {
  }

  datatype Tally = Tally(
    records: nat, malformed: nat, statuses: map<Status, nat>, conflicts: nat, rooms: set<string>,
    generations: set<string>)

  function CountIn(statuses: map<Status, nat>, status: Status): nat {
    if status in statuses then statuses[status] else 0
  }

  // The loop variables after the given accepted records.
  ghost predicate Tallies(t: Tally, locations: map<Place, string>, accepted: seq<Verified>, nonEmpty: nat) {
    t.records == |accepted| && t.records + t.malformed == nonEmpty
    && (forall status :: CountIn(t.statuses, status) == CountStatus(accepted, status))
    && t.conflicts == CountConflicts(accepted)
    && (forall p :: LastHashAt(accepted, p) == if p in locations then Some(locations[p]) else None)
    && t.rooms == (set v | v in accepted :: v.room) && t.generations == (set v | v in accepted :: v.generation)
  }

  // One pass of the loop for an accepted record.
  function Counted(t: Tally, locations: map<Place, string>, v: Verified): Tally {
    var clash := PlaceOf(v) in locations && locations[PlaceOf(v)] != v.hash;
    Tally(t.records + 1, t.malformed, t.statuses[v.status := CountIn(t.statuses, v.status) + 1],
          t.conflicts + if clash then 1 else 0, t.rooms + {v.room}, t.generations + {v.generation})
  }

  lemma Next(accepted: seq<Verified>, v: Verified)
    ensures var all := accepted + [v];
            CountConflicts(all) == CountConflicts(accepted) + (if Clashes(accepted, v) then 1 else 0)
            && (forall status ::
                  CountStatus(all, status) == CountStatus(accepted, status) + if v.status == status then 1 else 0)
            && (forall p :: LastHashAt(all, p) == if PlaceOf(v) == p then Some(v.hash) else LastHashAt(accepted, p))
  {
    assert (accepted + [v])[..|accepted|] == accepted;
  }

  lemma TalliesNext(t: Tally, locations: map<Place, string>, accepted: seq<Verified>, nonEmpty: nat, v: Verified)
    requires Tallies(t, locations, accepted, nonEmpty)
    ensures Tallies(Counted(t, locations, v), locations[PlaceOf(v) := v.hash], accepted + [v], nonEmpty + 1)
  {
    hide LastHashAt, CountStatus, CountConflicts;
    Next(accepted, v);
    assert LastHashAt(accepted, PlaceOf(v))
        == if PlaceOf(v) in locations then Some(locations[PlaceOf(v)]) else None;
    var rooms, generations := set u | u in accepted + [v] :: u.room, set u | u in accepted + [v] :: u.generation;
    assert rooms == t.rooms + {v.room};
    assert generations == t.generations + {v.generation};
  }

  lemma MalformedNext(t: Tally, locations: map<Place, string>, accepted: seq<Verified>, nonEmpty: nat)
    requires Tallies(t, locations, accepted, nonEmpty)
    ensures Tallies(t.(malformed := t.malformed + 1), locations, accepted, nonEmpty + 1)
  {
    hide LastHashAt, CountStatus, CountConflicts;
  }

  lemma NothingTallied(t: Tally)
    requires t == Tally(0, 0, map[], 0, {}, {})
    ensures Tallies(t, map[], [], 0)
  {
  }

  // The loop of verify_export_file.
  method TallyLines(k: Crypto, lines: seq<Line>, room: Option<string>, generation: Option<string>)
    returns (t: Tally, locations: map<Place, string>)
    ensures Tallies(t, locations, AcceptedRecords(k, lines, room, generation), CountNonEmpty(lines))
  {
    hide Tallies, VerifyRecord;
    t, locations := Tally(0, 0, map[], 0, {}, {}), map[];
    NothingTallied(t);
    for i := 0 to |lines|
      invariant Tallies(t, locations, AcceptedRecords(k, lines[..i], room, generation), CountNonEmpty(lines[..i]))
    {
      assert lines[..i + 1][..i] == lines[..i];
      ghost var accepted, before := AcceptedRecords(k, lines[..i], room, generation), CountNonEmpty(lines[..i]);
      if lines[i].EmptyLine? {
        continue;
      }
      var verified := Judge(k, lines[i], room, generation);
      if verified.None? {
        MalformedNext(t, locations, accepted, before);
        t := t.(malformed := t.malformed + 1);
        continue;
      }
      var v := verified.value;
      TalliesNext(t, locations, accepted, before, v);
      t := Counted(t, locations, v);
      locations := locations[PlaceOf(v) := v.hash];
    }
    assert lines[..|lines|] == lines;
  }

  datatype Outcome = Pass | Fail | ManifestMismatch

  datatype Report = Report(
    room: Option<string>, generation: Option<string>, records: nat, signed: nat, verifiedOffline: nat, legacy: nat,
    unsigned: nat, invalid: nat, presentUnverified: nat, incomplete: nat, malformed: nat, conflicts: nat,
    mismatches: set<string>, result: Outcome)

  datatype Refusal = TooLarge | ManifestNotAnObject | HashMismatch | RoomNotAString | NotUtf8

  // ASCII capitals turned into small letters, enough for hexadecimal digests.
  function Lower(s: string): (r: string)
    ensures |r| == |s|
  {
    seq(|s|, i requires 0 <= i < |s| => if 'A' <= s[i] <= 'Z' then s[i] - 'A' + 'a' else s[i])
  }

  function WithoutPrefix(s: string, prefix: string): string {
    if prefix <= s then s[|prefix|..] else s
  }

  // _manifest_hash: the first of the four keys that holds a string
  function ManifestHash(m: Fields): Option<string> {
    var keys := ["export_sha256", "sha256", "source_export_hash", "hash"];
    var found := FirstText(m, keys);
    if found.Some? then Some(Lower(WithoutPrefix(found.value, "sha256:"))) else None
  }

  function FirstText(m: Fields, keys: seq<string>): Option<string> {
    if keys == [] then None
    else if keys[0] in m && m[keys[0]].Text? then Some(m[keys[0]].s)
    else FirstText(m, keys[1..])
  }

  // MANIFEST_COUNT_KEYS with the observed values
  function Observed(records: nat, signed: nat, verifiedOffline: nat, legacy: nat, unsigned: nat, invalid: nat)
    : map<string, nat>
  {
    map["record_count" := records, "signed_records" := signed, "verified_records" := verifiedOffline,
        "legacy_records_without_sig" := legacy, "unsigned_records" := unsigned, "invalid_signatures" := invalid]
  }

  function Mismatches(m: Fields, observed: map<string, nat>): set<string> {
    set key | key in observed && key in m && m[key].Int? && m[key].i != observed[key]
  }

  // The one element that all of them are.
  function TheOnly(values: seq<string>): Option<string> {
    if values != [] && forall i :: 0 <= i < |values| ==> values[i] == values[0] then Some(values[0]) else None
  }

  lemma OnlyElement(values: seq<string>, x: string)
    ensures var all := set v | v in values;
            (|all| == 1 <==> TheOnly(values).Some?) && (all == {x} <==> TheOnly(values) == Some(x))
  {
    var all := set v | v in values;
    if values != [] {
      assert values[0] in all;
      if |all| == 1 {
        assert |all - {values[0]}| == 0;
        assert forall i :: 0 <= i < |values| ==> values[i] in all && values[i] !in all - {values[0]};
      }
      if TheOnly(values).Some? {
        assert all == {values[0]};
      }
      if all == {x} {
        assert forall i :: 0 <= i < |values| ==> values[i] in all;
      }
    }
  }

  function RoomsOf(accepted: seq<Verified>): (values: seq<string>)
    ensures |values| == |accepted|
  {
    seq(|accepted|, i requires 0 <= i < |accepted| => accepted[i].room)
  }

  function GenerationsOf(accepted: seq<Verified>): (values: seq<string>)
    ensures |values| == |accepted|
  {
    seq(|accepted|, i requires 0 <= i < |accepted| => accepted[i].generation)
  }

  lemma {:induction false} AcceptedAreNonEmpty(
      k: Crypto, lines: seq<Line>, room: Option<string>, generation: Option<string>)
    ensures |AcceptedRecords(k, lines, room, generation)| <= CountNonEmpty(lines)
  {
    hide VerifyRecord;
    if lines == [] {
    } else {
      AcceptedAreNonEmpty(k, lines[..|lines| - 1], room, generation);
    }
  }

  // What a report has to say about an export that can be read.
  function ReportOf(k: Crypto, lines: seq<Line>, room: Option<string>, generation: Option<string>, m: Fields)
    : (r: Report)
    ensures r.records + r.malformed == CountNonEmpty(lines)
  {
    AcceptedAreNonEmpty(k, lines, room, generation);
    var accepted := AcceptedRecords(k, lines, room, generation);
    var good, bad, unusable :=
      CountStatus(accepted, VerifiedOffline), CountStatus(accepted, InvalidSignature),
      CountStatus(accepted, SignaturePresentUnverified);
    var legacy, unsigned := CountStatus(accepted, LegacyServerVerified), CountStatus(accepted, Unsigned);
    var malformed, conflicts := CountNonEmpty(lines) - |accepted|, CountConflicts(accepted);
    var mismatches := Mismatches(m, Observed(|accepted|, good + bad + unusable, good, legacy, unsigned, bad));
    Report(
      if room.Some? then room else TheOnly(RoomsOf(accepted)),
      if generation.Some? then generation else TheOnly(GenerationsOf(accepted)),
      |accepted|, good + bad + unusable, good, legacy, unsigned, bad, unusable,
      CountStatus(accepted, ProvenanceIncomplete), malformed, conflicts, mismatches,
      if malformed > 0 || conflicts > 0 || bad > 0 then Fail
      else if mismatches != {} then ManifestMismatch else Pass)
  }

  function RoomContext(m: Fields): Option<string> {
    if "room" in m && m["room"].Text? then Some(m["room"].s) else None
  }

  function GenerationContext(m: Fields): Option<string> {
    if "generation" in m && !m["generation"].Null? then Some(Str(m["generation"])) else None
  }

  // verify_export_file as a whole: the refusals in their order, then the report.
  function VerifyExport(k: Crypto, file: File, manifest: Option<Fields>): Result<Report, Refusal> {
    if file.size > MAX_EXPORT_BYTES then Err(TooLarge)
    else if manifest.None? then Err(ManifestNotAnObject)
    else
      var m := manifest.value;
      var expected := ManifestHash(m);
      if expected.Some? && expected.value != [] && expected.value != file.hash then Err(HashMismatch)
      else if "room" in m && !m["room"].Null? && !m["room"].Text? then Err(RoomNotAString)
      else if file.lines.None? then Err(NotUtf8)
      else Ok(ReportOf(k, file.lines.value, RoomContext(m), GenerationContext(m), m))
  }

  method TheOnlyOf(all: set<string>, ghost values: seq<string>) returns (r: Option<string>)
    requires all == set v | v in values
    ensures r == TheOnly(values)
  {
    OnlyElement(values, "");
    r := None;
    if |all| == 1 {
      var x :| x in all;
      OnlyElement(values, x);
      assert all == {TheOnly(values).value} by {
        OnlyElement(values, TheOnly(values).value);
      }
      r := Some(x);
    }
  }

  lemma SameSets(accepted: seq<Verified>)
    ensures (set v | v in accepted :: v.room) == set x | x in RoomsOf(accepted)
    ensures (set v | v in accepted :: v.generation) == set x | x in GenerationsOf(accepted)
  {
    var rooms, generations := RoomsOf(accepted), GenerationsOf(accepted);
    forall v | v in accepted
      ensures v.room in rooms && v.generation in generations
    {
      var i :| 0 <= i < |accepted| && accepted[i] == v;
      assert rooms[i] == v.room && generations[i] == v.generation;
    }
    forall x | x in rooms
      ensures exists v :: v in accepted && v.room == x
    {
      var i :| 0 <= i < |rooms| && rooms[i] == x;
      assert accepted[i] in accepted;
    }
    forall x | x in generations
      ensures exists v :: v in accepted && v.generation == x
    {
      var i :| 0 <= i < |generations| && generations[i] == x;
      assert accepted[i] in accepted;
    }
  }

  method VerifyExportFile(k: Crypto, file: File, manifest: Option<Fields>) returns (r: Result<Report, Refusal>)
    ensures r == VerifyExport(k, file, manifest)
  {
    hide AcceptedRecords, CountNonEmpty, CountStatus, CountConflicts, LastHashAt, TheOnly, RoomsOf, GenerationsOf,
         Mismatches, Observed, ManifestHash;
    if file.size > MAX_EXPORT_BYTES {
      return Err(TooLarge);
    }
    if manifest.None? {
      return Err(ManifestNotAnObject);
    }
    var m := manifest.value;
    var expected := ManifestHash(m);
    if expected.Some? && expected.value != [] && expected.value != file.hash {
      return Err(HashMismatch);
    }
    if "room" in m && !m["room"].Null? && !m["room"].Text? {
      return Err(RoomNotAString);
    }
    if file.lines.None? {
      return Err(NotUtf8);
    }
    var room, generation := RoomContext(m), GenerationContext(m);
    var report := Summarize(k, file.lines.value, room, generation, m);
    r := Ok(report);
  }

  // The loop and the report behind it.
  method Summarize(k: Crypto, lines: seq<Line>, room: Option<string>, generation: Option<string>, m: Fields)
    returns (r: Report)
    ensures r == ReportOf(k, lines, room, generation, m)
  {
    hide AcceptedRecords, CountNonEmpty, CountStatus, CountConflicts, LastHashAt, TheOnly, RoomsOf, GenerationsOf,
         Mismatches, Observed;
    ghost var accepted := AcceptedRecords(k, lines, room, generation);
    var t, locations := TallyLines(k, lines, room, generation);
    SameSets(accepted);
    var onlyRoom := TheOnlyOf(t.rooms, RoomsOf(accepted));
    var onlyGeneration := TheOnlyOf(t.generations, GenerationsOf(accepted));
    var good, bad, unusable :=
      CountIn(t.statuses, VerifiedOffline), CountIn(t.statuses, InvalidSignature),
      CountIn(t.statuses, SignaturePresentUnverified);
    var legacy, unsigned := CountIn(t.statuses, LegacyServerVerified), CountIn(t.statuses, Unsigned);
    var mismatches := Mismatches(m, Observed(t.records, good + bad + unusable, good, legacy, unsigned, bad));
    var parsed, signatures := t.malformed == 0 && t.conflicts == 0, bad == 0;
    r := Report(
      if room.Some? then room else onlyRoom,
      if generation.Some? then generation else onlyGeneration,
      t.records, good + bad + unusable, good, legacy, unsigned, bad, unusable,
      CountIn(t.statuses, ProvenanceIncomplete), t.malformed, t.conflicts, mismatches,
      if !parsed || !signatures then Fail else if mismatches != {} then ManifestMismatch else Pass);
  }

  lemma {:induction false} StatusesSum(accepted: seq<Verified>)
    ensures CountStatus(accepted, VerifiedOffline) + CountStatus(accepted, InvalidSignature)
            + CountStatus(accepted, SignaturePresentUnverified) + CountStatus(accepted, LegacyServerVerified)
            + CountStatus(accepted, Unsigned) + CountStatus(accepted, ProvenanceIncomplete) == |accepted|
  {
    if accepted == [] {
    } else {
      StatusesSum(accepted[..|accepted| - 1]);
    }
  }

  lemma {:induction false} NoneCounted(accepted: seq<Verified>, status: Status)
    ensures CountStatus(accepted, status) == 0 <==> forall i :: 0 <= i < |accepted| ==> accepted[i].status != status
  {
    if accepted == [] {
    } else {
      var rest := accepted[..|accepted| - 1];
      NoneCounted(rest, status);
      assert forall i :: 0 <= i < |rest| ==> rest[i] == accepted[i];
    }
  }

  lemma {:induction false} NoneMalformed(
      k: Crypto, lines: seq<Line>, room: Option<string>, generation: Option<string>)
    ensures |AcceptedRecords(k, lines, room, generation)| == CountNonEmpty(lines)
            <==> forall i :: 0 <= i < |lines| ==> lines[i].EmptyLine? || Judge(k, lines[i], room, generation).Some?
  {
    hide VerifyRecord;
    if lines == [] {
    } else {
      var rest := lines[..|lines| - 1];
      NoneMalformed(k, rest, room, generation);
      AcceptedAreNonEmpty(k, rest, room, generation);
      assert forall i :: 0 <= i < |rest| ==> rest[i] == lines[i];
    }
  }

  // The streaming report, read globally: the counts add up, and the verdict says what it should about all lines.
  lemma ReportMeans(k: Crypto, lines: seq<Line>, room: Option<string>, generation: Option<string>, m: Fields)
    ensures var r := ReportOf(k, lines, room, generation, m);
            var accepted := AcceptedRecords(k, lines, room, generation);
            r.records + r.malformed == CountNonEmpty(lines)
            && r.signed + r.legacy + r.unsigned + r.incomplete == r.records
            && r.signed == r.verifiedOffline + r.invalid + r.presentUnverified
            && r.verifiedOffline == CountStatus(accepted, VerifiedOffline)
            && r.invalid == CountStatus(accepted, InvalidSignature)
            && r.legacy == CountStatus(accepted, LegacyServerVerified) && r.unsigned == CountStatus(accepted, Unsigned)
            && (r.conflicts == 0 <==> ConflictFree(accepted))
            && (!r.result.Fail? <==>
                  ConflictFree(accepted)
                  && (forall i :: 0 <= i < |accepted| ==> accepted[i].status != InvalidSignature)
                  && (forall i :: 0 <= i < |lines| ==>
                        lines[i].EmptyLine? || Judge(k, lines[i], room, generation).Some?))
            && (r.result.Pass? <==> !r.result.Fail? && r.mismatches == {})
  {
    var accepted := AcceptedRecords(k, lines, room, generation);
    hide AcceptedRecords, CountNonEmpty, CountStatus, CountConflicts, ConflictFree, Mismatches, Observed, Judge,
         TheOnly, RoomsOf, GenerationsOf;
    StatusesSum(accepted);
    NoConflictsIffConflictFree(accepted);
    NoneCounted(accepted, InvalidSignature);
    NoneMalformed(k, lines, room, generation);
    AcceptedAreNonEmpty(k, lines, room, generation);
  }

  // An accepted record whose signature fails its check.
  ghost predicate IsForged(k: Crypto, line: Line, room: Option<string>, generation: Option<string>) {
    line.Object? && (
      var c := Coerce(line.fields, room, generation);
      c.Some? && Checkable(c.value) && c.value.did.Some? && CheckOf(k, c.value) == Bad)
  }

  predicate JudgedAs(k: Crypto, line: Line, room: Option<string>, generation: Option<string>, status: Status) {
    Judge(k, line, room, generation).Some? && Judge(k, line, room, generation).value.status == status
  }

  lemma ForgedIsInvalid(k: Crypto, line: Line, room: Option<string>, generation: Option<string>)
    ensures IsForged(k, line, room, generation) <==> JudgedAs(k, line, room, generation, InvalidSignature)
  {
    hide Coerce, StatusOf, CheckOf, Checkable;
    if line.Object? && Coerce(line.fields, room, generation).Some? {
      StatusCases(k, line.fields, room, generation, Coerce(line.fields, room, generation).value);
    }
  }

  // Every accepted record stems from a line, and every line that is accepted gives a record.
  lemma {:induction false} RecordHasLine(
      k: Crypto, lines: seq<Line>, room: Option<string>, generation: Option<string>, i: nat)
    returns (n: nat)
    requires i < |AcceptedRecords(k, lines, room, generation)|
    ensures n < |lines| && Judge(k, lines[n], room, generation) == Some(AcceptedRecords(k, lines, room, generation)[i])
  {
    hide Judge;
    var before := AcceptedRecords(k, lines[..|lines| - 1], room, generation);
    if i < |before| {
      n := RecordHasLine(k, lines[..|lines| - 1], room, generation, i);
    } else {
      n := |lines| - 1;
    }
  }

  lemma {:induction false} LineHasRecord(
      k: Crypto, lines: seq<Line>, room: Option<string>, generation: Option<string>, n: nat)
    returns (i: nat)
    requires n < |lines| && Judge(k, lines[n], room, generation).Some?
    ensures i < |AcceptedRecords(k, lines, room, generation)|
    ensures Judge(k, lines[n], room, generation) == Some(AcceptedRecords(k, lines, room, generation)[i])
  {
    hide Judge;
    var before := AcceptedRecords(k, lines[..|lines| - 1], room, generation);
    if n < |lines| - 1 {
      i := LineHasRecord(k, lines[..|lines| - 1], room, generation, n);
    } else {
      i := |before|;
    }
  }

  // So the statuses of the accepted records are those of the accepted lines.
  lemma AcceptedStatus(
      k: Crypto, lines: seq<Line>, room: Option<string>, generation: Option<string>, status: Status)
    ensures var accepted := AcceptedRecords(k, lines, room, generation);
            (exists i :: 0 <= i < |accepted| && accepted[i].status == status)
            <==> exists i :: 0 <= i < |lines| && JudgedAs(k, lines[i], room, generation, status)
  {
    hide AcceptedRecords, Judge;
    var accepted := AcceptedRecords(k, lines, room, generation);
    if i: nat :| i < |accepted| && accepted[i].status == status {
      var n := RecordHasLine(k, lines, room, generation, i);
      assert JudgedAs(k, lines[n], room, generation, status);
    }
    if n: nat :| n < |lines| && JudgedAs(k, lines[n], room, generation, status) {
      var i := LineHasRecord(k, lines, room, generation, n);
      assert accepted[i].status == status;
    }
  }

  // One forged post is enough: an export that can be read fails exactly when a record is forged, a line is malformed or
  // two records at one place differ.
  lemma ForgedExportFails(k: Crypto, file: File, manifest: Option<Fields>)
    requires VerifyExport(k, file, manifest).Ok?
    ensures var room, generation := RoomContext(manifest.value), GenerationContext(manifest.value);
            var lines := file.lines.value;
            VerifyExport(k, file, manifest).value.result.Fail? <==>
              (exists i :: 0 <= i < |lines| && IsForged(k, lines[i], room, generation))
              || (exists i :: 0 <= i < |lines| && !lines[i].EmptyLine? && Judge(k, lines[i], room, generation).None?)
              || !ConflictFree(AcceptedRecords(k, lines, room, generation))
  {
    var room, generation := RoomContext(manifest.value), GenerationContext(manifest.value);
    var lines := file.lines.value;
    hide AcceptedRecords, ConflictFree, Judge, JudgedAs, ReportOf, IsForged, RoomContext, GenerationContext,
         ManifestHash;
    ReportMeans(k, lines, room, generation, manifest.value);
    AcceptedStatus(k, lines, room, generation, InvalidSignature);
    forall i | 0 <= i < |lines|
      ensures IsForged(k, lines[i], room, generation) <==>
                JudgedAs(k, lines[i], room, generation, InvalidSignature)
    {
      ForgedIsInvalid(k, lines[i], room, generation);
    }
  }

  // The refusals, in their order; everything else gets a report.
  lemma RefusalCases(k: Crypto, file: File, manifest: Option<Fields>)
    ensures var r := VerifyExport(k, file, manifest);
            var m := if manifest.Some? then manifest.value else map[];
            var named := ManifestHash(m).Some? && ManifestHash(m).value != "";
            var bound := file.size <= 25_000_000 && manifest.Some? && (named ==> ManifestHash(m) == Some(file.hash));
            var placed := "room" in m ==> m["room"].Null? || m["room"].Text?;
            (r == Err(TooLarge) <==> file.size > 25_000_000)
            && (r == Err(ManifestNotAnObject) <==> file.size <= 25_000_000 && manifest.None?)
            && (r == Err(HashMismatch) <==> file.size <= 25_000_000 && manifest.Some? && !bound)
            && (r == Err(RoomNotAString) <==> bound && !placed)
            && (r == Err(NotUtf8) <==> bound && placed && file.lines.None?)
            && (r.Ok? <==> bound && placed && file.lines.Some?)
  {
    hide ReportOf, ManifestHash;
  }

  // The manifest gives this count, or none under the key.
  predicate Agrees(m: Fields, key: string, count: nat) {
    key in m && m[key].Int? ==> m[key].i == count
  }

  // A mismatch is reported exactly for the six counts that the manifest gives as another integer.
  lemma MismatchMeans(k: Crypto, lines: seq<Line>, room: Option<string>, generation: Option<string>, m: Fields)
    ensures var r := ReportOf(k, lines, room, generation, m);
            ("record_count" in r.mismatches <==> !Agrees(m, "record_count", r.records))
            && ("signed_records" in r.mismatches <==> !Agrees(m, "signed_records", r.signed))
            && ("verified_records" in r.mismatches <==> !Agrees(m, "verified_records", r.verifiedOffline))
            && ("legacy_records_without_sig" in r.mismatches <==> !Agrees(m, "legacy_records_without_sig", r.legacy))
            && ("unsigned_records" in r.mismatches <==> !Agrees(m, "unsigned_records", r.unsigned))
            && ("invalid_signatures" in r.mismatches <==> !Agrees(m, "invalid_signatures", r.invalid))
            && r.mismatches <= {"record_count", "signed_records", "verified_records", "legacy_records_without_sig",
                                "unsigned_records", "invalid_signatures"}
  {
    hide AcceptedRecords, CountNonEmpty, CountStatus, CountConflicts, TheOnly, RoomsOf, GenerationsOf;
  }

  // The text shows the digest with small or capital letters.
  predicate SameDigest(text: string, digest: string) {
    |text| == |digest|
    && forall i :: 0 <= i < |text| ==>
         text[i] == digest[i] || ('A' <= text[i] <= 'F' && digest[i] as int == text[i] as int + 32)
  }

  // A manifest that gives a digest, under any of four names, with or without the prefix and in any case, binds its
  // file: with another hash the export is refused.
  lemma ManifestBindsFile(k: Crypto, file: File, m: Fields, key: string, digest: string, given: string,
                         bare: string)
    requires key in {"export_sha256", "sha256", "source_export_hash", "hash"}
    requires forall other :: other in {"export_sha256", "sha256", "source_export_hash", "hash"} - {key} ==> other !in m
    requires key in m && m[key] == Provenance.Text(given) && IsHexDigest(digest)
    requires SameDigest(bare, digest) && (given == bare || given == "sha256:" + bare)
    requires file.size <= MAX_EXPORT_BYTES
    ensures ManifestHash(m) == Some(digest)
    ensures file.hash != digest ==> VerifyExport(k, file, Some(m)) == Err(HashMismatch)
    ensures file.hash == digest ==> VerifyExport(k, file, Some(m)) != Err(HashMismatch)
  {
    var prefix := "sha256:";
    assert Lower(bare) == digest;
    assert prefix[0] == 's' && digest[0] != 's' && Lower(bare)[0] == digest[0];
    assert (prefix + bare)[|prefix|..] == bare;
    FirstOfFour(m, key);
  }

  lemma FirstOfFour(m: Fields, key: string)
    requires key in {"export_sha256", "sha256", "source_export_hash", "hash"}
    requires forall other :: other in {"export_sha256", "sha256", "source_export_hash", "hash"} - {key} ==> other !in m
    requires key in m && m[key].Text?
    ensures FirstText(m, ["export_sha256", "sha256", "source_export_hash", "hash"]) == Some(m[key].s)
  {
    var keys := ["export_sha256", "sha256", "source_export_hash", "hash"];
    assert keys[1..] == ["sha256", "source_export_hash", "hash"] && keys[1..][1..] == ["source_export_hash", "hash"];
    assert keys[1..][1..][1..] == ["hash"] && keys[1..][1..][1..][1..] == [];
    assert FirstText(m, keys) == if keys[0] == key then Some(m[key].s) else FirstText(m, keys[1..]);
    assert FirstText(m, ["hash"]) == if key == "hash" then Some(m[key].s) else FirstText(m, []);
    assert FirstText(m, ["source_export_hash", "hash"])
        == if key == "source_export_hash" then Some(m[key].s) else FirstText(m, ["hash"]);
  }

  // SHA-256 in lower-case hexadecimal.
  predicate IsHexDigest(h: string) {
    |h| == 64 && forall i :: 0 <= i < |h| ==> '0' <= h[i] <= '9' || 'a' <= h[i] <= 'f'
  }

  datatype Response = Response(status: int, generation: Option<string>, file: File)

  function TemporaryManifest(hash: string, room: string, generation: string): Fields {
    map["export_sha256" := Provenance.Text(hash), "room" := Provenance.Text(room),
        "generation" := Provenance.Text(generation)]
  }

  // The manifest that export_room writes beside the file, without times and paths.
  function WrittenManifest(file: File, room: string, generation: string, counts: Report): Fields {
    map["room" := Provenance.Text(room), "generation" := Provenance.Text(generation),
        "export_sha256" := Provenance.Text(file.hash), "byte_count" := Provenance.Int(file.size),
        "record_count" := Provenance.Int(counts.records), "signed_records" := Provenance.Int(counts.signed),
        "verified_records" := Provenance.Int(counts.verifiedOffline),
        "legacy_records_without_sig" := Provenance.Int(counts.legacy),
        "unsigned_records" := Provenance.Int(counts.unsigned),
        "invalid_signatures" := Provenance.Int(counts.invalid)]
  }

  // The manifest gives room, generation, digest and all counts of the report.
  predicate Gives(m: Fields, room: string, generation: string, hash: string, r: Report) {
    m.Keys >= {"room", "generation", "export_sha256", "record_count", "signed_records", "verified_records",
               "legacy_records_without_sig", "unsigned_records", "invalid_signatures"}
    && m["room"] == Provenance.Text(room) && m["generation"] == Provenance.Text(generation)
    && m["export_sha256"] == Provenance.Text(hash)
    && m["record_count"] == Provenance.Int(r.records) && m["signed_records"] == Provenance.Int(r.signed)
    && m["verified_records"] == Provenance.Int(r.verifiedOffline)
    && m["legacy_records_without_sig"] == Provenance.Int(r.legacy)
    && m["unsigned_records"] == Provenance.Int(r.unsigned) && m["invalid_signatures"] == Provenance.Int(r.invalid)
  }

  // export_room behind its transport; None stands for an exception. The manifest that it writes verifies its own
  // file with the same report and no mismatch.
  method ExportRoom(k: Crypto, room: string, response: Response) returns (manifest: Option<Fields>)
    requires IsHexDigest(response.file.hash)
    ensures manifest.Some? <==>
              response.status == 200 && NonEmpty(response.generation)
              && response.file.size <= MAX_EXPORT_BYTES && response.file.lines.Some?
    ensures manifest.Some? ==>
              var r := VerifyExport(k, response.file, manifest);
              r.Ok? && r.value.mismatches == {}
              && Gives(manifest.value, room, response.generation.value, response.file.hash, r.value)
              && r.value == ReportOf(k, response.file.lines.value, Some(room), response.generation, map[])
  {
    hide ReportOf, ManifestHash, Gives, WrittenManifest, TemporaryManifest;
    if response.status != 200 || !NonEmpty(response.generation) || response.file.size > MAX_EXPORT_BYTES {
      return None;
    }
    var generation := response.generation.value;
    var temporary := TemporaryManifest(response.file.hash, room, generation);
    OwnContext(response.file, room, generation, temporary);
    OwnHash(response.file.hash, temporary);
    var counts := VerifyExportFile(k, response.file, Some(temporary));
    if counts.Err? {
      return None;
    }
    var written := WrittenManifest(response.file, room, generation, counts.value);
    OwnGiven(response.file, room, generation, counts.value);
    OwnHash(response.file.hash, written);
    OwnCounts(k, response.file, room, generation, counts.value, temporary, written);
    manifest := Some(written);
  }

  lemma OwnContext(file: File, room: string, generation: string, m: Fields)
    requires m == TemporaryManifest(file.hash, room, generation)
    ensures "export_sha256" in m && m["export_sha256"] == Provenance.Text(file.hash)
    ensures "room" in m && m["room"].Text? && RoomContext(m) == Some(room) && GenerationContext(m) == Some(generation)
  {
  }

  lemma OwnGiven(file: File, room: string, generation: string, counts: Report)
    ensures var m := WrittenManifest(file, room, generation, counts);
            Gives(m, room, generation, file.hash, counts)
            && RoomContext(m) == Some(room) && GenerationContext(m) == Some(generation)
            && "export_sha256" in m && m["export_sha256"] == Provenance.Text(file.hash)
            && "room" in m && m["room"].Text?
  {
  }

  lemma OwnHash(hash: string, m: Fields)
    requires IsHexDigest(hash) && "export_sha256" in m && m["export_sha256"] == Provenance.Text(hash)
    ensures ManifestHash(m) == Some(hash)
  {
    assert Lower(hash) == hash;
    assert FirstText(m, ["export_sha256", "sha256", "source_export_hash", "hash"]) == Some(hash);
    var prefix := "sha256:";
    assert prefix[0] == 's' && hash[0] != 's';
  }

  lemma OwnCounts(
      k: Crypto, file: File, room: string, generation: string, counts: Report, temporary: Fields, written: Fields)
    requires file.lines.Some? && temporary == TemporaryManifest(file.hash, room, generation)
    requires counts == ReportOf(k, file.lines.value, Some(room), Some(generation), temporary)
    requires written == WrittenManifest(file, room, generation, counts)
    ensures ReportOf(k, file.lines.value, Some(room), Some(generation), written)
            == ReportOf(k, file.lines.value, Some(room), Some(generation), map[]) == counts
    ensures counts.mismatches == {}
  {
    hide AcceptedRecords, CountNonEmpty, CountStatus, CountConflicts;
  }
}
