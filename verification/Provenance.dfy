// Records of a room export: coercion and offline verification (src/flop_bench/provenance.py).
module Provenance {
  import opened Common
  import Preimage

  // A JSON value; `printed` is Python's str() of a float, a list or an object.
  datatype Json = Null | Bool(b: bool) | Int(i: int) | Text(s: string) | Other(printed: string, truthy: bool)

  type Fields = map<string, Json>

  datatype Status =
    | VerifiedOffline | InvalidSignature | SignaturePresentUnverified | LegacyServerVerified | Unsigned
    | ProvenanceIncomplete

  // Ed25519 verification of a signature text under a DID; Unusable covers a malformed DID, key or signature.
  datatype Check = Good | Bad | Unusable

  datatype Crypto = Crypto(check: (string, string, string) -> Check, hash: string -> string)

  datatype Coerced = Coerced(
    room: string, generation: string, number: int, did: Option<string>, conflict: bool, nonce: Json,
    sig: Option<string>, text: string, flagged: bool)

  datatype Verified = Verified(room: string, generation: string, number: int, hash: string, status: Status)

  const UNKNOWN_LEGACY := "UNKNOWN_LEGACY"
  const DID_KEY := "did:key:"
  const MAX_NONCE := 9_999_999_999_999_999

  // The value under the first of the names that the record has.
  function Field(r: Fields, names: seq<string>): Json {
    if names == [] then Null else if names[0] in r then r[names[0]] else Field(r, names[1..])
  }

  predicate Truthy(v: Json) {
    match v
    case Null => false
    case Bool(b) => b
    case Int(i) => i != 0
    case Text(s) => s != []
    case Other(_, truthy) => truthy
  }

  function Str(v: Json): string {
    match v
    case Null => "None"
    case Bool(b) => if b then "True" else "False"
    case Int(i) => Preimage.Decimal(i)
    case Text(s) => s
    case Other(printed, _) => printed
  }

  // _coerce_record; None stands for its ValidationError.
  function Coerce(r: Fields, roomContext: Option<string>, generationContext: Option<string>): Option<Coerced> {
    var room := if roomContext.Some? && roomContext.value != [] then Text(roomContext.value) else Field(r, ["room"]);
    var generation := Field(r, ["generation", "room_generation"]);
    var number := Field(r, ["seq", "sequence"]);
    var sender, did := Field(r, ["from", "sender"]), Field(r, ["did"]);
    var who := if sender.Text? then sender else did;
    var nonce, sig, text := Field(r, ["nonce"]), Field(r, ["sig", "signature"]), Field(r, ["text"]);
    var flagged := Truthy(Field(r, ["signed", "verified"]));
    if !room.Text? || room.s == [] || !number.Int? || !text.Text? || !(sig.Null? || sig.Text?) then None
    else if !nonce.Null? && sig.Null? && !(who.Text? && flagged) then None
    else if !sig.Null? && (nonce.Null? || !(who.Text? && DID_KEY <= who.s)) then None
    else
      Some(Coerced(
        room.s,
        if generationContext.Some? then generationContext.value
        else if generation.Null? || generation == Text([]) then UNKNOWN_LEGACY else Str(generation),
        number.i,
        if who.Text? then Some(who.s) else None,
        sender.Text? && did.Text? && DID_KEY <= sender.s && DID_KEY <= did.s && sender.s != did.s,
        nonce,
        if sig.Text? then Some(sig.s) else None,
        text.s,
        flagged))
  }

  function SignedText(room: string, nonce: string, text: string): string {
    Preimage.Fields(room, Preimage.Fields(nonce, text))
  }

  // The nonce as it is signed; None stands for validate_nonce's ValidationError.
  function NonceText(nonce: Json): Option<string> {
    match nonce
    case Bool(_) => None
    case Int(i) => if 0 < i <= MAX_NONCE then Some(Preimage.Decimal(i)) else None
    case _ => Some(Str(nonce))
  }

  predicate NonEmpty(s: Option<string>) {
    s.Some? && s.value != []
  }

  function StatusOf(k: Crypto, c: Coerced): Status {
    if c.conflict then ProvenanceIncomplete
    else if NonEmpty(c.did) && NonEmpty(c.sig) && !c.nonce.Null? then
      var nonce := NonceText(c.nonce);
      if nonce.None? then SignaturePresentUnverified
      else
        match k.check(c.did.value, c.sig.value, SignedText(c.room, nonce.value, c.text))
        case Good => VerifiedOffline
        case Bad => InvalidSignature
        case Unusable => SignaturePresentUnverified
    else if NonEmpty(c.sig) then ProvenanceIncomplete
    else if NonEmpty(c.did) && c.flagged then LegacyServerVerified
    else if NonEmpty(c.did) && DID_KEY <= c.did.value && !c.nonce.Null? then LegacyServerVerified
    else if NonEmpty(c.did) then Unsigned
    else ProvenanceIncomplete
  }

  // verify_record_mapping
  function VerifyRecord(k: Crypto, r: Fields, roomContext: Option<string>, generationContext: Option<string>)
    : Option<Verified>
  {
    var c := Coerce(r, roomContext, generationContext);
    if c.None? then None
    else
      Some(Verified(c.value.room, c.value.generation, c.value.number, k.hash(c.value.text), StatusOf(k, c.value)))
  }

  // A record counts as verified only under a good signature of its own room, nonce and text by a DID that the
  // record does not contradict; for a nonce of Bench's own kind, that is the very text Bench signs when it posts.
  lemma VerifiedOfflineIffSigned(k: Crypto, r: Fields, room: Option<string>, generation: Option<string>, c: Coerced)
    requires Coerce(r, room, generation) == Some(c)
    ensures StatusOf(k, c) == VerifiedOffline <==>
              !c.conflict && NonEmpty(c.did) && NonEmpty(c.sig) && NonceText(c.nonce).Some?
              && k.check(c.did.value, c.sig.value, SignedText(c.room, NonceText(c.nonce).value, c.text)) == Good
    ensures c.nonce.Int? && 0 < c.nonce.i <= MAX_NONCE && Preimage.IsWritableRoom(c.room) ==>
              NonceText(c.nonce).Some? && Preimage.SignedPostPreimage(c.room, c.nonce.i, c.text)
                                          == Some(SignedText(c.room, NonceText(c.nonce).value, c.text))
  {
    hide Field, Preimage.IsWritableRoom, Preimage.Decimal;
  }

  // Records that share a signed text are the same record as far as it was signed, when neither their rooms nor the
  // nonces as they are signed contain a bar: one signature cannot serve another room, nonce or text then.
  lemma SignedTextPinsRecord(c: Coerced, c': Coerced)
    requires Preimage.NoBar(c.room) && Preimage.NoBar(c'.room) && NonceText(c.nonce).Some? && NonceText(c'.nonce).Some?
    requires Preimage.NoBar(NonceText(c.nonce).value) && Preimage.NoBar(NonceText(c'.nonce).value)
    requires SignedText(c.room, NonceText(c.nonce).value, c.text)
             == SignedText(c'.room, NonceText(c'.nonce).value, c'.text)
    ensures c.room == c'.room && NonceText(c.nonce) == NonceText(c'.nonce) && c.text == c'.text
    ensures c.nonce.Int? && c'.nonce.Int? ==> c.nonce == c'.nonce
  {
    hide Preimage.Decimal, Preimage.Fields, Preimage.NoBar;
    var n, n' := NonceText(c.nonce).value, NonceText(c'.nonce).value;
    Preimage.FirstFieldUnique(c.room, Preimage.Fields(n, c.text), c'.room, Preimage.Fields(n', c'.text));
    Preimage.FirstFieldUnique(n, c.text, n', c'.text);
    if c.nonce.Int? && c'.nonce.Int? {
      Preimage.DecimalInjective(c.nonce.i, c'.nonce.i);
    }
  }

  // Rooms that Bench may write and nonces of its own kind, integers within the bound, have no bar.
  lemma OwnKindHasNoBar(c: Coerced)
    requires Preimage.IsWritableRoom(c.room) && c.nonce.Int? && NonceText(c.nonce).Some?
    ensures Preimage.NoBar(c.room) && Preimage.NoBar(NonceText(c.nonce).value)
  {
    hide Preimage.IsWritableRoom, Preimage.Decimal, Preimage.NoBar;
    Preimage.WritableRoomNoBar(c.room);
    Preimage.DecimalNoBar(c.nonce.i);
  }

  // So no signature under a post of Bench serves any other record of such a room and nonce.
  lemma OwnRecordsPinned(c: Coerced, c': Coerced)
    requires Preimage.IsWritableRoom(c.room) && Preimage.IsWritableRoom(c'.room)
    requires c.nonce.Int? && NonceText(c.nonce).Some? && c'.nonce.Int? && NonceText(c'.nonce).Some?
    requires SignedText(c.room, NonceText(c.nonce).value, c.text)
             == SignedText(c'.room, NonceText(c'.nonce).value, c'.text)
    ensures c.room == c'.room && c.nonce == c'.nonce && c.text == c'.text
  {
    hide NonceText, SignedText, Preimage.IsWritableRoom, Preimage.NoBar;
    OwnKindHasNoBar(c);
    OwnKindHasNoBar(c');
    SignedTextPinsRecord(c, c');
  }

  ghost predicate OneReading(room: string, nonce: string, text: string) {
    forall nonce', text' ::
      SignedText(room, nonce', text') == SignedText(room, nonce, text) ==> nonce' == nonce && text' == text
  }

  // The exact condition: within its room a signed text can be read in one way only exactly when neither nonce nor text
  // contains a bar.
  lemma OneReadingIff(room: string, nonce: string, text: string)
    ensures OneReading(room, nonce, text) <==> Preimage.NoBar(nonce) && Preimage.NoBar(text)
  {
    if !Preimage.NoBar(nonce) {
      var i :| 0 <= i < |nonce| && nonce[i] == '|';
      BarMoves(room, nonce[..i], nonce[i + 1..], text);
      assert nonce == Preimage.Fields(nonce[..i], nonce[i + 1..]);
      assert nonce != nonce[..i];
    } else if !Preimage.NoBar(text) {
      var i :| 0 <= i < |text| && text[i] == '|';
      BarMoves(room, nonce, text[..i], text[i + 1..]);
      assert text == Preimage.Fields(text[..i], text[i + 1..]);
      assert |Preimage.Fields(nonce, text[..i])| > |nonce|;
    } else {
      forall nonce', text' | SignedText(room, nonce', text') == SignedText(room, nonce, text)
        ensures nonce' == nonce && text' == text
      {
        SameRest(room, Preimage.Fields(nonce', text'), Preimage.Fields(nonce, text));
        OnlyBar(nonce, text, nonce', text');
      }
    }
  }

  lemma BarMoves(room: string, a: string, b: string, c: string)
    ensures SignedText(room, Preimage.Fields(a, b), c) == SignedText(room, a, Preimage.Fields(b, c))
  {
    assert Preimage.Fields(Preimage.Fields(a, b), c) == Preimage.Fields(a, Preimage.Fields(b, c));
  }

  lemma SameRest(room: string, x: string, y: string)
    requires Preimage.Fields(room, x) == Preimage.Fields(room, y)
    ensures x == y
  {
    assert Preimage.Fields(room, x)[|room| + 1..] == x && Preimage.Fields(room, y)[|room| + 1..] == y;
  }

  // The one bar of a text can be at one place only.
  lemma OnlyBar(a: string, b: string, a': string, b': string)
    requires Preimage.NoBar(a) && Preimage.NoBar(b) && Preimage.Fields(a, b) == Preimage.Fields(a', b')
    ensures a == a' && b == b'
  {
    var s := Preimage.Fields(a, b);
    assert forall i :: 0 <= i < |s| && s[i] == '|' ==> i == |a|;
    assert s[|a'|] == '|';
    assert s[..|a|] == a && Preimage.Fields(a', b')[..|a'|] == a';
    assert s[|a| + 1..] == b && Preimage.Fields(a', b')[|a'| + 1..] == b';
  }

  function Record(did: string, sig: string, nonce: string, text: string): Fields {
    map["room" := Text("mb-a"), "seq" := Int(1), "from" := Text(did), "nonce" := Text(nonce), "sig" := Text(sig),
        "text" := Text(text)]
  }

  lemma SecondName(r: Fields, first: string, second: string)
    requires first !in r
    ensures Field(r, [first, second]) == if second in r then r[second] else Null
  {
    assert [first, second][1..] == [second] && [second][1..] == [];
    assert Field(r, []) == Null && Field(r, [first, second]) == Field(r, [second]);
  }

  lemma RecordAccepted(did: string, sig: string, nonce: string, text: string)
    requires DID_KEY <= did
    ensures Coerce(Record(did, sig, nonce, text), None, None)
            == Some(Coerced("mb-a", UNKNOWN_LEGACY, 1, Some(did), false, Text(nonce), Some(sig), text, false))
  {
    var r := Record(did, sig, nonce, text);
    SecondName(r, "generation", "room_generation");
    SecondName(r, "signed", "verified");
    assert Field(r, ["did"]) == Null by {
      assert ["did"][1..] == [];
    }
  }

  // A pair outside that condition: two accepted records of one room and sender with different nonces and texts that
  // one signature serves, whatever it is.
  lemma OneSignatureTwoRecords(k: Crypto, did: string, sig: string)
    requires DID_KEY <= did
    ensures var r, r' := Record(did, sig, "1|x", "y"), Record(did, sig, "1", "x|y");
            var c, c' := Coerce(r, None, None), Coerce(r', None, None);
            c.Some? && c'.Some? && c.value.text != c'.value.text && c.value.nonce != c'.value.nonce
            && StatusOf(k, c.value) == StatusOf(k, c'.value)
            && (sig != [] && k.check(did, sig, "mb-a|1|x|y") == Good ==> StatusOf(k, c.value) == VerifiedOffline)
  {
    RecordAccepted(did, sig, "1|x", "y");
    RecordAccepted(did, sig, "1", "x|y");
    hide Coerce;
    BarMoves("mb-a", "1", "x", "y");
    assert Preimage.Fields("1", "x") == "1|x" && Preimage.Fields("x", "y") == "x|y";
    assert SignedText("mb-a", "1", "x|y") == "mb-a|1|x|y";
  }

  // What acceptance of a record promises: the manifest's context wins, and signature, nonce and did:key sender
  // come together, or the record is flagged by the server.
  lemma AcceptedShape(r: Fields, room: Option<string>, generation: Option<string>, c: Coerced)
    requires Coerce(r, room, generation) == Some(c)
    ensures c.room != [] && (NonEmpty(room) ==> Some(c.room) == room)
    ensures generation.Some? ==> Some(c.generation) == generation
    ensures c.sig.Some? ==> NonEmpty(c.did) && DID_KEY <= c.did.value && !c.nonce.Null?
    ensures c.sig.None? && !c.nonce.Null? ==> c.did.Some? && c.flagged
  {
    hide Field;
  }

  // Which records are accepted, and what is taken from them: a signature comes with a nonce and a did:key sender, a
  // nonce without a signature needs a sender that the server has flagged, and the manifest's room and generation win.
  lemma AcceptedCases(r: Fields, room: Option<string>, generation: Option<string>)
    ensures var sender, did, nonce := Field(r, ["from", "sender"]), Field(r, ["did"]), Field(r, ["nonce"]);
            var sig, text, number := Field(r, ["sig", "signature"]), Field(r, ["text"]), Field(r, ["seq", "sequence"]);
            var who := if sender.Text? then sender else did;
            var place := if NonEmpty(room) then Text(room.value) else Field(r, ["room"]);
            var flagged := Truthy(Field(r, ["signed", "verified"]));
            var made := Field(r, ["generation", "room_generation"]);
            var c := Coerce(r, room, generation);
            (c.Some? <==>
               place.Text? && place.s != [] && number.Int? && text.Text?
               && (sig.Text? ==> !nonce.Null? && who.Text? && DID_KEY <= who.s)
               && (!sig.Text? ==> sig.Null? && (nonce.Null? || (who.Text? && flagged))))
            && (c.Some? ==>
                  place == Text(c.value.room) && number == Int(c.value.number) && text == Text(c.value.text)
                  && c.value.nonce == nonce && c.value.flagged == flagged
                  && (if sig.Text? then c.value.sig == Some(sig.s) else c.value.sig.None?)
                  && (if who.Text? then c.value.did == Some(who.s) else c.value.did.None?)
                  && (c.value.conflict <==>
                        sender.Text? && did.Text? && sender != did && DID_KEY <= sender.s && DID_KEY <= did.s)
                  && c.value.generation == (if generation.Some? then generation.value
                                            else if made == Null || made == Text("") then "UNKNOWN_LEGACY"
                                            else Str(made)))
  {
    hide Field, Truthy, Str;
  }

  // The signature of the record can be checked: the record does not contradict its sender, and its nonce is usable.
  predicate Checkable(c: Coerced) {
    !c.conflict && NonEmpty(c.sig) && NonceText(c.nonce).Some?
  }

  // The outcome of checking it.
  function CheckOf(k: Crypto, c: Coerced): Check
    requires c.did.Some? && c.sig.Some? && NonceText(c.nonce).Some?
  {
    k.check(c.did.value, c.sig.value, SignedText(c.room, NonceText(c.nonce).value, c.text))
  }

  // A did:key sender with a nonce, or a record that the server has flagged.
  predicate VouchedByServer(c: Coerced) {
    c.flagged || (c.did.Some? && DID_KEY <= c.did.value && !c.nonce.Null?)
  }

  // What each status of an accepted record says. The first three are the outcomes of the check, where there is one.
  lemma StatusCases(k: Crypto, r: Fields, room: Option<string>, generation: Option<string>, c: Coerced)
    requires Coerce(r, room, generation) == Some(c)
    ensures Checkable(c) ==> c.did.Some?
    ensures StatusOf(k, c) == VerifiedOffline <==> Checkable(c) && CheckOf(k, c) == Good
    ensures StatusOf(k, c) == InvalidSignature <==> Checkable(c) && CheckOf(k, c) == Bad
    ensures StatusOf(k, c) == SignaturePresentUnverified <==>
              !c.conflict && NonEmpty(c.sig) && (Checkable(c) ==> CheckOf(k, c) == Unusable)
    ensures StatusOf(k, c) == LegacyServerVerified <==>
              !c.conflict && !NonEmpty(c.sig) && NonEmpty(c.did) && VouchedByServer(c)
    ensures StatusOf(k, c) == Unsigned <==>
              !c.conflict && !NonEmpty(c.sig) && NonEmpty(c.did) && !VouchedByServer(c)
    ensures StatusOf(k, c) == ProvenanceIncomplete <==> c.conflict || (!NonEmpty(c.sig) && !NonEmpty(c.did))
  {
    AcceptedShape(r, room, generation, c);
    hide Coerce, Field;
  }

  // The nonces that can be signed: integers up to 16 digits by their decimal text, booleans never, all else by Python's
  // text of it.
  lemma NonceTextCases(nonce: Json)
    ensures nonce.Int? ==>
              (NonceText(nonce).Some? <==> 1 <= nonce.i < 10_000_000_000_000_000)
              && (NonceText(nonce).Some? ==> NonceText(nonce).value == Preimage.Decimal(nonce.i))
    ensures nonce.Bool? ==> NonceText(nonce).None?
    ensures nonce.Text? ==> NonceText(nonce) == Some(nonce.s)
    ensures nonce.Other? ==> NonceText(nonce) == Some(nonce.printed)
  {
    hide Preimage.Decimal;
  }

  // Python's text of a value.
  lemma StrCases(v: Json)
    ensures v == Null ==> Str(v) == "None"
    ensures v == Bool(true) ==> Str(v) == "True"
    ensures v == Bool(false) ==> Str(v) == "False"
    ensures v.Int? && v.i >= 0 ==> Preimage.IsNumeral(Str(v)) && Preimage.Value(Str(v)) == v.i
    ensures v.Int? && v.i < 0 ==> Str(v) == "-" + Str(Int(-v.i))
    ensures v.Text? ==> Str(v) == v.s
    ensures v.Other? ==> Str(v) == v.printed
  {
    hide Preimage.Decimal, Preimage.IsNumeral, Preimage.Value;
    if v.Int? {
      Preimage.DecimalReads(v.i);
    }
  }

  // The values that count as true: all but null, false, zero, the empty text and what Python calls false.
  lemma TruthyCases(v: Json)
    ensures !Truthy(v) <==> v in {Null, Bool(false), Int(0), Text("")} || (v.Other? && !v.truthy)
  {
  }

  // What is taken from a record under several names is the value of the first name that it has.
  lemma {:induction false} FieldMeans(r: Fields, names: seq<string>)
    ensures (forall i :: 0 <= i < |names| ==> names[i] !in r) ==> Field(r, names) == Null
    ensures forall i :: 0 <= i < |names| && names[i] in r && (forall j :: 0 <= j < i ==> names[j] !in r) ==>
              Field(r, names) == r[names[i]]
  {
    if names == [] {
    } else {
      FieldMeans(r, names[1..]);
      forall i | 0 <= i < |names| && names[i] in r && (forall j :: 0 <= j < i ==> names[j] !in r)
        ensures Field(r, names) == r[names[i]]
      {
        if i > 0 {
          assert names[1..][i - 1] == names[i];
          assert forall j :: 0 <= j < i - 1 ==> names[1..][j] == names[j + 1];
          assert names[0] !in r;
        }
      }
      if forall i :: 0 <= i < |names| ==> names[i] !in r {
        assert names[0] !in r;
        assert forall i :: 0 <= i < |names[1..]| ==> names[1..][i] == names[i + 1];
      }
    }
  }

  // The fields of a signed record as the room server returns it.
  function PostRecord(room: string, number: int, did: string, nonce: int, sig: string, text: string): Fields {
    map["room" := Text(room), "seq" := Int(number), "from" := Text(did), "nonce" := Int(nonce), "sig" := Text(sig),
        "text" := Text(text)]
  }

  // Posting and offline verification fit together: the record of a post, with a good signature over the text that Bench
  // signs for it, verifies, under its own room, number and text; with any other signature it does not.
  lemma OwnPostVerifies(k: Crypto, room: string, number: int, did: string, nonce: int, sig: string, text: string)
    requires Preimage.IsWritableRoom(room) && DID_KEY <= did && sig != [] && 0 < nonce <= MAX_NONCE
    ensures var v := VerifyRecord(k, PostRecord(room, number, did, nonce, sig, text), None, None);
            v.Some? && v.value.room == room && v.value.generation == UNKNOWN_LEGACY && v.value.number == number
            && v.value.hash == k.hash(text)
            && (v.value.status == VerifiedOffline <==>
                  k.check(did, sig, Preimage.SignedPostPreimage(room, nonce, text).value) == Good)
            && (v.value.status == InvalidSignature <==>
                  k.check(did, sig, Preimage.SignedPostPreimage(room, nonce, text).value) == Bad)
  {
    var r := PostRecord(room, number, did, nonce, sig, text);
    hide Preimage.Decimal, Preimage.IsWritableRoom;
    RoomNotEmpty(room);
    SecondName(r, "generation", "room_generation");
    SecondName(r, "signed", "verified");
    assert Field(r, ["did"]) == Null by {
      assert ["did"][1..] == [];
    }
    var c := Coerced(room, UNKNOWN_LEGACY, number, Some(did), false, Int(nonce), Some(sig), text, false);
    assert Coerce(r, None, None) == Some(c);
  }

  lemma RoomNotEmpty(room: string)
    requires Preimage.IsWritableRoom(room)
    ensures room != []
  {
  }
}
