/** Reading CTAP2 requests out of decoded CBOR, and the attested authenticator data of a
    registration (`src/linux_uhid.rs`). */
module CtapRequests {
  import opened Bytes

  datatype Value =
    | Integer(n: int)
    | Text(text: string)
    | ByteString(bytes: Buffer)
    | Bool(flag: bool)
    | Array(items: seq<Value>)
    | Map(entries: seq<(Value, Value)>)
    | Other

  /** A request field: the CBOR did not decode, the field is missing, or here it is. */
  datatype Parsed<+T> = Malformed | Missing | Found(value: T)

  /** `ciborium::de::from_reader` on everything after the command byte. */
  type Decoder = Buffer -> Option<Value>

  function Entries(decode: Decoder, payload: Buffer): Parsed<seq<(Value, Value)>> {
    if |payload| < 2 then Missing
    else
      match decode(payload[1..])
      case None => Malformed
      case Some(Map(entries)) => Found(entries)
      case Some(_) => Missing
  }

  /** The first entry filed under `key`. */
  function Lookup(entries: seq<(Value, Value)>, key: Value): Option<Value> {
    if entries == [] then None
    else if entries[0].0 == key then Some(entries[0].1)
    else Lookup(entries[1..], key)
  }

  // ---- authenticatorMakeCredential -----------------------------------------------------------------

  /** The relying party's id. A relying-party map without an id is passed over. */
  function RpIdIn(entries: seq<(Value, Value)>): Option<string> {
    if entries == [] then None
    else if entries[0].0 != Integer(2) then RpIdIn(entries[1..])
    else if !entries[0].1.Map? then None
    else
      match Lookup(entries[0].1.entries, Text("id"))
      case None => RpIdIn(entries[1..])
      case Some(Text(id)) => Some(id)
      case Some(_) => None
  }

  function FirstBytesUnder(entries: seq<(Value, Value)>, key: Value): Option<Buffer> {
    if entries == [] then None
    else if entries[0].0 == key && entries[0].1.ByteString? then Some(entries[0].1.bytes)
    else FirstBytesUnder(entries[1..], key)
  }

  function UserIdIn(entries: seq<(Value, Value)>): Option<Buffer> {
    match Lookup(entries, Integer(3))
    case Some(Map(user)) => FirstBytesUnder(user, Text("id"))
    case _ => None
  }

  predicate FitsInt64(n: int) { -0x8000_0000_0000_0000 <= n < 0x8000_0000_0000_0000 }

  function FirstAlgorithm(fields: seq<(Value, Value)>): Option<int> {
    if fields == [] then None
    else if fields[0].0 == Text("alg") && fields[0].1.Integer? && FitsInt64(fields[0].1.n) then Some(fields[0].1.n)
    else FirstAlgorithm(fields[1..])
  }

  function AlgorithmsOf(parameters: seq<Value>): seq<int> {
    if parameters == [] then []
    else
      var rest := AlgorithmsOf(parameters[1..]);
      if !parameters[0].Map? then rest
      else
        match FirstAlgorithm(parameters[0].entries)
        case Some(a) => [a] + rest
        case None => rest
  }

  function AlgorithmsIn(entries: seq<(Value, Value)>): seq<int> {
    match Lookup(entries, Integer(4))
    case Some(Array(parameters)) => AlgorithmsOf(parameters)
    case _ => []
  }

  // ---- authenticatorGetAssertion ---------------------------------------------------------------------

  datatype GetAssertion = GetAssertion(rpId: Option<string>, hash: Option<Buffer>, allowList: seq<Buffer>,
    userPresence: bool)

  const NO_FIELDS := GetAssertion(None, None, [], true)

  function IdsOf(descriptors: seq<Value>): seq<Buffer> {
    if descriptors == [] then []
    else
      var rest := IdsOf(descriptors[1..]);
      if !descriptors[0].Map? then rest
      else
        match FirstBytesUnder(descriptors[0].entries, Text("id"))
        case Some(id) => [id] + rest
        case None => rest
  }

  /** User presence after reading the first `n` options. */
  function PresenceAfter(options: seq<(Value, Value)>, n: nat, before: bool): bool
    requires n <= |options|
  {
    if n == 0 then before
    else
      var (option, value) := options[n - 1];
      if option == Text("up") && value.Bool? then value.flag else PresenceAfter(options, n - 1, before)
  }

  /** The fields after one more entry: a later entry of the right type wins, an entry of the
      wrong type is passed over, and a hash that is not 32 bytes long erases the hash. */
  function WithEntry(r: GetAssertion, key: Value, value: Value): GetAssertion {
    if key == Integer(1) then
      if value.Text? then r.(rpId := Some(value.text)) else r
    else if key == Integer(2) then
      if value.ByteString? then r.(hash := if |value.bytes| == 32 then Some(value.bytes) else None) else r
    else if key == Integer(3) then
      if value.Array? then r.(allowList := IdsOf(value.items)) else r
    else if key == Integer(5) then
      if value.Map? then r.(userPresence := PresenceAfter(value.entries, |value.entries|, r.userPresence)) else r
    else r
  }

  function FieldsAfter(entries: seq<(Value, Value)>, n: nat): GetAssertion
    requires n <= |entries|
  {
    if n == 0 then NO_FIELDS else WithEntry(FieldsAfter(entries, n - 1), entries[n - 1].0, entries[n - 1].1)
  }

  /** `parse_get_assertion_request`; the result has an rp id and a 32-byte hash. */
  function ReadGetAssertion(decode: Decoder, payload: Buffer): (r: Parsed<GetAssertion>)
    ensures r.Found? ==> r.value.rpId.Some? && r.value.hash.Some?
  {
    match Entries(decode, payload)
    case Malformed => Malformed
    case Missing => Missing
    case Found(entries) =>
      var r := FieldsAfter(entries, |entries|);
      if r.rpId.Some? && r.hash.Some? then Found(r) else Missing
  }

  method ParseGetAssertionRequest(decode: Decoder, payload: Buffer) returns (r: Parsed<GetAssertion>)
    ensures r == ReadGetAssertion(decode, payload)
  {
    if |payload| < 2 {
      return Missing;
    }
    var decoded := decode(payload[1..]);
    if decoded.None? {
      return Malformed;
    }
    if !decoded.value.Map? {
      return Missing;
    }
    var entries := decoded.value.entries;
    var rpId: Option<string>, hash: Option<Buffer>, allowList: seq<Buffer>, userPresence := None, None, [], true;
    for n := 0 to |entries|
      invariant GetAssertion(rpId, hash, allowList, userPresence) == FieldsAfter(entries, n)
    {
      var (key, value) := entries[n];
      if key == Integer(1) {
        if value.Text? {
          rpId := Some(value.text);
        }
      } else if key == Integer(2) {
        if value.ByteString? {
          hash := if |value.bytes| == 32 then Some(value.bytes) else None;
        }
      } else if key == Integer(3) {
        if value.Array? {
          allowList := IdsOf(value.items);
        }
      } else if key == Integer(5) {
        if value.Map? {
          ghost var before := userPresence;
          for i := 0 to |value.entries|
            invariant userPresence == PresenceAfter(value.entries, i, before)
          {
            var (option, setting) := value.entries[i];
            if option == Text("up") && setting.Bool? {
              userPresence := setting.flag;
            }
          }
        }
      }
    }
    if rpId.None? || hash.None? {
      return Missing;
    }
    return Found(GetAssertion(rpId, hash, allowList, userPresence));
  }

  /** Presence is asked for unless some options entry says `up: false` in so many words. */
  lemma {:induction false} PresenceWaivedExplicitly(entries: seq<(Value, Value)>, n: nat)
    requires n <= |entries| && !FieldsAfter(entries, n).userPresence
    ensures exists i ::
              0 <= i < n && entries[i].0 == Integer(5) && entries[i].1.Map?
              && (Text("up"), Bool(false)) in entries[i].1.entries
  {
    var (key, value) := entries[n - 1];
    if key == Integer(5) && value.Map? {
      var before := FieldsAfter(entries, n - 1).userPresence;
      if before {
        WaivedIn(value.entries, |value.entries|);
      } else {
        PresenceWaivedExplicitly(entries, n - 1);
      }
    } else {
      PresenceWaivedExplicitly(entries, n - 1);
    }
  }

  lemma {:induction false} WaivedIn(options: seq<(Value, Value)>, n: nat)
    requires n <= |options| && !PresenceAfter(options, n, true)
    ensures (Text("up"), Bool(false)) in options
  {
    var (option, value) := options[n - 1];
    if option == Text("up") && value.Bool? {
      assert options[n - 1] == (Text("up"), Bool(false));
    } else {
      WaivedIn(options, n - 1);
    }
  }

  // ---- Attested credential data -----------------------------------------------------------------------

  datatype AttestedData = AttestedData(rpIdHash: Buffer, flags: byte, counter: uint32, aaguid: Buffer, id: Buffer,
    publicKey: Buffer)

  predicate WellFormedAttested(a: AttestedData) { |a.rpIdHash| == 32 && |a.aaguid| == 16 && |a.id| <= 0xffff }

  function EncodeAttested(a: AttestedData): Buffer
    requires WellFormedAttested(a)
  {
    a.rpIdHash + [a.flags] + BigEndian32(a.counter) + a.aaguid + BigEndian16(|a.id|) + a.id + a.publicKey
  }

  /** How a relying party reads it (section 6.5.1 of WebAuthn Level 2). */
  function DecodeAttested(b: Buffer): Option<AttestedData> {
    if |b| < 55 then None
    else
      var n := FromBigEndian16(b[53..55]);
      if |b| < 55 + n then None
      else Some(AttestedData(b[..32], b[32], FromBigEndian32(b[33..37]), b[37..53], b[55..55 + n], b[55 + n..]))
  }

  lemma AttestedFields(a: AttestedData)
    requires WellFormedAttested(a)
    ensures var e, n := EncodeAttested(a), |a.id|;
            && |e| == 55 + n + |a.publicKey|
            && e[..32] == a.rpIdHash && e[32] == a.flags && e[33..37] == BigEndian32(a.counter)
            && e[37..53] == a.aaguid && e[53..55] == BigEndian16(n)
            && e[55..55 + n] == a.id && e[55 + n..] == a.publicKey
  {
    BigEndianBytes(|a.id|, a.counter);
    hide BigEndian16, BigEndian32;
  }

  lemma EncodesBack(b: Buffer)
    requires DecodeAttested(b).Some?
    ensures var d := DecodeAttested(b).value; WellFormedAttested(d) && EncodeAttested(d) == b
  {
    var d := DecodeAttested(b).value;
    BigEndian32RoundTrip(0, b[33..37]);
    BigEndian16RoundTrip(0, b[53..55]);
    hide BigEndian16, BigEndian32, FromBigEndian16, FromBigEndian32;
    assert b == b[..32] + [b[32]] + b[33..37] + b[37..53] + b[53..55] + d.id + d.publicKey;
  }

  lemma AttestedRoundTrip(a: AttestedData, b: Buffer)
    ensures WellFormedAttested(a) ==> DecodeAttested(EncodeAttested(a)) == Some(a)
    ensures DecodeAttested(b).Some? ==>
              WellFormedAttested(DecodeAttested(b).value) && EncodeAttested(DecodeAttested(b).value) == b
  {
    if WellFormedAttested(a) {
      AttestedFields(a);
      var e := EncodeAttested(a);
      BigEndian32RoundTrip(a.counter, e[33..37]);
      BigEndian16RoundTrip(|a.id|, e[53..55]);
    }
    hide EncodeAttested, BigEndian16, BigEndian32, FromBigEndian16, FromBigEndian32;
    if DecodeAttested(b).Some? {
      EncodesBack(b);
    }
  }

  /** Every field is where section 6.5.1 of WebAuthn Level 2 puts it. */
  lemma AttestedLayout(a: AttestedData)
    requires WellFormedAttested(a)
    ensures var e, n := EncodeAttested(a), |a.id|;
            && |e| == 55 + n + |a.publicKey|
            && e[..32] == a.rpIdHash && e[32] == a.flags
            && (e[33] as int) * 0x100_0000 + (e[34] as int) * 0x1_0000 + (e[35] as int) * 0x100 + e[36] as int
               == a.counter
            && e[37..53] == a.aaguid && (e[53] as int) * 0x100 + e[54] as int == n
            && e[55..55 + n] == a.id && e[55 + n..] == a.publicKey
  {
    AttestedFields(a);
    BigEndianBytes(|a.id|, a.counter);
    hide EncodeAttested, BigEndian16, BigEndian32;
    var e := EncodeAttested(a);
    assert e[33] == e[33..37][0] && e[34] == e[33..37][1] && e[35] == e[33..37][2] && e[36] == e[33..37][3];
    assert e[53] == e[53..55][0] && e[54] == e[53..55][1];
  }
}
