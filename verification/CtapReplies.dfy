/** How a host reads the replies of the authenticator. */
module CtapReplies {
  import opened Bytes
  import opened CtapRequests
  import opened CtapMeaning

  /** Decoding undoes encoding. */
  ghost predicate Inverts(decode: Decoder, encode: Value -> Buffer) {
    forall v: Value :: decode(encode(v)) == Some(v)
  }

  /** A successful reply: the status byte 0, then a CBOR map. */
  function ReadMap(decode: Decoder, payload: Buffer): Option<CborMap> {
    if payload == [] || payload[0] != 0 then None
    else
      match decode(payload[1..])
      case Some(Map(entries)) => Some(entries)
      case _ => None
  }

  lemma MapRead(decode: Decoder, encode: Value -> Buffer, entries: CborMap)
    requires Inverts(decode, encode)
    ensures ReadMap(decode, [0] + encode(Map(entries))) == Some(entries)
  {
    assert ([0] + encode(Map(entries)))[1..] == encode(Map(entries));
  }

  lemma LookupIs(entries: CborMap, key: Value, v: Value, i: nat)
    requires FirstAt(entries, key, v, i)
    ensures Lookup(entries, key) == Some(v)
  {
    LookupMeans(entries, key, v);
  }

  // ---- A registration reply --------------------------------------------------------------------------

  /** What a host learns from a registration (section 6.1.2 of CTAP 2.1, section 6.5.1 of
      WebAuthn Level 2, section 7 of RFC 8152). */
  datatype RegistrationSeen = RegistrationSeen(
    format: string, rpIdHash: Buffer, flags: byte, counter: uint32, aaguid: Buffer, id: Buffer,
    keyType: int, algorithm: int, curve: int, publicKey: Buffer)

  function ReadRegistration(decode: Decoder, payload: Buffer): Option<RegistrationSeen> {
    match ReadMap(decode, payload)
    case None => None
    case Some(reply) =>
      match (Lookup(reply, Integer(1)), Lookup(reply, Integer(2)))
      case (Some(Text(format)), Some(ByteString(authData))) =>
        (match DecodeAttested(authData)
         case None => None
         case Some(a) => ReadKey(decode, format, a))
      case _ => None
  }

  function ReadKey(decode: Decoder, format: string, a: AttestedData): Option<RegistrationSeen> {
    match decode(a.publicKey)
    case Some(Map(key)) =>
      (match (Lookup(key, Integer(1)), Lookup(key, Integer(3)), Lookup(key, Integer(-1)), Lookup(key, Integer(-2)))
       case (Some(Integer(keyType)), Some(Integer(algorithm)), Some(Integer(curve)), Some(ByteString(x))) =>
         Some(RegistrationSeen(format, a.rpIdHash, a.flags, a.counter, a.aaguid, a.id, keyType, algorithm, curve, x))
       case _ => None)
    case _ => None
  }

  // ---- An assertion reply ----------------------------------------------------------------------------

  /** What a host learns from an assertion (section 6.2.2 of CTAP 2.1). */
  datatype AssertionSeen = AssertionSeen(id: Buffer, kind: string, authenticatorData: Buffer, signature: Buffer)

  function ReadAssertion(decode: Decoder, payload: Buffer): Option<AssertionSeen> {
    match ReadMap(decode, payload)
    case None => None
    case Some(reply) =>
      match (Lookup(reply, Integer(1)), Lookup(reply, Integer(2)), Lookup(reply, Integer(3)))
      case (Some(Map(credential)), Some(ByteString(authData)), Some(ByteString(signature))) =>
        (match (Lookup(credential, Text("id")), Lookup(credential, Text("type")))
         case (Some(ByteString(id)), Some(Text(kind))) => Some(AssertionSeen(id, kind, authData, signature))
         case _ => None)
      case _ => None
  }
}
