/** What the device replies to each message, read from the bytes sent (`src/linux_uhid.rs`). */
module DeviceReplies {
  import opened Bytes
  import opened CtapHidMessage
  import opened Backend
  import opened Authenticator
  import opened CtapRequests
  import opened CtapMeaning
  import opened CtapReplies
  import opened Device

  // ---- Reading the CBOR replies ----------------------------------------------------------------------

  lemma KeyRead(env: Env, format: string, a: AttestedData, publicKey: Buffer)
    requires Inverts(env.decode, env.encode) && a.publicKey == CoseKey(env, publicKey)
    ensures ReadKey(env.decode, format, a) ==
              Some(RegistrationSeen(format, a.rpIdHash, a.flags, a.counter, a.aaguid, a.id, 1, -8, 6, publicKey))
  {
    hide Lookup;
    var key := [(Integer(1), Integer(1)), (Integer(3), Integer(-8)), (Integer(-1), Integer(6)),
                (Integer(-2), ByteString(publicKey))];
    assert env.decode(a.publicKey) == Some(Map(key));
    LookupIs(key, Integer(1), Integer(1), 0);
    LookupIs(key, Integer(3), Integer(-8), 1);
    LookupIs(key, Integer(-1), Integer(6), 2);
    LookupIs(key, Integer(-2), ByteString(publicKey), 3);
  }

  /** A host reads from the reply to a registration: attestation "none", the hash of the
      relying party's id, flags 0x41, counter 0, sixteen zero bytes, the credential's id, and an
      Ed25519 key for EdDSA with the credential's public key. */
  lemma RegistrationReplyRead(env: Env, rpId: string, r: Registration)
    requires Inverts(env.decode, env.encode) && |r.credentialId| <= 0xffff
    ensures var reply := MakeCredentialReply(env, rpId, r);
            reply.Some? && ReadRegistration(env.decode, reply.value) ==
              Some(RegistrationSeen("none", env.sha256(rpId), 0x41, 0, Zeros(16), r.credentialId,
                                    1, -8, 6, r.publicKey))
  {
    hide Lookup, EncodeAttested, DecodeAttested, CoseKey, ReadKey, ReadMap;
    var a := AttestedDataOf(env, rpId, r);
    var entries := [(Integer(1), Text("none")), (Integer(2), ByteString(EncodeAttested(a))), (Integer(3), Map([]))];
    MapRead(env.decode, env.encode, entries);
    LookupIs(entries, Integer(1), Text("none"), 0);
    LookupIs(entries, Integer(2), ByteString(EncodeAttested(a)), 1);
    AttestedRoundTrip(a, []);
    KeyRead(env, "none", a, r.publicKey);
  }

  lemma ReplyFits(env: Env, rpId: string, r: Registration)
    ensures MakeCredentialReply(env, rpId, r).Some? <==> |r.credentialId| <= 0xffff
  {
  }

  /** A host reads from the reply to an assertion the credential's id, its type, the
      authenticator data and the signature. */
  lemma AssertionReplyRead(env: Env, a: Assertion)
    requires Inverts(env.decode, env.encode)
    ensures ReadAssertion(env.decode, GetAssertionReply(env, a)) ==
              Some(AssertionSeen(a.credentialId, "public-key", a.authenticatorData, a.signature))
  {
    hide Lookup, ReadMap;
    var credential := [(Text("id"), ByteString(a.credentialId)), (Text("type"), Text("public-key"))];
    var entries := [(Integer(1), Map(credential)), (Integer(2), ByteString(a.authenticatorData)),
                    (Integer(3), ByteString(a.signature))];
    MapRead(env.decode, env.encode, entries);
    LookupIs(entries, Integer(1), Map(credential), 0);
    LookupIs(entries, Integer(2), ByteString(a.authenticatorData), 1);
    LookupIs(entries, Integer(3), ByteString(a.signature), 2);
    LookupIs(credential, Text("id"), ByteString(a.credentialId), 0);
    LookupIs(credential, Text("type"), Text("public-key"), 1);
  }

  // ---- Requests, position by position ----------------------------------------------------------------

  /** A registration request is read as exactly what it says. */
  lemma RegistrationRequestMeans(env: Env, m: Message, rpId: string, eddsa: bool)
    ensures AsksToRegister(env.decode, m.payload, rpId, eddsa) <==>
              var q := ReadMakeCredential(env, m);
              q.MakeRequest? && q.rpId == rpId && (eddsa <==> -8 in q.algorithms)
    ensures ReadMakeCredential(env, m).Undecodable? <==> |m.payload| >= 2 && env.decode(m.payload[1..]).None?
  {
    hide RpIdIn, UserIdIn, AlgorithmsIn, HasRpId, HasUserId, Offers;
    forall entries: CborMap, userId: Buffer
      ensures Carries(env.decode, m.payload, entries) <==> Entries(env.decode, m.payload) == Found(entries)
      ensures HasRpId(entries, rpId) <==> RpIdIn(entries) == Some(rpId)
      ensures HasUserId(entries, userId) <==> UserIdIn(entries) == Some(userId)
      ensures Offers(entries, -8) <==> -8 in AlgorithmsIn(entries)
    {
      EntriesMean(env.decode, m.payload, entries);
      RpIdMeans(entries, rpId);
      UserIdMeans(entries, userId);
      OffersMeans(entries, -8);
    }
    hide Carries, Entries;
  }

  // ---- Every reply, spelled out ------------------------------------------------------------------------

  /** The one effect is a status byte on the message's channel, as the reply to a CBOR message. */
  predicate OnlyStatus(c: Credentials, m: Message, status: byte, prompted: bool, t: Effect) {
    t == Effect(c, Some(Message(m.cid, 0x90, [status])), true, prompted, None)
  }

  predicate IsCbor(m: Message, command: byte) { m.cmd == 0x90 && m.payload != [] && m.payload[0] == command }

  /** The replies to authenticatorMakeCredential. A request without a relying-party id or a user
      id gets 0x14. Otherwise the selection probe gets 0x35 on a yes; a request that does not
      offer EdDSA gets 0x26, unasked; a no gets 0x27; and on a yes the created credential is
      stored and its data sent. */
  lemma RegistrationReplies(env: Env, c: Credentials, m: Message, o: Outside, rpId: string, eddsa: bool)
    requires IsCbor(m, 0x01)
    ensures var t := HandleMessage(env, c, m, o);
            && (!(|m.payload| >= 2 && env.decode(m.payload[1..]).None?)
                && (forall x: string, y: bool :: !AsksToRegister(env.decode, m.payload, x, y)) ==>
                  OnlyStatus(c, m, 0x14, false, t))
            && (AsksToRegister(env.decode, m.payload, rpId, eddsa) ==>
                  var probe := rpId == "make.me.blink";
                  && (probe && o.answer.Yes? ==> OnlyStatus(c, m, 0x35, true, t))
                  && (!probe && !eddsa ==> OnlyStatus(c, m, 0x26, false, t))
                  && ((probe || eddsa) && o.answer.No? ==> OnlyStatus(c, m, 0x27, true, t))
                  && (!probe && eddsa && o.answer.Yes? ==> EnrolledFor(env, c, m, rpId, o.created, t)))
  {
    hide ReadMakeCredential, AsksToRegister, MakeCredentialReply, ReadRegistration;
    var q := ReadMakeCredential(env, m);
    RegistrationRequestMeans(env, m, rpId, eddsa);
    if q.MakeRequest? {
      RegistrationRequestMeans(env, m, q.rpId, -8 in q.algorithms);
      if o.created.Ok? {
        var r := Registration(o.created.value.handle.bytes, o.created.value.publicKey);
        ReplyFits(env, q.rpId, r);
        if |r.credentialId| <= 0xffff && Inverts(env.decode, env.encode) {
          RegistrationReplyRead(env, q.rpId, r);
        }
      }
    }
  }

  /** What follows a yes to a registration: if the backend made a credential, it is stored for
      `rpId` with counter 0, and the reply carries its id and key. */
  ghost predicate EnrolledFor(env: Env, c: Credentials, m: Message, rpId: string, created: Result<Created>, t: Effect) {
    if created.Err? then t == Effect(c, None, false, true, None)
    else
      var id, publicKey := created.value.handle.bytes, created.value.publicKey;
      && t.credentials == c[id := CredentialRecord(rpId, created.value.handle, 0)] && t.asserted == None
      && (|id| <= 0xffff ==>
            && t.running && t.sent.Some? && t.sent.value.cid == m.cid && t.sent.value.cmd == 0x90
            && (Inverts(env.decode, env.encode) ==>
                  ReadRegistration(env.decode, t.sent.value.payload) ==
                  Some(RegistrationSeen("none", env.sha256(rpId), 0x41, 0, Zeros(16), id, 1, -8, 6, publicKey))))
  }

  /** The credential that an assertion uses: the first allow-listed one of this relying party. */
  predicate FirstMatch(c: Credentials, q: AssertionRequest, id: Buffer) {
    exists k :: 0 <= k < |q.allowList| && q.allowList[k] == id && id in c && c[id].rpId == q.rpId
                && forall j | 0 <= j < k :: !(q.allowList[j] in c && c[q.allowList[j]].rpId == q.rpId)
  }

  predicate NoMatch(c: Credentials, q: AssertionRequest) {
    forall k | 0 <= k < |q.allowList| :: !(q.allowList[k] in c && c[q.allowList[k]].rpId == q.rpId)
  }

  /** What follows once the assertion may go ahead: if the backend signed, the credential's
      counter moves and the reply carries the data with the new counter and the signature. */
  ghost predicate AssertedWith(env: Env, c: Credentials, m: Message, q: AssertionRequest, id: Buffer,
                               signed: Result<Buffer>, t: Effect)
    requires id in c
  {
    if signed.Err? then t == Effect(c, None, false, q.userPresent, None)
    else
      var count := if c[id].signCount == 0xffff_ffff then c[id].signCount else c[id].signCount + 1;
      && t.credentials == c[id := CredentialRecord(c[id].rpId, c[id].backendHandle, count)] && t.running
      && t.sent.Some? && t.sent.value.cid == m.cid && t.sent.value.cmd == 0x90
      && (Inverts(env.decode, env.encode) ==>
            exists data: Buffer ::
              && ReadAssertion(env.decode, t.sent.value.payload)
                 == Some(AssertionSeen(id, "public-key", data, signed.value))
              && |data| == 37 && data[..32] == env.sha256(q.rpId) && data[32] == (if q.userPresent then 1 else 0)
              && FromBigEndian32(data[33..37]) == count)
  }

  /** The replies to authenticatorGetAssertion. A request without a relying-party id or a
      32-byte hash gets 0x14. Any other is read as the `q` it asks for: without a matching
      credential it gets 0x2e, unasked; where presence is wanted, a no gets 0x27; otherwise
      the first matching credential is used. */
  lemma AssertionReplies(env: Env, c: Credentials, m: Message, o: Outside) returns (q: AssertionRequest, id: Buffer)
    requires IsCbor(m, 0x02) && !(|m.payload| >= 2 && env.decode(m.payload[1..]).None?)
    ensures var t := HandleMessage(env, c, m, o);
            if AsksToAssert(env.decode, m.payload, q.rpId, q.clientDataHash, q.allowList, q.userPresent) then
              && (NoMatch(c, q) ==> OnlyStatus(c, m, 0x2e, false, t))
              && (!NoMatch(c, q) ==>
                    && FirstMatch(c, q, id)
                    && (q.userPresent && o.answer.No? ==> OnlyStatus(c, m, 0x27, true, t))
                    && (!q.userPresent || o.answer.Yes? ==> AssertedWith(env, c, m, q, id, o.signed, t)))
            else
              && OnlyStatus(c, m, 0x14, false, t)
              && forall entries: CborMap, rpId: string, hash: Buffer ::
                   !(Carries(env.decode, m.payload, entries) && LastRpId(entries, |entries|, rpId)
                     && LastHash(entries, |entries|, hash))
  {
    hide ReadGetAssertion, AsksToAssert, LastRpId, LastHash, GetAssertionReply, ReadAssertion, AuthenticatorData;
    AssertionRequestMeans(env.decode, m.payload);
    var r := ReadGetAssertion(env.decode, m.payload);
    q, id := AssertionRequest("", [], [], false), [];
    OnlyFoundAsks(env.decode, m.payload, q.rpId, q.clientDataHash, q.allowList, q.userPresent);
    if r.Found? {
      q := RequestOf(r.value);
      var selected := SelectCredential(c, q.rpId, q.allowList);
      if selected.None? {
        assert forall k | 0 <= k < |q.allowList| :: !Matches(c, q.rpId, q.allowList[k]);
      } else {
        id := selected.value;
        var k :| 0 <= k < |q.allowList| && q.allowList[k] == id
                 && forall j | 0 <= j < k :: !Matches(c, q.rpId, q.allowList[j]);
        assert FirstMatch(c, q, id) && !NoMatch(c, q);
        var count := SaturatingIncrement(c[id].signCount);
        AuthenticatorDataFields(env.sha256(q.rpId), q.userPresent, count);
        if o.signed.Ok? && Inverts(env.decode, env.encode) {
          AssertionReplyRead(env, Assertion(id, DataFor(env.sha256, c, q, id), o.signed.value, count));
        }
      }
    }
  }

  lemma RegistrationAssertsNothing(env: Env, c: Credentials, m: Message, o: Outside)
    ensures MakeCredential(env, c, m, o).asserted == None
  {
    hide ReadMakeCredential, MakeCredentialReply;
  }

  lemma AssertionIsReply(env: Env, c: Credentials, m: Message, o: Outside)
    ensures var t := HandleGetAssertion(env, c, m, o);
            && (t.asserted.Some? <==> t.sent.Some? && t.sent.value.payload != [] && t.sent.value.payload[0] == 0)
            && (t.asserted.Some? ==> t.sent == Some(Message(m.cid, 0x90, GetAssertionReply(env, t.asserted.value))))
  {
    hide ReadGetAssertion, SelectCredential, DataFor;
  }

  /** A turn makes an assertion exactly if it answers a GetAssertion with status 0, and what a
      host then reads is that assertion. */
  lemma AssertedIsSent(env: Env, c: Credentials, m: Message, o: Outside)
    ensures var t := HandleMessage(env, c, m, o);
            && (t.asserted.Some? <==>
                  IsCbor(m, 0x02) && t.sent.Some? && t.sent.value.payload != [] && t.sent.value.payload[0] == 0)
            && (t.asserted.Some? && Inverts(env.decode, env.encode) ==>
                  var a := t.asserted.value;
                  && t.sent.value.cid == m.cid && t.sent.value.cmd == 0x90
                  && ReadAssertion(env.decode, t.sent.value.payload) ==
                     Some(AssertionSeen(a.credentialId, "public-key", a.authenticatorData, a.signature)))
  {
    hide MakeCredential, HandleGetAssertion, GetAssertionReply, GetInfoReply, ReadAssertion, DummyRegistration, Inverts;
    RegistrationAssertsNothing(env, c, m, o);
    AssertionIsReply(env, c, m, o);
    var t := HandleMessage(env, c, m, o);
    if t.asserted.Some? && Inverts(env.decode, env.encode) {
      AssertionReplyRead(env, t.asserted.value);
    }
  }

  /** A CBOR message that puts a question and is answered no gets exactly 0x27: no credential
      changes and nothing is asserted. */
  lemma NoIsDenied(env: Env, c: Credentials, m: Message, o: Outside)
    requires m.cmd == 0x90 && Prompts(env, c, m) && o.answer.No?
    ensures OnlyStatus(c, m, 0x27, true, HandleMessage(env, c, m, o))
  {
    hide ReadMakeCredential, ReadGetAssertion, SelectCredential;
  }

  /** The replies to the remaining CBOR messages: selection gets 0x00 on a yes and 0x27 on a no;
      getInfo gets the one version, an all-zero AAGUID and the two options; an empty message and
      any other command get nothing. */
  lemma OtherCborReplies(env: Env, c: Credentials, m: Message, o: Outside)
    requires m.cmd == 0x90
    ensures var t := HandleMessage(env, c, m, o);
            && (IsCbor(m, 0x0b) && o.answer.Yes? ==> OnlyStatus(c, m, 0x00, true, t))
            && (IsCbor(m, 0x0b) && o.answer.No? ==> OnlyStatus(c, m, 0x27, true, t))
            && (m.payload == [] || m.payload[0] !in {0x01, 0x02, 0x04, 0x0b} ==>
                  t == Effect(c, None, true, false, None))
            && (IsCbor(m, 0x04) ==>
                  && t.credentials == c && t.running && !t.prompted && t.asserted == None
                  && t.sent.Some? && t.sent.value.cid == m.cid && t.sent.value.cmd == 0x90
                  && (Inverts(env.decode, env.encode) ==> SeesInfo(ReadMap(env.decode, t.sent.value.payload))))
  {
    hide ReadMap, MakeCredential, HandleGetAssertion;
    if Inverts(env.decode, env.encode) {
      InfoRead(env);
    }
  }

  predicate SeesInfo(info: Option<CborMap>) {
    && info.Some? && |info.value| == 3
    && Lookup(info.value, Integer(1)) == Some(Array([Text("FIDO_2_0")]))
    && Lookup(info.value, Integer(3)) == Some(ByteString(Zeros(16)))
    && Lookup(info.value, Integer(4)) == Some(Map([(Text("rk"), Bool(false)), (Text("up"), Bool(true))]))
  }

  lemma InfoRead(env: Env)
    requires Inverts(env.decode, env.encode)
    ensures SeesInfo(ReadMap(env.decode, GetInfoReply(env)))
  {
    hide Lookup, ReadMap;
    var options := [(Text("rk"), Bool(false)), (Text("up"), Bool(true))];
    var info := [(Integer(1), Array([Text("FIDO_2_0")])), (Integer(3), ByteString(Zeros(16))),
                 (Integer(4), Map(options))];
    MapRead(env.decode, env.encode, info);
    LookupIs(info, Integer(1), Array([Text("FIDO_2_0")]), 0);
    LookupIs(info, Integer(3), ByteString(Zeros(16)), 1);
    LookupIs(info, Integer(4), Map(options), 2);
  }

  /** The replies below CBOR, byte by byte. A PING gets its payload back. An INIT of at least
      eight bytes gets its nonce, the drawn channel number, protocol version 2, device version
      1.0.0 and the capabilities CBOR and NMSG; a shorter one gets nothing. A WINK gets an empty
      reply. Any other command gets nothing. */
  lemma HidReplies(env: Env, c: Credentials, m: Message, o: Outside)
    requires m.cmd != 0x90 && m.cmd != 0x83 && |o.newCid| == 4
    ensures var t := HandleMessage(env, c, m, o);
            && t.credentials == c && t.running && !t.prompted && t.asserted == None
            && (m.cmd == 0x81 ==> t.sent == Some(m))
            && (m.cmd == 0x86 && |m.payload| < 8 ==> t.sent == None)
            && (m.cmd == 0x86 && |m.payload| >= 8 ==>
                  && t.sent.Some? && t.sent.value.cid == m.cid && t.sent.value.cmd == 0x86
                  && var reply := t.sent.value.payload;
                     && |reply| == 17 && reply[..8] == m.payload[..8] && reply[8..12] == o.newCid
                     && reply[12..] == [2, 1, 0, 0, 0x0c])
            && (m.cmd == 0x88 ==> t.sent == Some(Message(m.cid, 0x88, [])))
            && (m.cmd !in {0x81, 0x86, 0x88} ==> t.sent == None)
  {
    if m.cmd == 0x86 && |m.payload| >= 8 {
      var nonce := m.payload[..8];
      var reply := InitReply(nonce, o.newCid);
      assert reply[..8] == nonce && reply[8..12] == o.newCid && reply[12..] == [2, 1, 0, 0, 0x0c];
    }
  }

  /** The U2F replies: "U2F_V2" to a version request, "wrong data" to an authentication
      request, "conditions not satisfied" to a presence probe answered no, a made-up registration
      to one answered yes, and "instruction not supported" to everything else. */
  lemma U2fReplies(env: Env, c: Credentials, m: Message, o: Outside)
    requires m.cmd == 0x83
    ensures var t := HandleMessage(env, c, m, o);
            var instruction := if |m.payload| > 1 then m.payload[1] else 0;
            var probe := instruction == 0x01 && |m.payload| > 2 && m.payload[2] == 0x03;
            && t.credentials == c && t.asserted == None && (t.prompted <==> probe)
            && (instruction == 0x03 ==>
                  t.sent == Some(Message(m.cid, 0x83, [0x55, 0x32, 0x46, 0x5f, 0x56, 0x32, 0x90, 0x00])))
            && (instruction == 0x02 ==> t.sent == Some(Message(m.cid, 0x83, [0x6a, 0x80])))
            && (probe && o.answer.No? ==> t.sent == Some(Message(m.cid, 0x83, [0x69, 0x85])))
            && (probe && o.answer.Yes? ==>
                  && t.sent.Some? && t.sent.value.cid == m.cid && t.sent.value.cmd == 0x83
                  && MadeUpRegistration(t.sent.value.payload))
            && (!probe && instruction !in {0x02, 0x03} ==> t.sent == Some(Message(m.cid, 0x83, [0x6d, 0x00])))
  {
    MadeUpRegistrationRead();
  }

  /** "chrome-presence-probe" */
  const PROBE_HANDLE: Buffer := [
    0x63, 0x68, 0x72, 0x6f, 0x6d, 0x65, 0x2d, 0x70, 0x72, 0x65, 0x73, 0x65, 0x6e, 0x63, 0x65, 0x2d,
    0x70, 0x72, 0x6f, 0x62, 0x65]

  /** Reserved byte 5, an uncompressed point (4, then 64 bytes), a key handle behind its length,
      a certificate and a signature, and the status word 0x9000. */
  predicate MadeUpRegistration(b: Buffer) {
    && |b| == 103 && b[0] == 5 && b[1] == 4 && (forall i | 2 <= i < 66 :: b[i] == 0x42)
    && b[66] == 21 && b[67..88] == PROBE_HANDLE
    && b[88..93] == [0x30, 3, 2, 1, 0] && b[93..101] == [0x30, 6, 2, 1, 1, 2, 1, 1] && b[101..] == [0x90, 0x00]
  }

  lemma MadeUpRegistrationRead()
    ensures MadeUpRegistration(DummyRegistration())
  {
    var b := DummyRegistration();
    assert b[67..88] == PROBE_HANDLE;
    assert b[88..93] == [0x30, 3, 2, 1, 0] && b[93..101] == [0x30, 6, 2, 1, 1, 2, 1, 1] && b[101..] == [0x90, 0x00];
  }
}
