/** Whole runs of the device: consent, replies, and end-to-end echo. */
module DeviceRuns {
  import opened Bytes
  import opened CtapHidPacket
  import opened CtapHidMessage
  import opened CtapHidReassembler
  import opened CtapHidRuns
  import opened CtapHidDelivery
  import opened Ed25519
  import opened Backend
  import opened Authenticator
  import Service = AuthenticatorRuns
  import opened CtapRequests
  import opened CtapMeaning
  import opened CtapReplies
  import opened Device
  import opened DeviceReplies

  /** A run from an empty device: `os[i]` is what the outside contributes to event `es[i]`. */
  ghost predicate Run(env: Env, es: seq<Event>, os: seq<Outside>, sts: seq<State>) {
    && |os| == |es| && |sts| == |es| + 1 && sts[0] == State(map[], map[])
    && (forall i | 0 <= i <= |es| :: WireChannels(sts[i].channels))
    && forall i | 0 <= i < |es| :: sts[i + 1] == Next(env, sts[i], es[i], os[i])
  }

  /** The channel tables of a run are in wire form of their own accord. */
  lemma TurnKeepsWireForm(env: Env, st: State, e: Event, o: Outside)
    requires WireChannels(st.channels)
    ensures WireChannels(Next(env, st, e, o).channels)
    ensures MessageOf(st, e).Some? ==> DeliverableOnWire(MessageOf(st, e).value)
  {
    hide Parse, Step, Overflows, HandleMessage;
    var p := PacketOf(e);
    if p.Some? {
      ParsedIsWireForm(e.data[..Min(|e.data|, 65)]);
      WireStep(st.channels, p.value);
    }
  }

  // ---- Consent ---------------------------------------------------------------------------------

  /** `m` asks for a credential for `rpId`, not as the selection probe, and offers EdDSA. */
  ghost predicate Registers(env: Env, m: Message, rpId: string) {
    IsCbor(m, 0x01) && rpId != "make.me.blink" && AsksToRegister(env.decode, m.payload, rpId, true)
  }

  lemma RegistersMeans(env: Env, m: Message, rpId: string)
    ensures Registers(env, m, rpId) <==>
              && m.cmd == CBOR && m.payload != [] && m.payload[0] == MAKE_CREDENTIAL
              && var q := ReadMakeCredential(env, m);
                 q.MakeRequest? && q.rpId == rpId != FIREFOX_SELECTION_RP_ID && COSE_EDDSA in q.algorithms
  {
    hide ReadMakeCredential, AsksToRegister;
    RegistrationRequestMeans(env, m, rpId, true);
  }

  /** `m` is Firefox's selection probe, whatever it offers. */
  ghost predicate SelectionProbe(env: Env, m: Message) {
    IsCbor(m, 0x01) && exists eddsa: bool :: AsksToRegister(env.decode, m.payload, "make.me.blink", eddsa)
  }

  /** The message put a question to the person, who said yes. */
  predicate SaidYes(env: Env, c: Credentials, m: Message, o: Outside) { Prompts(env, c, m) && o.answer == Yes }

  /** A reply, if any, goes to the channel the message came from. */
  predicate RepliesTo(m: Message, t: Effect) { t.sent.Some? ==> t.sent.value.cid == m.cid }

  /** A credential appears, or changes hands, only when the person said yes to registering it. */
  ghost predicate StoresOnYes(env: Env, c: Credentials, m: Message, o: Outside, t: Effect) {
    forall id | id in t.credentials ::
      (id in c && t.credentials[id].rpId == c[id].rpId)
      || (Registers(env, m, t.credentials[id].rpId) && SaidYes(env, c, m, o)
          && o.created.Ok? && o.created.value.handle.bytes == id)
  }

  /** The user-present flag of an assertion. */
  predicate ClaimsPresence(a: Assertion) { |a.authenticatorData| > 32 && a.authenticatorData[32] == 1 }

  predicate PresentOnYes(env: Env, c: Credentials, m: Message, o: Outside, t: Effect) {
    t.asserted.Some? && ClaimsPresence(t.asserted.value) ==> SaidYes(env, c, m, o)
  }

  ghost predicate Proper(env: Env, c: Credentials, m: Message, o: Outside, t: Effect) {
    RepliesTo(m, t) && StoresOnYes(env, c, m, o, t) && PresentOnYes(env, c, m, o, t)
  }

  /** A message puts a question exactly when its request and the store call for one, whatever
      the person or the backend then says. */
  lemma PromptedExactlyWhen(env: Env, c: Credentials, m: Message, o: Outside)
    ensures HandleMessage(env, c, m, o).prompted <==> Prompts(env, c, m)
  {
    hide ReadMakeCredential, ReadGetAssertion, SelectCredential, MakeCredentialReply, GetInfoReply, DummyRegistration;
  }

  /** What the person would have said makes no difference where no question is put. */
  lemma UnaskedAnswerIsIgnored(env: Env, c: Credentials, m: Message, o: Outside, answer: Answer)
    requires !Prompts(env, c, m)
    ensures HandleMessage(env, c, m, o.(answer := answer)) == HandleMessage(env, c, m, o)
  {
    hide ReadMakeCredential, ReadGetAssertion, SelectCredential, MakeCredentialReply, GetInfoReply, DummyRegistration;
    hide Authenticated;
  }

  lemma RegistrationIsProper(env: Env, c: Credentials, m: Message, o: Outside)
    requires m.cmd == CBOR && m.payload != [] && m.payload[0] == MAKE_CREDENTIAL
    ensures Proper(env, c, m, o, MakeCredential(env, c, m, o))
  {
    hide ReadMakeCredential, MakeCredentialReply, Registers;
    var q := ReadMakeCredential(env, m);
    if q.MakeRequest? {
      RegistersMeans(env, m, q.rpId);
    }
  }

  lemma ProbeChangesNothing(env: Env, c: Credentials, m: Message, o: Outside)
    requires SelectionProbe(env, m)
    ensures HandleMessage(env, c, m, o).credentials == c
  {
    hide ReadMakeCredential, MakeCredentialReply, AsksToRegister;
    var eddsa: bool :| AsksToRegister(env.decode, m.payload, "make.me.blink", eddsa);
    RegistrationRequestMeans(env, m, "make.me.blink", eddsa);
  }

  lemma AssertionIsProper(env: Env, c: Credentials, m: Message, o: Outside)
    requires m.cmd == CBOR && m.payload != [] && m.payload[0] == GET_ASSERTION
    ensures Proper(env, c, m, o, HandleGetAssertion(env, c, m, o))
  {
    hide ReadGetAssertion, GetAssertionReply, Registers, AuthenticatorData;
    var r := ReadGetAssertion(env.decode, m.payload);
    if r.Found? {
      var q := RequestOf(r.value);
      var id := SelectCredential(c, q.rpId, q.allowList);
      if id.Some? {
        AuthenticatorDataFields(env.sha256(q.rpId), q.userPresent, SaturatingIncrement(c[id.value].signCount));
      }
    }
  }

  /** What handling any one message may do: reply at most once and on the message's channel;
      store a credential only after a yes to a registration request for it, leaving every
      other credential with its relying party; claim user presence in an assertion only
      after a yes in the same turn; and for the Firefox selection probe, change nothing. */
  lemma MessageIsProper(env: Env, c: Credentials, m: Message, o: Outside)
    ensures Proper(env, c, m, o, HandleMessage(env, c, m, o))
    ensures SelectionProbe(env, m) ==> HandleMessage(env, c, m, o).credentials == c
  {
    hide ReadMakeCredential, GetInfoReply, DummyRegistration, InitReply, HandleGetAssertion, Registers, SelectionProbe;
    if SelectionProbe(env, m) {
      ProbeChangesNothing(env, c, m, o);
    }
    if m.cmd == CBOR && m.payload != [] && m.payload[0] == MAKE_CREDENTIAL {
      RegistrationIsProper(env, c, m, o);
    } else if m.cmd == CBOR && m.payload != [] && m.payload[0] == GET_ASSERTION {
      AssertionIsProper(env, c, m, o);
    } else {
      hide MakeCredential;
    }
  }

  /** Turn `i` received and served a registration of `id` for `rpId`, with a yes. */
  ghost predicate RegisteredIn(env: Env, st: State, e: Event, o: Outside, rpId: string, id: Buffer)
    requires ValidChannels(st.channels)
  {
    var m := MessageOf(st, e);
    && m.Some? && Registers(env, m.value, rpId) && SaidYes(env, st.credentials, m.value, o)
    && o.created.Ok? && o.created.value.handle.bytes == id
  }

  /** Presence over whole runs: every credential of the device goes back to a turn in which
      a registration request for its relying party was completed, the person was asked, said
      yes, and the backend created exactly that credential. */
  lemma {:induction false} EveryCredentialWasConsentedTo(env: Env, es: seq<Event>, os: seq<Outside>,
      sts: seq<State>, n: nat, id: Buffer)
    returns (i: nat)
    requires Run(env, es, os, sts) && n <= |es| && id in sts[n].credentials
    ensures i < n && RegisteredIn(env, sts[i], es[i], os[i], sts[n].credentials[id].rpId, id)
  {
    hide HandleMessage, Registers, Step, Parse;
    var st, e, o := sts[n - 1], es[n - 1], os[n - 1];
    assert sts[n] == Next(env, st, e, o);
    var m := MessageOf(st, e);
    if m.Some? {
      MessageIsProper(env, st.credentials, m.value, o);
    }
    if id in st.credentials && sts[n].credentials[id].rpId == st.credentials[id].rpId {
      i := EveryCredentialWasConsentedTo(env, es, os, sts, n - 1, id);
    } else {
      i := n - 1;
    }
  }

  /** The same, turn by turn: nothing is sent except as the one reply to a message just
      completed, and user presence is never claimed without a yes in that turn. */
  lemma EveryTurnIsProper(env: Env, es: seq<Event>, os: seq<Outside>, sts: seq<State>, i: nat)
    requires Run(env, es, os, sts) && i < |es|
    ensures var t, m := Turn(env, sts[i], es[i], os[i]), MessageOf(sts[i], es[i]);
            && (m.None? ==> t == Quiet(sts[i].credentials))
            && (m.Some? ==> RepliesTo(m.value, t) && PresentOnYes(env, sts[i].credentials, m.value, os[i], t))
            && (m.Some? && SelectionProbe(env, m.value) ==> sts[i + 1].credentials == sts[i].credentials)
  {
    hide HandleMessage, Registers, SelectionProbe, Step, Parse;
    if MessageOf(sts[i], es[i]).Some? {
      MessageIsProper(env, sts[i].credentials, MessageOf(sts[i], es[i]).value, os[i]);
    }
  }

  // ---- The credential service inside the device ----------------------------------------------------

  /** A turn does to the credentials what its call to the service does, and it replies with an
      assertion exactly when the service makes one. */
  lemma TurnIsCall(env: Env, st: State, e: Event, o: Outside)
    requires ValidChannels(st.channels)
    ensures Next(env, st, e, o).credentials == Service.After(st.credentials, TurnCall(env, st, e, o))
    ensures Turn(env, st, e, o).asserted ==
            match TurnCall(env, st, e, o)
            case Assert(q, signed) => Made(AssertReply(env.sha256, st.credentials, q, signed))
            case _ => None
  {
    hide Step, Parse, MakeCredential, HandleGetAssertion, RegistrationCall, AssertionCall, GetInfoReply,
         DummyRegistration;
    if MessageOf(st, e).Some? {
      RegistrationIsCall(env, st.credentials, MessageOf(st, e).value, o);
      AssertionIsCall(env, st.credentials, MessageOf(st, e).value, o);
    }
  }

  lemma RegistrationIsCall(env: Env, c: Credentials, m: Message, o: Outside)
    ensures var t, call := MakeCredential(env, c, m, o), RegistrationCall(env, m, o);
            t.credentials == Service.After(c, call) && t.asserted == None && !call.Assert?
  {
    hide ReadMakeCredential, MakeCredentialReply;
  }

  lemma AssertionIsCall(env: Env, c: Credentials, m: Message, o: Outside)
    ensures var t, call := HandleGetAssertion(env, c, m, o), AssertionCall(env, c, m, o);
            && t.credentials == Service.After(c, call)
            && t.asserted == if call.Assert? then Made(AssertReply(env.sha256, c, call.request, call.signed)) else None
  {
    hide ReadGetAssertion, GetAssertionReply, DataFor, SelectCredential;
  }

  function Made<T>(r: Reply<T>): Option<T> { if r.Success? then Some(r.value) else None }

  function CallsOf(env: Env, es: seq<Event>, os: seq<Outside>, sts: seq<State>): seq<Service.Call>
    requires |os| == |es| < |sts| && forall i | 0 <= i < |sts| :: ValidChannels(sts[i].channels)
  {
    seq(|es|, i requires 0 <= i < |es| => TurnCall(env, sts[i], es[i], os[i]))
  }

  function StoresOf(sts: seq<State>, lives: seq<Live>): seq<Service.Store>
    requires |lives| == |sts|
  {
    seq(|sts|, i requires 0 <= i < |sts| => Service.Store(sts[i].credentials, lives[i]))
  }

  /** A run over a backend that keeps its contract, with what is live in it at each point. */
  ghost predicate Backed(s: Suite, env: Env, es: seq<Event>, os: seq<Outside>, sts: seq<State>, lives: seq<Live>) {
    && Run(env, es, os, sts) && |lives| == |sts|
    && forall i | 0 <= i < |es| ::
         Service.Honoured(s, env.sha256, Service.Store(sts[i].credentials, lives[i]),
           TurnCall(env, sts[i], es[i], os[i]), lives[i + 1])
  }

  /** Every run of the device is a run of the credential service, most of its turns idle. */
  lemma DeviceRunsService(s: Suite, env: Env, es: seq<Event>, os: seq<Outside>, sts: seq<State>, lives: seq<Live>)
    requires Backed(s, env, es, os, sts, lives)
    ensures Service.Run(s, env.sha256, CallsOf(env, es, os, sts), StoresOf(sts, lives))
  {
    hide TurnCall, Next, Service.Honoured, Service.After;
    forall i | 0 <= i < |es|
      ensures Service.Step(s, env.sha256, StoresOf(sts, lives)[i], CallsOf(env, es, os, sts)[i],
              StoresOf(sts, lives)[i + 1])
    {
      TurnIsCall(env, sts[i], es[i], os[i]);
    }
  }

  /** Turn `i` answers with an assertion made with credential `id`. */
  predicate AssertsWith(env: Env, st: State, e: Event, o: Outside, id: Buffer)
    requires ValidChannels(st.channels)
  {
    var a := Turn(env, st, e, o).asserted;
    a.Some? && a.value.credentialId == id
  }

  /** How many of the first `n` turns do. */
  function AssertionsSent(env: Env, es: seq<Event>, os: seq<Outside>, sts: seq<State>, n: nat, id: Buffer): nat
    requires n <= |es| == |os| < |sts| && forall i | 0 <= i < |sts| :: ValidChannels(sts[i].channels)
  {
    if n == 0 then 0
    else AssertionsSent(env, es, os, sts, n - 1, id) + if AssertsWith(env, sts[n - 1], es[n - 1], os[n - 1], id)
         then 1 else 0
  }

  lemma {:induction false} SentIsAsserted(s: Suite, env: Env, es: seq<Event>, os: seq<Outside>, sts: seq<State>,
      lives: seq<Live>, n: nat, id: Buffer)
    requires Backed(s, env, es, os, sts, lives) && n <= |es|
    ensures AssertionsSent(env, es, os, sts, n, id) == Service.Assertions(CallsOf(env, es, os, sts),
            StoresOf(sts, lives), n, id)
  {
    hide TurnCall, Turn, Next, Service.Honoured, Service.After;
    if n == 0 {
    } else {
      SentIsAsserted(s, env, es, os, sts, lives, n - 1, id);
      TurnIsCall(env, sts[n - 1], es[n - 1], os[n - 1]);
    }
  }

  /** `m` asks for an assertion, with the fields of `q`. */
  ghost predicate IsRequest(env: Env, m: Message, q: AssertionRequest) {
    IsCbor(m, 0x02) && AsksToAssert(env.decode, m.payload, q.rpId, q.clientDataHash, q.allowList, q.userPresent)
  }

  /** The turn sent a reply from which a host reads `r`. */
  predicate RegistrationRead(env: Env, st: State, e: Event, o: Outside, r: RegistrationSeen)
    requires ValidChannels(st.channels)
  {
    var m, sent := MessageOf(st, e), Turn(env, st, e, o).sent;
    && m.Some? && sent.Some? && sent.value.cid == m.value.cid && sent.value.cmd == 0x90
    && ReadRegistration(env.decode, sent.value.payload) == Some(r)
  }

  /** The turn completed the request `q` and sent a reply from which a host reads `a`. */
  ghost predicate AssertionRead(env: Env, st: State, e: Event, o: Outside, q: AssertionRequest, a: AssertionSeen)
    requires ValidChannels(st.channels)
  {
    var m, sent := MessageOf(st, e), Turn(env, st, e, o).sent;
    && m.Some? && IsRequest(env, m.value, q)
    && sent.Some? && sent.value.cid == m.value.cid && sent.value.cmd == 0x90
    && ReadAssertion(env.decode, sent.value.payload) == Some(a)
  }

  lemma AssertionAnswered(env: Env, st: State, e: Event, o: Outside)
    requires ValidChannels(st.channels) && Turn(env, st, e, o).asserted.Some? && Inverts(env.decode, env.encode)
    ensures TurnCall(env, st, e, o).Assert?
    ensures var a := Turn(env, st, e, o).asserted.value;
            AssertionRead(env, st, e, o, TurnCall(env, st, e, o).request,
                          AssertionSeen(a.credentialId, "public-key", a.authenticatorData, a.signature))
  {
    hide Step, Parse, ReadMakeCredential, ReadGetAssertion, MakeCredentialReply, GetAssertionReply, GetInfoReply;
    hide DataFor, SelectCredential, DummyRegistration, AsksToAssert, ReadAssertion;
    var m := MessageOf(st, e).value;
    AssertedIsSent(env, st.credentials, m, o);
    AssertionRequestMeans(env.decode, m.payload);
  }

  lemma RegistrationAnswered(env: Env, st: State, e: Event, o: Outside)
    requires ValidChannels(st.channels) && TurnCall(env, st, e, o).Register? && Inverts(env.decode, env.encode)
    requires TurnCall(env, st, e, o).created.Ok? && |TurnCall(env, st, e, o).created.value.handle.bytes| == 32
    ensures TurnCall(env, st, e, o).created == o.created && MessageOf(st, e).Some?
    ensures var rpId, id := TurnCall(env, st, e, o).rpId, o.created.value.handle.bytes;
            && RegisteredIn(env, st, e, o, rpId, id)
            && RegistrationRead(env, st, e, o, RegistrationSeen("none", env.sha256(rpId), 0x41, 0, Zeros(16), id,
                                                                1, -8, 6, o.created.value.publicKey))
  {
    hide Step, Parse, ReadMakeCredential, ReadGetAssertion, MakeCredentialReply, GetAssertionReply, GetInfoReply;
    hide DataFor, SelectCredential, DummyRegistration, Registers, ReadRegistration;
    var m, rpId := MessageOf(st, e).value, TurnCall(env, st, e, o).rpId;
    var r := Registration(o.created.value.handle.bytes, o.created.value.publicKey);
    RegistersMeans(env, m, rpId);
    ReplyFits(env, rpId, r);
    RegistrationReplyRead(env, rpId, r);
  }

  /** The assertion read answers `q` with an allow-listed credential, is signed by the key that
      was read from its registration, and carries the flag and, as far as it fits, the
      number of assertions sent. */
  predicate Answers(s: Suite, env: Env, q: AssertionRequest, a: AssertionSeen, r: RegistrationSeen, sent: nat) {
    && a.id in q.allowList && a.kind == "public-key"
    && r.id == a.id && r.rpIdHash == env.sha256(q.rpId) && r.keyType == 1 && r.algorithm == -8 && r.curve == 6
    && Verify(s, r.publicKey, a.authenticatorData + q.clientDataHash, a.signature)
    && |a.authenticatorData| == 37 && a.authenticatorData[..32] == env.sha256(q.rpId)
    && (a.authenticatorData[32] == 1 <==> q.userPresent)
    && FromBigEndian32(a.authenticatorData[33..37]) == Min(sent, MAX_COUNT)
  }

  /** Turn `n` replied to the request `q` with what a host reads as `a`. Turn `i`, before it,
      completed a registration request for the same relying party, with a yes, and a host read
      `r` from its reply. And `a` answers `q` with the credential of `r`, the counter being the
      number of assertions with it that have left the device, this one included. */
  ghost predicate TracedTo(s: Suite, env: Env, es: seq<Event>, os: seq<Outside>, sts: seq<State>,
                           n: nat, i: nat, q: AssertionRequest, a: AssertionSeen, r: RegistrationSeen)
    requires i < n < |es| == |os| < |sts| && forall k | 0 <= k < |sts| :: ValidChannels(sts[k].channels)
  {
    && AssertionRead(env, sts[n], es[n], os[n], q, a)
    && RegisteredIn(env, sts[i], es[i], os[i], q.rpId, a.id) && RegistrationRead(env, sts[i], es[i], os[i], r)
    && Answers(s, env, q, a, r, AssertionsSent(env, es, os, sts, n + 1, a.id))
  }

  /** What every assertion that leaves the device says, traced back over the whole run, all in
      terms of the bytes a host reads. Some earlier registration for the same relying party,
      consented to, handed out an Ed25519 public key and this credential's id. The signature,
      over the data sent and the hash now asked for, verifies under that key. The data begins
      with the hash of the relying party's id and the user-present flag, and the counter in its
      bytes 33 to 36 is the number of assertions with this credential that have left the device,
      this one included, up to 2^32 - 1. */
  lemma EveryAssertionTracesBack(s: Suite, env: Env, es: seq<Event>, os: seq<Outside>, sts: seq<State>,
      lives: seq<Live>, n: nat)
    returns (i: nat, q: AssertionRequest, a: AssertionSeen, r: RegistrationSeen)
    requires Backed(s, env, es, os, sts, lives) && Inverts(env.decode, env.encode)
    requires n < |es| && Turn(env, sts[n], es[n], os[n]).asserted.Some?
    ensures i < n && TracedTo(s, env, es, os, sts, n, i, q, a, r)
  {
    hide Turn, TurnCall, Next, Service.After, Verify, RegisteredIn, RegistrationRead, AssertionRead, IsRequest;
    hide FromBigEndian32, MessageOf, SignContract, Inverts;
    var calls, stores := CallsOf(env, es, os, sts), StoresOf(sts, lives);
    TurnIsCall(env, sts[n], es[n], os[n]);
    q := calls[n].request;
    var made := Turn(env, sts[n], es[n], os[n]).asserted.value;
    a := AssertionSeen(made.credentialId, "public-key", made.authenticatorData, made.signature);
    DeviceRunsService(s, env, es, os, sts, lives);
    Service.AssertionMeaning(s, env.sha256, calls, stores, n);
    SentIsAsserted(s, env, es, os, sts, lives, n + 1, a.id);
    i := Service.Registrar(calls, n, a.id);
    AssertionAnswered(env, sts[n], es[n], os[n]);
    assert Service.Step(s, env.sha256, stores[i], calls[i], stores[i + 1]);
    RegistrationAnswered(env, sts[i], es[i], os[i]);
    r := RegistrationSeen("none", env.sha256(q.rpId), 0x41, 0, Zeros(16), a.id,
                          1, -8, 6, os[i].created.value.publicKey);
  }

  // ---- Echo ----------------------------------------------------------------------------------------

  /** Whatever arrives in a run, a PING is answered with its own payload; splitting the reply
      panics in neither build; and the host, whatever its table held, gets exactly that
      message back from the reports. */
  lemma PingIsEchoed(env: Env, es: seq<Event>, os: seq<Outside>, sts: seq<State>, i: nat, host: Channels)
    requires Run(env, es, os, sts) && i < |es| && WireChannels(host)
    requires MessageOf(sts[i], es[i]).Some? && MessageOf(sts[i], es[i]).value.cmd == PING
    ensures var m := MessageOf(sts[i], es[i]).value;
            && Turn(env, sts[i], es[i], os[i]) == Effect(sts[i].credentials, Some(m), true, false, None)
            && |m.payload| <= WIRE_LIMIT < COUNTER_LIMIT < COUNT_LIMIT
            && Deliveries(host, Received(Reports(m))) == [m]
  {
    hide Step, Parse, Reports, Received, Deliveries;
    TurnKeepsWireForm(env, sts[i], es[i], os[i]);
    WireRoundTrip(host, MessageOf(sts[i], es[i]).value);
  }

  /** The events bring these reports: anything after their first 65 bytes is ignored. */
  ghost predicate Bring(es: seq<Event>, bufs: seq<Buffer>) {
    |es| == |bufs| && forall k | 0 <= k < |es| :: es[k].Output? && |es[k].data| >= 65 && es[k].data[..65] == bufs[k]
  }

  lemma ReportTaken(env: Env, st: State, e: Event, b: Buffer, o: Outside, ps: seq<Packet>)
    requires e.Output? && |e.data| >= 65 && e.data[..65] == b && st.channels == After(map[], ps)
    ensures ValidChannels(st.channels) && Next(env, st, e, o).channels == After(map[], ps + Listed(Parse(b)))
  {
    hide Step, Parse, Turn, After;
    if Parse(b).Some? {
      RunSnoc(map[], ps, Parse(b).value);
    } else {
      assert ps + [] == ps;
    }
  }

  lemma {:induction false} TableIsRun(env: Env, es: seq<Event>, bufs: seq<Buffer>, os: seq<Outside>,
                                      sts: seq<State>, n: nat)
    requires Run(env, es, os, sts) && Bring(es, bufs) && n <= |bufs|
    ensures sts[n].channels == After(map[], Received(bufs[..n]))
  {
    hide Parse, Next, After;
    if n == 0 {
      EmptyRun(map[]);
    } else {
      TableIsRun(env, es, bufs, os, sts, n - 1);
      ReportTaken(env, sts[n - 1], es[n - 1], bufs[n - 1], os[n - 1], Received(bufs[..n - 1]));
      assert bufs[..n][..n - 1] == bufs[..n - 1];
    }
  }

  /** End to end: messages sent at the same time on distinct channels, in any order-preserving
      interleaving of their reports, are each completed exactly once, at their own last report,
      and nothing else is. */
  lemma InterleavedMessagesArrive(env: Env, es: seq<Event>, bufs: seq<Buffer>, stream: seq<Report>, tags: seq<nat>,
                                  ms: seq<Message>, os: seq<Outside>, sts: seq<State>, k: nat)
    requires Bring(es, bufs) && Arrives(bufs, stream) && Interleaves(stream, tags, AllReports(ms)) && Sendable(ms)
    requires Run(env, es, os, sts) && k < |es|
    ensures |tags| == |es| && tags[k] < |ms| && MessageOf(sts[k], es[k]) == Due(tags, ms, k)
  {
    hide Step, Parse, Interleaves, Fragments, After, Deliveries, Received, Count, Arrives;
    InterleavedDelivery(bufs, stream, tags, ms);
    ReceivedPrefix(bufs, stream, tags, ms, k);
    TableIsRun(env, es, bufs, os, sts, k);
    assert MessageOf(sts[k], es[k]) == CtapHidRuns.Output(map[], Received(bufs), k);
  }

  /** In particular, PINGs so sent are each echoed exactly once, at their own last report, and
      nothing else is sent. */
  lemma InterleavedPingsEchoed(env: Env, es: seq<Event>, bufs: seq<Buffer>, stream: seq<Report>, tags: seq<nat>,
                               ms: seq<Message>, os: seq<Outside>, sts: seq<State>, k: nat)
    requires Bring(es, bufs) && Arrives(bufs, stream) && Interleaves(stream, tags, AllReports(ms)) && Sendable(ms)
    requires forall i | 0 <= i < |ms| :: ms[i].cmd == PING
    requires Run(env, es, os, sts) && k < |es|
    ensures |tags| == |es| && tags[k] < |ms|
    ensures Turn(env, sts[k], es[k], os[k]).sent == Due(tags, ms, k)
  {
    hide Step, Parse, Interleaves, Fragments, Arrives, Count, MessageOf;
    InterleavedMessagesArrive(env, es, bufs, stream, tags, ms, os, sts, k);
  }

  lemma ReceivedPrefix(bufs: seq<Buffer>, stream: seq<Report>, tags: seq<nat>, ms: seq<Message>, k: nat)
    requires Arrives(bufs, stream) && Interleaves(stream, tags, AllReports(ms)) && Sendable(ms)
             && k < |bufs| == |Received(bufs)|
    ensures Received(bufs)[..k] == Received(bufs[..k]) && Parse(bufs[k]) == Some(Received(bufs)[k])
    ensures forall j | 0 <= j < |bufs| :: |bufs[j]| == 65
  {
    hide Parse, Interleaves, Fragments, Received, Count;
    forall j | 0 <= j < |bufs|
      ensures Parse(bufs[j]).Some?
    {
      ArrivesAsFragment(bufs, stream, tags, ms, j);
    }
    ReceivedAll(bufs);
    ReceivedAll(bufs[..k]);
  }
}
