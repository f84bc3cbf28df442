/** When a message ends the event loop, over either backend (`src/linux_uhid.rs`). */
module DeviceEnds {
  import opened Bytes
  import opened Ed25519
  import opened Backend
  import opened FrostDkg
  import opened FrostSigning
  import opened FrostBackend
  import opened LocalBackend
  import opened CtapHidMessage
  import opened Authenticator
  import Service = AuthenticatorRuns
  import opened CtapRequests
  import opened Device
  import opened DeviceRuns

  /** The CBOR of a registration or assertion request does not decode. */
  predicate Garbled(env: Env, m: Message) {
    && m.cmd == CBOR && |m.payload| >= 2 && (m.payload[0] == MAKE_CREDENTIAL || m.payload[0] == GET_ASSERTION)
    && env.decode(m.payload[1..]).None?
  }

  /** The backend failed the service in `call`, or made an id that fits no two-byte length. */
  predicate Failed(call: Service.Call) {
    match call
    case Register(_, created) => created.Err? || |created.value.handle.bytes| > 0xffff
    case Assert(_, signed) => signed.Err?
    case Idle => false
  }

  /** A message ends the loop exactly when its CBOR does not decode, or a question is put and
      no answer can be read, or the backend fails; never because the credential found before
      the question is missing after it. The message then gets no reply. */
  lemma LoopEndsIfBackendFails(env: Env, c: Credentials, m: Message, o: Outside)
    ensures var t := HandleMessage(env, c, m, o);
            && (!t.running <==> Garbled(env, m) || (Prompts(env, c, m) && o.answer.Unreadable?)
                                || Failed(ServiceCall(env, c, m, o)))
            && (!t.running ==> t.sent == None)
  {
    hide MakeCredential, HandleGetAssertion, RegistrationCall, AssertionCall, GetInfoReply, DummyRegistration;
    hide RegistrationPrompts, AssertionPrompts;
    if m.cmd == CBOR && m.payload != [] && m.payload[0] == MAKE_CREDENTIAL {
      RegistrationEndsWhen(env, c, m, o);
    } else if m.cmd == CBOR && m.payload != [] && m.payload[0] == GET_ASSERTION {
      AssertionEndsWhen(env, c, m, o);
    }
  }

  lemma RegistrationEndsWhen(env: Env, c: Credentials, m: Message, o: Outside)
    requires m.cmd == CBOR && m.payload != [] && m.payload[0] == MAKE_CREDENTIAL
    ensures var t := MakeCredential(env, c, m, o);
            && (!t.running <==> Garbled(env, m) || (RegistrationPrompts(env, m) && o.answer.Unreadable?)
                                || Failed(RegistrationCall(env, m, o)))
            && (!t.running ==> t.sent == None)
  {
    hide EncodeAttested, RpIdIn, UserIdIn, AlgorithmsIn;
  }

  lemma AssertionEndsWhen(env: Env, c: Credentials, m: Message, o: Outside)
    requires m.cmd == CBOR && m.payload != [] && m.payload[0] == GET_ASSERTION
    ensures var t := HandleGetAssertion(env, c, m, o);
            && (!t.running <==> Garbled(env, m) || (AssertionPrompts(env, c, m) && o.answer.Unreadable?)
                                || Failed(AssertionCall(env, c, m, o)))
            && (!t.running ==> t.sent == None)
  {
    hide FieldsAfter, GetAssertionReply, DataFor, SelectCredential;
  }

  /** The backend behaved on `call`: it kept its contract, and did what it could. */
  ghost predicate Behaved(s: Suite, env: Env, c: Credentials, live: Live, held: BackendState, call: Service.Call,
    d: Draws, live': Live)
    requires |d.nonces| == 2
  {
    && Service.Honoured(s, env.sha256, Service.Store(c, live), call, live')
    && (Service.Succeeds(call) <==> Service.Able(s, env.sha256, c, held, call, d))
  }

  /** What ends the loop at a message, in terms of the request, the store, the backend and what
      the person and the generators contribute. */
  predicate EndsLoop(s: Suite, env: Env, c: Credentials, held: BackendState, m: Message, o: Outside, d: Draws)
    requires |d.nonces| == 2
  {
    || Garbled(env, m)
    || (Prompts(env, c, m) && o.answer.Unreadable?)
    || !Service.Able(s, env.sha256, c, held, ServiceCall(env, c, m, o), d)
  }

  /** Over either backend a message ends the loop exactly when that is so. */
  lemma LoopEndsExactlyWhen(s: Suite, env: Env, c: Credentials, live: Live, held: BackendState, m: Message,
    o: Outside, d: Draws, live': Live)
    requires |d.nonces| == 2 && Behaved(s, env, c, live, held, ServiceCall(env, c, m, o), d, live')
    ensures !HandleMessage(env, c, m, o).running <==> EndsLoop(s, env, c, held, m, o, d)
  {
    hide HandleMessage, ServiceCall, Garbled, Prompts, SignContract, CanSign, CanCreate, SelectCredential, DataFor;
    LoopEndsIfBackendFails(env, c, m, o);
  }

  lemma AssertionCallSelects(env: Env, c: Credentials, m: Message, o: Outside)
    requires ServiceCall(env, c, m, o).Assert?
    ensures var q := ServiceCall(env, c, m, o).request; SelectCredential(c, q.rpId, q.allowList).Some?
  {
    hide ReadMakeCredential, ReadGetAssertion, SelectCredential;
  }

  /** Over the local backend, once CBOR decodes and answers are readable, the loop ends only at
      a registration for the empty relying-party id that was answered yes. */
  lemma LocalEndsOnlyAtEmptyId(s: Suite, env: Env, c: Credentials, keys: Keys, m: Message, o: Outside, d: Draws)
    requires |d.nonces| == 2 && StoreAgrees(c, KeysLive(s, keys))
    ensures EndsLoop(s, env, c, LocalState(keys), m, o, d) <==>
              || Garbled(env, m)
              || (Prompts(env, c, m) && o.answer.Unreadable?)
              || (Registers(env, m, "") && o.answer.Yes?)
  {
    hide Garbled, Prompts, ReadMakeCredential, ReadGetAssertion, SelectCredential, DataFor, Registers;
    RegistersMeans(env, m, "");
    if ServiceCall(env, c, m, o).Assert? {
      AssertionCallSelects(env, c, m, o);
    }
  }

  /** The draws are usable for signing what assertion `q` asks for. */
  predicate UsableFor(s: Suite, env: Env, c: Credentials, st: FrostState, q: AssertionRequest, d: Draws)
    requires |d.nonces| == 2 && |st.preferred| == 2 && ValidSigners(st.preferred) && AvailableCount(st.available) >= 2
  {
    var id := SelectCredential(c, q.rpId, q.allowList);
    id.Some? && Handle(id.value) in st.polys
    && UsableDraws(s, st, Handle(id.value), DataFor(env.sha256, c, q, id.value) + q.clientDataHash, d.nonces)
  }

  /** When FROST declines: the empty id, a drawn key that is the identity element, fewer than
      two participants available, or unusable draws. */
  predicate FrostDeclines(s: Suite, env: Env, c: Credentials, st: FrostState, call: Service.Call, d: Draws)
    requires |d.nonces| == 2 && |st.preferred| == 2 && ValidSigners(st.preferred)
  {
    match call
    case Register(rpId, _) => rpId == "" || s.exp(Total(d.fs).constant) == Identity(s)
    case Assert(q, _) => AvailableCount(st.available) < 2 || !UsableFor(s, env, c, st, q, d)
    case Idle => false
  }

  /** Over FROST, the loop ends at exactly such a registration or assertion. */
  lemma FrostEndsExactlyWhen(s: Suite, env: Env, c: Credentials, st: FrostState, m: Message, o: Outside, d: Draws)
    requires Lawful(s) && ValidState(s, st) && |d.nonces| == 2 && StoreAgrees(c, LiveOf(s, st))
    ensures EndsLoop(s, env, c, FrostHeld(st), m, o, d) <==>
              || Garbled(env, m)
              || (Prompts(env, c, m) && o.answer.Unreadable?)
              || FrostDeclines(s, env, c, st, ServiceCall(env, c, m, o), d)
  {
    hide Garbled, Prompts, ServiceCall, SelectCredential, DataFor, UsableDraws, Lawful;
    if ServiceCall(env, c, m, o).Assert? {
      AssertionCallSelects(env, c, m, o);
    }
  }
}
