/** The message loop of the virtual authenticator (`src/linux_uhid.rs`). */
module Device {
  import opened Bytes
  import opened CtapHidPacket
  import opened CtapHidMessage
  import opened CtapHidReassembler
  import opened CtapHidRuns
  import opened Backend
  import opened Authenticator
  import Service = AuthenticatorRuns
  import opened CtapRequests

  const PING: byte := 0x81
  const MSG: byte := 0x83
  const INIT: byte := 0x86
  const WINK: byte := 0x88
  const CBOR: byte := 0x90

  const MAKE_CREDENTIAL: byte := 0x01
  const GET_ASSERTION: byte := 0x02
  const GET_INFO: byte := 0x04
  const SELECTION: byte := 0x0b

  const STATUS_OK: byte := 0x00
  const MISSING_PARAMETER: byte := 0x14
  const UNSUPPORTED_ALGORITHM: byte := 0x26
  const OPERATION_DENIED: byte := 0x27
  const NO_CREDENTIALS: byte := 0x2e
  const PIN_NOT_SET: byte := 0x35

  const COSE_EDDSA := -8
  const FIREFOX_SELECTION_RP_ID := "make.me.blink"

  /** The library calls of the message loop, as arbitrary functions. */
  datatype Env = Env(sha256: string -> Digest, decode: Decoder, encode: Value -> Buffer)

  /** What the person at the terminal does when asked, if asked. */
  datatype Answer = Yes | No | Unreadable

  /** Everything outside the device that one message may depend on. */
  datatype Outside = Outside(answer: Answer, created: Result<Created>, signed: Result<Buffer>, newCid: Buffer)

  /** What handling one message does. When it does not keep running, the loop has ended
      with an error. */
  datatype Effect = Effect(credentials: Credentials, sent: Option<Message>, running: bool, prompted: bool,
    asserted: Option<Assertion>)

  function Quiet(c: Credentials): Effect { Effect(c, None, true, false, None) }

  function Ended(c: Credentials, prompted: bool): Effect { Effect(c, None, false, prompted, None) }

  function Send(c: Credentials, cid: uint32, cmd: byte, payload: Buffer, prompted: bool): Effect {
    Effect(c, Some(Message(cid, cmd, payload)), true, prompted, None)
  }

  function Status(c: Credentials, m: Message, status: byte, prompted: bool): Effect {
    Send(c, m.cid, CBOR, [status], prompted)
  }

  /** Ask, and answer with one status or the other. */
  function AskFor(c: Credentials, m: Message, o: Outside, granted: byte): Effect {
    match o.answer
    case Unreadable => Ended(c, true)
    case Yes => Status(c, m, granted, true)
    case No => Status(c, m, OPERATION_DENIED, true)
  }

  // ---- Replies ---------------------------------------------------------------------------------

  function InitReply(nonce: Buffer, newCid: Buffer): Buffer { nonce + newCid + [2, 1, 0, 0, 0x0c] }

  function GetInfoReply(env: Env): Buffer {
    [STATUS_OK] + env.encode(Map([
      (Integer(1), Array([Text("FIDO_2_0")])),
      (Integer(3), ByteString(Zeros(16))),
      (Integer(4), Map([(Text("rk"), Bool(false)), (Text("up"), Bool(true))]))]))
  }

  function CoseKey(env: Env, publicKey: Buffer): Buffer {
    env.encode(Map([(Integer(1), Integer(1)), (Integer(3), Integer(COSE_EDDSA)), (Integer(-1), Integer(6)),
      (Integer(-2), ByteString(publicKey))]))
  }

  function AttestedDataOf(env: Env, rpId: string, r: Registration): (a: AttestedData)
    ensures |r.credentialId| <= 0xffff ==> WellFormedAttested(a)
  {
    AttestedData(env.sha256(rpId), 0x41, 0, Zeros(16), r.credentialId, CoseKey(env, r.publicKey))
  }

  /** `make_credential_response`: a credential id must fit its two-byte length. */
  function MakeCredentialReply(env: Env, rpId: string, r: Registration): Option<Buffer> {
    if |r.credentialId| > 0xffff then None
    else
      var data := EncodeAttested(AttestedDataOf(env, rpId, r));
      Some([STATUS_OK] + env.encode(Map([(Integer(1), Text("none")), (Integer(2), ByteString(data)),
        (Integer(3), Map([]))])))
  }

  function GetAssertionReply(env: Env, a: Assertion): Buffer {
    [STATUS_OK] + env.encode(Map([
      (Integer(1), Map([(Text("id"), ByteString(a.credentialId)), (Text("type"), Text("public-key"))])),
      (Integer(2), ByteString(a.authenticatorData)),
      (Integer(3), ByteString(a.signature))]))
  }

  // ---- Handling one message -----------------------------------------------------------------------

  /** A registration request as far as it can be served. */
  datatype MakeRequest = Undecodable | Incomplete | MakeRequest(rpId: string, userId: Buffer, algorithms: seq<int>)

  function ReadMakeCredential(env: Env, m: Message): MakeRequest {
    match Entries(env.decode, m.payload)
    case Malformed => Undecodable
    case Missing => MakeRequest.Incomplete
    case Found(entries) =>
      match (RpIdIn(entries), UserIdIn(entries))
      case (Some(rpId), Some(userId)) => MakeRequest(rpId, userId, AlgorithmsIn(entries))
      case _ => MakeRequest.Incomplete
  }

  function MakeCredential(env: Env, c: Credentials, m: Message, o: Outside): Effect {
    match ReadMakeCredential(env, m)
    case Undecodable => Ended(c, false)
    case Incomplete => Status(c, m, MISSING_PARAMETER, false)
    case MakeRequest(rpId, _, algorithms) =>
      if rpId == FIREFOX_SELECTION_RP_ID then AskFor(c, m, o, PIN_NOT_SET)
      else if COSE_EDDSA !in algorithms then Status(c, m, UNSUPPORTED_ALGORITHM, false)
      else
        match o.answer
        case Unreadable => Ended(c, true)
        case No => Status(c, m, OPERATION_DENIED, true)
        case Yes => Enrolled(env, c, m, rpId, o.created)
  }

  /** The registration itself, once the person said yes. */
  function Enrolled(env: Env, c: Credentials, m: Message, rpId: string, created: Result<Created>): (t: Effect)
    ensures t.prompted
  {
    var after := AfterRegister(c, rpId, created);
    match RegisterReply(created)
    case Failure(_) => Ended(after, true)
    case Success(registration) =>
      match MakeCredentialReply(env, rpId, registration)
      case None => Ended(after, true)
      case Some(payload) => Send(after, m.cid, CBOR, payload, true)
  }

  function RequestOf(r: GetAssertion): AssertionRequest
    requires r.rpId.Some? && r.hash.Some?
  {
    AssertionRequest(r.rpId.value, r.hash.value, r.allowList, r.userPresence)
  }

  function HandleGetAssertion(env: Env, c: Credentials, m: Message, o: Outside): Effect {
    match ReadGetAssertion(env.decode, m.payload)
    case Malformed => Ended(c, false)
    case Missing => Status(c, m, MISSING_PARAMETER, false)
    case Found(r) => AnswerAssertion(env, c, m, RequestOf(r), o)
  }

  function AnswerAssertion(env: Env, c: Credentials, m: Message, q: AssertionRequest, o: Outside): Effect {
    if SelectCredential(c, q.rpId, q.allowList).None? then Status(c, m, NO_CREDENTIALS, false)
    else AskAndAuthenticate(env, c, m, q, o)
  }

  function AskAndAuthenticate(env: Env, c: Credentials, m: Message, q: AssertionRequest, o: Outside): Effect {
    if q.userPresent && o.answer.Unreadable? then Ended(c, true)
    else if q.userPresent && o.answer.No? then Status(c, m, OPERATION_DENIED, true)
    else Authenticated(env, c, m, q, o.signed)
  }

  /** The assertion itself, once its credential is known and any prompt was answered yes. */
  function Authenticated(env: Env, c: Credentials, m: Message, q: AssertionRequest, signed: Result<Buffer>): (t: Effect)
    ensures t.prompted == q.userPresent
  {
    var after := AfterAssert(c, q, signed);
    match AssertReply(env.sha256, c, q, signed)
    case Failure(_) => Ended(after, q.userPresent)
    case Success(a) =>
      Send(after, m.cid, CBOR, GetAssertionReply(env, a), q.userPresent).(asserted := Some(a))
  }

  function HandleCbor(env: Env, c: Credentials, m: Message, o: Outside): Effect {
    if m.payload == [] then Quiet(c)
    else if m.payload[0] == GET_INFO then Send(c, m.cid, CBOR, GetInfoReply(env), false)
    else if m.payload[0] == MAKE_CREDENTIAL then MakeCredential(env, c, m, o)
    else if m.payload[0] == GET_ASSERTION then HandleGetAssertion(env, c, m, o)
    else if m.payload[0] == SELECTION then AskFor(c, m, o, STATUS_OK)
    else Quiet(c)
  }

  /** The reply to the U2F registration probe, a fixed byte string. */
  function DummyRegistration(): Buffer {
    [0x05, 0x04] + Repeated(0x42, 64) + [21]
    + [0x63, 0x68, 0x72, 0x6f, 0x6d, 0x65, 0x2d, 0x70, 0x72, 0x65, 0x73, 0x65, 0x6e, 0x63, 0x65, 0x2d, 0x70, 0x72,
      0x6f, 0x62, 0x65]
    + [0x30, 0x03, 0x02, 0x01, 0x00] + [0x30, 0x06, 0x02, 0x01, 0x01, 0x02, 0x01, 0x01] + [0x90, 0x00]
  }

  function Repeated(b: byte, n: nat): Buffer { seq(n, i => b) }

  function HandleU2f(c: Credentials, m: Message, o: Outside): Effect {
    var instruction := if |m.payload| > 1 then m.payload[1] else 0;
    if instruction == 0x03 then Send(c, m.cid, MSG, [0x55, 0x32, 0x46, 0x5f, 0x56, 0x32, 0x90, 0x00], false)
    else if instruction == 0x02 then Send(c, m.cid, MSG, [0x6a, 0x80], false)
    else if instruction == 0x01 && |m.payload| > 2 && m.payload[2] == 0x03 then
      match o.answer
      case Unreadable => Ended(c, true)
      case Yes => Send(c, m.cid, MSG, DummyRegistration(), true)
      case No => Send(c, m.cid, MSG, [0x69, 0x85], true)
    else Send(c, m.cid, MSG, [0x6d, 0x00], false)
  }

  /** `handle_message` */
  function HandleMessage(env: Env, c: Credentials, m: Message, o: Outside): Effect {
    if m.cmd == PING then Send(c, m.cid, PING, m.payload, false)
    else if m.cmd == INIT then
      if |m.payload| < 8 then Quiet(c) else Send(c, m.cid, INIT, InitReply(m.payload[..8], o.newCid), false)
    else if m.cmd == WINK then Send(c, m.cid, WINK, [], false)
    else if m.cmd == MSG then HandleU2f(c, m, o)
    else if m.cmd == CBOR then HandleCbor(env, c, m, o)
    else Quiet(c)
  }

  // ---- When the person is asked -------------------------------------------------------------------

  /** A registration request asks when it is the selection probe or can be served. */
  predicate RegistrationPrompts(env: Env, m: Message) {
    var q := ReadMakeCredential(env, m);
    q.MakeRequest? && (q.rpId == FIREFOX_SELECTION_RP_ID || COSE_EDDSA in q.algorithms)
  }

  /** An assertion request asks when it wants presence and some credential matches. */
  predicate AssertionPrompts(env: Env, c: Credentials, m: Message) {
    var r := ReadGetAssertion(env.decode, m.payload);
    r.Found? && var q := RequestOf(r.value); q.userPresent && SelectCredential(c, q.rpId, q.allowList).Some?
  }

  /** Whether a message puts a question to the person: a matter of the request and the store. */
  predicate Prompts(env: Env, c: Credentials, m: Message) {
    if m.cmd == MSG then |m.payload| > 2 && m.payload[1] == 0x01 && m.payload[2] == 0x03
    else if m.cmd != CBOR || m.payload == [] then false
    else if m.payload[0] == MAKE_CREDENTIAL then RegistrationPrompts(env, m)
    else if m.payload[0] == GET_ASSERTION then AssertionPrompts(env, c, m)
    else m.payload[0] == SELECTION
  }

  // ---- What a message asks of the credential service -----------------------------------------------

  /** A registration reaches the service once it can be served and the person said yes. */
  function RegistrationCall(env: Env, m: Message, o: Outside): Service.Call {
    match ReadMakeCredential(env, m)
    case MakeRequest(rpId, _, algorithms) =>
      if rpId != FIREFOX_SELECTION_RP_ID && COSE_EDDSA in algorithms && o.answer.Yes?
        then Service.Register(rpId, o.created)
      else Service.Idle
    case _ => Service.Idle
  }

  /** An assertion reaches it once a credential matches and any prompt was answered yes. */
  function AssertionCall(env: Env, c: Credentials, m: Message, o: Outside): Service.Call {
    match ReadGetAssertion(env.decode, m.payload)
    case Found(r) => AuthorisedCall(c, RequestOf(r), o)
    case _ => Service.Idle
  }

  function AuthorisedCall(c: Credentials, q: AssertionRequest, o: Outside): Service.Call {
    if SelectCredential(c, q.rpId, q.allowList).Some? then ConsentedCall(q, o) else Service.Idle
  }

  function ConsentedCall(q: AssertionRequest, o: Outside): Service.Call {
    if !q.userPresent || o.answer.Yes? then Service.Assert(q, o.signed) else Service.Idle
  }

  function CborCall(env: Env, c: Credentials, m: Message, o: Outside): Service.Call {
    if m.payload == [] then Service.Idle
    else if m.payload[0] == MAKE_CREDENTIAL then RegistrationCall(env, m, o)
    else if m.payload[0] == GET_ASSERTION then AssertionCall(env, c, m, o)
    else Service.Idle
  }

  function ServiceCall(env: Env, c: Credentials, m: Message, o: Outside): Service.Call {
    if m.cmd == CBOR then CborCall(env, c, m, o) else Service.Idle
  }

  // ---- One turn of the loop ----------------------------------------------------------------------

  /** What `read` yields: an output report of the kernel, or anything else, which is skipped. */
  datatype Event = Output(data: Buffer) | Skipped

  /** What the device has exchanged with the outside: the reports it wrote, and the answers
      it got to its questions, one per question. */
  datatype Traffic = Traffic(written: seq<Report>, asked: seq<Answer>)

  datatype State = State(channels: Channels, credentials: Credentials)

  /** The packet an event carries: at most 65 bytes of the report are looked at. */
  function PacketOf(e: Event): Option<Packet> {
    match e
    case Output(data) => Parse(data[..Min(|data|, 65)])
    case Skipped => None
  }

  /** The message an event completes. */
  function MessageOf(st: State, e: Event): Option<Message>
    requires ValidChannels(st.channels)
  {
    match PacketOf(e)
    case None => None
    case Some(p) => Step(st.channels, p).output
  }

  function ChannelsAfter(st: State, e: Event): Channels
    requires ValidChannels(st.channels)
  {
    match PacketOf(e)
    case None => st.channels
    case Some(p) => Step(st.channels, p).channels
  }

  function Turn(env: Env, st: State, e: Event, o: Outside): Effect
    requires ValidChannels(st.channels)
  {
    match MessageOf(st, e)
    case None => Quiet(st.credentials)
    case Some(m) => HandleMessage(env, st.credentials, m, o)
  }

  function TurnCall(env: Env, st: State, e: Event, o: Outside): Service.Call
    requires ValidChannels(st.channels)
  {
    match MessageOf(st, e)
    case None => Service.Idle
    case Some(m) => ServiceCall(env, st.credentials, m, o)
  }

  function Next(env: Env, st: State, e: Event, o: Outside): (r: State)
    requires ValidChannels(st.channels)
    ensures ValidChannels(r.channels)
  {
    State(ChannelsAfter(st, e), Turn(env, st, e, o).credentials)
  }

  // ---- The device as an object --------------------------------------------------------------------

  class UhidAuthenticator {
    const env: Env
    const build: Build
    const reassembler: CtapHidReassembler
    const authenticator: AuthenticatorService
    /** The reports written to the kernel so far. */
    var written: seq<Report>
    /** The answers to all questions put so far. */
    var asked: seq<Answer>

    ghost function Repr(): set<object> { {this, reassembler} + authenticator.Repr() }

    ghost predicate Valid()
      reads Repr()
    {
      && this !in authenticator.Repr() && reassembler !in authenticator.Repr()
      && WireChannels(reassembler.channels) && authenticator.Valid() && authenticator.sha256 == env.sha256
    }

    ghost function Now(): State
      reads Repr()
    {
      State(reassembler.channels, authenticator.credentials)
    }

    ghost function Io(): Traffic
      reads this
    {
      Traffic(written, asked)
    }

    ghost function Live(): Backend.Live
      requires Valid()
      reads Repr()
    {
      LiveIn(authenticator.backend)
    }

    ghost function Held(): BackendState
      requires Valid()
      reads Repr()
    {
      StateOf(authenticator.backend)
    }

    constructor (env: Env, build: Build, backend: AnyBackend)
      requires ValidBackend(backend)
      ensures Valid() && Now() == State(map[], map[]) && Io() == Traffic([], [])
      ensures authenticator.backend == backend && this.env == env && this.build == build
    {
      hide ValidBackend, LiveIn, StoreAgrees;
      this.env := env;
      this.build := build;
      var a := new AuthenticatorService(backend, env.sha256);
      var r := new CtapHidReassembler();
      reassembler := r;
      authenticator := a;
      written := [];
      asked := [];
    }

    /** `send_message`: every packet as one report, unless splitting panics. */
    method SendMessage(m: Message) returns (r: Outcome<()>)
      modifies this`written
      ensures r.Panic? <==> build.Debug? && |m.payload| > COUNTER_LIMIT
      ensures written == if r.Panic? then old(written) else old(written) + Reports(m)
    {
      hide Fragments, Serialize;
      var packets := ToPackets(m, build);
      if packets.Panic? {
        return Panic;
      }
      for k := 0 to |packets.value|
        invariant written == old(written) + Reports(m)[..k]
      {
        var report := SerializePacket(packets.value[k]);
        written := written + [report[..]];
      }
      return Returns(());
    }

    /** `confirm_user_presence`: put one question. `answer` is what the person says if asked;
        nothing comes back when no answer can be read. */
    method ConfirmUserPresence(answer: Answer) returns (confirmed: Option<bool>)
      modifies this`asked
      ensures asked == old(asked) + [answer]
      ensures confirmed == match answer case Yes => Some(true) case No => Some(false) case Unreadable => None
    {
      asked := asked + [answer];
      confirmed := match answer case Yes => Some(true) case No => Some(false) case Unreadable => None;
    }

    /** Put the question only if presence is wanted; otherwise go ahead. */
    method ConfirmIf(wanted: bool, answer: Answer) returns (confirmed: Option<bool>)
      modifies this`asked
      ensures asked == old(asked) + (if wanted then [answer] else [])
      ensures confirmed == if !wanted || answer.Yes? then Some(true) else if answer.No? then Some(false) else None
    {
      confirmed := Some(true);
      if wanted {
        confirmed := ConfirmUserPresence(answer);
      }
    }

    /** The device did to its store and wrote what `e` says, having written `before` until
        then. A debug build panics exactly when the reply outgrows the sequence counter. */
    ghost predicate Carried(e: Effect, before: seq<Report>, r: Outcome<bool>)
      reads Repr()
    {
      && authenticator.credentials == e.credentials
      && (r.Panic? <==> build.Debug? && e.sent.Some? && |e.sent.value.payload| > COUNTER_LIMIT)
      && written == before + (if e.sent.Some? && r.Returns? then Reports(e.sent.value) else [])
      && (r.Returns? ==> r.value == e.running)
    }

    /** It did all that `e` says: besides, it put one question exactly if `e` prompts. */
    ghost predicate Did(e: Effect, answer: Answer, before: Traffic, r: Outcome<bool>)
      reads Repr()
    {
      Carried(e, before.written, r) && asked == before.asked + (if e.prompted then [answer] else [])
    }

    /** The backend kept its contract in whatever `call` asked of it, and did it if it could. */
    ghost predicate Answered(before: Service.Store, held: BackendState, call: Service.Call, d: Draws)
      requires Valid() && |d.nonces| == 2
      reads Repr()
    {
      && Service.Honoured(SuiteOf(authenticator.backend), env.sha256, before, call, Live())
      && (Service.Succeeds(call) <==>
            Service.Able(SuiteOf(authenticator.backend), env.sha256, before.credentials, held, call, d))
    }

    method Transmit(cid: uint32, cmd: byte, payload: Buffer) returns (r: Outcome<bool>)
      modifies this`written
      ensures r.Panic? <==> build.Debug? && |payload| > COUNTER_LIMIT
      ensures written == old(written) + (if r.Returns? then Reports(Message(cid, cmd, payload)) else [])
      ensures r.Returns? ==> r.value
    {
      var sent := SendMessage(Message(cid, cmd, payload));
      r := if sent.Panic? then Panic else Returns(true);
    }

    /** Ask, and answer with one status or the other. */
    method Ask(m: Message, answer: Answer, granted: byte) returns (r: Outcome<bool>)
      requires Valid()
      modifies this`written, this`asked
      ensures Valid() && Live() == old(Live()) && Held() == old(Held())
      ensures forall o: Outside :: o.answer == answer ==>
                Did(AskFor(authenticator.credentials, m, o, granted), answer, old(Io()), r)
    {
      hide Reports, ValidBackend, LiveIn, StateOf, StoreAgrees;
      var confirmed := ConfirmUserPresence(answer);
      if confirmed.None? {
        return Returns(false);
      }
      r := Transmit(m.cid, CBOR, [if confirmed.value then granted else OPERATION_DENIED]);
    }

    method RegisterCredential(m: Message, answer: Answer, d: Draws, ghost newCid: Buffer)
      returns (r: Outcome<bool>, ghost o: Outside)
      requires Valid() && GoodDraws(d, LiveIn(authenticator.backend))
      modifies Repr()
      ensures Valid() && reassembler.channels == old(reassembler.channels)
      ensures DrawnFrom(o.created, d) && o.answer == answer && o.newCid == newCid
      ensures Did(MakeCredential(env, old(authenticator.credentials), m, o), answer, old(Io()), r)
      ensures Answered(old(Service.Store(authenticator.credentials, Live())), old(Held()),
              RegistrationCall(env, m, o), d)
    {
      hide Reports, LiveIn, StateOf, ReadMakeCredential, MakeCredentialReply, ValidBackend, StoreAgrees, Enrolled;
      Service.IdleAsksNothing(SuiteOf(authenticator.backend), env.sha256,
                              Service.Store(authenticator.credentials, Live()), Held(), d);
      hide Service.Honoured, Service.Succeeds, Service.Able;
      o := Outside(answer, Err(Internal), Err(Internal), newCid);
      match ReadMakeCredential(env, m)
      case Undecodable => r := Returns(false);
      case Incomplete => r := Transmit(m.cid, CBOR, [MISSING_PARAMETER]);
      case MakeRequest(rpId, userId, algorithms) =>
        if rpId == FIREFOX_SELECTION_RP_ID {
          r := Ask(m, answer, PIN_NOT_SET);
        } else if COSE_EDDSA !in algorithms {
          r := Transmit(m.cid, CBOR, [UNSUPPORTED_ALGORITHM]);
        } else {
          var confirmed := ConfirmUserPresence(answer);
          if confirmed.None? {
            r := Returns(false);
          } else if !confirmed.value {
            r := Transmit(m.cid, CBOR, [OPERATION_DENIED]);
          } else {
            ghost var created;
            r, created := Enrol(m, rpId, userId, d);
            o := o.(created := created);
          }
        }
    }

    /** The registration itself, once the person said yes. */
    method Enrol(m: Message, rpId: string, userId: Buffer, d: Draws)
      returns (r: Outcome<bool>, ghost created: Result<Created>)
      requires Valid() && GoodDraws(d, LiveIn(authenticator.backend))
      modifies Repr()
      ensures Valid() && reassembler.channels == old(reassembler.channels) && asked == old(asked)
      ensures DrawnFrom(created, d)
      ensures Carried(Enrolled(env, old(authenticator.credentials), m, rpId, created), old(written), r)
      ensures Answered(old(Service.Store(authenticator.credentials, Live())), old(Held()),
              Service.Register(rpId, created), d)
    {
      hide Reports, LiveIn, StateOf, GoodDraws, MakeCredentialReply, ValidBackend, StoreAgrees, CreateContract,
        CanCreate;
      var registered;
      registered, created := authenticator.Register(rpId, userId, d);
      if registered.Failure? {
        return Returns(false), created;
      }
      var payload := MakeCredentialReply(env, rpId, registered.value);
      if payload.None? {
        return Returns(false), created;
      }
      r := Transmit(m.cid, CBOR, payload.value);
    }

    method AssertCredential(m: Message, answer: Answer, d: Draws, ghost newCid: Buffer)
      returns (r: Outcome<bool>, ghost o: Outside)
      requires Valid() && |d.nonces| == 2
      modifies Repr()
      ensures Valid() && reassembler.channels == old(reassembler.channels)
      ensures o.created.Err? && o.answer == answer && o.newCid == newCid
      ensures Did(HandleGetAssertion(env, old(authenticator.credentials), m, o), answer, old(Io()), r)
      ensures Answered(old(Service.Store(authenticator.credentials, Live())), old(Held()),
                       AssertionCall(env, old(authenticator.credentials), m, o), d)
    {
      hide Reports, LiveIn, StateOf, ReadGetAssertion, GetAssertionReply, ValidBackend, StoreAgrees, AnswerAssertion;
      hide AuthorisedCall, WireChannels;
      Service.IdleAsksNothing(SuiteOf(authenticator.backend), env.sha256,
                              Service.Store(authenticator.credentials, Live()), Held(), d);
      hide Service.Honoured, Service.Succeeds, Service.Able;
      o := Outside(answer, Err(Internal), Err(Internal), newCid);
      var parsed := ParseGetAssertionRequest(env.decode, m.payload);
      match parsed
      case Malformed => r := Returns(false);
      case Missing => r := Transmit(m.cid, CBOR, [MISSING_PARAMETER]);
      case Found(fields) => r, o := AssertWith(m, RequestOf(fields), answer, d, newCid);
    }

    method AssertWith(m: Message, q: AssertionRequest, answer: Answer, d: Draws, ghost newCid: Buffer)
      returns (r: Outcome<bool>, ghost o: Outside)
      requires Valid() && |d.nonces| == 2
      modifies Repr()
      ensures Valid() && reassembler.channels == old(reassembler.channels)
      ensures o.created.Err? && o.answer == answer && o.newCid == newCid
      ensures Did(AnswerAssertion(env, old(authenticator.credentials), m, q, o), answer, old(Io()), r)
      ensures Answered(old(Service.Store(authenticator.credentials, Live())), old(Held()),
                       AuthorisedCall(old(authenticator.credentials), q, o), d)
    {
      hide Reports, LiveIn, StateOf, ValidBackend, StoreAgrees, SelectCredential, AskAndAuthenticate, ConsentedCall;
      hide Matches, WireChannels;
      Service.IdleAsksNothing(SuiteOf(authenticator.backend), env.sha256,
                              Service.Store(authenticator.credentials, Live()), Held(), d);
      hide Service.Honoured, Service.Succeeds, Service.Able;
      o := Outside(answer, Err(Internal), Err(Internal), newCid);
      var found := authenticator.HasMatchingCredential(q.rpId, q.allowList);
      if found {
        r, o := AskAndAssert(m, q, answer, d, newCid);
      } else {
        r := Transmit(m.cid, CBOR, [NO_CREDENTIALS]);
      }
    }

    method AskAndAssert(m: Message, q: AssertionRequest, answer: Answer, d: Draws, ghost newCid: Buffer)
      returns (r: Outcome<bool>, ghost o: Outside)
      requires Valid() && |d.nonces| == 2
      requires SelectCredential(authenticator.credentials, q.rpId, q.allowList).Some?
      modifies Repr()
      ensures Valid() && reassembler.channels == old(reassembler.channels)
      ensures o.created.Err? && o.answer == answer && o.newCid == newCid
      ensures Did(AskAndAuthenticate(env, old(authenticator.credentials), m, q, o), answer, old(Io()), r)
      ensures Answered(old(Service.Store(authenticator.credentials, Live())), old(Held()), ConsentedCall(q, o), d)
    {
      hide Reports, LiveIn, StateOf, ValidBackend, StoreAgrees, SelectCredential, Authenticated, WireChannels;
      Service.IdleAsksNothing(SuiteOf(authenticator.backend), env.sha256,
                              Service.Store(authenticator.credentials, Live()), Held(), d);
      hide Service.Honoured, Service.Succeeds, Service.Able;
      o := Outside(answer, Err(Internal), Err(Internal), newCid);
      var confirmed := ConfirmIf(q.userPresent, answer);
      if confirmed.None? {
        r := Returns(false);
      } else if !confirmed.value {
        r := Transmit(m.cid, CBOR, [OPERATION_DENIED]);
      } else {
        ghost var signed;
        r, signed := Authenticate(m, q, d);
        o := o.(signed := signed);
      }
    }

    /** The assertion itself, once a credential matches and any question was answered yes. */
    method Authenticate(m: Message, q: AssertionRequest, d: Draws) returns (r: Outcome<bool>,
      ghost signed: Result<Buffer>)
      requires Valid() && |d.nonces| == 2
      modifies Repr()
      ensures Valid() && reassembler.channels == old(reassembler.channels) && asked == old(asked)
      ensures Carried(Authenticated(env, old(authenticator.credentials), m, q, signed), old(written), r)
      ensures SelectCredential(old(authenticator.credentials), q.rpId, q.allowList).Some? ==>
                Answered(old(Service.Store(authenticator.credentials, Live())), old(Held()),
                  Service.Assert(q, signed), d)
    {
      hide Reports, LiveIn, StateOf, GetAssertionReply, ValidBackend, StoreAgrees, SelectCredential, SignContract;
      hide AfterAssert, AssertReply, DataFor, Matches, WireChannels, CanSign;
      var asserted;
      asserted, signed := authenticator.Assert(q, d);
      if asserted.Failure? {
        return Returns(false), signed;
      }
      r := Transmit(m.cid, CBOR, GetAssertionReply(env, asserted.value));
    }

    /** The U2F compatibility replies. */
    method AnswerU2f(m: Message, answer: Answer, ghost newCid: Buffer) returns (r: Outcome<bool>, ghost o: Outside)
      requires Valid()
      modifies this`written, this`asked
      ensures Valid() && Live() == old(Live()) && Held() == old(Held())
      ensures o.created.Err? && o.answer == answer && o.newCid == newCid
      ensures Did(HandleU2f(authenticator.credentials, m, o), answer, old(Io()), r)
    {
      hide Reports, LiveIn, StateOf, ValidBackend, StoreAgrees;
      o := Outside(answer, Err(Internal), Err(Internal), newCid);
      var instruction := if |m.payload| > 1 then m.payload[1] else 0;
      var payload: Buffer;
      if instruction == 0x03 {
        payload := [0x55, 0x32, 0x46, 0x5f, 0x56, 0x32, 0x90, 0x00];
      } else if instruction == 0x02 {
        payload := [0x6a, 0x80];
      } else if instruction == 0x01 && |m.payload| > 2 && m.payload[2] == 0x03 {
        var confirmed := ConfirmUserPresence(answer);
        if confirmed.None? {
          return Returns(false), o;
        }
        payload := if confirmed.value then DummyRegistration() else [0x69, 0x85];
      } else {
        payload := [0x6d, 0x00];
      }
      r := Transmit(m.cid, MSG, payload);
    }

    /** `handle_message`. */
    method Dispatch(m: Message, answer: Answer, d: Draws, newCid: Buffer) returns (r: Outcome<bool>, ghost o: Outside)
      requires Valid() && GoodDraws(d, LiveIn(authenticator.backend))
      modifies Repr()
      ensures Valid() && reassembler.channels == old(reassembler.channels)
      ensures DrawnFrom(o.created, d) && o.answer == answer && o.newCid == newCid
      ensures Did(HandleMessage(env, old(authenticator.credentials), m, o), answer, old(Io()), r)
      ensures Answered(old(Service.Store(authenticator.credentials, Live())), old(Held()),
                       ServiceCall(env, old(authenticator.credentials), m, o), d)
    {
      hide Reports, HandleCbor, CborCall, HandleU2f, LiveIn, StateOf, ValidBackend, StoreAgrees;
      Service.IdleAsksNothing(SuiteOf(authenticator.backend), env.sha256,
                              Service.Store(authenticator.credentials, Live()), Held(), d);
      hide Service.Honoured, Service.Succeeds, Service.Able;
      o := Outside(answer, Err(Internal), Err(Internal), newCid);
      if m.cmd == PING {
        r := Transmit(m.cid, PING, m.payload);
      } else if m.cmd == INIT {
        if |m.payload| < 8 {
          return Returns(true), o;
        }
        r := Transmit(m.cid, INIT, InitReply(m.payload[..8], newCid));
      } else if m.cmd == WINK {
        r := Transmit(m.cid, WINK, []);
      } else if m.cmd == MSG {
        r, o := AnswerU2f(m, answer, newCid);
      } else if m.cmd == CBOR {
        r, o := DispatchCbor(m, answer, d, newCid);
      } else {
        return Returns(true), o;
      }
    }

    method DispatchCbor(m: Message, answer: Answer, d: Draws, ghost newCid: Buffer)
      returns (r: Outcome<bool>, ghost o: Outside)
      requires Valid() && GoodDraws(d, LiveIn(authenticator.backend))
      modifies Repr()
      ensures Valid() && reassembler.channels == old(reassembler.channels)
      ensures DrawnFrom(o.created, d) && o.answer == answer && o.newCid == newCid
      ensures Did(HandleCbor(env, old(authenticator.credentials), m, o), answer, old(Io()), r)
      ensures Answered(old(Service.Store(authenticator.credentials, Live())), old(Held()),
                       CborCall(env, old(authenticator.credentials), m, o), d)
    {
      hide Reports, MakeCredential, HandleGetAssertion, RegistrationCall, AssertionCall, GetInfoReply, LiveIn, StateOf;
      hide ValidBackend, StoreAgrees;
      Service.IdleAsksNothing(SuiteOf(authenticator.backend), env.sha256,
                              Service.Store(authenticator.credentials, Live()), Held(), d);
      hide Service.Honoured, Service.Succeeds, Service.Able;
      o := Outside(answer, Err(Internal), Err(Internal), newCid);
      if m.payload == [] {
        r := Returns(true);
      } else if m.payload[0] == GET_INFO {
        r := Transmit(m.cid, CBOR, GetInfoReply(env));
      } else if m.payload[0] == MAKE_CREDENTIAL {
        r, o := RegisterCredential(m, answer, d, newCid);
      } else if m.payload[0] == GET_ASSERTION {
        r, o := AssertCredential(m, answer, d, newCid);
      } else if m.payload[0] == SELECTION {
        r := Ask(m, answer, STATUS_OK);
      } else {
        r := Returns(true);
      }
    }

    /** One turn of `run`. Reassembly never panics here, whatever arrives; what the turn
        does to the device, asks and writes are those of `Next` and `Turn`. */
    method HandleEvent(e: Event, answer: Answer, d: Draws, newCid: Buffer) returns (r: Outcome<bool>, ghost o: Outside)
      requires Valid() && GoodDraws(d, LiveIn(authenticator.backend)) && |newCid| == 4
      modifies Repr()
      ensures Valid() && ValidChannels(old(Now()).channels)
      ensures DrawnFrom(o.created, d) && o.answer == answer && o.newCid == newCid
      ensures Now() == Next(env, old(Now()), e, o)
      ensures Did(Turn(env, old(Now()), e, o), answer, old(Io()), r)
      ensures Answered(old(Service.Store(authenticator.credentials, Live())), old(Held()),
              TurnCall(env, old(Now()), e, o), d)
    {
      hide Reports, HandleMessage, ServiceCall, Step, Parse, LiveIn, StateOf, ValidBackend, StoreAgrees, Overflows;
      Service.IdleAsksNothing(SuiteOf(authenticator.backend), env.sha256,
                              Service.Store(authenticator.credentials, Live()), Held(), d);
      hide Service.Honoured, Service.Succeeds, Service.Able;
      o := Outside(answer, Err(Internal), Err(Internal), newCid);
      if e.Skipped? {
        return Returns(true), o;
      }
      var report := e.data[..Min(|e.data|, 65)];
      var packet := ParseBuffer(report);
      if packet.None? {
        return Returns(true), o;
      }
      ParsedIsWireForm(report);
      WireStep(reassembler.channels, packet.value);
      var message := reassembler.HandlePacket(packet.value, build);
      if message.Panic? {
        return Panic, o;
      }
      if message.value.None? {
        return Returns(true), o;
      }
      r, o := Dispatch(message.value.value, answer, d, newCid);
    }
  }
}
