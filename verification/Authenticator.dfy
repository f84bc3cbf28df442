/** The credential lifecycle behind every transport (`src/authenticator.rs`). */
module Authenticator {
  import opened Bytes
  import opened Ed25519
  import opened Backend
  import opened FrostDkg
  import opened FrostSigning
  import opened FrostBackend
  import opened LocalBackend

  const MAX_COUNT: uint32 := 0xffff_ffff

  datatype CredentialRecord = CredentialRecord(rpId: string, backendHandle: Handle, signCount: uint32)
  type Credentials = map<Buffer, CredentialRecord>

  datatype Registration = Registration(credentialId: Buffer, publicKey: Buffer)
  datatype AssertionRequest = AssertionRequest(rpId: string, clientDataHash: Buffer, allowList: seq<Buffer>,
    userPresent: bool)
  datatype Assertion = Assertion(credentialId: Buffer, authenticatorData: Buffer, signature: Buffer, signCount: uint32)

  datatype AuthenticatorError = NoCredentials | BackendFailed(error: BackendError)
  datatype Reply<+T> = Success(value: T) | Failure(error: AuthenticatorError)

  // ---- Authenticator data -----------------------------------------------------------------------

  function SaturatingIncrement(x: uint32): uint32 { if x == MAX_COUNT then x else x + 1 }

  /** Section 6.1 of WebAuthn Level 2, without attested credential data. */
  function AuthenticatorData(rpIdHash: Buffer, userPresent: bool, signCount: uint32): Buffer {
    rpIdHash + [if userPresent then 1 else 0] + BigEndian32(signCount)
  }

  /** A reader finds every field where the standard puts it. */
  lemma AuthenticatorDataFields(rpIdHash: Buffer, userPresent: bool, signCount: uint32)
    requires |rpIdHash| == 32
    ensures var d := AuthenticatorData(rpIdHash, userPresent, signCount);
            && |d| == 37 && d[..32] == rpIdHash
            && d[32] == (if userPresent then 1 else 0)
            && FromBigEndian32(d[33..37]) == signCount
  {
    var d := AuthenticatorData(rpIdHash, userPresent, signCount);
    assert d[33..37] == BigEndian32(signCount);
    BigEndian32RoundTrip(signCount, d[33..37]);
  }

  // ---- The service as a value ----------------------------------------------------------------------

  predicate Matches(credentials: Credentials, rpId: string, id: Buffer) {
    id in credentials && credentials[id].rpId == rpId
  }

  /** `select_credential`: the first entry of the allow list that matches. */
  function SelectCredential(credentials: Credentials, rpId: string, allowList: seq<Buffer>): (r: Option<Buffer>)
    ensures r.None? <==> forall k | 0 <= k < |allowList| :: !Matches(credentials, rpId, allowList[k])
    ensures r.Some? ==> Matches(credentials, rpId, r.value)
                        && exists k :: 0 <= k < |allowList| && allowList[k] == r.value
                                       && forall j | 0 <= j < k :: !Matches(credentials, rpId, allowList[j])
  {
    if allowList == [] then None
    else if Matches(credentials, rpId, allowList[0]) then Some(allowList[0])
    else SelectCredential(credentials, rpId, allowList[1..])
  }

  /** The store after `register`, given what the backend answered. */
  function AfterRegister(credentials: Credentials, rpId: string, created: Result<Created>): Credentials {
    if created.Err? then credentials
    else credentials[created.value.handle.bytes := CredentialRecord(rpId, created.value.handle, 0)]
  }

  function RegisterReply(created: Result<Created>): Reply<Registration> {
    if created.Err? then Failure(BackendFailed(created.error))
    else Success(Registration(created.value.handle.bytes, created.value.publicKey))
  }

  /** What the backend is asked to sign for a selected credential. */
  function DataFor(sha256: string -> Digest, credentials: Credentials, q: AssertionRequest, id: Buffer): Buffer
    requires id in credentials
  {
    AuthenticatorData(sha256(q.rpId), q.userPresent, SaturatingIncrement(credentials[id].signCount))
  }

  /** The store after `assert`, given what the backend answers if it is asked. */
  function AfterAssert(credentials: Credentials, q: AssertionRequest, signed: Result<Buffer>): Credentials {
    match SelectCredential(credentials, q.rpId, q.allowList)
    case None => credentials
    case Some(id) =>
      if signed.Err? then credentials
      else credentials[id := credentials[id].(signCount := SaturatingIncrement(credentials[id].signCount))]
  }

  function AssertReply(sha256: string -> Digest, credentials: Credentials, q: AssertionRequest,
      signed: Result<Buffer>): Reply<Assertion> {
    match SelectCredential(credentials, q.rpId, q.allowList)
    case None => Failure(NoCredentials)
    case Some(id) =>
      if signed.Err? then Failure(BackendFailed(signed.error))
      else Success(Assertion(id, DataFor(sha256, credentials, q, id), signed.value,
           SaturatingIncrement(credentials[id].signCount)))
  }

  /** Every credential is filed under its own handle, and the backend can sign for it. */
  predicate StoreAgrees(credentials: Credentials, live: Live) {
    forall id | id in credentials :: credentials[id].backendHandle == Handle(id) && Handle(id) in live
  }

  // ---- The service as an object ----------------------------------------------------------------------

  /** `Box<dyn CredentialBackend>`: either of the two implementations. */
  datatype AnyBackend = Local(local: LocalEd25519Backend) | Frost(frost: FrostBackend)

  /** What the backends draw at random during one call. */
  datatype Draws = Draws(fs: Polynomials, key: int, handles: seq<Buffer>, nonces: seq<Nonces>)

  ghost function Objects(b: AnyBackend): set<object> {
    match b
    case Local(l) => {l}
    case Frost(f) => {f, f.participantAvailable}
  }

  ghost predicate ValidBackend(b: AnyBackend)
    reads Objects(b)
  {
    match b
    case Local(l) => l.Valid()
    case Frost(f) => f.Valid()
  }

  ghost function LiveIn(b: AnyBackend): Live
    requires ValidBackend(b)
    reads Objects(b)
  {
    match b
    case Local(l) => KeysLive(l.suite, l.keys)
    case Frost(f) => LiveOf(f.suite, f.State())
  }

  /** The contents of a backend as a value. */
  datatype BackendState = LocalState(keys: Keys) | FrostHeld(frost: FrostState)

  ghost function StateOf(b: AnyBackend): BackendState
    requires ValidBackend(b)
    reads Objects(b)
  {
    match b
    case Local(l) => LocalState(l.keys)
    case Frost(f) => FrostHeld(f.State())
  }

  /** When a backend creates a credential: FROST must draw a key that has an encoding. */
  predicate CanCreate(s: Suite, b: BackendState, rpId: string, d: Draws) {
    rpId != "" && (b.FrostHeld? ==> s.exp(Total(d.fs).constant) != Identity(s))
  }

  /** When a backend signs: FROST needs two available participants and usable draws. */
  predicate CanSign(s: Suite, b: BackendState, h: Handle, message: Buffer, d: Draws)
    requires |d.nonces| == 2
  {
    match b
    case LocalState(keys) => h in keys
    case FrostHeld(st) =>
      && |st.preferred| == 2 && ValidSigners(st.preferred)
      && h in st.polys && AvailableCount(st.available) >= 2 && UsableDraws(s, st, h, message, d.nonces)
  }

  function SuiteOf(b: AnyBackend): Suite {
    match b
    case Local(l) => l.suite
    case Frost(f) => f.suite
  }

  /** The generator yields 32-byte strings, and eventually one that is not in use. */
  ghost predicate GoodDraws(d: Draws, live: Live) {
    && |d.nonces| == 2
    && (forall k | 0 <= k < |d.handles| :: |d.handles[k]| == 32)
    && exists k :: 0 <= k < |d.handles| && Handle(d.handles[k]) !in live
  }

  /** A new handle is one the generator produced. */
  predicate DrawnFrom(r: Result<Created>, d: Draws) { r.Ok? ==> r.value.handle.bytes in d.handles }

  method CreateWith(b: AnyBackend, rpId: string, userId: Buffer, d: Draws) returns (r: Result<Created>)
    requires ValidBackend(b) && GoodDraws(d, LiveIn(b))
    modifies Objects(b)
    ensures ValidBackend(b) && CreateContract(old(LiveIn(b)), rpId, r, LiveIn(b))
    ensures DrawnFrom(r, d) && (r.Ok? <==> CanCreate(SuiteOf(b), old(StateOf(b)), rpId, d))
  {
    hide Lawful, ValidState, CreateContract, Dealt, ValidSigners;
    match b
    case Local(l) => r := l.CreateCredential(rpId, userId, d.key, d.handles);
    case Frost(f) => r := f.CreateCredential(rpId, userId, d.fs, d.handles);
  }

  method SignWithBackend(b: AnyBackend, h: Handle, message: Buffer, d: Draws) returns (r: Result<Buffer>)
    requires ValidBackend(b) && |d.nonces| == 2
    ensures SignContract(SuiteOf(b), LiveIn(b), h, message, r)
    ensures r.Ok? <==> CanSign(SuiteOf(b), StateOf(b), h, message, d)
  {
    hide SignContract, Lawful, UsableDraws;
    match b
    case Local(l) => r := l.Sign(h, message);
    case Frost(f) =>
      SignSucceedsWhen(f.suite, f.State(), h, message, d.nonces);
      r := f.Sign(h, message, d.nonces);
  }

  class AuthenticatorService {
    const backend: AnyBackend
    const sha256: string -> Digest
    var credentials: Credentials

    ghost function Repr(): set<object> { {this} + Objects(backend) }

    ghost predicate Valid()
      reads Repr()
    {
      ValidBackend(backend) && this !in Objects(backend) && StoreAgrees(credentials, LiveIn(backend))
    }

    constructor (backend: AnyBackend, sha256: string -> Digest)
      requires ValidBackend(backend)
      ensures Valid() && this.backend == backend && this.sha256 == sha256 && credentials == map[]
    {
      hide FrostBackend.Valid, LocalEd25519Backend.Valid, LiveIn;
      this.backend := backend;
      this.sha256 := sha256;
      credentials := map[];
    }

    method Register(rpId: string, userId: Buffer, d: Draws) returns (r: Reply<Registration>,
        ghost created: Result<Created>)
      requires Valid() && GoodDraws(d, LiveIn(backend))
      modifies Repr()
      ensures Valid()
      ensures CreateContract(old(LiveIn(backend)), rpId, created, LiveIn(backend)) && DrawnFrom(created, d)
      ensures created.Ok? <==> CanCreate(SuiteOf(backend), old(StateOf(backend)), rpId, d)
      ensures r == RegisterReply(created) && credentials == AfterRegister(old(credentials), rpId, created)
    {
      hide LiveOf, KeysLive, ValidState, Lawful, LiveIn, ValidBackend, StateOf, CanCreate;
      var answer := CreateWith(backend, rpId, userId, d);
      created := answer;
      if answer.Err? {
        return Failure(BackendFailed(answer.error)), created;
      }
      var credentialId := answer.value.handle.bytes;
      credentials := credentials[credentialId := CredentialRecord(rpId, answer.value.handle, 0)];
      return Success(Registration(credentialId, answer.value.publicKey)), created;
    }

    method Select(rpId: string, allowList: seq<Buffer>) returns (r: Option<Buffer>)
      requires Valid()
      ensures r == SelectCredential(credentials, rpId, allowList)
    {
      hide ValidBackend, LiveIn, StoreAgrees;
      for k := 0 to |allowList|
        invariant SelectCredential(credentials, rpId, allowList) == SelectCredential(credentials, rpId, allowList[k..])
      {
        if allowList[k] in credentials && credentials[allowList[k]].rpId == rpId {
          return Some(allowList[k]);
        }
      }
      return None;
    }

    method HasMatchingCredential(rpId: string, allowList: seq<Buffer>) returns (r: bool)
      requires Valid()
      ensures r <==> exists k :: 0 <= k < |allowList| && Matches(credentials, rpId, allowList[k])
      ensures r <==> SelectCredential(credentials, rpId, allowList).Some?
    {
      var selected := Select(rpId, allowList);
      return selected.Some?;
    }

    /** `assert`. Both `expect`s are lookups that cannot fail. */
    method Assert(q: AssertionRequest, d: Draws) returns (r: Reply<Assertion>, ghost signed: Result<Buffer>)
      requires Valid() && |d.nonces| == 2
      modifies this
      ensures Valid() && LiveIn(backend) == old(LiveIn(backend))
      ensures r == AssertReply(sha256, old(credentials), q, signed)
              && credentials == AfterAssert(old(credentials), q, signed)
      ensures StateOf(backend) == old(StateOf(backend))
      ensures var id := SelectCredential(old(credentials), q.rpId, q.allowList);
              id.Some? ==>
                var message := DataFor(sha256, old(credentials), q, id.value) + q.clientDataHash;
                && SignContract(SuiteOf(backend), LiveIn(backend), Handle(id.value), message, signed)
                && (signed.Ok? <==> CanSign(SuiteOf(backend), StateOf(backend), Handle(id.value), message, d))
    {
      hide SignContract, LiveOf, KeysLive, BigEndian32, ValidState, Lawful, LiveIn, ValidBackend, StateOf, CanSign;
      signed := Err(Internal);
      var selected := Select(q.rpId, q.allowList);
      if selected.None? {
        return Failure(NoCredentials), signed;
      }
      var credentialId := selected.value;
      var record := credentials[credentialId];
      var nextSignCount := SaturatingIncrement(record.signCount);
      var authenticatorData := sha256(q.rpId);
      authenticatorData := authenticatorData + [if q.userPresent then 1 else 0];
      authenticatorData := authenticatorData + BigEndian32(nextSignCount);
      var signedData := authenticatorData + q.clientDataHash;
      var answer := SignWithBackend(backend, record.backendHandle, signedData, d);
      signed := answer;
      if answer.Err? {
        return Failure(BackendFailed(answer.error)), signed;
      }
      credentials := credentials[credentialId := credentials[credentialId].(signCount := nextSignCount)];
      return Success(Assertion(credentialId, authenticatorData, answer.value, nextSignCount)), signed;
    }
  }
}
