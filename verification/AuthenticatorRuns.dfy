/** Whole runs of the credential service: counters, agreement with the backend, and what an
    assertion says about the past. */
module AuthenticatorRuns {
  import opened Bytes
  import opened Ed25519
  import opened Backend
  import opened Authenticator

  /** A call to the service and what the backend answered during it. `Idle` is a step of
      the caller that does not involve the service. */
  datatype Call =
    | Register(rpId: string, created: Result<Created>)
    | Assert(request: AssertionRequest, signed: Result<Buffer>)
    | Idle

  /** The credential table of the service next to the live credentials of its backend. */
  datatype Store = Store(credentials: Credentials, live: Live)

  function After(credentials: Credentials, c: Call): Credentials {
    match c
    case Register(rpId, created) => AfterRegister(credentials, rpId, created)
    case Assert(q, signed) => AfterAssert(credentials, q, signed)
    case Idle => credentials
  }

  /** The backend kept its contract in answering `c`, and ended up with `live`. */
  predicate Honoured(s: Suite, sha256: string -> Digest, t: Store, c: Call, live: Live) {
    match c
    case Register(rpId, created) => CreateContract(t.live, rpId, created, live)
    case Assert(q, signed) =>
      live == t.live &&
      var id := SelectCredential(t.credentials, q.rpId, q.allowList);
      id.Some? ==> SignContract(s, t.live, Handle(id.value),
        DataFor(sha256, t.credentials, q, id.value) + q.clientDataHash, signed)
    case Idle => live == t.live
  }

  /** Whether the backend did what `c` asked of it. */
  predicate Succeeds(c: Call) {
    match c
    case Register(_, created) => created.Ok?
    case Assert(_, signed) => signed.Ok?
    case Idle => true
  }

  /** Whether it can: a matter of the request, the store, the backend and what is drawn. */
  predicate Able(s: Suite, sha256: string -> Digest, credentials: Credentials, b: BackendState, c: Call, d: Draws)
    requires |d.nonces| == 2
  {
    match c
    case Register(rpId, _) => CanCreate(s, b, rpId, d)
    case Assert(q, _) =>
      var id := SelectCredential(credentials, q.rpId, q.allowList);
      id.Some? && CanSign(s, b, Handle(id.value), DataFor(sha256, credentials, q, id.value) + q.clientDataHash, d)
    case Idle => true
  }

  lemma IdleAsksNothing(s: Suite, sha256: string -> Digest, t: Store, b: BackendState, d: Draws)
    requires |d.nonces| == 2
    ensures Honoured(s, sha256, t, Idle, t.live) && Succeeds(Idle) && Able(s, sha256, t.credentials, b, Idle, d)
  {
  }

  /** One step of a service over a backend that keeps its contract. */
  predicate Step(s: Suite, sha256: string -> Digest, t: Store, c: Call, t': Store) {
    t'.credentials == After(t.credentials, c) && Honoured(s, sha256, t, c, t'.live)
  }

  /** A run from an empty service. Its backend may already hold credentials of others. */
  ghost predicate Run(s: Suite, sha256: string -> Digest, calls: seq<Call>, ts: seq<Store>) {
    && |ts| == |calls| + 1 && ts[0].credentials == map[]
    && forall i | 0 <= i < |calls| :: Step(s, sha256, ts[i], calls[i], ts[i + 1])
  }

  /** The `i`-th call of a run succeeds in asserting with credential `id`. */
  predicate Asserts(t: Store, c: Call, id: Buffer) {
    c.Assert? && c.signed.Ok? && SelectCredential(t.credentials, c.request.rpId, c.request.allowList) == Some(id)
  }

  /** How many of the first `n` calls do. */
  function Assertions(calls: seq<Call>, ts: seq<Store>, n: nat, id: Buffer): nat
    requires n <= |calls| < |ts|
  {
    if n == 0 then 0 else Assertions(calls, ts, n - 1, id) + if Asserts(ts[n - 1], calls[n - 1], id) then 1 else 0
  }

  /** The call among the first `n` that registered `id`, or -1. */
  function Registrar(calls: seq<Call>, n: nat, id: Buffer): (r: int)
    requires n <= |calls|
    ensures -1 <= r < n
    ensures r >= 0 ==> Registers(calls[r], id) && forall j | r < j < n :: !Registers(calls[j], id)
    ensures r < 0 ==> forall j | 0 <= j < n :: !Registers(calls[j], id)
  {
    if n == 0 then -1 else if Registers(calls[n - 1], id) then n - 1 else Registrar(calls, n - 1, id)
  }

  predicate Registers(c: Call, id: Buffer) { c.Register? && c.created.Ok? && c.created.value.handle.bytes == id }

  /** What holds of credential `id` after `n` calls: it exists exactly if it was registered;
      it is filed under its own handle, which is live with the key registration returned;
      it belongs to the relying party that registered it; and its counter is the number of
      assertions made with it, up to the largest 32-bit value. */
  predicate Accounted(calls: seq<Call>, ts: seq<Store>, n: nat, id: Buffer)
    requires n <= |calls| < |ts|
  {
    var t, i := ts[n], Registrar(calls, n, id);
    && (id in t.credentials <==> i >= 0)
    && (i < 0 ==> Assertions(calls, ts, n, id) == 0)
    && (i >= 0 ==>
          && t.credentials[id] == CredentialRecord(calls[i].rpId, Handle(id),
             Min(Assertions(calls, ts, n, id), MAX_COUNT))
          && Handle(id) in t.live && t.live[Handle(id)] == calls[i].created.value.publicKey)
  }

  lemma {:induction false} EveryCredentialAccounted(s: Suite, sha256: string -> Digest, calls: seq<Call>,
      ts: seq<Store>, n: nat, id: Buffer)
    requires Run(s, sha256, calls, ts) && n <= |calls|
    ensures Accounted(calls, ts, n, id)
  {
    if n == 0 {
    } else {
      EveryCredentialAccounted(s, sha256, calls, ts, n - 1, id);
      assert Step(s, sha256, ts[n - 1], calls[n - 1], ts[n]);
    }
  }

  /** Registration never overwrites: a new credential's id was not in use. */
  lemma RegistrationIsFresh(s: Suite, sha256: string -> Digest, calls: seq<Call>, ts: seq<Store>, n: nat)
    requires Run(s, sha256, calls, ts) && n < |calls| && calls[n].Register? && calls[n].created.Ok?
    ensures calls[n].created.value.handle.bytes !in ts[n].credentials
    ensures StoreAgrees(ts[n].credentials, ts[n].live)
  {
    forall id
      ensures Accounted(calls, ts, n, id)
    {
      EveryCredentialAccounted(s, sha256, calls, ts, n, id);
    }
    assert Step(s, sha256, ts[n], calls[n], ts[n + 1]);
    var h := calls[n].created.value.handle;
    assert h == Handle(h.bytes);
    assert Accounted(calls, ts, n, h.bytes);
    assert forall id | id in ts[n].credentials :: Accounted(calls, ts, n, id);
  }

  /** Only the selected credential's counter ever moves, by one and only on success; no
      other call changes an existing credential in any way. */
  lemma OnlySelectedMoves(s: Suite, sha256: string -> Digest, calls: seq<Call>, ts: seq<Store>, n: nat, id: Buffer)
    requires Run(s, sha256, calls, ts) && n < |calls| && id in ts[n].credentials
    ensures id in ts[n + 1].credentials
    ensures !Asserts(ts[n], calls[n], id) ==> ts[n + 1].credentials[id] == ts[n].credentials[id]
    ensures calls[n].Assert? && calls[n].signed.Err? ==> ts[n + 1] == ts[n]
  {
    EveryCredentialAccounted(s, sha256, calls, ts, n, id);
    assert Step(s, sha256, ts[n], calls[n], ts[n + 1]);
  }

  /** What every successful assertion of a run says. It uses the first allow-listed
      credential registered for the same relying party; its counter is the number of
      assertions made with that credential so far, this one included, up to 2^32 - 1, and is
      what bytes 33 to 36 of the authenticator data decode to; and the signature over that
      data and the client data hash verifies under the key registration returned. */
  lemma AssertionMeaning(s: Suite, sha256: string -> Digest, calls: seq<Call>, ts: seq<Store>, n: nat)
    requires Run(s, sha256, calls, ts) && n < |calls| && calls[n].Assert?
    requires AssertReply(sha256, ts[n].credentials, calls[n].request, calls[n].signed).Success?
    ensures var q, a := calls[n].request, AssertReply(sha256, ts[n].credentials, calls[n].request,
            calls[n].signed).value;
            var i := Registrar(calls, n, a.credentialId);
            && i >= 0 && calls[i].rpId == q.rpId
            && (exists k :: 0 <= k < |q.allowList| && a.credentialId == q.allowList[k]
                  && forall j | 0 <= j < k ::
                       var e := Registrar(calls, n, q.allowList[j]);
                       e < 0 || calls[e].rpId != q.rpId)
            && a.signCount == Min(Assertions(calls, ts, n + 1, a.credentialId), MAX_COUNT)
            && |a.authenticatorData| == 37 && FromBigEndian32(a.authenticatorData[33..37]) == a.signCount
            && a.authenticatorData[..32] == sha256(q.rpId) && (a.authenticatorData[32] == 1 <==> q.userPresent)
            && Verify(s, calls[i].created.value.publicKey, a.authenticatorData + q.clientDataHash, a.signature)
  {
    hide Verify, FromBigEndian32, BigEndian32;
    var t, q, r := ts[n], calls[n].request, AssertReply(sha256, ts[n].credentials, calls[n].request, calls[n].signed);
    var a := r.value;
    assert Step(s, sha256, t, calls[n], ts[n + 1]);
    EveryCredentialAccounted(s, sha256, calls, ts, n, a.credentialId);
    assert Asserts(t, calls[n], a.credentialId);
    AuthenticatorDataFields(sha256(q.rpId), q.userPresent, a.signCount);
    var k :| 0 <= k < |q.allowList| && q.allowList[k] == a.credentialId
             && forall j | 0 <= j < k :: !Matches(t.credentials, q.rpId, q.allowList[j]);
    forall j | 0 <= j < k
      ensures var e := Registrar(calls, n, q.allowList[j]); e < 0 || calls[e].rpId != q.rpId
    {
      EveryCredentialAccounted(s, sha256, calls, ts, n, q.allowList[j]);
      assert !Matches(t.credentials, q.rpId, q.allowList[j]);
    }
  }
}
