/** Whole runs of the backends: what a signature proves about the past, and how far the
    FROST backend and the local one can be told apart. */
module BackendRuns {
  import opened Bytes
  import opened PrimeField
  import opened Ed25519
  import opened Backend
  import opened FrostDkg
  import opened FrostSigning
  import opened FrostBackend
  import opened LocalBackend

  /** One call and what it returned. */
  datatype Call =
    | CreateCall(rpId: string, created: Result<Created>)
    | SignCall(signer: Handle, message: Buffer, signed: Result<Buffer>)
    | DeleteCall(dropped: Handle, deleted: Result<()>)
    | OtherCall

  predicate Step(s: Suite, live: Live, c: Call, live': Live) {
    match c
    case CreateCall(rpId, r) => CreateContract(live, rpId, r, live')
    case SignCall(h, message, r) => SignContract(s, live, h, message, r) && live' == live
    case DeleteCall(h, r) => DeleteContract(live, h, r, live')
    case OtherCall => live' == live
  }

  /** A run of any backend that keeps the contract, from a backend without credentials. */
  ghost predicate Run(s: Suite, calls: seq<Call>, lives: seq<Live>) {
    && |lives| == |calls| + 1 && lives[0] == map[]
    && forall i | 0 <= i < |calls| :: Step(s, lives[i], calls[i], lives[i + 1])
  }

  /** The call among the first `n` that created the credential now behind `h`, or -1. */
  function Creator(calls: seq<Call>, n: nat, h: Handle): (r: int)
    requires n <= |calls|
    ensures -1 <= r < n
    ensures r >= 0 ==> CreatesHandle(calls[r], h) && forall j | r < j < n ::
            !CreatesHandle(calls[j], h) && !DeletesHandle(calls[j], h)
    ensures r < 0 ==> forall i | 0 <= i < n && CreatesHandle(calls[i], h) :: exists j ::
            i < j < n && DeletesHandle(calls[j], h)
  {
    if n == 0 then -1
    else if CreatesHandle(calls[n - 1], h) then n - 1
    else if DeletesHandle(calls[n - 1], h) then -1
    else Creator(calls, n - 1, h)
  }

  predicate CreatesHandle(c: Call, h: Handle) { c.CreateCall? && c.created.Ok? && c.created.value.handle == h }

  predicate DeletesHandle(c: Call, h: Handle) { c.DeleteCall? && c.dropped == h }

  lemma {:induction false} LiveWasCreated(s: Suite, calls: seq<Call>, lives: seq<Live>, n: nat, h: Handle)
    requires Run(s, calls, lives) && n <= |calls|
    ensures h in lives[n] <==> Creator(calls, n, h) >= 0
    ensures h in lives[n] ==> lives[n][h] == calls[Creator(calls, n, h)].created.value.publicKey
  {
    hide Verify;
    if n == 0 {
    } else {
      LiveWasCreated(s, calls, lives, n - 1, h);
      assert Step(s, lives[n - 1], calls[n - 1], lives[n]);
    }
  }

  /** In every run of either backend: `sign` reports an unknown credential exactly when no
      earlier call created the handle without a later deletion; and whatever it signs
      verifies under the key returned by the call that created it. */
  lemma SignaturesVerifyUnderCreationKey(s: Suite, calls: seq<Call>, lives: seq<Live>, n: nat)
    requires Run(s, calls, lives) && n < |calls| && calls[n].SignCall?
    ensures var i := Creator(calls, n, calls[n].signer);
            && (calls[n].signed == Err(CredentialNotFound) <==> i < 0)
            && (calls[n].signed.Ok? ==>
                  i >= 0 && Verify(s, calls[i].created.value.publicKey, calls[n].message, calls[n].signed.value))
  {
    hide Verify;
    LiveWasCreated(s, calls, lives, n, calls[n].signer);
    assert Step(s, lives[n], calls[n], lives[n + 1]);
  }

  // ---- FROST against local ---------------------------------------------------------------------

  /** A call with everything the backends draw at random for it. */
  datatype Op =
    | Create(rpId: string, fs: Polynomials, key: int, handle: Handle)
    | Sign(signer: Handle, message: Buffer, first: Nonces, second: Nonces)
    | Delete(dropped: Handle)
    | SetAvailable(participant: nat, available: bool)

  datatype Reply = Replied | Failed(error: BackendError)

  function ReplyTo<T>(r: Result<T>): Reply { if r.Ok? then Replied else Failed(r.error) }

  function FrostNext(s: Suite, st: FrostState, op: Op): FrostState
    requires s.q > 0
  {
    match op
    case Create(rpId, fs, _, h) => if CreateOutcome(s, rpId, fs, h).Ok? then st.(polys := st.polys[h := Total(fs)])
                                   else st
    case Sign(_, _, _, _) => st
    case Delete(h) => st.(polys := st.polys - {h})
    case SetAvailable(p, a) => if p in PARTICIPANTS then st.(available := st.available[p - 1 := a]) else st
  }

  function FrostReply(s: Suite, st: FrostState, op: Op): Reply
    requires Lawful(s) && ValidState(s, st)
  {
    match op
    case Create(rpId, fs, _, h) => ReplyTo(CreateOutcome(s, rpId, fs, h))
    case Sign(h, message, a, b) => ReplyTo(FrostSignOutcome(s, st, h, message, [a, b]))
    case Delete(h) => if h in st.polys then Replied else Failed(CredentialNotFound)
    case SetAvailable(p, _) => if p in PARTICIPANTS then Replied else Failed(InvalidInput)
  }

  function LocalNext(keys: Keys, op: Op): Keys {
    match op
    case Create(rpId, _, key, h) => if rpId == "" then keys else keys[h := key]
    case Delete(h) => keys - {h}
    case _ => keys
  }

  function LocalReply(s: Suite, keys: Keys, op: Op): Reply
    requires s.q > 0
  {
    match op
    case Create(rpId, _, _, _) => if rpId == "" then Failed(InvalidInput) else Replied
    case Sign(h, message, _, _) => ReplyTo(LocalSignOutcome(s, keys, h, message))
    case Delete(h) => if h in keys then Replied else Failed(CredentialNotFound)
    case SetAvailable(_, _) => Replied
  }

  function FrostAfter(s: Suite, st: FrostState, ops: seq<Op>): FrostState
    requires s.q > 0
  {
    if ops == [] then st else FrostNext(s, FrostAfter(s, st, ops[..|ops| - 1]), ops[|ops| - 1])
  }

  function LocalAfter(keys: Keys, ops: seq<Op>): Keys {
    if ops == [] then keys else LocalNext(LocalAfter(keys, ops[..|ops| - 1]), ops[|ops| - 1])
  }

  function Initial(preferred: seq<nat>): FrostState { FrostState(map[], preferred, [true, true, true]) }

  predicate ValidPreference(preferred: seq<nat>) { |preferred| == 2 && ValidSigners(preferred) }

  /** The key generated, if any, is not the identity element, which no encoding exists for. */
  predicate EncodableKey(s: Suite, op: Op) {
    op.Create? && op.rpId != "" ==> s.exp(Total(op.fs).constant) != Identity(s)
  }

  /** When FROST can serve a call that the local backend can: it must hold the credential
      named; signing takes two available participants and usable draws; and a key must
      have an encoding. */
  predicate Served(s: Suite, st: FrostState, keys: Keys, op: Op)
    requires ValidPreference(st.preferred)
  {
    match op
    case Create(_, _, _, _) => EncodableKey(s, op)
    case Sign(h, message, a, b) =>
      h in keys ==> h in st.polys && AvailableCount(st.available) >= 2 && UsableDraws(s, st, h, message, [a, b])
    case Delete(h) => h in keys ==> h in st.polys
    case SetAvailable(_, _) => true
  }

  lemma FrostStepIsValid(s: Suite, st: FrostState, op: Op)
    requires Lawful(s) && ValidState(s, st)
    ensures ValidState(s, FrostNext(s, st, op)) && FrostNext(s, st, op).preferred == st.preferred
  {
    hide IsPrime, Lawful;
    if op.Create? {
      Stored(s, st, op.handle, Total(op.fs));
    }
  }

  /** On every run the FROST state stays valid. */
  lemma {:induction false} FrostRunIsValid(s: Suite, st: FrostState, ops: seq<Op>)
    requires Lawful(s) && ValidState(s, st)
    ensures ValidState(s, FrostAfter(s, st, ops)) && FrostAfter(s, st, ops).preferred == st.preferred
  {
    hide IsPrime, Lawful, ValidState, FrostNext;
    if ops == [] {
    } else {
      FrostRunIsValid(s, st, ops[..|ops| - 1]);
      FrostStepIsValid(s, FrostAfter(s, st, ops[..|ops| - 1]), ops[|ops| - 1]);
    }
  }

  /** Driven through the same calls with the same handles, the FROST backend never holds a
      handle that the local one does not; and it holds all of them as long as every key
      generated has an encoding. */
  lemma {:induction false} SameHandles(s: Suite, preferred: seq<nat>, ops: seq<Op>)
    requires Lawful(s)
    ensures var st, keys := FrostAfter(s, Initial(preferred), ops), LocalAfter(map[], ops);
            && st.polys.Keys <= keys.Keys
            && ((forall i | 0 <= i < |ops| :: EncodableKey(s, ops[i])) ==> st.polys.Keys == keys.Keys)
  {
    hide IsPrime, Lawful;
    if ops == [] {
    } else {
      SameHandles(s, preferred, ops[..|ops| - 1]);
    }
  }

  /** Refinement: drive both backends, from empty, through any calls with the same handles.
      The next call gets the same reply from both - success, or the same error - exactly
      when FROST can serve it. */
  lemma FrostMatchesLocal(s: Suite, preferred: seq<nat>, ops: seq<Op>, op: Op)
    requires Lawful(s) && ValidPreference(preferred) && !op.SetAvailable?
    ensures var st, keys := FrostAfter(s, Initial(preferred), ops), LocalAfter(map[], ops);
            && ValidState(s, st)
            && (FrostReply(s, st, op) == LocalReply(s, keys, op) <==> Served(s, st, keys, op))
  {
    hide IsPrime, ValidSigners, UsableDraws, FrostAfter, LocalAfter, FrostSignOutcome;
    FrostRunIsValid(s, Initial(preferred), ops);
    SameHandles(s, preferred, ops);
    var st := FrostAfter(s, Initial(preferred), ops);
    if op.Sign? {
      SignSucceedsWhen(s, st, op.signer, op.message, [op.first, op.second]);
    }
  }

  // ---- The objects make these runs ---------------------------------------------------------------

  function FrostReplies(s: Suite, st: FrostState, ops: seq<Op>): seq<Reply>
    requires Lawful(s) && ValidState(s, st)
  {
    if ops == [] then []
    else
      var q := ops[..|ops| - 1];
      FrostRunIsValid(s, st, q);
      FrostReplies(s, st, q) + [FrostReply(s, FrostAfter(s, st, q), ops[|ops| - 1])]
  }

  function LocalReplies(s: Suite, keys: Keys, ops: seq<Op>): seq<Reply>
    requires s.q > 0
  {
    if ops == [] then []
    else
      var q := ops[..|ops| - 1];
      LocalReplies(s, keys, q) + [LocalReply(s, LocalAfter(keys, q), ops[|ops| - 1])]
  }

  /** Each handle drawn has 32 bytes and is not in use when it is drawn. */
  predicate FreshHandle(h: Handle, inUse: set<Handle>) { |h.bytes| == 32 && h !in inUse }

  predicate FreshForFrost(s: Suite, st: FrostState, ops: seq<Op>)
    requires s.q > 0
  {
    forall i | 0 <= i < |ops| && ops[i].Create? :: FreshHandle(ops[i].handle, FrostAfter(s, st, ops[..i]).polys.Keys)
  }

  predicate FreshForLocal(keys: Keys, ops: seq<Op>) {
    forall i | 0 <= i < |ops| && ops[i].Create? :: FreshHandle(ops[i].handle, LocalAfter(keys, ops[..i]).Keys)
  }

  method FrostCall(b: FrostBackend, op: Op) returns (r: Reply)
    requires b.Valid() && (op.Create? ==> FreshHandle(op.handle, b.polys.Keys))
    modifies b, b.participantAvailable
    ensures b.Valid() && b.State() == FrostNext(b.suite, old(b.State()), op)
    ensures ValidState(b.suite, old(b.State())) && r == FrostReply(b.suite, old(b.State()), op)
  {
    hide IsPrime, Lawful, FrostSignOutcome, SignContract, CreateContract, DeleteContract, LiveOf, Dealt;
    match op
    case Create(rpId, fs, _, h) =>
      var draws := [h.bytes];
      assert Handle(draws[0]) == h && h !in b.credentials;
      var created := b.CreateCredential(rpId, [], fs, draws);
      assert created.Ok? ==> created.value.handle == h;
      r := ReplyTo(created);
    case Sign(h, message, first, second) =>
      var signed := b.Sign(h, message, [first, second]);
      r := ReplyTo(signed);
    case Delete(h) =>
      var deleted := b.DeleteCredential(h);
      r := ReplyTo(deleted);
    case SetAvailable(participant, available) =>
      var changed := b.SetParticipantAvailable(participant, available);
      r := ReplyTo(changed);
  }

  /** A FROST backend driven through any calls ends in the state, and gives the replies, of
      the run that the refinement is about. */
  method DriveFrost(b: FrostBackend, ops: seq<Op>) returns (replies: seq<Reply>)
    requires b.Valid() && FreshForFrost(b.suite, b.State(), ops)
    modifies b, b.participantAvailable
    ensures b.Valid() && b.State() == FrostAfter(b.suite, old(b.State()), ops)
    ensures ValidState(b.suite, old(b.State())) && replies == FrostReplies(b.suite, old(b.State()), ops)
  {
    hide FrostNext, FrostReply, ValidState, IsPrime, Lawful;
    replies := [];
    for i := 0 to |ops|
      invariant b.Valid() && b.State() == FrostAfter(b.suite, old(b.State()), ops[..i])
      invariant replies == FrostReplies(b.suite, old(b.State()), ops[..i])
    {
      var r := FrostCall(b, ops[i]);
      assert ops[..i + 1][..i] == ops[..i];
      replies := replies + [r];
    }
    assert ops[..|ops|] == ops;
  }

  method LocalCall(b: LocalEd25519Backend, op: Op) returns (r: Reply)
    requires b.Valid() && (op.Create? ==> FreshHandle(op.handle, b.keys.Keys))
    modifies b
    ensures b.keys == LocalNext(old(b.keys), op) && r == LocalReply(b.suite, old(b.keys), op)
  {
    hide IsPrime, Lawful, LocalSignOutcome, SignContract, CreateContract, DeleteContract, KeysLive;
    match op
    case Create(rpId, _, key, h) =>
      var draws := [h.bytes];
      assert Handle(draws[0]) == h;
      var created := b.CreateCredential(rpId, [], key, draws);
      assert created.Ok? ==> created.value.handle == h;
      r := ReplyTo(created);
    case Sign(h, message, _, _) =>
      var signed := b.Sign(h, message);
      r := ReplyTo(signed);
    case Delete(h) =>
      var deleted := b.DeleteCredential(h);
      r := ReplyTo(deleted);
    case SetAvailable(_, _) => r := Replied;
  }

  /** The same for the local backend. */
  method DriveLocal(b: LocalEd25519Backend, ops: seq<Op>) returns (replies: seq<Reply>)
    requires b.Valid() && FreshForLocal(b.keys, ops)
    modifies b
    ensures b.keys == LocalAfter(old(b.keys), ops)
    ensures replies == LocalReplies(b.suite, old(b.keys), ops)
  {
    hide LocalNext, LocalReply, IsPrime;
    replies := [];
    for i := 0 to |ops|
      invariant b.keys == LocalAfter(old(b.keys), ops[..i])
      invariant replies == LocalReplies(b.suite, old(b.keys), ops[..i])
    {
      var r := LocalCall(b, ops[i]);
      assert ops[..i + 1][..i] == ops[..i];
      replies := replies + [r];
    }
    assert ops[..|ops|] == ops;
  }
}
