/** The in-process 2-of-3 FROST backend (`src/backend/frost.rs`). */
module FrostBackend {
  import opened Bytes
  import opened PrimeField
  import opened Ed25519
  import opened Backend
  import opened FrostDkg
  import opened FrostSigning

  const NORMAL_SIGNERS: seq<nat> := [1, 2]

  // ---- Choosing the signers -----------------------------------------------------------------

  type Availability = a: seq<bool> | |a| == MAX_SIGNERS witness seq(MAX_SIGNERS, _ => true)

  predicate BothAvailable(available: Availability, pair: seq<nat>)
    requires |pair| == 2 && ValidSigners(pair)
  {
    available[pair[0] - 1] && available[pair[1] - 1]
  }

  function Candidates(preferred: seq<nat>): seq<seq<nat>> { [preferred, [1, 2], [1, 3], [2, 3]] }

  /** `candidates.into_iter().find(..)`, from the `k`-th candidate on. */
  function FirstAvailable(available: Availability, candidates: seq<seq<nat>>, k: nat): Option<seq<nat>>
    requires forall i | 0 <= i < |candidates| :: |candidates[i]| == 2 && ValidSigners(candidates[i])
    decreases |candidates| - k
  {
    if k >= |candidates| then None
    else if BothAvailable(available, candidates[k]) then Some(candidates[k])
    else FirstAvailable(available, candidates, k + 1)
  }

  function SelectSigners(available: Availability, preferred: seq<nat>): Option<seq<nat>>
    requires |preferred| == 2 && ValidSigners(preferred)
  {
    FirstAvailable(available, Candidates(preferred), 0)
  }

  function AvailableCount(a: Availability): nat {
    (if a[0] then 1 else 0) + (if a[1] then 1 else 0) + (if a[2] then 1 else 0)
  }

  /** A pair is selected exactly when two participants are available. It is a valid pair of
      available participants, and the preferred one whenever both of those are available. */
  lemma SelectedSignersAvailable(available: Availability, preferred: seq<nat>)
    requires |preferred| == 2 && ValidSigners(preferred)
    ensures SelectSigners(available, preferred).Some? <==> AvailableCount(available) >= 2
    ensures var r := SelectSigners(available, preferred); r.Some? ==>
              |r.value| == 2 && ValidSigners(r.value) && BothAvailable(available, r.value)
    ensures BothAvailable(available, preferred) ==> SelectSigners(available, preferred) == Some(preferred)
  {
    var c := Candidates(preferred);
    assert FirstAvailable(available, c, 4) == None;
    assert FirstAvailable(available, c, 3) == if available[1] && available[2] then Some([2, 3]) else None;
    assert FirstAvailable(available, c, 2) == if available[0] && available[2] then Some([1, 3])
           else FirstAvailable(available, c, 3);
    assert FirstAvailable(available, c, 1) == if available[0] && available[1] then Some([1, 2])
           else FirstAvailable(available, c, 2);
  }

  // ---- The backend as a value ------------------------------------------------------------------

  /** `polys` holds, for each live credential, the polynomial its shares lie on. */
  datatype FrostState = FrostState(polys: map<Handle, Polynomial>, preferred: seq<nat>, available: Availability)

  ghost predicate ValidState(s: Suite, st: FrostState)
    requires s.q > 0
  {
    && |st.preferred| == 2 && ValidSigners(st.preferred)
    && forall h | h in st.polys :: st.polys[h].constant % s.q != 0
  }

  function LiveOf(s: Suite, st: FrostState): Live { map h | h in st.polys :: s.exp(st.polys[h].constant) }

  /** `sign`, with the nonces the two signers draw. */
  function FrostSignOutcome(s: Suite, st: FrostState, h: Handle, message: Buffer,
      draws: seq<Nonces>): (r: Result<Buffer>)
    requires Lawful(s) && ValidState(s, st) && |draws| == 2
  {
    if h !in st.polys then Err(CredentialNotFound)
    else
      SelectedSignersAvailable(st.available, st.preferred);
      match SelectSigners(st.available, st.preferred)
      case None => Err(Internal)
      case Some(signers) => RunOutcome(s, st.polys[h], message, PairOf(signers, draws))
  }

  /** The nonces drawn are usable: no identity element turns up in the run. */
  predicate UsableDraws(s: Suite, st: FrostState, h: Handle, message: Buffer, draws: seq<Nonces>)
    requires |draws| == 2 && |st.preferred| == 2 && ValidSigners(st.preferred)
    requires h in st.polys && AvailableCount(st.available) >= 2
  {
    SelectedSignersAvailable(st.available, st.preferred);
    var signers := SelectSigners(st.available, st.preferred).value;
    Usable(s, s.exp(st.polys[h].constant), message, PairOf(signers, draws))
  }

  /** `sign` succeeds exactly when the handle is live, at least two participants are
      available now, and the draws are usable; and then the signature verifies under the
      key returned at creation. */
  lemma SignSucceedsWhen(s: Suite, st: FrostState, h: Handle, message: Buffer, draws: seq<Nonces>)
    requires Lawful(s) && ValidState(s, st) && |draws| == 2
    ensures FrostSignOutcome(s, st, h, message, draws).Ok? <==>
            h in st.polys && AvailableCount(st.available) >= 2 && UsableDraws(s, st, h, message, draws)
    ensures SignContract(s, LiveOf(s, st), h, message, FrostSignOutcome(s, st, h, message, draws))
  {
    hide IsPrime, Lawful, Usable, Verify, RunOutcome, SelectSigners, PairOf;
    SelectedSignersAvailable(st.available, st.preferred);
    if h in st.polys && AvailableCount(st.available) >= 2 {
      var signers := SelectSigners(st.available, st.preferred).value;
      OutcomeVerifies(s, st.polys[h], message, PairOf(signers, draws));
    }
  }

  /** `create_credential`, with the polynomials the participants draw and the fresh handle. */
  function CreateOutcome(s: Suite, rpId: string, fs: Polynomials, handle: Handle): Result<Created>
    requires s.q > 0
  {
    if rpId == "" then Err(InvalidInput)
    else if s.exp(Total(fs).constant) == Identity(s) then Err(Internal)
    else Ok(Created(handle, s.exp(Total(fs).constant)))
  }

  lemma Stored(s: Suite, st: FrostState, handle: Handle, f: Polynomial)
    requires Lawful(s) && ValidState(s, st)
    ensures s.exp(f.constant) != Identity(s) ==> ValidState(s, st.(polys := st.polys[handle := f]))
    ensures LiveOf(s, st.(polys := st.polys[handle := f])) == LiveOf(s, st)[handle := s.exp(f.constant)]
    ensures LiveOf(s, st).Keys == st.polys.Keys
    ensures |s.exp(f.constant)| == 32
  {
    hide IsPrime;
    ExpEqual(s, f.constant, 0);
    RemainderUnique(0, 0, 0, s.q);
    assert SizeLaw(s, f.constant);
  }

  // ---- The backend as an object ------------------------------------------------------------------

  class FrostBackend {
    const suite: Suite
    var credentials: map<Handle, FrostCredential>
    const preferredSigners: seq<nat>
    const participantAvailable: array<bool>
    ghost var polys: map<Handle, Polynomial>

    ghost predicate Valid()
      reads this, participantAvailable
    {
      && Lawful(suite)
      && participantAvailable.Length == MAX_SIGNERS
      && ValidState(suite, State())
      && credentials == map h | h in polys :: Dealt(suite, polys[h])
    }

    ghost function State(): FrostState
      requires participantAvailable.Length == MAX_SIGNERS
      reads this, participantAvailable
    {
      FrostState(polys, preferredSigners, participantAvailable[..])
    }

    /** The constructor behind `new` and `with_signing_participants`. */
    constructor (suite: Suite, preferred: seq<nat>)
      requires Lawful(suite) && |preferred| == 2 && ValidSigners(preferred)
      ensures Valid() && fresh(participantAvailable) && this.suite == suite
      ensures State() == FrostState(map[], preferred, [true, true, true])
    {
      this.suite := suite;
      credentials := map[];
      preferredSigners := preferred;
      participantAvailable := new bool[MAX_SIGNERS](_ => true);
      polys := map[];
    }

    static method New(suite: Suite) returns (b: FrostBackend)
      requires Lawful(suite)
      ensures fresh(b) && fresh(b.participantAvailable) && b.Valid()
      ensures b.State() == FrostState(map[], NORMAL_SIGNERS, [true, true, true])
    {
      b := new FrostBackend(suite, NORMAL_SIGNERS);
    }

    static method WithSigningParticipants(suite: Suite, signers: seq<nat>) returns (r: Result<FrostBackend>)
      requires Lawful(suite) && |signers| == 2
      ensures r.Ok? <==> ValidSigners(signers)
      ensures r.Err? ==> r.error == InvalidInput
      ensures r.Ok? ==> fresh(r.value) && fresh(r.value.participantAvailable) && r.value.Valid()
                        && r.value.State() == FrostState(map[], signers, [true, true, true])
    {
      if !ValidSigners(signers) {
        return Err(InvalidInput);
      }
      var b := new FrostBackend(suite, signers);
      return Ok(b);
    }

    method SetParticipantAvailable(participant: nat, available: bool) returns (r: Result<()>)
      requires Valid()
      modifies participantAvailable
      ensures Valid()
      ensures r == if participant in PARTICIPANTS then Ok(()) else Err(InvalidInput)
      ensures State() == old(State()).(available :=
                if participant in PARTICIPANTS then old(participantAvailable[..])[participant - 1 := available]
                else old(participantAvailable[..]))
    {
      if !(1 <= participant <= MAX_SIGNERS) {
        return Err(InvalidInput);
      }
      participantAvailable[participant - 1] := available;
      return Ok(());
    }

    method SelectedSigners() returns (r: Result<seq<nat>>)
      requires Valid()
      ensures r.Ok? <==> AvailableCount(State().available) >= 2
      ensures r == match SelectSigners(State().available,
              preferredSigners) case Some(p) => Ok(p) case None => Err(Internal)
    {
      SelectedSignersAvailable(State().available, preferredSigners);
      var candidates := Candidates(preferredSigners);
      for k := 0 to |candidates|
        invariant SelectSigners(State().available, preferredSigners) == FirstAvailable(State().available, candidates, k)
      {
        if participantAvailable[candidates[k][0] - 1] && participantAvailable[candidates[k][1] - 1] {
          return Ok(candidates[k]);
        }
      }
      return Err(Internal);
    }

    /** Draws random 32-byte handles until one is not in use. `draws` is what the generator
        produces; that it produces a fresh one at all is the caller's assumption. */
    method FreshHandle(draws: seq<Buffer>) returns (h: Handle)
      requires (forall k | 0 <= k < |draws| :: |draws[k]| == 32) && exists k ::
               0 <= k < |draws| && Handle(draws[k]) !in credentials
      ensures h !in credentials && h.bytes in draws
    {
      var k := 0;
      while Handle(draws[k]) in credentials
        invariant 0 <= k < |draws| && forall i | 0 <= i < k :: Handle(draws[i]) in credentials
        decreases |draws| - k
      {
        k := k + 1;
      }
      var handle := NewHandle(draws[k]);
      h := handle.value;
    }

    method CreateCredential(rpId: string, userId: Buffer, fs: Polynomials,
        draws: seq<Buffer>) returns (r: Result<Created>)
      requires Valid()
      requires (forall k | 0 <= k < |draws| :: |draws[k]| == 32) && exists k ::
               0 <= k < |draws| && Handle(draws[k]) !in credentials
      modifies this
      ensures Valid()
      ensures r.Ok? ==> r.value.handle !in old(credentials) && r.value.handle.bytes in draws
                        && r == CreateOutcome(suite, rpId, fs, r.value.handle)
      ensures r.Err? ==> r == CreateOutcome(suite, rpId, fs, Handle([]))
      ensures State() == old(State()).(polys :=
                if r.Ok? then old(polys)[r.value.handle := Total(fs)] else old(polys))
      ensures CreateContract(LiveOf(suite, old(State())), rpId, r, LiveOf(suite, State()))
    {
      hide IsPrime, Lawful, ValidState, ShareOf, LiveOf, SharesMatch;
      ghost var before := State();
      if rpId == "" {
        return Err(InvalidInput);
      }
      var credential := GenerateCredential(suite, fs);
      if credential.Err? {
        return Err(Internal);
      }
      var publicKey := credential.value.publicKeyPackage.verifyingKey;
      if publicKey == Identity(suite) {
        return Err(Internal);
      }
      var handle := FreshHandle(draws);
      Stored(suite, before, handle, Total(fs));
      credentials := credentials[handle := credential.value];
      polys := polys[handle := Total(fs)];
      assert State() == before.(polys := before.polys[handle := Total(fs)]);
      return Ok(Created(handle, publicKey));
    }

    method Sign(h: Handle, message: Buffer, draws: seq<Nonces>) returns (r: Result<Buffer>)
      requires Valid() && |draws| == 2
      ensures r == FrostSignOutcome(suite, State(), h, message, draws)
      ensures SignContract(suite, LiveOf(suite, State()), h, message, r)
    {
      if h !in credentials {
        return Err(CredentialNotFound);
      }
      SignSucceedsWhen(suite, State(), h, message, draws);
      SelectedSignersAvailable(State().available, preferredSigners);
      var signers := SelectedSigners();
      if signers.Err? {
        return Err(signers.error);
      }
      r := SignWith(suite, credentials[h], signers.value, draws, message, polys[h]);
    }

    method DeleteCredential(h: Handle) returns (r: Result<()>)
      requires Valid()
      modifies this
      ensures Valid() && State() == old(State()).(polys := old(polys) - {h})
      ensures r == if h in old(polys) then Ok(()) else Err(CredentialNotFound)
      ensures DeleteContract(LiveOf(suite, old(State())), h, r, LiveOf(suite, State()))
    {
      hide IsPrime, Lawful, Dealt;
      if h !in credentials {
        assert polys == polys - {h};
        return Err(CredentialNotFound);
      }
      credentials := credentials - {h};
      polys := polys - {h};
      return Ok(());
    }
  }
}
