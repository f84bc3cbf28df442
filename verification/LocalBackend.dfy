/** The in-process Ed25519 backend, the reference the FROST backend is measured against
    (`src/backend/local_ed25519.rs`). */
module LocalBackend {
  import opened Bytes
  import opened PrimeField
  import opened Ed25519
  import opened Backend

  /** The signing keys of the live credentials. */
  type Keys = map<Handle, int>

  function KeysLive(s: Suite, keys: Keys): Live { map h | h in keys :: s.exp(keys[h]) }

  /** Section 5.1.6 of RFC 8032: a deterministic nonce, and one response. */
  function SignLocally(s: Suite, key: int, message: Buffer): Buffer
    requires s.q > 0
  {
    var r := s.nonce(key, message);
    var k := s.challenge(s.exp(r), s.exp(key), message);
    EncodeSignature(s.exp(r), (r + k * key) % s.q)
  }

  function LocalSignOutcome(s: Suite, keys: Keys, h: Handle, message: Buffer): Result<Buffer>
    requires s.q > 0
  {
    if h in keys then Ok(SignLocally(s, keys[h], message)) else Err(CredentialNotFound)
  }

  lemma SignsForItsKey(s: Suite, keys: Keys, h: Handle, message: Buffer)
    requires Lawful(s)
    ensures SignContract(s, KeysLive(s, keys), h, message, LocalSignOutcome(s, keys, h, message))
  {
    hide IsPrime, Verify, EncodeSignature;
    if h in keys {
      var key, r := keys[h], s.nonce(keys[h], message);
      SchnorrVerifies(s, key, message, r, r + s.challenge(s.exp(r), s.exp(key), message) * key);
    }
  }

  class LocalEd25519Backend {
    const suite: Suite
    var keys: Keys

    ghost predicate Valid() { Lawful(suite) }

    constructor (suite: Suite)
      requires Lawful(suite)
      ensures Valid() && this.suite == suite && keys == map[]
    {
      this.suite := suite;
      keys := map[];
    }

    /** As for the FROST backend, `draws` is what the generator produces. */
    method CreateCredential(rpId: string, userId: Buffer, signingKey: int,
        draws: seq<Buffer>) returns (r: Result<Created>)
      requires Valid()
      requires (forall k | 0 <= k < |draws| :: |draws[k]| == 32) && exists k ::
               0 <= k < |draws| && Handle(draws[k]) !in keys
      modifies this
      ensures r.Ok? <==> rpId != ""
      ensures r.Err? ==> r.error == InvalidInput
      ensures r.Ok? ==> r.value.handle.bytes in draws
      ensures keys == if r.Ok? then old(keys)[r.value.handle := signingKey] else old(keys)
      ensures CreateContract(KeysLive(suite, old(keys)), rpId, r, KeysLive(suite, keys))
    {
      hide IsPrime;
      if rpId == "" {
        return Err(InvalidInput);
      }
      var publicKey := suite.exp(signingKey);
      assert SizeLaw(suite, signingKey);
      var k := 0;
      while Handle(draws[k]) in keys
        invariant 0 <= k < |draws| && forall i | 0 <= i < k :: Handle(draws[i]) in keys
        decreases |draws| - k
      {
        k := k + 1;
      }
      var handle := NewHandle(draws[k]).value;
      keys := keys[handle := signingKey];
      assert KeysLive(suite, keys) == KeysLive(suite, old(keys))[handle := publicKey];
      return Ok(Created(handle, publicKey));
    }

    method Sign(h: Handle, message: Buffer) returns (r: Result<Buffer>)
      requires Valid()
      ensures r == LocalSignOutcome(suite, keys, h, message)
      ensures SignContract(suite, KeysLive(suite, keys), h, message, r)
    {
      SignsForItsKey(suite, keys, h, message);
      hide IsPrime, Lawful, Verify, SignLocally;
      if h !in keys {
        return Err(CredentialNotFound);
      }
      return Ok(SignLocally(suite, keys[h], message));
    }

    method DeleteCredential(h: Handle) returns (r: Result<()>)
      requires Valid()
      modifies this
      ensures keys == old(keys) - {h}
      ensures r == if h in old(keys) then Ok(()) else Err(CredentialNotFound)
      ensures DeleteContract(KeysLive(suite, old(keys)), h, r, KeysLive(suite, keys))
    {
      if h !in keys {
        assert keys - {h} == keys;
        return Err(CredentialNotFound);
      }
      keys := keys - {h};
      return Ok(());
    }
  }
}
