/** Two-round threshold signing: the library's steps as in sections 4 and 5 of RFC 9591,
    and the signing run of the repository (`src/backend/frost.rs`). */
module FrostSigning {
  import opened Bytes
  import opened PrimeField
  import opened Ed25519
  import opened Backend
  import opened FrostDkg

  /** The one-time secrets of one signer: its randomness in a signing run. */
  datatype Nonces = Nonces(hiding: int, binding: int)

  type Commitments = map<nat, SigningCommitment>

  // ---- The library's side ----------------------------------------------------------------

  /** Section 5.1: commit. */
  function CommitNonces(s: Suite, id: nat, n: Nonces): SigningCommitment {
    SigningCommitment(id, s.exp(n.hiding), s.exp(n.binding))
  }

  /** The entries of `m` at 1 to `n`, in ascending order. */
  function Ascending<T>(m: map<nat, T>, n: nat): seq<T> {
    if n == 0 then [] else Ascending(m, n - 1) + if n in m then [m[n]] else []
  }

  function CommitmentList(cs: Commitments): seq<SigningCommitment> { Ascending(cs, MAX_SIGNERS) }

  /** Section 4.3: encoding fails on the identity element. */
  predicate Encodable(s: Suite, publicKey: Buffer, list: seq<SigningCommitment>) {
    publicKey != Identity(s)
    && forall k | 0 <= k < |list| :: list[k].hiding != Identity(s) && list[k].binding != Identity(s)
  }

  /** Section 4.5: the group commitment. */
  function GroupNonce(s: Suite, publicKey: Buffer, message: Buffer, all: seq<SigningCommitment>,
      list: seq<SigningCommitment>): Buffer {
    if list == [] then Identity(s)
    else
      var c := list[|list| - 1];
      var acc := GroupNonce(s, publicKey, message, all, list[..|list| - 1]);
      s.add(s.add(acc, c.hiding), s.mul(s.bindingFactor(publicKey, message, all, c.id), c.binding))
  }

  function GroupNonceOf(s: Suite, publicKey: Buffer, message: Buffer, list: seq<SigningCommitment>): Buffer {
    GroupNonce(s, publicKey, message, list, list)
  }

  /** Section 4.2: numerator and denominator of the interpolating value of `i`. */
  function Numerator(list: seq<SigningCommitment>, i: nat): int {
    if list == [] then 1
    else
      var j, rest := list[|list| - 1].id, Numerator(list[..|list| - 1], i);
      if j == i then rest else j * rest
  }

  function Denominator(list: seq<SigningCommitment>, i: nat): int {
    if list == [] then 1
    else
      var j, rest := list[|list| - 1].id, Denominator(list[..|list| - 1], i);
      if j == i then rest else (j - i) * rest
  }

  /** A signer's nonces as one scalar, given its binding factor. */
  function NoncePart(n: Nonces, factor: int): int { n.hiding + n.binding * factor }

  function Response(nonce: int, weighted: int, c: int, q: int): int
    requires q > 0
  {
    Residue(nonce + Times(weighted, c), q)
  }

  /** Section 5.2: sign, at the participant holding `key`. */
  function SignShare(s: Suite, cs: Commitments, message: Buffer, n: Nonces, key: KeyPackage): Result<int>
    requires Lawful(s)
  {
    var list := CommitmentList(cs);
    var nonce := GroupNonceOf(s, key.verifyingKey, message, list);
    if |cs| < MIN_SIGNERS || key.id !in cs || cs[key.id] != CommitNonces(s, key.id, n) then Err(Internal)
    else if !Encodable(s, key.verifyingKey, list) || nonce == Identity(s) then Err(Internal)
    else if Denominator(list, key.id) % s.q == 0 then Err(Internal)
    else
      var factor := s.bindingFactor(key.verifyingKey, message, list, key.id);
      var lambda := (Numerator(list, key.id) * Inverse(Denominator(list, key.id), s.q)) % s.q;
      var c := s.challenge(nonce, key.verifyingKey, message);
      Ok(Response(NoncePart(n, factor), lambda * key.signingShare, c, s.q))
  }

  /** Section 5.3: aggregate. */
  function Aggregate(s: Suite, cs: Commitments, message: Buffer, shares: map<nat, int>,
      keys: PublicKeyPackage): Result<(Buffer, int)>
    requires s.q > 0
  {
    var list := CommitmentList(cs);
    var nonce := GroupNonceOf(s, keys.verifyingKey, message, list);
    if cs.Keys != shares.Keys || !(cs.Keys <= keys.verifyingShares.Keys) then Err(Internal)
    else if !Encodable(s, keys.verifyingKey, list) || nonce == Identity(s) then Err(Internal)
    else Ok((nonce, SumScalars(shares, MAX_SIGNERS) % s.q))
  }

  // ---- What a signing run amounts to -------------------------------------------------------

  /** The two signers in ascending order, with their nonces. */
  datatype Pair = Pair(low: nat, lowNonces: Nonces, high: nat, highNonces: Nonces)

  predicate ValidPair(p: Pair) { p.low in PARTICIPANTS && p.high in PARTICIPANTS && p.low < p.high }

  function NoncesOf(p: Pair): map<nat, Nonces> { map[p.low := p.lowNonces, p.high := p.highNonces] }

  function CommitmentsOf(s: Suite, p: Pair): Commitments {
    map[p.low := CommitNonces(s, p.low, p.lowNonces), p.high := CommitNonces(s, p.high, p.highNonces)]
  }

  function ListOf(s: Suite, p: Pair): seq<SigningCommitment> {
    [CommitNonces(s, p.low, p.lowNonces), CommitNonces(s, p.high, p.highNonces)]
  }

  /** No identity element turns up: neither the group key, nor a nonce commitment, nor the
      group commitment. It fails for one in about 2^252 random draws. */
  predicate Usable(s: Suite, publicKey: Buffer, message: Buffer, p: Pair) {
    Encodable(s, publicKey, ListOf(s, p)) && GroupNonceOf(s, publicKey, message, ListOf(s, p)) != Identity(s)
  }

  lemma AscendingPair<T>(m: map<nat, T>, low: nat, high: nat)
    requires low in PARTICIPANTS && high in PARTICIPANTS && low < high && m.Keys == {low, high}
    ensures Ascending(m, MAX_SIGNERS) == [m[low], m[high]]
    ensures |m| == 2
  {
    assert Ascending(m, 1) == if low == 1 then [m[1]] else [];
    assert Ascending(m, 2) == if low == 1 && high == 2 then [m[1], m[2]] else if low == 1 then [m[1]] else [m[2]];
  }

  lemma SumOfPair(m: map<nat, int>, low: nat, high: nat)
    requires low in PARTICIPANTS && high in PARTICIPANTS && low < high && m.Keys == {low, high}
    ensures SumScalars(m, MAX_SIGNERS) == m[low] + m[high]
  {
    assert SumScalars(m, 1) == if low == 1 then m[1] else 0;
  }

  /** For two signers the general interpolating value is the Lagrange coefficient of a pair. */
  lemma PairWeights(s: Suite, p: Pair)
    requires Lawful(s) && ValidPair(p)
    ensures Numerator(ListOf(s, p), p.low) == p.high && Denominator(ListOf(s, p), p.low) == p.high - p.low
    ensures Numerator(ListOf(s, p), p.high) == p.low && Denominator(ListOf(s, p), p.high) == p.low - p.high
    ensures (p.high - p.low) % s.q != 0 && (p.low - p.high) % s.q != 0
  {
    hide IsPrime, Numerator, Denominator;
    DistinctIds(p.low, p.high, s.q);
    TwoFactors(ListOf(s, p));
  }

  lemma TwoFactors(list: seq<SigningCommitment>)
    requires |list| == 2 && list[0].id != list[1].id
    ensures var i, j := list[0].id, list[1].id;
            && Numerator(list, i) == j && Denominator(list, i) == j - i
            && Numerator(list, j) == i && Denominator(list, j) == i - j
  {
    var one := list[..1];
    assert one[..0] == [];
    var i: int, j: int := list[0].id, list[1].id;
    assert Numerator(one, i) == 1 && Denominator(one, i) == 1;
    assert Numerator(one, j) == i * 1 && Denominator(one, j) == (i - j) * 1;
  }

  function NonceScalar(s: Suite, publicKey: Buffer, message: Buffer, p: Pair): int {
    var list := ListOf(s, p);
    NoncePart(p.lowNonces, s.bindingFactor(publicKey, message, list, p.low))
    + NoncePart(p.highNonces, s.bindingFactor(publicKey, message, list, p.high))
  }

  lemma GroupNonceExp(s: Suite, key: int, message: Buffer, p: Pair)
    requires Lawful(s)
    ensures GroupNonceOf(s, s.exp(key), message, ListOf(s, p)) == s.exp(NonceScalar(s, s.exp(key), message, p))
  {
    hide IsPrime;
    var list, pk := ListOf(s, p), s.exp(key);
    var one := list[..1];
    assert one[..0] == [];
    var x, y := s.bindingFactor(pk, message, list, p.low), s.bindingFactor(pk, message, list, p.high);
    var a, b := p.lowNonces, p.highNonces;
    ExpMul(s, x, a.binding);
    ExpMul(s, y, b.binding);
    ExpAdd(s, 0, a.hiding);
    ExpAdd(s, a.hiding, x * a.binding);
    var u := a.hiding + x * a.binding;
    assert GroupNonce(s, pk, message, list, one) == s.exp(u);
    ExpAdd(s, u, b.hiding);
    ExpAdd(s, u + b.hiding, y * b.binding);
  }

  /** Draws are usable exactly when neither the key nor any nonce nor the combined nonce is a
      multiple of the order. */
  lemma UsableExactlyWhen(s: Suite, key: int, message: Buffer, p: Pair)
    requires Lawful(s)
    ensures Usable(s, s.exp(key), message, p) <==>
              && key % s.q != 0
              && p.lowNonces.hiding % s.q != 0 && p.lowNonces.binding % s.q != 0
              && p.highNonces.hiding % s.q != 0 && p.highNonces.binding % s.q != 0
              && NonceScalar(s, s.exp(key), message, p) % s.q != 0
  {
    hide IsPrime, Lawful, GroupNonce, NonceScalar, Encodable;
    GroupNonceExp(s, key, message, p);
    EncodablePair(s, s.exp(key), p);
    hide ListOf, Identity;
    IsIdentity(s, key);
    IsIdentity(s, p.lowNonces.hiding);
    IsIdentity(s, p.lowNonces.binding);
    IsIdentity(s, p.highNonces.hiding);
    IsIdentity(s, p.highNonces.binding);
    IsIdentity(s, NonceScalar(s, s.exp(key), message, p));
  }

  lemma EncodablePair(s: Suite, publicKey: Buffer, p: Pair)
    ensures Encodable(s, publicKey, ListOf(s, p)) <==>
              && publicKey != Identity(s)
              && s.exp(p.lowNonces.hiding) != Identity(s) && s.exp(p.lowNonces.binding) != Identity(s)
              && s.exp(p.highNonces.hiding) != Identity(s) && s.exp(p.highNonces.binding) != Identity(s)
  {
    hide Identity;
    var list := ListOf(s, p);
    assert list[0] == CommitNonces(s, p.low, p.lowNonces) && list[1] == CommitNonces(s, p.high, p.highNonces);
  }

  lemma IsIdentity(s: Suite, a: int)
    requires Lawful(s)
    ensures s.exp(a) == Identity(s) <==> a % s.q == 0
  {
    hide IsPrime;
    ExpEqual(s, a, 0);
    RemainderUnique(0, 0, 0, s.q);
  }

  /** Signing does fail for some draws, whatever the suite: here a zero nonce. */
  lemma ZeroNonceIsUnusable(s: Suite, publicKey: Buffer, message: Buffer, p: Pair)
    requires Lawful(s) && p.lowNonces.hiding % s.q == 0
    ensures !Usable(s, publicKey, message, p)
  {
    hide IsPrime, Lawful, GroupNonce, Encodable;
    IsIdentity(s, p.lowNonces.hiding);
    EncodablePair(s, publicKey, p);
  }

  /** In the additive group of any order a signer's binding factor is its number. */
  lemma ToyNonceScalar(q: int, publicKey: Buffer, message: Buffer, p: Pair)
    requires q > 0
    ensures NonceScalar(AdditiveGroup(q), publicKey, message, p)
            == p.lowNonces.hiding + p.lowNonces.binding * p.low + p.highNonces.hiding + p.highNonces.binding * p.high
  {
    hide LittleEndian, FromLittleEndian, ListOf;
  }

  lemma FiveIsPrime()
    ensures IsPrime(5)
  {
    assert 5 % 2 == 1 && 5 % 3 == 2 && 5 % 4 == 1;
  }

  /** And it does succeed for others. */
  lemma SomeDrawIsUsable(message: Buffer)
    ensures Lawful(AdditiveGroup(5))
    ensures Usable(AdditiveGroup(5), AdditiveGroup(5).exp(1), message, Pair(1, Nonces(2, 1), 2, Nonces(1, 1)))
  {
    hide IsPrime, Lawful, Usable, LittleEndian, Power256, NonceScalar;
    var p := Pair(1, Nonces(2, 1), 2, Nonces(1, 1));
    FiveIsPrime();
    LawsAreSatisfiable(5);
    ToyNonceScalar(5, AdditiveGroup(5).exp(1), message, p);
    UsableExactlyWhen(AdditiveGroup(5), 1, message, p);
  }

  /** Two responses add up to the nonces plus the challenge times the group secret. */
  lemma TwoResponses(r: int, x: int, t: int, y: int, c: int, key: int, q: int)
    requires q > 0 && Residue(x + y, q) == Residue(key, q)
    ensures Residue(Response(r, x, c, q) + Response(t, y, c, q), q) == Residue(r + t + Times(c, key), q)
  {
    hide Times, Residue;
    CollectChallenge(x, y, c);
    SumOfResidues(r + Times(x, c), t + Times(y, c), q);
    SameModulo(r + t, c, x + y, key, q);
  }

  lemma SumOfResidues(a: int, b: int, q: int)
    requires q > 0
    ensures Residue(Residue(a, q) + Residue(b, q), q) == Residue(a + b, q)
  {
    ReduceSum(a, b, q);
  }

  lemma CollectChallenge(x: int, y: int, c: int)
    ensures Times(x, c) + Times(y, c) == Times(c, x + y)
  {
  }

  lemma SameModulo(r: int, c: int, w: int, key: int, q: int)
    requires q > 0 && Residue(w, q) == Residue(key, q)
    ensures Residue(r + Times(c, w), q) == Residue(r + Times(c, key), q)
  {
    Quotient(w, q);
    Quotient(key, q);
    var k := c * (w / q - key / q);
    ShiftFactor(c, w, w / q, key, key / q, key % q, q);
    hide Times;
    DropMultiple(r + Times(c, key), k, q);
  }

  lemma ShiftFactor(c: int, w: int, m: int, key: int, n: int, rest: int, q: int)
    requires w == rest + m * q && key == rest + n * q
    ensures Times(c, w) == Times(c, key) + c * (m - n) * q
  {
    assert w == key + (m - n) * q;
    assert c * ((m - n) * q) == c * (m - n) * q;
  }

  /** What signer `i` of a pair, the other being `j`, must answer with. */
  function Answer(s: Suite, f: Polynomial, message: Buffer, p: Pair, n: Nonces, i: nat, j: nat): int
    requires Lawful(s) && i in PARTICIPANTS && j in PARTICIPANTS && i != j
  {
    DistinctIds(i, j, s.q);
    var pk, list := s.exp(f.constant), ListOf(s, p);
    Response(NoncePart(n, s.bindingFactor(pk, message, list, i)), Lagrange(i, j, s.q) * (At(f, i) % s.q),
             s.challenge(GroupNonceOf(s, pk, message, list), pk, message), s.q)
  }

  lemma SignerAnswers(s: Suite, f: Polynomial, message: Buffer, p: Pair, n: Nonces, i: nat, j: nat)
    requires Lawful(s) && ValidPair(p)
    requires (i == p.low && j == p.high && n == p.lowNonces) || (i == p.high && j == p.low && n == p.highNonces)
    ensures SignShare(s, CommitmentsOf(s, p), message, n, ShareOf(s, f, i)) ==
            if Usable(s, s.exp(f.constant), message, p) then Ok(Answer(s, f, message, p, n, i, j)) else Err(Internal)
  {
    hide IsPrime, Lawful, Inverse, GroupNonce, Encodable, CommitmentList, Numerator, Denominator, At, Response,
         NoncePart;
    PairWeights(s, p);
    PairList(s, p);
    AscendingPair(CommitmentsOf(s, p), p.low, p.high);
  }

  function AnswersOf(s: Suite, f: Polynomial, message: Buffer, p: Pair): map<nat, int>
    requires Lawful(s) && ValidPair(p)
  {
    map[p.low := Answer(s, f, message, p, p.lowNonces, p.low, p.high),
        p.high := Answer(s, f, message, p, p.highNonces, p.high, p.low)]
  }

  lemma DealtAt(s: Suite, f: Polynomial, i: nat)
    requires s.q > 0 && i in PARTICIPANTS
    ensures i in Dealt(s, f).participants && Dealt(s, f).participants[i] == ShareOf(s, f, i)
  {
  }

  lemma AnswerAt(s: Suite, f: Polynomial, message: Buffer, p: Pair, i: nat)
    requires Lawful(s) && ValidPair(p)
    ensures i in NoncesOf(p) <==> i in AnswersOf(s, f, message, p)
    ensures i in NoncesOf(p) <==> i == p.low || i == p.high
    ensures p.low in NoncesOf(p) && p.high in NoncesOf(p)
    ensures p.low in AnswersOf(s, f, message, p) && p.high in AnswersOf(s, f, message, p)
    ensures NoncesOf(p)[p.low] == p.lowNonces && NoncesOf(p)[p.high] == p.highNonces
    ensures AnswersOf(s, f, message, p)[p.low] == Answer(s, f, message, p, p.lowNonces, p.low, p.high)
    ensures AnswersOf(s, f, message, p)[p.high] == Answer(s, f, message, p, p.highNonces, p.high, p.low)
  {
    hide Answer;
  }

  /** Aggregating the answers of any pair gives a signature that verifies under the group
      key, so neither the library's errors nor the self-check that follows can occur. */
  lemma AggregateVerifies(s: Suite, f: Polynomial, message: Buffer, p: Pair)
    requires Lawful(s) && ValidPair(p) && Usable(s, s.exp(f.constant), message, p)
    ensures var pk := s.exp(f.constant);
            var r := Aggregate(s, CommitmentsOf(s, p), message, AnswersOf(s, f, message, p), PublicOf(s, f));
            && r.Ok? && r.value.0 != Identity(s) && 0 <= r.value.1 < s.q
            && Equation(s, pk, message, r.value.0, r.value.1)
            && Verify(s, pk, message, EncodeSignature(r.value.0, r.value.1))
  {
    hide IsPrime, Lawful, GroupNonce, Encodable, Ascending, Answer, Verify, Equation, ListOf, SumScalars;
    var pk, k := s.exp(f.constant), NonceScalar(s, s.exp(f.constant), message, p);
    PairWeights(s, p);
    PairList(s, p);
    GroupNonceExp(s, f.constant, message, p);
    AnswersAddUp(s, f, message, p);
    var answers := AnswersOf(s, f, message, p);
    SchnorrVerifies(s, f.constant, message, k, SumScalars(answers, MAX_SIGNERS));
  }

  lemma PairList(s: Suite, p: Pair)
    requires ValidPair(p)
    ensures CommitmentList(CommitmentsOf(s, p)) == ListOf(s, p)
  {
    hide Ascending;
    AscendingPair(CommitmentsOf(s, p), p.low, p.high);
  }

  lemma AnswersAddUp(s: Suite, f: Polynomial, message: Buffer, p: Pair)
    requires Lawful(s) && ValidPair(p)
    ensures var pk, k := s.exp(f.constant), NonceScalar(s, s.exp(f.constant), message, p);
            SumScalars(AnswersOf(s, f, message, p), MAX_SIGNERS) % s.q
            == (k + s.challenge(s.exp(k), pk, message) * f.constant) % s.q
  {
    hide IsPrime, Lawful, GroupNonce, Lagrange, Response, NoncePart, ListOf, At;
    var pk, list, k := s.exp(f.constant), ListOf(s, p), NonceScalar(s, s.exp(f.constant), message, p);
    GroupNonceExp(s, f.constant, message, p);
    SumOfPair(AnswersOf(s, f, message, p), p.low, p.high);
    hide SumScalars;
    DistinctIds(p.low, p.high, s.q);
    SharesInterpolate(f, p.low, p.high, s.q);
    TwoResponses(NoncePart(p.lowNonces, s.bindingFactor(pk, message, list, p.low)),
                 Lagrange(p.low, p.high, s.q) * (At(f, p.low) % s.q),
                 NoncePart(p.highNonces, s.bindingFactor(pk, message, list, p.high)),
                 Lagrange(p.high, p.low, s.q) * (At(f, p.high) % s.q),
                 s.challenge(s.exp(k), pk, message), f.constant, s.q);
  }

  // ---- The repository's side -----------------------------------------------------------------

  /** `validate_signers` */
  predicate ValidSigners(signers: seq<nat>)
    requires |signers| == 2
  {
    signers[0] != signers[1] && 1 <= signers[0] <= MAX_SIGNERS && 1 <= signers[1] <= MAX_SIGNERS
  }

  function PairOf(signers: seq<nat>, draws: seq<Nonces>): (p: Pair)
    requires |signers| == 2 == |draws|
    ensures ValidSigners(signers) ==> ValidPair(p)
  {
    if signers[0] < signers[1] then Pair(signers[0], draws[0], signers[1], draws[1])
    else Pair(signers[1], draws[1], signers[0], draws[0])
  }

  /** The outcome of a signing run by a valid pair. */
  function RunOutcome(s: Suite, f: Polynomial, message: Buffer, p: Pair): Result<Buffer>
    requires Lawful(s) && ValidPair(p)
  {
    if !Usable(s, s.exp(f.constant), message, p) then Err(Internal)
    else
      AggregateVerifies(s, f, message, p);
      var r := Aggregate(s, CommitmentsOf(s, p), message, AnswersOf(s, f, message, p), PublicOf(s, f)).value;
      Ok(EncodeSignature(r.0, r.1))
  }

  lemma OutcomeVerifies(s: Suite, f: Polynomial, message: Buffer, p: Pair)
    requires Lawful(s) && ValidPair(p)
    ensures RunOutcome(s, f, message, p).Ok? <==> Usable(s, s.exp(f.constant), message, p)
    ensures RunOutcome(s, f, message, p).Ok? ==> Verify(s, s.exp(f.constant), message,
            RunOutcome(s, f, message, p).value)
    ensures RunOutcome(s, f, message, p).Err? ==> RunOutcome(s, f, message, p).error == Internal
  {
    hide IsPrime, Lawful, Usable, Aggregate, Verify, Equation, CommitmentsOf, AnswersOf, PublicOf;
    if Usable(s, s.exp(f.constant), message, p) {
      AggregateVerifies(s, f, message, p);
    }
  }

  /** Round one: each signer draws nonces and publishes commitments to them. */
  method RoundOneCommit(s: Suite, credential: FrostCredential, signers: seq<nat>, draws: seq<Nonces>,
      ghost f: Polynomial)
    returns (r: Result<(map<nat, Nonces>, Commitments)>)
    requires s.q > 0 && credential == Dealt(s, f) && |signers| == 2 == |draws| && ValidSigners(signers)
    ensures r == Ok((NoncesOf(PairOf(signers, draws)), CommitmentsOf(s, PairOf(signers, draws))))
  {
    hide ShareOf, PublicOf, CommitNonces;
    var nonces: map<nat, Nonces>, commitments: Commitments := map[], map[];
    for k := 0 to 2
      invariant k == 0 ==> nonces == map[] && commitments == map[]
      invariant k == 1 ==> nonces == map[signers[0] := draws[0]]
      invariant k == 1 ==> commitments == map[signers[0] := CommitNonces(s, signers[0], draws[0])]
      invariant k == 2 ==> nonces == NoncesOf(PairOf(signers, draws))
      invariant k == 2 ==> commitments == CommitmentsOf(s, PairOf(signers, draws))
    {
      var identifier := signers[k];
      if identifier !in credential.participants {
        return Err(Internal);
      }
      nonces := nonces[identifier := draws[k]];
      commitments := commitments[identifier := CommitNonces(s, identifier, draws[k])];
    }
    return Ok((nonces, commitments));
  }

  /** One signer's turn in round two. */
  method AnswerOne(s: Suite, credential: FrostCredential, nonces: map<nat, Nonces>, commitments: Commitments,
                   message: Buffer, identifier: nat, ghost f: Polynomial, ghost p: Pair)
    returns (r: Result<int>)
    requires Lawful(s) && credential == Dealt(s, f) && ValidPair(p)
    requires nonces == NoncesOf(p) && commitments == CommitmentsOf(s, p) && identifier in nonces
    ensures identifier in AnswersOf(s, f, message, p)
    ensures r == if Usable(s, s.exp(f.constant), message, p) then Ok(AnswersOf(s, f, message, p)[identifier])
            else Err(Internal)
  {
    hide IsPrime, Lawful, ShareOf, PublicOf, CommitmentsOf, Usable, SignShare, Answer, AnswersOf, NoncesOf, Dealt;
    AnswerAt(s, f, message, p, identifier);
    DealtAt(s, f, identifier);
    SignerAnswers(s, f, message, p, p.lowNonces, p.low, p.high);
    SignerAnswers(s, f, message, p, p.highNonces, p.high, p.low);
    if identifier !in credential.participants {
      return Err(Internal);
    }
    r := SignShare(s, commitments, message, nonces[identifier], credential.participants[identifier]);
  }

  /** Round two: each signer answers, or the run stops at the first identity element. */
  method RoundTwoAnswer(s: Suite, credential: FrostCredential, nonces: map<nat, Nonces>, commitments: Commitments,
                        message: Buffer, ghost f: Polynomial, ghost p: Pair)
    returns (r: Result<map<nat, int>>)
    requires Lawful(s) && credential == Dealt(s, f) && ValidPair(p)
    requires nonces == NoncesOf(p) && commitments == CommitmentsOf(s, p)
    ensures r == if Usable(s, s.exp(f.constant), message, p) then Ok(AnswersOf(s, f, message, p)) else Err(Internal)
  {
    hide IsPrime, Lawful, Usable, CommitmentsOf, Answer, Dealt;
    ghost var answers := AnswersOf(s, f, message, p);
    EndsOf(answers);
    hide FirstOf, AnswersOf, NoncesOf;
    var shares: map<nat, int> := map[];
    for identifier := 1 to MAX_SIGNERS + 1
      invariant shares == FirstOf(answers, identifier - 1)
      invariant identifier > p.low ==> Usable(s, s.exp(f.constant), message, p)
    {
      AnswerAt(s, f, message, p, identifier);
      if identifier !in nonces {
        NoneAt(answers, identifier - 1);
      } else {
        var share := AnswerOne(s, credential, nonces, commitments, message, identifier, f, p);
        if share.Err? {
          return Err(share.error);
        }
        NextOf(answers, identifier - 1);
        shares := shares[identifier := share.value];
      }
    }
    return Ok(shares);
  }

  /** `FrostBackend::sign_with`, for any pair in either order, any message and any nonces. An
      invalid pair is refused. A valid one succeeds exactly when no identity element turns
      up, and then with a signature that verifies under the one group key. */
  method SignWith(s: Suite, credential: FrostCredential, signers: seq<nat>, draws: seq<Nonces>, message: Buffer,
      ghost f: Polynomial)
    returns (r: Result<Buffer>)
    requires Lawful(s) && credential == Dealt(s, f) && |signers| == 2 == |draws|
    ensures !ValidSigners(signers) ==> r == Err(InvalidInput)
    ensures ValidSigners(signers) ==>
              && r == RunOutcome(s, f, message, PairOf(signers, draws))
              && (r.Ok? <==> Usable(s, s.exp(f.constant), message, PairOf(signers, draws)))
              && (r.Ok? ==> Verify(s, s.exp(f.constant), message, r.value))
  {
    if !ValidSigners(signers) {
      return Err(InvalidInput);
    }
    hide IsPrime, Lawful, ShareOf, CommitNonces, Usable, Aggregate, Verify, Equation, AnswersOf;
    ghost var p := PairOf(signers, draws);
    var committed := RoundOneCommit(s, credential, signers, draws, f);
    if committed.Err? {
      return Err(Internal);
    }
    var (nonces, commitments) := committed.value;
    var answered := RoundTwoAnswer(s, credential, nonces, commitments, message, f, p);
    if answered.Err? {
      return Err(answered.error);
    }
    AggregateVerifies(s, f, message, p);
    var signature := Aggregate(s, commitments, message, answered.value, credential.publicKeyPackage);
    if signature.Err? {
      return Err(Internal);
    }
    var (nonce, z) := signature.value;
    var publicKey := credential.publicKeyPackage.verifyingKey;
    if !Equation(s, publicKey, message, nonce, z) || nonce == Identity(s) {
      return Err(Internal);
    }
    return Ok(EncodeSignature(nonce, z));
  }
}
