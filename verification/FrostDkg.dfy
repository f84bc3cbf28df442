/** 2-of-3 distributed key generation: the library's three parts over polynomials of
    degree one, and the routing of packages between participants (`src/backend/frost.rs`). */
module FrostDkg {
  import opened Bytes
  import opened PrimeField
  import opened Ed25519
  import opened Backend

  const MAX_SIGNERS := 3
  const MIN_SIGNERS := 2

  /** The secret polynomial of one participant: its randomness in the ceremony. */
  datatype Polynomial = Polynomial(constant: int, slope: int)

  function At(f: Polynomial, x: int): int { f.constant + f.slope * x }

  datatype Round1Secret = Round1Secret(id: nat, poly: Polynomial, commitment: seq<Buffer>)
  datatype Round2Secret = Round2Secret(id: nat, ownShare: int, commitment: seq<Buffer>)
  datatype KeyPackage = KeyPackage(id: nat, signingShare: int, verifyingKey: Buffer)
  datatype PublicKeyPackage = PublicKeyPackage(verifyingShares: map<nat, Buffer>, verifyingKey: Buffer)
  datatype FrostCredential = FrostCredential(participants: map<nat, KeyPackage>, publicKeyPackage: PublicKeyPackage)

  // ---- The library's side (Pedersen-style key generation) ------------------------------

  function Commit(s: Suite, f: Polynomial): (c: seq<Buffer>)
    ensures |c| == MIN_SIGNERS
  {
    [s.exp(f.constant), s.exp(f.slope)]
  }

  function Part1(s: Suite, id: nat, f: Polynomial): Round1Secret { Round1Secret(id, f, Commit(s, f)) }

  function Part2(s: Suite, secret: Round1Secret, incoming: map<nat, seq<Buffer>>): Result<(Round2Secret, map<nat, int>)>
    requires s.q > 0
  {
    if |incoming| != MAX_SIGNERS - 1 || (exists j | j in incoming :: |incoming[j]| != MIN_SIGNERS) then Err(Internal)
    else Ok((Round2Secret(secret.id, At(secret.poly, secret.id) % s.q, secret.commitment),
             map j | j in incoming :: At(secret.poly, j) % s.q))
  }

  /** The sum of the entries of `m` at 1 to `n`, in ascending order. */
  function SumScalars(m: map<nat, int>, n: nat): int {
    if n == 0 then 0 else SumScalars(m, n - 1) + if n in m then m[n] else 0
  }

  function SumCommitments(s: Suite, m: map<nat, seq<Buffer>>, k: nat, n: nat): Buffer
    requires forall j | j in m :: k < |m[j]|
  {
    if n == 0 then Identity(s)
    else if n in m then s.add(SumCommitments(s, m, k, n - 1), m[n][k])
    else SumCommitments(s, m, k, n - 1)
  }

  /** A committed polynomial at `x`, in the exponent. */
  function CommittedAt(s: Suite, c: seq<Buffer>, x: int): Buffer
    requires |c| == MIN_SIGNERS
  {
    s.add(c[0], s.mul(x, c[1]))
  }

  /** The checks of part three: package counts, matching senders, and every received share
      against its sender's commitment. */
  predicate Part3Accepts(s: Suite, secret: Round2Secret, round1: map<nat, seq<Buffer>>, round2: map<nat, int>) {
    && |round1| == MAX_SIGNERS - 1 && round1.Keys == round2.Keys
    && (forall j | j in round1 :: |round1[j]| == MIN_SIGNERS)
    && (forall j | j in round1 :: s.exp(round2[j]) == CommittedAt(s, round1[j], secret.id))
  }

  function GroupCommitment(s: Suite, all: map<nat, seq<Buffer>>): (g: seq<Buffer>)
    requires forall j | j in all :: |all[j]| == MIN_SIGNERS
    ensures |g| == MIN_SIGNERS
  {
    [SumCommitments(s, all, 0, MAX_SIGNERS), SumCommitments(s, all, 1, MAX_SIGNERS)]
  }

  function PublicPackage(s: Suite, ids: set<nat>, group: seq<Buffer>): PublicKeyPackage
    requires |group| == MIN_SIGNERS
  {
    PublicKeyPackage(map j | j in ids :: CommittedAt(s, group, j), group[0])
  }

  function Part3(s: Suite, secret: Round2Secret, round1: map<nat, seq<Buffer>>, round2: map<nat, int>)
    : Result<(KeyPackage, PublicKeyPackage)>
    requires s.q > 0 && |secret.commitment| == MIN_SIGNERS
  {
    if !Part3Accepts(s, secret, round1, round2) then Err(Internal)
    else
      var all := round1[secret.id := secret.commitment];
      var group := GroupCommitment(s, all);
      var share := (SumScalars(round2, MAX_SIGNERS) + secret.ownShare) % s.q;
      Ok((KeyPackage(secret.id, share, group[0]), PublicPackage(s, all.Keys, group)))
  }

  // ---- What the ceremony amounts to -----------------------------------------------------

  const PARTICIPANTS: set<nat> := {1, 2, 3}

  type Polynomials = fs: seq<Polynomial> | |fs| == MAX_SIGNERS witness seq(MAX_SIGNERS, _ => Polynomial(0, 0))

  /** The sum of the three secret polynomials. No participant ever holds it. */
  function Total(fs: Polynomials): Polynomial {
    Polynomial(fs[0].constant + fs[1].constant + fs[2].constant, fs[0].slope + fs[1].slope + fs[2].slope)
  }

  function PublicOf(s: Suite, f: Polynomial): PublicKeyPackage {
    PublicKeyPackage(map j | j in PARTICIPANTS :: s.exp(At(f, j)), s.exp(f.constant))
  }

  function ShareOf(s: Suite, f: Polynomial, i: nat): KeyPackage
    requires s.q > 0
  {
    KeyPackage(i, At(f, i) % s.q, s.exp(f.constant))
  }

  /** What a dealer holding `f` would hand out. */
  function Dealt(s: Suite, f: Polynomial): FrostCredential
    requires s.q > 0
  {
    FrostCredential(map i | i in PARTICIPANTS :: ShareOf(s, f, i), PublicOf(s, f))
  }

  function Broadcasts(s: Suite, fs: Polynomials): map<nat, seq<Buffer>> {
    map j | j in PARTICIPANTS :: Commit(s, fs[j - 1])
  }

  /** What participant `i` must have received after round two: `f_j(i)` from each other `j`. */
  function Incoming(s: Suite, fs: Polynomials, i: nat): map<nat, int>
    requires s.q > 0
  {
    map j | j in PARTICIPANTS && j != i :: At(fs[j - 1], i) % s.q
  }

  lemma ExactlyTwoOthers<T>(m: map<nat, T>, i: nat)
    requires i in PARTICIPANTS && m.Keys == PARTICIPANTS - {i}
    ensures |m| == MAX_SIGNERS - 1
  {
  }

  lemma CommittedAtExp(s: Suite, f: Polynomial, x: int)
    requires Lawful(s)
    ensures CommittedAt(s, Commit(s, f), x) == s.exp(At(f, x)) == s.exp(At(f, x) % s.q)
  {
    hide IsPrime;
    ExpMul(s, x, f.slope);
    ExpAdd(s, f.constant, x * f.slope);
    ExpReduced(s, At(f, x));
  }

  function Coefficient(f: Polynomial, k: nat): int { if k == 0 then f.constant else f.slope }

  lemma SummedCoefficient(s: Suite, fs: Polynomials, k: nat)
    requires Lawful(s) && k < MIN_SIGNERS
    requires forall j | j in Broadcasts(s, fs) :: k < |Broadcasts(s, fs)[j]|
    ensures SumCommitments(s, Broadcasts(s, fs), k, MAX_SIGNERS) == Commit(s, Total(fs))[k]
  {
    hide IsPrime, Lawful, SumCommitments;
    SumOfExps(s, Broadcasts(s, fs), k, Coefficient(fs[0], k), Coefficient(fs[1], k), Coefficient(fs[2], k));
  }

  lemma SumOfExps(s: Suite, m: map<nat, seq<Buffer>>, k: nat, x: int, y: int, z: int)
    requires Lawful(s) && m.Keys == PARTICIPANTS && forall j | j in m :: k < |m[j]|
    requires m[1][k] == s.exp(x) && m[2][k] == s.exp(y) && m[3][k] == s.exp(z)
    ensures SumCommitments(s, m, k, MAX_SIGNERS) == s.exp(x + y + z)
  {
    hide IsPrime, Lawful;
    ExpAdd(s, 0, x);
    ExpAdd(s, x, y);
    ExpAdd(s, x + y, z);
    assert SumCommitments(s, m, k, 1) == s.exp(x);
    assert SumCommitments(s, m, k, 2) == s.exp(x + y);
  }

  lemma SumReduced(x: int, y: int, z: int, q: int)
    requires q > 0
    ensures (x % q + y % q + z % q) % q == (x + y + z) % q
  {
    Quotient(x, q);
    Quotient(y, q);
    Quotient(z, q);
    ThreeMultiples(x, x % q, x / q, y, y % q, y / q, z, z % q, z / q, q);
    DropMultiple(x % q + y % q + z % q, x / q + y / q + z / q, q);
  }

  lemma ThreeMultiples(x: int, a: int, k: int, y: int, b: int, l: int, z: int, c: int, m: int, q: int)
    requires x == a + k * q && y == b + l * q && z == c + m * q
    ensures x + y + z == a + b + c + (k + l + m) * q
  {
  }

  lemma ShareIsTotal(s: Suite, fs: Polynomials, i: nat)
    requires s.q > 0 && i in PARTICIPANTS
    ensures (SumScalars(Incoming(s, fs, i), MAX_SIGNERS) + At(fs[i - 1], i) % s.q) % s.q == At(Total(fs), i) % s.q
  {
    var m, q := Incoming(s, fs, i), s.q;
    var x, y, z := At(fs[0], i), At(fs[1], i), At(fs[2], i);
    SumReduced(x, y, z, q);
    assert x + y + z == At(Total(fs), i);
    assert SumScalars(m, 1) == if i == 1 then 0 else x % q;
    assert SumScalars(m, 2) == SumScalars(m, 1) + if i == 2 then 0 else y % q;
    assert SumScalars(m, 3) == SumScalars(m, 2) + if i == 3 then 0 else z % q;
  }

  lemma ShareChecks(s: Suite, fs: Polynomials, i: nat, j: nat)
    requires Lawful(s) && i in PARTICIPANTS && j in PARTICIPANTS && i != j
    ensures j in Incoming(s, fs, i) && j in Broadcasts(s, fs) && |Broadcasts(s, fs)[j]| == MIN_SIGNERS
    ensures s.exp(Incoming(s, fs, i)[j]) == CommittedAt(s, Broadcasts(s, fs)[j], i)
  {
    hide IsPrime, Lawful, CommittedAt, At, Commit;
    CommittedAtExp(s, fs[j - 1], i);
  }

  lemma AllSharesCheck(s: Suite, fs: Polynomials, i: nat)
    requires Lawful(s) && i in PARTICIPANTS
    ensures forall j | j in PARTICIPANTS && j != i ::
              && j in Incoming(s, fs, i) && j in Broadcasts(s, fs) && |Broadcasts(s, fs)[j]| == MIN_SIGNERS
              && s.exp(Incoming(s, fs, i)[j]) == CommittedAt(s, Broadcasts(s, fs)[j], i)
  {
    hide IsPrime, Lawful, CommittedAt, Incoming, Broadcasts;
    forall j | j in PARTICIPANTS && j != i
      ensures j in Incoming(s, fs, i) && j in Broadcasts(s, fs) && |Broadcasts(s, fs)[j]| == MIN_SIGNERS
      ensures s.exp(Incoming(s, fs, i)[j]) == CommittedAt(s, Broadcasts(s, fs)[j], i)
    {
      ShareChecks(s, fs, i, j);
    }
  }

  lemma OthersKeys(s: Suite, fs: Polynomials, i: nat)
    requires s.q > 0 && i in PARTICIPANTS
    ensures (Broadcasts(s, fs) - {i}).Keys == PARTICIPANTS - {i} == Incoming(s, fs, i).Keys
  {
    hide At, Commit;
  }

  lemma Part3Checks(s: Suite, fs: Polynomials, i: nat)
    requires Lawful(s) && i in PARTICIPANTS
    ensures Part3Accepts(s, Part2Secret(s, fs, i), Broadcasts(s, fs) - {i}, Incoming(s, fs, i))
  {
    hide IsPrime, Lawful, CommittedAt, At, Commit, Incoming, Broadcasts;
    OthersKeys(s, fs, i);
    AllSharesCheck(s, fs, i);
    ExactlyTwoOthers(Broadcasts(s, fs) - {i}, i);
  }

  lemma GroupIsTotal(s: Suite, fs: Polynomials)
    requires Lawful(s)
    ensures GroupCommitment(s, Broadcasts(s, fs)) == Commit(s, Total(fs))
    ensures PublicPackage(s, PARTICIPANTS, Commit(s, Total(fs))) == PublicOf(s, Total(fs))
  {
    hide IsPrime, Lawful, SumCommitments, CommittedAt, At, Total;
    SummedCoefficient(s, fs, 0);
    SummedCoefficient(s, fs, 1);
    forall j | j in PARTICIPANTS ensures CommittedAt(s, Commit(s, Total(fs)), j) == s.exp(At(Total(fs), j)) {
      CommittedAtExp(s, Total(fs), j);
    }
  }

  /** What participant `i` keeps from round two. */
  function Part2Secret(s: Suite, fs: Polynomials, i: nat): Round2Secret
    requires s.q > 0 && i in PARTICIPANTS
  {
    Round2Secret(i, At(fs[i - 1], i) % s.q, Commit(s, fs[i - 1]))
  }

  /** Round three at participant `i`, given what it should have received: every check of
      the library passes, and the result is its share of the total polynomial. */
  lemma Part3Deals(s: Suite, fs: Polynomials, i: nat)
    requires Lawful(s) && i in PARTICIPANTS
    ensures Part3(s, Part2Secret(s, fs, i), Broadcasts(s, fs) - {i}, Incoming(s, fs, i))
            == Ok((ShareOf(s, Total(fs), i), PublicOf(s, Total(fs))))
  {
    hide IsPrime, Lawful, Part3Accepts, GroupCommitment, PublicPackage, SumScalars, At, Total, PublicOf, Incoming,
         Broadcasts;
    Part3Checks(s, fs, i);
    OwnBroadcast(s, fs, i);
    GroupIsTotal(s, fs);
    ShareIsTotal(s, fs, i);
  }

  /** Putting a participant's own broadcast back among the others' restores the full set. */
  lemma OwnBroadcast(s: Suite, fs: Polynomials, i: nat)
    requires i in PARTICIPANTS
    ensures (Broadcasts(s, fs) - {i})[i := Commit(s, fs[i - 1])] == Broadcasts(s, fs)
    ensures Broadcasts(s, fs).Keys == PARTICIPANTS
  {
    hide Commit;
  }

  // ---- The repository's side: routing packages between participants ---------------------

  function Identifiers(): seq<nat> { [1, 2, 3] }

  /** The entries of participants 1 to `k`, and of those after `k`. */
  function FirstOf<T>(m: map<nat, T>, k: nat): map<nat, T> { map j | j in m && j <= k :: m[j] }

  function RestOf<T>(m: map<nat, T>, k: nat): map<nat, T> { map j | j in m && j > k :: m[j] }

  lemma NextOf<T>(m: map<nat, T>, k: nat)
    requires k + 1 in m
    ensures FirstOf(m, k)[k + 1 := m[k + 1]] == FirstOf(m, k + 1)
    ensures k + 1 in RestOf(m, k) && RestOf(m, k)[k + 1] == m[k + 1]
    ensures RestOf(m, k) - {k + 1} == RestOf(m, k + 1)
  {
  }

  lemma NoneAt<T>(m: map<nat, T>, k: nat)
    requires k + 1 !in m
    ensures FirstOf(m, k + 1) == FirstOf(m, k)
  {
  }

  lemma EndsOf<T>(m: map<nat, T>)
    requires m.Keys <= PARTICIPANTS
    ensures FirstOf(m, 0) == map[] && FirstOf(m, MAX_SIGNERS) == m == RestOf(m, 0)
  {
  }

  function Secrets1(s: Suite, fs: Polynomials): map<nat, Round1Secret> {
    map j | j in PARTICIPANTS :: Part1(s, j, fs[j - 1])
  }

  function OthersBroadcasts(s: Suite, fs: Polynomials): map<nat, map<nat, seq<Buffer>>> {
    map i | i in PARTICIPANTS :: Broadcasts(s, fs) - {i}
  }

  function Secrets2(s: Suite, fs: Polynomials): map<nat, Round2Secret>
    requires s.q > 0
  {
    map i | i in PARTICIPANTS :: Part2Secret(s, fs, i)
  }

  lemma HeldAt(s: Suite, fs: Polynomials, i: nat)
    requires i in PARTICIPANTS
    ensures i in Broadcasts(s, fs) && Broadcasts(s, fs)[i] == Commit(s, fs[i - 1])
    ensures i in OthersBroadcasts(s, fs) && OthersBroadcasts(s, fs)[i] == Broadcasts(s, fs) - {i}
    ensures i in Secrets1(s, fs) && Secrets1(s, fs)[i] == Part1(s, i, fs[i - 1])
    ensures s.q > 0 ==> i in Secrets2(s, fs) && Secrets2(s, fs)[i] == Part2Secret(s, fs, i)
  {
    hide Part1, Part2Secret;
  }

  function Transposed(s: Suite, fs: Polynomials): Mail
    requires s.q > 0
  {
    map i | i in PARTICIPANTS :: Incoming(s, fs, i)
  }

  lemma TransposedAt(s: Suite, fs: Polynomials, i: nat)
    requires s.q > 0 && i in PARTICIPANTS
    ensures i in Transposed(s, fs) && Transposed(s, fs)[i] == Incoming(s, fs, i)
  {
    hide Incoming;
  }

  /** Round one: every participant draws its polynomial and broadcasts commitments. */
  method RoundOne(s: Suite, fs: Polynomials) returns (secrets: map<nat, Round1Secret>, broadcasts: map<nat,
      seq<Buffer>>)
    ensures secrets == Secrets1(s, fs)
    ensures broadcasts == Broadcasts(s, fs)
  {
    var identifiers := Identifiers();
    ghost var all1, all2 := Secrets1(s, fs), Broadcasts(s, fs);
    secrets, broadcasts := map[], map[];
    EndsOf(all1);
    EndsOf(all2);
    hide Secrets1, Broadcasts, Commit;
    for k := 0 to |identifiers|
      invariant secrets == FirstOf(all1, k) && broadcasts == FirstOf(all2, k)
    {
      hide FirstOf;
      var identifier := identifiers[k];
      HeldAt(s, fs, identifier);
      NextOf(all1, k);
      NextOf(all2, k);
      var secret := Part1(s, identifier, fs[k]);
      secrets := secrets[identifier := secret];
      broadcasts := broadcasts[identifier := secret.commitment];
    }
  }

  /** Packages by receiver, then by sender. */
  type Mail = map<nat, map<nat, int>>

  /** File one sender's package under its receiver, opening the inbox if there is none. */
  function Deliver(mail: Mail, receiver: nat, sender: nat, package: int): Mail {
    var inbox := if receiver in mail then mail[receiver] else map[];
    mail[receiver := inbox[sender := package]]
  }

  function Received(mail: Mail, i: nat, j: nat): Option<int> {
    if i in mail && j in mail[i] then Some(mail[i][j]) else None
  }

  /** What `j` has for `i`: the value of its polynomial there, and nothing for itself. */
  function Addressed(s: Suite, fs: Polynomials, i: nat, j: nat): Option<int>
    requires s.q > 0
  {
    if i in PARTICIPANTS && j in PARTICIPANTS && i != j then Some(At(fs[j - 1], i) % s.q) else None
  }

  /** The mail is that of all senders up to `k`, and of sender `k + 1` to receivers below `r`. */
  ghost predicate Routed(s: Suite, fs: Polynomials, mail: Mail, k: nat, r: nat)
    requires s.q > 0
  {
    && mail.Keys <= PARTICIPANTS
    && forall i: nat, j: nat :: Received(mail, i, j) == if j <= k || (j == k + 1 && i < r) then Addressed(s, fs, i, j)
       else None
  }

  lemma RouteOne(s: Suite, fs: Polynomials, mail: Mail, k: nat, r: nat)
    requires s.q > 0 && Routed(s, fs, mail, k, r) && r in PARTICIPANTS
    ensures Addressed(s, fs, r, k + 1).None? ==> Routed(s, fs, mail, k, r + 1)
    ensures Addressed(s, fs, r, k + 1).Some? ==>
              Routed(s, fs, Deliver(mail, r, k + 1, Addressed(s, fs, r, k + 1).value), k, r + 1)
  {
    hide Addressed;
    var a := Addressed(s, fs, r, k + 1);
    if a.Some? {
      var mail' := Deliver(mail, r, k + 1, a.value);
      assert forall i: nat, j: nat :: Received(mail', i, j) == if i == r && j == k + 1 then a else Received(mail, i, j);
    }
  }

  /** Hand out what sender `k + 1` has for the others, one receiver at a time. */
  method Distribute(s: Suite, fs: Polynomials, k: nat, outgoing: map<nat, int>, mail: Mail) returns (r: Mail)
    requires s.q > 0 && k + 1 in PARTICIPANTS && Routed(s, fs, mail, k, 0)
    requires outgoing.Keys == PARTICIPANTS - {k + 1}
    requires forall i | i in outgoing :: Addressed(s, fs, i, k + 1) == Some(outgoing[i])
    ensures Routed(s, fs, r, k + 1, 0)
  {
    r := mail;
    assert Routed(s, fs, mail, k, 1);
    for receiver := 1 to MAX_SIGNERS + 1
      invariant Routed(s, fs, r, k, receiver)
    {
      hide Routed;
      assert receiver in PARTICIPANTS;
      RouteOne(s, fs, r, k, receiver);
      if receiver in outgoing {
        r := Deliver(r, receiver, k + 1, outgoing[receiver]);
      }
    }
  }

  lemma NothingRouted(s: Suite, fs: Polynomials)
    requires s.q > 0
    ensures Routed(s, fs, map[], 0, 0)
  {
  }

  lemma Part2Sends(s: Suite, fs: Polynomials, i: nat)
    requires s.q > 0 && i in PARTICIPANTS
    ensures var r := Part2(s, Part1(s, i, fs[i - 1]), Broadcasts(s, fs) - {i});
            r.Ok? && r.value.0 == Part2Secret(s, fs, i) && r.value.1.Keys == PARTICIPANTS - {i}
            && forall j | j in r.value.1 :: Addressed(s, fs, j, i) == Some(r.value.1[j])
  {
    hide At, Commit;
    ExactlyTwoOthers(Broadcasts(s, fs) - {i}, i);
  }

  /** Round two: each participant takes in the others' broadcasts and sends every other one
      its package. What is routed is the exact transpose of what is sent: receiver `i` ends
      up with `f_j(i)` from each `j` other than itself, two packages and none of its own. */
  method RoundTwo(s: Suite, fs: Polynomials, secrets: map<nat, Round1Secret>, broadcasts: map<nat, seq<Buffer>>)
    returns (r: Result<(map<nat, map<nat, seq<Buffer>>>, map<nat, Round2Secret>, Mail)>)
    requires s.q > 0 && secrets == Secrets1(s, fs) && broadcasts == Broadcasts(s, fs)
    ensures r == Ok((OthersBroadcasts(s, fs), Secrets2(s, fs), Transposed(s, fs)))
  {
    hide FirstOf, RestOf, Addressed, Broadcasts, Part2Secret, Part2, Part1, Incoming, IsPrime, Lawful;
    NothingRouted(s, fs);
    hide Routed;
    var identifiers, pending := Identifiers(), secrets;
    ghost var all1, all2, all3 := OthersBroadcasts(s, fs), Secrets2(s, fs), Secrets1(s, fs);
    var received1: map<nat, map<nat, seq<Buffer>>>, secrets2: map<nat, Round2Secret>, received2: Mail :=
      map[], map[], map[];
    EndsOf(all1);
    EndsOf(all2);
    EndsOf(all3);
    hide OthersBroadcasts, Secrets1, Secrets2;
    for k := 0 to |identifiers|
      invariant received1 == FirstOf(all1, k) && secrets2 == FirstOf(all2, k) && pending == RestOf(all3, k)
      invariant Routed(s, fs, received2, k, 0)
    {
      var identifier := identifiers[k];
      var incoming := broadcasts - {identifier};
      HeldAt(s, fs, identifier);
      NextOf(all1, k);
      NextOf(all2, k);
      NextOf(all3, k);
      if identifier !in pending {
        return Err(Internal);
      }
      var secret := pending[identifier];
      pending := pending - {identifier};
      Part2Sends(s, fs, identifier);
      var sent := Part2(s, secret, incoming);
      if sent.Err? {
        return Err(Internal);
      }
      received1 := received1[identifier := incoming];
      secrets2 := secrets2[identifier := sent.value.0];
      received2 := Distribute(s, fs, k, sent.value.1, received2);
    }
    RoutedAll(s, fs, received2);
    return Ok((received1, secrets2, received2));
  }

  lemma InboxIs(s: Suite, fs: Polynomials, mail: Mail, i: nat)
    requires s.q > 0 && Routed(s, fs, mail, MAX_SIGNERS, 0) && i in PARTICIPANTS
    ensures i in mail && mail[i] == Incoming(s, fs, i)
  {
    hide At;
    var other := if i == 1 then 2 else 1;
    assert Received(mail, i, other) == Addressed(s, fs, i, other);
    assert forall j: nat :: j in mail[i] <==> Received(mail, i, j).Some?;
    assert forall j: nat ::
        Received(mail, i, j) == if j in Incoming(s, fs, i) then Some(Incoming(s, fs, i)[j]) else None;
  }

  lemma RoutedAll(s: Suite, fs: Polynomials, mail: Mail)
    requires s.q > 0 && Routed(s, fs, mail, MAX_SIGNERS, 0)
    ensures mail == Transposed(s, fs)
  {
    assert mail.Keys <= PARTICIPANTS;
    hide Routed, Incoming;
    forall i | i in PARTICIPANTS
      ensures i in mail && mail[i] == Incoming(s, fs, i)
    {
      InboxIs(s, fs, mail, i);
    }
  }

  /** Round three: every participant derives its key package and the public package, and
      all three public packages must agree. */
  method RoundThree(s: Suite, fs: Polynomials, secrets2: map<nat, Round2Secret>,
                    received1: map<nat, map<nat, seq<Buffer>>>, received2: Mail)
    returns (r: Result<FrostCredential>)
    requires Lawful(s)
    requires secrets2 == Secrets2(s, fs) && received1 == OthersBroadcasts(s, fs) && received2 == Transposed(s, fs)
    ensures r == Ok(Dealt(s, Total(fs)))
  {
    hide IsPrime, FirstOf, RestOf, Part3, ShareOf, PublicOf, Broadcasts, Incoming, Total, Lawful, At, Commit;
    hide OthersBroadcasts, Secrets2, Transposed;
    var identifiers := Identifiers();
    var participants: map<nat, KeyPackage>, agreed: Option<PublicKeyPackage> := map[], None;
    ghost var dealt, f := Dealt(s, Total(fs)), Total(fs);
    EndsOf(dealt.participants);
    for k := 0 to |identifiers|
      invariant participants == FirstOf(dealt.participants, k)
      invariant agreed == if k == 0 then None else Some(dealt.publicKeyPackage)
    {
      var identifier := identifiers[k];
      HeldAt(s, fs, identifier);
      TransposedAt(s, fs, identifier);
      if identifier !in secrets2 || identifier !in received1 || identifier !in received2 {
        return Err(Internal);
      }
      NextOf(dealt.participants, k);
      Part3Deals(s, fs, identifier);
      var derived := Part3(s, secrets2[identifier], received1[identifier], received2[identifier]);
      if derived.Err? {
        return Err(Internal);
      }
      var (keyPackage, publicPackage) := derived.value;
      if agreed.Some? {
        if agreed.value != publicPackage {
          return Err(Internal);
        }
      } else {
        agreed := Some(publicPackage);
      }
      participants := participants[identifier := keyPackage];
    }
    if agreed.None? {
      return Err(Internal);
    }
    return Ok(FrostCredential(participants, agreed.value));
  }

  /** Every share handed out lies under its verifying share, and under the one group key. */
  predicate SharesMatch(s: Suite, c: FrostCredential) {
    forall i | i in PARTICIPANTS ::
      && i in c.participants && i in c.publicKeyPackage.verifyingShares && c.participants[i].id == i
      && s.exp(c.participants[i].signingShare) == c.publicKeyPackage.verifyingShares[i]
      && c.participants[i].verifyingKey == c.publicKeyPackage.verifyingKey
  }

  lemma DealtSharesMatch(s: Suite, f: Polynomial)
    requires Lawful(s)
    ensures SharesMatch(s, Dealt(s, f))
  {
    hide IsPrime, Lawful, At;
    forall i | i in PARTICIPANTS
      ensures s.exp(At(f, i) % s.q) == s.exp(At(f, i))
    {
      ExpReduced(s, At(f, i));
    }
  }

  /** `FrostBackend::generate_credential`. For every outcome of the three random polynomials
      the ceremony succeeds: no "missing" state or package is ever reported, no library
      check fails, all three participants derive the same public package, and each one's
      share is the point of the summed polynomial at its number, which its verifying share
      in the public package stands for. */
  method GenerateCredential(s: Suite, fs: Polynomials) returns (r: Result<FrostCredential>)
    requires Lawful(s)
    ensures r == Ok(Dealt(s, Total(fs))) && SharesMatch(s, r.value)
  {
    hide IsPrime, Lawful, Dealt, SharesMatch;
    DealtSharesMatch(s, Total(fs));
    var secrets, broadcasts := RoundOne(s, fs);
    var exchanged := RoundTwo(s, fs, secrets, broadcasts);
    if exchanged.Err? {
      return Err(Internal);
    }
    var (received1, secrets2, received2) := exchanged.value;
    r := RoundThree(s, fs, secrets2, received1, received2);
  }

  /** Any two of the three stored shares determine the group secret, which no line of the
      ceremony computes: they interpolate to the discrete logarithm of the group key. */
  lemma AnyTwoSharesInterpolate(s: Suite, f: Polynomial, i: nat, j: nat)
    requires Lawful(s) && i in PARTICIPANTS && j in PARTICIPANTS && i != j
    ensures (j - i) % s.q != 0 && (i - j) % s.q != 0
    ensures var x, y := Dealt(s, f).participants[i].signingShare, Dealt(s, f).participants[j].signingShare;
            (Lagrange(i, j, s.q) * x + Lagrange(j, i, s.q) * y) % s.q == f.constant % s.q
    ensures Dealt(s, f).publicKeyPackage.verifyingKey == s.exp(f.constant)
  {
    hide IsPrime, Lagrange, Lawful;
    DistinctIds(i, j, s.q);
    SharesInterpolate(f, i, j, s.q);
  }

  lemma DistinctIds(i: nat, j: nat, q: int)
    requires q > 3 && i in PARTICIPANTS && j in PARTICIPANTS && i != j
    ensures (j - i) % q != 0 && (i - j) % q != 0
  {
    if i < j {
      RemainderUnique(j - i, 0, j - i, q);
      RemainderUnique(i - j, -1, i - j + q, q);
    } else {
      DistinctIds(j, i, q);
    }
  }

  lemma SharesInterpolate(f: Polynomial, i: nat, j: nat, q: int)
    requires IsPrime(q) && (j - i) % q != 0 && (i - j) % q != 0
    ensures (Lagrange(i, j, q) * (At(f, i) % q) + Lagrange(j, i, q) * (At(f, j) % q)) % q == f.constant % q
  {
    hide Lagrange;
    Interpolate(i, j, f.constant, f.slope, q);
    hide IsPrime;
    var x, y, u, v := Lagrange(i, j, q), Lagrange(j, i, q), At(f, i), At(f, j);
    Quotient(u, q);
    Quotient(v, q);
    SharesMultiple(x, y, u, u % q, u / q, v, v % q, v / q, q);
    DropMultiple(x * (u % q) + y * (v % q), x * (u / q) + y * (v / q), q);
  }

  lemma SharesMultiple(x: int, y: int, u: int, p: int, m: int, v: int, r: int, n: int, q: int)
    requires u == p + m * q && v == r + n * q
    ensures x * u + y * v == x * p + y * r + (x * m + y * n) * q
  {
    assert x * (m * q) == (x * m) * q && y * (n * q) == (y * n) * q;
  }
}
