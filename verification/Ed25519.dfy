/** The signature scheme both backends produce, over an abstract group of prime order.

    A group element is its 32-byte encoding; hashes are arbitrary functions. What a
    backend may rely on is `Lawful`: `exp` is a homomorphism from the integers with
    kernel the multiples of the order. */
module Ed25519 {
  import opened Bytes
  import opened PrimeField

  datatype SigningCommitment = SigningCommitment(id: nat, hiding: Buffer, binding: Buffer)

  datatype Suite = Suite(
    q: int,                                                     // the group order
    exp: int -> Buffer,                                         // scalar times base point
    add: (Buffer, Buffer) -> Buffer,
    mul: (int, Buffer) -> Buffer,
    challenge: (Buffer, Buffer, Buffer) -> int,                 // R, public key, message
    bindingFactor: (Buffer, Buffer, seq<SigningCommitment>, nat) -> int,  // public key, message, commitments, signer
    nonce: (int, Buffer) -> int                                 // signing key, message
  )

  function Power256(n: nat): (p: nat)
    ensures p >= if n == 0 then 1 else 0x100
  {
    if n == 0 then 1 else 0x100 * Power256(n - 1)
  }

  predicate AddLaw(s: Suite, a: int, b: int) { s.add(s.exp(a), s.exp(b)) == s.exp(a + b) }

  predicate MulLaw(s: Suite, k: int, a: int) { s.mul(k, s.exp(a)) == s.exp(k * a) }

  predicate KernelLaw(s: Suite, a: int, b: int)
    requires s.q > 0
  {
    s.exp(a) == s.exp(b) <==> a % s.q == b % s.q
  }

  predicate SizeLaw(s: Suite, a: int) { |s.exp(a)| == 32 }

  ghost predicate Lawful(s: Suite)
    ensures Lawful(s) ==> 3 < s.q <= Power256(32) && IsPrime(s.q)
  {
    && IsPrime(s.q) && 3 < s.q <= Power256(32)
    && (forall a :: SizeLaw(s, a))
    && (forall a, b :: AddLaw(s, a, b))
    && (forall k, a :: MulLaw(s, k, a))
    && (forall a, b :: KernelLaw(s, a, b))
  }

  function Identity(s: Suite): Buffer { s.exp(0) }

  lemma ExpAdd(s: Suite, a: int, b: int)
    requires Lawful(s)
    ensures s.add(s.exp(a), s.exp(b)) == s.exp(a + b)
  {
    assert AddLaw(s, a, b);
  }

  lemma ExpMul(s: Suite, k: int, a: int)
    requires Lawful(s)
    ensures s.mul(k, s.exp(a)) == s.exp(k * a)
  {
    assert MulLaw(s, k, a);
  }

  lemma ExpEqual(s: Suite, a: int, b: int)
    requires Lawful(s)
    ensures s.exp(a) == s.exp(b) <==> a % s.q == b % s.q
  {
    assert KernelLaw(s, a, b);
  }

  lemma ExpReduced(s: Suite, a: int)
    requires Lawful(s)
    ensures s.exp(a % s.q) == s.exp(a)
  {
    hide IsPrime;
    ExpEqual(s, a % s.q, a);
    Quotient(a, s.q);
    DropMultiple(a % s.q, a / s.q, s.q);
  }

  function LittleEndian(n: nat, x: nat): (b: Buffer)
    ensures |b| == n
  {
    if n == 0 then [] else [x % 0x100] + LittleEndian(n - 1, x / 0x100)
  }

  function FromLittleEndian(b: Buffer): nat {
    if b == [] then 0 else var low: int := b[0]; low + 0x100 * FromLittleEndian(b[1..])
  }

  lemma {:induction false} LittleEndianRoundTrip(n: nat, x: nat)
    requires x < Power256(n)
    ensures FromLittleEndian(LittleEndian(n, x)) == x
  {
    if n == 0 {
    } else {
      LittleEndianRoundTrip(n - 1, x / 0x100);
      assert LittleEndian(n, x)[1..] == LittleEndian(n - 1, x / 0x100);
    }
  }

  /** Byte `i` is the one of weight 256^i. */
  lemma {:induction false} LittleEndianByte(n: nat, x: nat, i: nat)
    requires i < n
    ensures LittleEndian(n, x)[i] == (x / Power256(i)) % 0x100
  {
    if i == 0 {
    } else {
      LittleEndianByte(n - 1, x / 0x100, i - 1);
      assert LittleEndian(n, x)[i] == LittleEndian(n - 1, x / 0x100)[i - 1];
      DivideTwice(x, Power256(i - 1));
    }
  }

  lemma DivideTwice(x: nat, p: nat)
    requires p > 0
    ensures 0x100 * p > 0 && x / 0x100 / p == x / (0x100 * p)
  {
    var u := x / 0x100;
    var k := u / p;
    assert x == 0x100 * u + x % 0x100 && u == k * p + u % p;
    assert x == k * (0x100 * p) + (0x100 * (u % p) + x % 0x100);
    QuotientUnique(x, k, 0x100 * (u % p) + x % 0x100, 0x100 * p);
  }

  lemma QuotientUnique(x: int, k: int, r: int, q: int)
    requires 0 <= r < q && x == k * q + r
    ensures x / q == k
  {
    RemainderUnique(x, k, r, q);
    var d := x / q - k;
    assert d * q == 0 by {
      Quotient(x, q);
      assert d * q == (x / q) * q - k * q;
    }
    MultipleIsFar(d, q);
  }

  /** `R || S`, as in section 5.1.6 of RFC 8032. */
  function EncodeSignature(r: Buffer, z: nat): Buffer { r + LittleEndian(32, z) }

  /** The nonce commitment first, then the response, least significant byte first. */
  lemma SignatureLayout(r: Buffer, z: nat, i: nat)
    requires |r| == 32 && i < 32
    ensures |EncodeSignature(r, z)| == 64 && EncodeSignature(r, z)[..32] == r
    ensures EncodeSignature(r, z)[32 + i] == (z / Power256(i)) % 0x100
  {
    LittleEndianByte(32, z, i);
  }

  /** The verification equation `[S]B = R + [k]A` of section 5.1.7 of RFC 8032. */
  predicate Equation(s: Suite, publicKey: Buffer, message: Buffer, r: Buffer, z: int) {
    s.exp(z) == s.add(r, s.mul(s.challenge(r, publicKey, message), publicKey))
  }

  predicate Verify(s: Suite, publicKey: Buffer, message: Buffer, signature: Buffer) {
    |signature| == 64 &&
    var r, z := signature[..32], FromLittleEndian(signature[32..]);
    z < s.q && Equation(s, publicKey, message, r, z)
  }

  /** A well-formed pair that satisfies the equation is a signature once encoded. */
  lemma EncodedVerifies(s: Suite, publicKey: Buffer, message: Buffer, r: Buffer, z: nat)
    requires |r| == 32 && z < s.q <= Power256(32) && Equation(s, publicKey, message, r, z)
    ensures Verify(s, publicKey, message, EncodeSignature(r, z))
  {
    hide Equation;
    var sig := EncodeSignature(r, z);
    assert sig[..32] == r && sig[32..] == LittleEndian(32, z);
    LittleEndianRoundTrip(32, z);
  }

  /** A signature with nonce `r` and response `r + k * key`, reduced, verifies under `exp(key)`. */
  lemma SchnorrVerifies(s: Suite, key: int, message: Buffer, r: int, z: int)
    requires Lawful(s)
    requires z % s.q == (r + s.challenge(s.exp(r), s.exp(key), message) * key) % s.q
    ensures Equation(s, s.exp(key), message, s.exp(r), z % s.q)
    ensures Verify(s, s.exp(key), message, EncodeSignature(s.exp(r), z % s.q))
  {
    var k := s.challenge(s.exp(r), s.exp(key), message);
    assert SizeLaw(s, r);
    hide IsPrime, Lawful, Verify, EncodeSignature;
    ExpReduced(s, z);
    ExpEqual(s, z, r + k * key);
    ExpMul(s, k, key);
    ExpAdd(s, r, k * key);
    EncodedVerifies(s, s.exp(key), message, s.exp(r), z % s.q);
  }

  // ---- The laws can be met ---------------------------------------------------------------

  /** The integers modulo `q` under addition, encoded in 32 bytes. */
  function AdditiveGroup(q: int): Suite
    requires q > 0
  {
    Suite(q,
          x => LittleEndian(32, x % q),
          (a, b) => LittleEndian(32, (FromLittleEndian(a) + FromLittleEndian(b)) % q),
          (k, a) => LittleEndian(32, (k * FromLittleEndian(a)) % q),
          (r, publicKey, message) => FromLittleEndian(r),
          (publicKey, message, list, id) => id,
          (key, message) => key)
  }

  /** Every prime order that fits has a lawful suite, so nothing proved from `Lawful` is vacuous. */
  lemma LawsAreSatisfiable(q: int)
    requires IsPrime(q) && 3 < q <= Power256(32)
    ensures Lawful(AdditiveGroup(q))
  {
    hide IsPrime, LittleEndian, FromLittleEndian, Power256;
    var s := AdditiveGroup(q);
    forall a ensures FromLittleEndian(s.exp(a)) == a % q {
      LittleEndianRoundTrip(32, a % q);
    }
    forall a, b ensures AddLaw(s, a, b) {
      ReduceSum(a, b, q);
    }
    forall k, a ensures MulLaw(s, k, a) {
      ReduceFactor(a, k, q);
    }
    assert forall a :: SizeLaw(s, a);
    assert forall a, b :: KernelLaw(s, a, b);
  }
}
