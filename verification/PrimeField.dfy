/** Arithmetic modulo a prime: inverses and two-point interpolation. */
module PrimeField {

  ghost predicate IsPrime(q: int) { q >= 2 && forall d: int | 1 < d < q :: q % d != 0 }

  /** `a == g * x`, `b == g * y` and `g == s * a + t * b`. */
  datatype Gcd = Gcd(g: int, s: int, t: int, x: int, y: int)

  predicate IsGcd(r: Gcd, a: int, b: int) {
    r.g >= 0 && a == r.g * r.x && b == r.g * r.y && r.g == r.s * a + r.t * b
  }

  function ExtendedGcd(a: nat, b: nat): (r: Gcd)
    ensures IsGcd(r, a, b)
    decreases b
  {
    if b == 0 then Gcd(a, 1, 0, 1, 0)
    else
      var r := ExtendedGcd(b, a % b);
      GcdStep(a, b, r);
      Gcd(r.g, r.t, r.s - r.t * (a / b), (a / b) * r.x + r.y, r.x)
  }

  lemma GcdStep(a: nat, b: nat, r: Gcd)
    requires b > 0 && IsGcd(r, b, a % b)
    ensures IsGcd(Gcd(r.g, r.t, r.s - r.t * (a / b), (a / b) * r.x + r.y, r.x), a, b)
  {
    var k := a / b;
    assert a % b == a - k * b;
    assert k * (r.g * r.x) == r.g * (k * r.x);
    assert r.t * (a - k * b) == r.t * a - r.t * k * b;
  }

  lemma RemainderUnique(x: int, k: int, r: int, q: int)
    requires 0 <= r < q && x == k * q + r
    ensures x % q == r
  {
    var d := x / q - k;
    assert d * q == r - x % q by {
      assert x == (x / q) * q + x % q;
      assert (x / q) * q - k * q == d * q;
    }
    MultipleIsFar(d, q);
  }

  lemma MultipleIsFar(d: int, q: int)
    requires q > 0
    ensures d >= 1 ==> d * q >= q
    ensures d <= -1 ==> d * q <= -q
  {
  }

  /** A difference by a multiple of `q` disappears modulo `q`. */
  lemma DropMultiple(a: int, k: int, q: int)
    requires q > 0
    ensures (a + k * q) % q == a % q
  {
    Quotient(a, q);
    assert a + k * q == (a / q + k) * q + a % q;
    RemainderUnique(a + k * q, a / q + k, a % q, q);
  }

  lemma Quotient(a: int, q: int)
    requires q > 0
    ensures a == a % q + (a / q) * q
  {
  }

  /** A product and a remainder under names, so that a proof can leave them alone. */
  function Times(a: int, b: int): int { a * b }

  function Residue(x: int, q: int): int
    requires q > 0
  {
    x % q
  }

  /** Reducing a factor first changes nothing modulo `q`. */
  lemma ReduceFactor(x: int, y: int, q: int)
    requires q > 0
    ensures ((x % q) * y) % q == (x * y) % q == (y * (x % q)) % q
  {
    Quotient(x, q);
    var r, k := x % q, x / q;
    assert x * y == r * y + (k * y) * q;
    DropMultiple(r * y, k * y, q);
  }

  lemma ReduceSum(x: int, y: int, q: int)
    requires q > 0
    ensures (x % q + y % q) % q == (x + y) % q
  {
    Quotient(x, q);
    Quotient(y, q);
    assert x / q * q + y / q * q == (x / q + y / q) * q;
    DropMultiple(x % q + y % q, x / q + y / q, q);
  }

  /** The inverse of `x` modulo the prime `q`. */
  function Inverse(x: int, q: int): (r: int)
    requires IsPrime(q) && x % q != 0
    ensures 0 <= r < q && (x * r) % q == 1
  {
    var r := ExtendedGcd(x % q, q);
    InverseExists(x, q, r);
    r.s % q
  }

  lemma InverseExists(x: int, q: int, r: Gcd)
    requires IsPrime(q) && x % q != 0 && IsGcd(r, x % q, q)
    ensures (x * (r.s % q)) % q == 1
  {
    GcdIsOne(x % q, q, r);
    BezoutInverse(x, q, r.s, r.t);
  }

  lemma BezoutInverse(x: int, q: int, s: int, t: int)
    requires q > 1 && s * (x % q) + t * q == 1
    ensures (x * (s % q)) % q == 1
  {
    Quotient(x, q);
    Quotient(s, q);
    BezoutMultiple(x, x % q, x / q, s, s % q, s / q, t, q);
    RemainderUnique(x * (s % q), (x / q) * s - t - x * (s / q), 1, q);
  }

  lemma BezoutMultiple(x: int, a: int, m: int, s: int, p: int, n: int, t: int, q: int)
    requires x == a + m * q && s == p + n * q && s * a + t * q == 1
    ensures x * p == (m * s - t - x * n) * q + 1
  {
    assert x * s == s * a + (m * s) * q;
    assert x * s == x * p + (x * n) * q;
  }

  lemma GcdIsOne(a: int, q: int, r: Gcd)
    requires IsPrime(q) && 0 < a < q && IsGcd(r, a, q)
    ensures r.g == 1
  {
    assert r.g > 0;
    assert r.x >= 1 && r.y >= 1;
    if 1 < r.g < q {
      DropMultiple(0, r.y, r.g);
    }
    assert r.g <= a;
  }

  /** The Lagrange coefficient at zero of `i` in the pair `i`, `j`
      (section 4.2 of RFC 9591 with two participants). */
  function Lagrange(i: int, j: int, q: int): int
    requires IsPrime(q) && (j - i) % q != 0
  {
    (j * Inverse(j - i, q)) % q
  }

  lemma OppositeInverses(x: int, u: int, v: int, k: int, l: int, q: int) returns (w: int)
    requires x * u == 1 + k * q && x * v == -1 - l * q
    ensures u + v == w * q
  {
    w := u * (k - l) - (u + v) * k;
    assert x * (u + v) == (k - l) * q;
    var t := x * (u + v);
    assert (x * u) * (u + v) == u * t;
    assert (1 + k * q) * (u + v) == (u + v) + ((u + v) * k) * q;
    assert u * ((k - l) * q) == (u * (k - l)) * q;
  }

  /** The weights of two points sum to one and their first moments cancel, up to multiples of `q`. */
  lemma Weights(i: int, j: int, q: int) returns (alpha: int, beta: int)
    requires IsPrime(q) && (j - i) % q != 0 && (i - j) % q != 0
    ensures Lagrange(i, j, q) + Lagrange(j, i, q) == 1 + alpha * q
    ensures i * Lagrange(i, j, q) + j * Lagrange(j, i, q) == beta * q
  {
    var u, v := Inverse(j - i, q), Inverse(i - j, q);
    var k, l := ((j - i) * u) / q, ((i - j) * v) / q;
    Quotient((j - i) * u, q);
    Quotient((i - j) * v, q);
    assert (j - i) * v == -((i - j) * v);
    var w := OppositeInverses(j - i, u, v, k, l, q);
    var m, n := (j * u) / q, (i * v) / q;
    Quotient(j * u, q);
    Quotient(i * v, q);
    alpha, beta := WeightsAt(i, j, u, v, k, w, m, n, q, Lagrange(i, j, q), Lagrange(j, i, q));
  }

  lemma WeightsAt(i: int, j: int, u: int, v: int, k: int, w: int, m: int, n: int, q: int, x: int, y: int)
    returns (alpha: int, beta: int)
    requires (j - i) * u == 1 + k * q && u + v == w * q
    requires x == j * u - m * q && y == i * v - n * q
    ensures x + y == 1 + alpha * q && i * x + j * y == beta * q
  {
    alpha, beta := k + i * w - m - n, i * j * w - i * m - j * n;
    SumOfWeights(i, j, u, v, k, w, q);
    MomentOfWeights(i, j, u, v, w, m, n, q);
  }

  lemma SumOfWeights(i: int, j: int, u: int, v: int, k: int, w: int, q: int)
    requires (j - i) * u == 1 + k * q && u + v == w * q
    ensures j * u + i * v == 1 + (k + i * w) * q
  {
    assert i * (u + v) == (i * w) * q;
    assert j * u + i * v == (j - i) * u + i * (u + v);
  }

  lemma MomentOfWeights(i: int, j: int, u: int, v: int, w: int, m: int, n: int, q: int)
    requires u + v == w * q
    ensures i * (j * u - m * q) + j * (i * v - n * q) == (i * j * w - i * m - j * n) * q
  {
    assert (i * j) * (u + v) == (i * j * w) * q;
    assert i * (j * u) + j * (i * v) == (i * j) * (u + v);
    assert i * (j * u - m * q) == i * (j * u) - (i * m) * q;
    assert j * (i * v - n * q) == j * (i * v) - (j * n) * q;
  }

  /** Any two points of the line `a + b * x` give its value at zero. */
  lemma Interpolate(i: int, j: int, a: int, b: int, q: int)
    requires IsPrime(q) && (j - i) % q != 0 && (i - j) % q != 0
    ensures (Lagrange(i, j, q) * (a + b * i) + Lagrange(j, i, q) * (a + b * j)) % q == a % q
  {
    var alpha, beta := Weights(i, j, q);
    CombineWeights(Lagrange(i, j, q), Lagrange(j, i, q), i, j, a, b, alpha, beta, q);
    DropMultiple(a, a * alpha + b * beta, q);
  }

  lemma CombineWeights(x: int, y: int, i: int, j: int, a: int, b: int, alpha: int, beta: int, q: int)
    requires x + y == 1 + alpha * q && i * x + j * y == beta * q
    ensures x * (a + b * i) + y * (a + b * j) == a + (a * alpha + b * beta) * q
  {
    assert x * (a + b * i) + y * (a + b * j) == a * (x + y) + b * (i * x + j * y);
    assert a * (1 + alpha * q) == a + (a * alpha) * q;
    assert b * (beta * q) == (b * beta) * q;
  }
}
