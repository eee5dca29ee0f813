/**
 * The transform both OSS protocols share: for a message m and an
 * invertible r it yields
 *   S1 = 1/2 * (m/r + r)  and  S2 = k/2 * (m/r - r)   (mod n),
 * the pair that satisfies S1^2 + h * S2^2 ≡ m and S1 - k^-1 * S2 ≡ r.
 * Signing uses it with a random r; the subliminal channel with the
 * hidden message in the role of r and the cover in the role of m.
 */
module QuadraticForm {
  import opened Wrappers
  import opened Arithmetic
  import opened Keys

  /**
   * The computation shared by `sign_message` and
   * `create_subliminal_message`: returns (S1, S2), or NoInverse where
   * `pow(2, -1, n)` or `pow(r, -1, n)` raises.
   */
  function Transform(key: KeyMaterial, m: int, r: int): (res: Result<(int, int), Error>)
    requires key.Valid()
    ensures res.Ok? <==> key.n % 2 == 1 && Gcd(r, key.n) == 1
    ensures res.Err? ==> res.error == NoInverse
    ensures res.Ok? ==> 0 <= res.value.0 < key.n && 0 <= res.value.1 < key.n
  {
    GcdTwo(key.n);
    match ModInv(2, key.n)
    case None => Err(NoInverse)
    case Some(inv2) =>
      match ModInv(r, key.n)
      case None => Err(NoInverse)
      case Some(invR) =>
        var s1 := (inv2 * (m * invR + r)) % key.n;
        var term := (m * invR - r) % key.n;
        var s2 := (key.k * inv2 * term) % key.n;
        Ok((s1, s2))
  }

  /**
   * Division-free meaning of the pair: 2r * S1 ≡ m + r^2 and
   * 2r * S2 ≡ k * (m - r^2) (mod n).
   */
  lemma TransformMeaning(key: KeyMaterial, m: int, r: int)
    requires key.Valid() && Transform(key, m, r).Ok?
    ensures var (s1, s2) := Transform(key, m, r).value;
      && (2 * r * s1) % key.n == (m + r * r) % key.n
      && (2 * r * s2) % key.n == (key.k * (m - r * r)) % key.n
  {
    var n, k := key.n, key.k;
    var i2, ir := ModInv(2, n).value, ModInv(r, n).value;
    var s1, s2 := Transform(key, m, r).value.0, Transform(key, m, r).value.1;
    TransformParts(key, m, r);
    DoubledS1(n, i2, ir, m, r, s1);
    DoubledS2(n, k, i2, ir, m, r, s2);
  }

  lemma DoubledS1(n: int, i2: int, ir: int, m: int, r: int, s1: int)
    requires n >= 1 && Cong(2 * i2, 1, n) && Cong(r * ir, 1, n)
    requires Cong(s1, i2 * (m * ir + r), n)
    ensures Cong(2 * r * s1, m + r * r, n)
  {
    CongMul(2 * r, 2 * r, s1, i2 * (m * ir + r), n);
    assert 2 * r * (i2 * (m * ir + r)) == (2 * i2) * (m * (r * ir) + r * r);
    CongMul(m, m, r * ir, 1, n);
    CongAdd(m * (r * ir), m, r * r, r * r, n);
    CongMul(2 * i2, 1, m * (r * ir) + r * r, m + r * r, n);
  }

  lemma DoubledS2(n: int, k: int, i2: int, ir: int, m: int, r: int, s2: int)
    requires n >= 1 && Cong(2 * i2, 1, n) && Cong(r * ir, 1, n)
    requires Cong(s2, k * (i2 * (m * ir - r)), n)
    ensures Cong(2 * r * s2, k * (m - r * r), n)
  {
    CongMul(2 * r, 2 * r, s2, k * (i2 * (m * ir - r)), n);
    assert 2 * r * (k * (i2 * (m * ir - r))) == (2 * i2) * (k * (m * (r * ir) - r * r));
    CongMul(m, m, r * ir, 1, n);
    CongSub(m * (r * ir), m, r * r, r * r, n);
    CongMul(k, k, m * (r * ir) - r * r, m - r * r, n);
    CongMul(2 * i2, 1, k * (m * (r * ir) - r * r), k * (m - r * r), n);
  }

  /** The two outputs as congruences over the unreduced expressions. */
  lemma TransformParts(key: KeyMaterial, m: int, r: int)
    requires key.Valid() && Transform(key, m, r).Ok?
    ensures var i2, ir := ModInv(2, key.n).value, ModInv(r, key.n).value;
      && Cong(Transform(key, m, r).value.0, i2 * (m * ir + r), key.n)
      && Cong(Transform(key, m, r).value.1, key.k * (i2 * (m * ir - r)), key.n)
  {
    var n, k := key.n, key.k;
    var i2, ir := ModInv(2, n).value, ModInv(r, n).value;
    assert Transform(key, m, r).value == ((i2 * (m * ir + r)) % n, (k * i2 * ((m * ir - r) % n)) % n);
    ReducedParts(n, k, i2, ir, m, r);
  }

  lemma ReducedParts(n: int, k: int, i2: int, ir: int, m: int, r: int)
    requires n >= 1
    ensures Cong((i2 * (m * ir + r)) % n, i2 * (m * ir + r), n)
    ensures Cong((k * i2 * ((m * ir - r) % n)) % n, k * (i2 * (m * ir - r)), n)
  {
    CongMod(i2 * (m * ir + r), n);
    CongMod(m * ir - r, n);
    CongMul(k * i2, k * i2, (m * ir - r) % n, m * ir - r, n);
    CongMod(k * i2 * ((m * ir - r) % n), n);
    assert k * i2 * (m * ir - r) == k * (i2 * (m * ir - r));
  }

  /**
   * The verification identity: S1^2 + h * S2^2 ≡ m (mod n), because
   * h * k^2 ≡ -1 turns the sum into (2 * 1/2)^2 * (m/r) * r.
   */
  lemma QuadraticIdentity(key: KeyMaterial, m: int, r: int)
    requires key.Valid() && Transform(key, m, r).Ok?
    ensures var (s1, s2) := Transform(key, m, r).value;
      (s1 * s1 + key.h * (s2 * s2)) % key.n == m % key.n
  {
    var n, k, h := key.n, key.k, key.h;
    var i2, ir := ModInv(2, n).value, ModInv(r, n).value;
    var s1, s2 := Transform(key, m, r).value.0, Transform(key, m, r).value.1;
    TransformParts(key, m, r);
    CongMinusOne(h * (k * k), n);
    SumOfSquares(n, k, h, i2, ir, m, r, s1, s2);
  }

  lemma SumOfSquares(n: int, k: int, h: int, i2: int, ir: int, m: int, r: int, s1: int, s2: int)
    requires n >= 1
    requires Cong(2 * i2, 1, n) && Cong(r * ir, 1, n) && Cong(h * (k * k), -1, n)
    requires Cong(s1, i2 * (m * ir + r), n) && Cong(s2, k * (i2 * (m * ir - r)), n)
    ensures Cong(s1 * s1 + h * (s2 * s2), m, n)
  {
    var a := m * ir;
    var p, q := i2 * (a + r), i2 * (a - r);
    CongMul(s1, p, s1, p, n);
    HalfKTerm(n, k, h, q, s2);
    CongAdd(s1 * s1, p * p, h * (s2 * s2), -(q * q), n);
    DifferenceOfSquares(i2, a, r);
    HalfSquaredProduct(n, i2, ir, m, r);
  }

  lemma HalfKTerm(n: int, k: int, h: int, q: int, s2: int)
    requires n >= 1 && Cong(h * (k * k), -1, n) && Cong(s2, k * q, n)
    ensures Cong(h * (s2 * s2), -(q * q), n)
  {
    CongMul(s2, k * q, s2, k * q, n);
    CongMul(h, h, s2 * s2, (k * q) * (k * q), n);
    assert h * ((k * q) * (k * q)) == (h * (k * k)) * (q * q);
    CongMul(h * (k * k), -1, q * q, q * q, n);
  }

  lemma DifferenceOfSquares(i: int, a: int, r: int)
    ensures (i * (a + r)) * (i * (a + r)) + -((i * (a - r)) * (i * (a - r))) == ((2 * i) * (2 * i)) * (a * r)
  {
  }

  lemma HalfSquaredProduct(n: int, i2: int, ir: int, m: int, r: int)
    requires n >= 1 && Cong(2 * i2, 1, n) && Cong(r * ir, 1, n)
    ensures Cong(((2 * i2) * (2 * i2)) * ((m * ir) * r), m, n)
  {
    CongMul(2 * i2, 1, 2 * i2, 1, n);
    assert (m * ir) * r == m * (r * ir);
    CongMul(m, m, r * ir, 1, n);
    CongMul((2 * i2) * (2 * i2), 1, m * (r * ir), m, n);
  }

  /** The inversion identity: S1 - k^-1 * S2 ≡ r (mod n). */
  lemma InversionIdentity(key: KeyMaterial, m: int, r: int)
    requires key.Valid() && Transform(key, m, r).Ok?
    ensures var (s1, s2) := Transform(key, m, r).value;
      (s1 - KInverse(key) * s2) % key.n == r % key.n
  {
    var n, k := key.n, key.k;
    var i2, ir := ModInv(2, n).value, ModInv(r, n).value;
    var s1, s2 := Transform(key, m, r).value.0, Transform(key, m, r).value.1;
    TransformParts(key, m, r);
    Unmask(n, k, KInverse(key), i2, m * ir, r, s1, s2);
  }

  lemma Unmask(n: int, k: int, ki: int, i2: int, a: int, r: int, s1: int, s2: int)
    requires n >= 1 && Cong(k * ki, 1, n) && Cong(2 * i2, 1, n)
    requires Cong(s1, i2 * (a + r), n) && Cong(s2, k * (i2 * (a - r)), n)
    ensures Cong(s1 - ki * s2, r, n)
  {
    CongMul(ki, ki, s2, k * (i2 * (a - r)), n);
    assert ki * (k * (i2 * (a - r))) == (k * ki) * (i2 * (a - r));
    CongMul(k * ki, 1, i2 * (a - r), i2 * (a - r), n);
    CongSub(s1, i2 * (a + r), ki * s2, 1 * (i2 * (a - r)), n);
    assert i2 * (a + r) - 1 * (i2 * (a - r)) == (2 * i2) * r;
    CongMul(2 * i2, 1, r, r, n);
  }
}
