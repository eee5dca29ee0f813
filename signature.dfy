/**
 * The digital signature scheme `DigitalSignature`: signing with a random
 * r coprime with n and verification through S1^2 + h * S2^2 ≡ M (mod n).
 */
module Signature {
  import opened Wrappers
  import opened Arithmetic
  import opened Keys
  import opened QuadraticForm

  /** The tuple (S1, S2, r) `sign_message` returns. */
  datatype Signed = Signed(s1: int, s2: int, r: int)

  /**
   * `sign_message` once r has been drawn: S1 = 1/2 * (M/r + r) and
   * S2 = k/2 * (M/r - r) modulo n, with r returned unchanged.
   */
  function Sign(key: KeyMaterial, message: int, r: int): (res: Result<Signed, Error>)
    requires key.Valid()
    ensures res.Ok? <==> key.n % 2 == 1 && Gcd(r, key.n) == 1
    ensures res.Ok? ==> res.value.r == r && 0 <= res.value.s1 < key.n && 0 <= res.value.s2 < key.n
    ensures res.Ok? ==>
      && (2 * r * res.value.s1) % key.n == (message + r * r) % key.n
      && (2 * r * res.value.s2) % key.n == (key.k * (message - r * r)) % key.n
  {
    var pair :- Transform(key, message, r);
    TransformMeaning(key, message, r);
    Ok(Signed(pair.0, pair.1, r))
  }

  /** `sign_message`: draw r with `_generate_random_coprime`, then sign. */
  method SignMessage(key: KeyMaterial, message: int, draws: seq<int>) returns (res: Result<Signed, Error>)
    requires key.Valid()
    ensures res == match FirstCoprime(key.n, draws)
                   case Err(e) => Err(e)
                   case Ok(r) => Sign(key, message, r)
    ensures res.Ok? ==> 2 <= res.value.r < key.n && Gcd(key.n, res.value.r) == 1
    ensures res.Ok? ==> Verify(key.Public(), message, res.value.s1, res.value.s2)
  {
    var r :- DrawCoprime(key.n, draws);
    res := Sign(key, message, r);
    if res.Ok? {
      SignVerify(key, message, r, message);
    }
  }

  /**
   * `verify_signature`: (pow(S1, 2, n) + h * pow(S2, 2, n)) % n == M % n
   * with Python's `%` and `pow`, which follow the sign of n. Only n and h
   * are used; with n == 0 `pow` raises and the verifier answers false.
   */
  function Verify(pub: PublicKey, message: int, s1: int, s2: int): (accepted: bool)
    ensures accepted <==> pub.n != 0 && (s1 * s1 + pub.h * (s2 * s2)) % Abs(pub.n) == message % Abs(pub.n)
  {
    if pub.n == 0 then false
    else
      var left := PyModPow(s1, 2, pub.n) + pub.h * PyModPow(s2, 2, pub.n);
      SquaresReduced(pub.n, pub.h, s1, s2);
      PyModEqual(left, message, pub.n);
      PyMod(left, pub.n) == PyMod(message, pub.n)
  }

  lemma SquaresReduced(n: int, h: int, s1: int, s2: int)
    requires n != 0
    ensures (PyModPow(s1, 2, n) + h * PyModPow(s2, 2, n)) % Abs(n) == (s1 * s1 + h * (s2 * s2)) % Abs(n)
  {
    var m := Abs(n);
    PowSquare(s1);
    PowSquare(s2);
    var x1, x2 := PyModPow(s1, 2, n), PyModPow(s2, 2, n);
    assert Cong(x1, s1 * s1, m);
    assert Cong(x2, s2 * s2, m);
    CongMul(h, h, x2, s2 * s2, m);
    CongAdd(x1, s1 * s1, h * x2, h * (s2 * s2), m);
  }

  /**
   * Sign/verify round trip: a signature of M is accepted for exactly the
   * messages congruent to M modulo n.
   */
  lemma SignVerify(key: KeyMaterial, message: int, r: int, candidate: int)
    requires key.Valid() && Sign(key, message, r).Ok?
    ensures var sig := Sign(key, message, r).value;
      Verify(key.Public(), candidate, sig.s1, sig.s2) <==> candidate % key.n == message % key.n
  {
    QuadraticIdentity(key, message, r);
  }

  /** A signature never verifies the next message when n >= 2. */
  lemma RejectsNextMessage(key: KeyMaterial, message: int, r: int)
    requires key.Valid() && key.n >= 2 && Sign(key, message, r).Ok?
    ensures var sig := Sign(key, message, r).value;
      Verify(key.Public(), message, sig.s1, sig.s2) && !Verify(key.Public(), message + 1, sig.s1, sig.s2)
  {
    SignVerify(key, message, r, message);
    SignVerify(key, message, r, message + 1);
    SuccessorNotCongruent(message, key.n);
  }

  /**
   * Messages that differ modulo n never share a signature, whatever r
   * each signing drew.
   */
  lemma DistinctMessagesDistinctSignatures(key: KeyMaterial, m1: int, r1: int, m2: int, r2: int)
    requires key.Valid() && Sign(key, m1, r1).Ok? && Sign(key, m2, r2).Ok?
    requires m1 % key.n != m2 % key.n
    ensures var sig1, sig2 := Sign(key, m1, r1).value, Sign(key, m2, r2).value;
      (sig1.s1, sig1.s2) != (sig2.s1, sig2.s2)
  {
    SignVerify(key, m1, r1, m2);
    SignVerify(key, m2, r2, m2);
  }

  /**
   * The fixed-key scenario: with n = 1000003 and any r coprime with it,
   * the signature of 12345 verifies 12345 and rejects 12346.
   */
  lemma SignScenario(key: KeyMaterial, r: int)
    requires key.Valid() && key.n == 1000003 && Gcd(r, key.n) == 1
    ensures Sign(key, 12345, r).Ok?
    ensures var sig := Sign(key, 12345, r).value;
      Verify(key.Public(), 12345, sig.s1, sig.s2) && !Verify(key.Public(), 12346, sig.s1, sig.s2)
  {
    RejectsNextMessage(key, 12345, r);
  }
}
