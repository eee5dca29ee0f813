/**
 * The subliminal channel `SubliminalChannel`: the original message w takes
 * the place of the random r, so an ordinary-looking signature of the cover
 * message w' carries w to whoever knows k.
 */
module Subliminal {
  import opened Wrappers
  import opened Arithmetic
  import opened Keys
  import opened QuadraticForm
  import Signature

  /** The tuple (S1, S2, w') `create_subliminal_message` returns. */
  datatype Envelope = Envelope(s1: int, s2: int, cover: int)

  /**
   * `create_subliminal_message`: both messages must be coprime with n
   * (the original is checked first); then S1 = 1/2 * (w'/w + w) and
   * S2 = k/2 * (w'/w - w) modulo n.
   */
  function Hide(key: KeyMaterial, original: int, cover: int): (res: Result<Envelope, Error>)
    requires key.Valid()
    ensures Gcd(original, key.n) != 1 ==> res == Err(NotCoprime(Original))
    ensures Gcd(original, key.n) == 1 && Gcd(cover, key.n) != 1 ==> res == Err(NotCoprime(Cover))
    ensures res.Ok? <==> Gcd(original, key.n) == 1 && Gcd(cover, key.n) == 1 && key.n % 2 == 1
    ensures res.Ok? ==> res.value.cover == cover && 0 <= res.value.s1 < key.n && 0 <= res.value.s2 < key.n
  {
    if Gcd(original, key.n) != 1 then Err(NotCoprime(Original))
    else if Gcd(cover, key.n) != 1 then Err(NotCoprime(Cover))
    else
      var pair :- Transform(key, cover, original);
      Ok(Envelope(pair.0, pair.1, cover))
  }

  /** `verify_cover_message`: the public check, the same as for signatures. */
  function VerifyCover(pub: PublicKey, cover: int, s1: int, s2: int): (accepted: bool)
    ensures accepted <==> pub.n != 0 && (s1 * s1 + pub.h * (s2 * s2)) % Abs(pub.n) == cover % Abs(pub.n)
  {
    Signature.Verify(pub, cover, s1, s2)
  }

  /**
   * `decrypt_original_message`: w = S1 - k^-1 * S2 modulo n. Its result
   * is the w in [0, n) for which k * (S1 - w) ≡ S2 (mod n).
   */
  function Reveal(key: KeyMaterial, s1: int, s2: int): (w: int)
    requires key.Valid()
    ensures 0 <= w < key.n
    ensures (key.k * (s1 - w)) % key.n == s2 % key.n
  {
    var w := (s1 - KInverse(key) * s2) % key.n;
    Unmasked(key.n, key.k, KInverse(key), s1, s2, w);
    w
  }

  lemma Unmasked(n: int, k: int, kInv: int, s1: int, s2: int, w: int)
    requires n >= 1 && (k * kInv) % n == 1 % n && w == (s1 - kInv * s2) % n
    ensures (k * (s1 - w)) % n == s2 % n
  {
    CongMod(s1 - kInv * s2, n);
    CongSub(s1, s1, w, s1 - kInv * s2, n);
    assert s1 - (s1 - kInv * s2) == kInv * s2;
    CongMul(k, k, s1 - w, kInv * s2, n);
    assert k * (kInv * s2) == (k * kInv) * s2;
    CongMul(k * kInv, 1, s2, s2, n);
  }

  /**
   * Round trip of the channel: the envelope verifies exactly the messages
   * congruent to the cover, and the key holder recovers w modulo n (w
   * itself whenever 0 <= w < n).
   */
  lemma HideReveal(key: KeyMaterial, original: int, cover: int, candidate: int)
    requires key.Valid() && Hide(key, original, cover).Ok?
    ensures var e := Hide(key, original, cover).value;
      && (VerifyCover(key.Public(), candidate, e.s1, e.s2) <==> candidate % key.n == cover % key.n)
      && Reveal(key, e.s1, e.s2) == original % key.n
    ensures 0 <= original < key.n ==>
      Reveal(key, Hide(key, original, cover).value.s1, Hide(key, original, cover).value.s2) == original
  {
    QuadraticIdentity(key, cover, original);
    InversionIdentity(key, cover, original);
    ModSmall(original, key.n);
  }

  /**
   * One secret under two covers: both envelopes reveal the same w, and
   * covers that differ modulo n give different (S1, S2).
   */
  lemma SameSecretTwoCovers(key: KeyMaterial, original: int, cover1: int, cover2: int)
    requires key.Valid() && Hide(key, original, cover1).Ok? && Hide(key, original, cover2).Ok?
    ensures var e1, e2 := Hide(key, original, cover1).value, Hide(key, original, cover2).value;
      && Reveal(key, e1.s1, e1.s2) == Reveal(key, e2.s1, e2.s2) == original % key.n
      && (cover1 % key.n != cover2 % key.n ==> (e1.s1, e1.s2) != (e2.s1, e2.s2))
  {
    HideReveal(key, original, cover1, cover2);
    HideReveal(key, original, cover2, cover2);
  }

  /** The modulus itself is refused in either position when n >= 2. */
  lemma ModulusRejected(key: KeyMaterial, message: int)
    requires key.Valid() && key.n >= 2
    ensures Hide(key, key.n, message) == Err(NotCoprime(Original))
    ensures Gcd(message, key.n) == 1 ==> Hide(key, message, key.n) == Err(NotCoprime(Cover))
  {
    GcdSelf(key.n);
  }

  /**
   * The fixed-key scenario: with n = 1000003, hiding 9876 under the cover
   * 5432 is accepted, the cover verifies, 5433 does not, and 9876 is
   * revealed.
   */
  lemma HideScenario(key: KeyMaterial)
    requires key.Valid() && key.n == 1000003
    ensures Hide(key, 9876, 5432).Ok?
    ensures var e := Hide(key, 9876, 5432).value;
      && VerifyCover(key.Public(), 5432, e.s1, e.s2)
      && !VerifyCover(key.Public(), 5433, e.s1, e.s2)
      && Reveal(key, e.s1, e.s2) == 9876
  {
    ScenarioCoprime();
    HideReveal(key, 9876, 5432, 5432);
    HideReveal(key, 9876, 5432, 5433);
    SuccessorNotCongruent(5432, key.n);
  }

  /** Euclid's steps for the two scenario messages against 1000003. */
  lemma ScenarioCoprime()
    ensures Gcd(9876, 1000003) == 1 && Gcd(5432, 1000003) == 1
  {
    assert GcdNat(3, 1) == 1;
    assert GcdNat(4, 3) == 1;
    assert GcdNat(7, 4) == 1;
    assert GcdNat(25, 7) == 1;
    assert GcdNat(207, 25) == 1;
    assert GcdNat(232, 207) == 1;
    assert GcdNat(2295, 232) == 1;
    assert GcdNat(2527, 2295) == 1;
    assert GcdNat(9876, 2527) == 1;
    assert GcdNat(1000003, 9876) == 1;
    assert GcdNat(9876, 1000003) == 1;
    assert GcdNat(12, 1) == 1;
    assert GcdNat(37, 12) == 1;
    assert GcdNat(49, 37) == 1;
    assert GcdNat(233, 49) == 1;
    assert GcdNat(282, 233) == 1;
    assert GcdNat(515, 282) == 1;
    assert GcdNat(5432, 515) == 1;
    assert GcdNat(1000003, 5432) == 1;
    assert GcdNat(5432, 1000003) == 1;
  }
}
