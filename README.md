# Ong–Schnorr–Shamir signatures and subliminal channel, in Dafny

This project models `ong_schnorr_shamir.py`, a Python implementation of the
Ong–Schnorr–Shamir (OSS) scheme over the integers modulo `n`:

- **Key material** (`OngSchnorrShamir.__init__`): a public modulus `n`, a
  private `k` coprime with `n` and the public `h = -(k⁻¹)² mod n`. Either
  value may be supplied; a missing `n` is drawn as a random `bits`-bit number
  that passes a Miller–Rabin test, and a missing `k` is drawn at random from
  `[2, n-1]` until it is coprime with `n`.
- **Miller–Rabin** (`_is_prime`): the early exits for small and even inputs,
  the decomposition `n-1 = d·2^r` and one round per random base.
- **Signatures** (`DigitalSignature`): `S1 = ½(M/r + r)` and
  `S2 = k·½(M/r − r)` modulo `n`. They are checked by
  `S1² + h·S2² ≡ M (mod n)`.
- **Subliminal channel** (`SubliminalChannel`): the same transform with the
  secret `w` in the place of `r` and the cover `w'` in the place of `M`. The
  signature of `w'` is valid in public, and the holder of `k` recovers
  `w = S1 − k⁻¹·S2 (mod n)`.

The modules follow the structure of the source:

- `Wrappers` holds `Option` and `Result`.
- `Arithmetic` holds `Pow`, `ModPow` (Python's `pow(a, e, n)`), `Gcd`
  (`math.gcd`), extended Euclid and `ModInv` (`pow(x, -1, n)`), and the
  congruence lemmas.
- `RandomSource` holds `randint`, `randrange` and `getrandbits` applied to
  raw draws that the caller supplies.
- `Primality` holds `_is_prime`.
- `Keys` holds the constructor, `_calculate_h`, the coprime draws,
  `_generate_large_prime` and `generate_keys`.
- `QuadraticForm` holds the transform that signing and hiding share, with its
  algebra.
- `Signature` and `Subliminal` hold the two schemes.

Key material is the datatype `KeyMaterial(n, k, h)` with a validity predicate.
The source sets the three fields once in the constructor and never writes them
again, so a value type models them exactly.

The loops of the source are methods with loop invariants, each proved against
a specification function:

- `IsProbablePrime`, `SplitPowerOfTwo` and `Round` are proved against
  `MillerRabin`, `Decompose` and `BasePasses`.
- `DrawCoprime` is proved against `FirstCoprime`.
- `GenerateLargePrime` is proved against `FirstProbablePrime`.
- `Init` is proved against `Construct`.

The single modular expressions are functions, and the scheme's promises are
lemmas about those functions.

Randomness is an explicit input:

- a random base is given as a raw integer and reduced into range by
  `RandRange`;
- a random candidate is a sequence of raw draws;
- a retry loop that runs out of draws returns `Err(Exhausted)`.

Correctness of the scheme does not need `n` to be prime. It needs only 2, `k`
and `r` (or `w`) to be invertible modulo `n`, and the lemmas assume no more.

## Model

| member | source | states |
|---|---|---|
| `Arithmetic.ModPow` | ong_schnorr_shamir.py:68 | Python's three-argument `pow(b, e, m)`: the result lies in `[0, m)` and equals `b^e mod m` |
| `Arithmetic.ModInv` | ong_schnorr_shamir.py:92 | Python's `pow(x, -1, m)`: an inverse exists exactly when `gcd(x, m) = 1`; when it does, it lies in `[0, m)` and `x·inv ≡ 1 (mod m)` |
| `Arithmetic.InverseUnique` | ong_schnorr_shamir.py:130 | the inverse is unique: every `y` in `[0, m)` with `x·y ≡ 1` is the one `ModInv` returns |
| `Arithmetic.NoInverseWhenNotCoprime` | ong_schnorr_shamir.py:191 | when `gcd(x, m) ≠ 1`, no `y` has `x·y ≡ 1 (mod m)`, which is why `pow(x, -1, m)` raises |
| `Arithmetic.GcdCommonDivisor` | ong_schnorr_shamir.py:32 | `math.gcd(a, b)` is 0 when both are 0, and otherwise a positive common divisor of `a` and `b` |
| `Arithmetic.GcdGreatest` | ong_schnorr_shamir.py:32 | every positive common divisor of `a` and `b` divides `math.gcd(a, b)`, so it is the greatest one |
| `Arithmetic.GcdSelf` | ong_schnorr_shamir.py:183 | `math.gcd(n, n) = n`, so the modulus itself is never coprime with `n ≥ 2` |
| `Arithmetic.GcdTwo` | ong_schnorr_shamir.py:129 | 2 is coprime with `n ≥ 1` exactly when `n` is odd, which is when `pow(2, -1, n)` succeeds |
| `Arithmetic.PyMod` | ong_schnorr_shamir.py:158 | Python's `a % m` for `m ≠ 0`: the result has the sign of `m`, lies strictly inside `(m, 0]` or `[0, m)`, and is congruent to `a` modulo `abs(m)` |
| `Arithmetic.PyModPow` | ong_schnorr_shamir.py:157 | Python's `pow(b, e, m)` for any `m ≠ 0` is `b^e % m` with Python's `%` |
| `Arithmetic.Pow2IsPow` | ong_schnorr_shamir.py:43 | the bound `2^bits` of `getrandbits` is the power `Pow(2, bits)` |
| `Arithmetic.SuccessorNotCongruent` | ong_schnorr_shamir.py:158 | `a + 1` and `a` are never congruent modulo `m ≥ 2` |
| `RandomSource.RandInt` | ong_schnorr_shamir.py:84 | `randint(lo, hi)` returns a value in `[lo, hi]`, and a raw draw already in range is returned unchanged |
| `RandomSource.RandRange` | ong_schnorr_shamir.py:67 | `randrange(lo, hi)` returns a value in `[lo, hi)`, and a raw draw already in range is returned unchanged |
| `RandomSource.RandBits` | ong_schnorr_shamir.py:43 | `getrandbits(bits)` returns a value in `[0, 2^bits)`, and a raw draw already in range is returned unchanged |
| `Primality.Decompose` | ong_schnorr_shamir.py:58-63 | `m = d·2^r` with `d` odd, and `r ≥ 1` exactly when `m` is even |
| `Primality.DecomposeUnique` | ong_schnorr_shamir.py:58-63 | the decomposition is unique: any odd `d` and any `r` with `m = d·2^r` are the ones `Decompose` gives |
| `Primality.IsProbablePrime` | ong_schnorr_shamir.py:47-77 | the loop version of `_is_prime` returns exactly `MillerRabin(n, bases)`: false for `n < 2` and for even `n ≥ 4`, true for 2 and 3, and otherwise true exactly when every base drawn with `randrange(2, n-1)` passes a round |
| `Primality.SplitPowerOfTwo` | ong_schnorr_shamir.py:58-63 | the halving loop ends with exactly the decomposition `Decompose(n − 1)` |
| `Primality.Round` | ong_schnorr_shamir.py:66-75 | one round, with its `r − 1` squarings and early `break`, passes exactly when `a^d ≡ 1`, `a^d ≡ n−1` or `a^(d·2^j) ≡ n−1` for some `1 ≤ j < r` |
| `Primality.ChainStep` | ong_schnorr_shamir.py:72 | each squaring `pow(x, 2, n)` moves from exponent `d·2^j` to `d·2^(j+1)` |
| `Primality.PassImpliesFermat` | ong_schnorr_shamir.py:66-75 | a base that passes a round satisfies `a^(n−1) ≡ 1 (mod n)`, the Fermat condition |
| `Primality.PassingBaseIsFermat` | ong_schnorr_shamir.py:66-75 | for odd `n ≥ 5`, a base that passes its round satisfies `a^(n−1) ≡ 1 (mod n)` |
| `Primality.MillerRabinAccepted` | ong_schnorr_shamir.py:51-77 | an accepted `n` is 2 or odd and at least 3, and for `n ≥ 5` every drawn base satisfies `a^(n−1) ≡ 1 (mod n)` |
| `Primality.FailingBaseRejects` | ong_schnorr_shamir.py:76-77 | one failing base anywhere in the sequence makes `_is_prime` return false |
| `Primality.NineRejectedByTwo` | ong_schnorr_shamir.py:66-77 | the composite 9 is rejected by the single base 2 |
| `Keys.KInverse` | ong_schnorr_shamir.py:92 | for valid key material, `k⁻¹` lies in `[0, n)` with `k·k⁻¹ ≡ 1 (mod n)` |
| `Keys.CalculateH` | ong_schnorr_shamir.py:88-94 | `h` lies in `[0, n)` and `h·k² ≡ −1 (mod n)` |
| `Keys.HUnique` | ong_schnorr_shamir.py:92-93 | `h` is the only value in `[0, n)` with `h·k² ≡ −1 (mod n)` |
| `Keys.NewKey` | ong_schnorr_shamir.py:28-36 | the constructor with both values supplied: it raises when `gcd(n, k) ≠ 1`, and otherwise succeeds exactly when `n ≥ 1`; the key then keeps `n` and `k` as given, with `h` in `[0, n)` and `h·k² ≡ −1` |
| `Keys.CompositeModulusAccepted` | ong_schnorr_shamir.py:23-36 | a supplied `n` is not tested for primality: `n = 15`, `k = 2` is accepted |
| `Keys.FirstCoprime` | ong_schnorr_shamir.py:79-86 | the retry loop draws `randint(2, n−1)` until the value is coprime with `n`. It fails on an empty range (`n < 3`). On success the value lies in `[2, n−1]` and is coprime with `n`. It is the first draw that is coprime: every earlier draw was not. It runs out only when no draw was coprime |
| `Keys.DrawCoprime` | ong_schnorr_shamir.py:96-103 | the loop version of both coprime draws returns exactly `FirstCoprime`, so a returned `x` has `2 ≤ x ≤ n−1` and `gcd(n, x) = 1` |
| `Keys.FirstProbablePrime` | ong_schnorr_shamir.py:38-45 | the prime search returns the first `bits`-bit draw that passes Miller–Rabin with its own bases: every earlier draw failed. It fails only when no draw passes |
| `Keys.GenerateLargePrime` | ong_schnorr_shamir.py:42-45 | the loop version of `_generate_large_prime` returns exactly `FirstProbablePrime` |
| `Keys.Construct` | ong_schnorr_shamir.py:15-36 | the constructor with optional `n` and `k`. With both supplied it is `NewKey(n, k)`. Its `n` is the supplied one or the first probable prime drawn, and its `k` the supplied one or the first coprime draw. A failed prime search fails construction. With `k` supplied it succeeds exactly when `n ≥ 1` and `gcd(n, k) = 1`; with `k` drawn, exactly when the coprime search succeeds. A key it builds is valid |
| `Keys.Init` | ong_schnorr_shamir.py:23-36 | the loop version of the constructor returns exactly `Construct` and only valid key material |
| `Keys.GeneratedKey` | ong_schnorr_shamir.py:23-36 | a generated key is valid. Its `n` is odd and in `[3, 2^512)`. It is the first bits draw that passes Miller–Rabin with that draw's own bases. Its `k` is in `[2, n)` with `gcd(n, k) = 1`, and is the first coprime key draw |
| `Keys.DrawnModulusTwoFails` | ong_schnorr_shamir.py:83-84 | a generated modulus 2 passes `_is_prime`, but then `randint(2, 1)` has an empty range and construction fails |
| `Keys.GenerateKeys` | ong_schnorr_shamir.py:250-264 | `generate_keys` ignores `bits`, returns the generated `(n, k, h)`, and on success `gcd(n, k) = 1`, `n > 0` and `k > 0` |
| `QuadraticForm.Transform` | ong_schnorr_shamir.py:129-136 | the shared transform succeeds exactly when `n` is odd and `gcd(r, n) = 1`; otherwise `pow(·, -1, n)` raises. Both outputs lie in `[0, n)` |
| `QuadraticForm.TransformMeaning` | ong_schnorr_shamir.py:128-135 | `2r·S1 ≡ M + r²` and `2r·S2 ≡ k·(M − r²)` modulo `n` |
| `QuadraticForm.QuadraticIdentity` | ong_schnorr_shamir.py:157 | the outputs solve the OSS equation `S1² + h·S2² ≡ M (mod n)` |
| `QuadraticForm.InversionIdentity` | ong_schnorr_shamir.py:242 | `S1 − k⁻¹·S2 ≡ r (mod n)` |
| `Signature.Sign` | ong_schnorr_shamir.py:124-138 | signing with `r` succeeds exactly when `n` is odd and `r` is coprime with `n`. The result returns `r` unchanged and has `S1`, `S2` in `[0, n)` with `2r·S1 ≡ M + r²` and `2r·S2 ≡ k·(M − r²)` |
| `Signature.SignMessage` | ong_schnorr_shamir.py:113-141 | `sign_message` is the coprime draw followed by `Sign`. A returned `r` lies in `[2, n)` and is coprime with `n`, and the signature it returns verifies |
| `Signature.Verify` | ong_schnorr_shamir.py:143-161 | `verify_signature` uses only `n` and `h`, with Python's `%` and `pow` for a modulus of either sign. It accepts exactly when `n ≠ 0` and `S1² + h·S2² ≡ M (mod abs(n))`; for `n = 0`, `pow` raises and it answers false |
| `Signature.SquaresReduced` | ong_schnorr_shamir.py:157 | reducing each square with `pow(·, 2, n)` first, as the source does, keeps the left side's residue modulo `abs(n)` |
| `Signature.SignVerify` | ong_schnorr_shamir.py:157 | the signature of `M` verifies a message `M'` exactly when `M' ≡ M (mod n)` |
| `Signature.RejectsNextMessage` | test_ong_schnorr_shamir.py:79-87 | for `n ≥ 2`, a signature of `M` verifies `M` and rejects `M + 1` |
| `Signature.DistinctMessagesDistinctSignatures` | test_ong_schnorr_shamir.py:179-188 | two messages that differ modulo `n` get different `(S1, S2)`, whatever `r` each signing drew |
| `Signature.SignScenario` | test_ong_schnorr_shamir.py:64-87 | with `n = 1000003` and any coprime `r`, signing 12345 succeeds, 12345 verifies and 12346 does not |
| `Subliminal.Hide` | ong_schnorr_shamir.py:171-202 | `create_subliminal_message` raises for an original not coprime with `n` (checked first), then for a cover not coprime with `n`, then for an even `n`. Otherwise it returns the cover unchanged, with `S1` and `S2` in `[0, n)` |
| `Subliminal.VerifyCover` | ong_schnorr_shamir.py:204-222 | `verify_cover_message` accepts exactly when `n ≠ 0` and `S1² + h·S2² ≡ w' (mod abs(n))`, the same check as for signatures |
| `Subliminal.Reveal` | ong_schnorr_shamir.py:224-247 | `decrypt_original_message` returns the `w` in `[0, n)` with `k·(S1 − w) ≡ S2 (mod n)` |
| `Subliminal.Unmasked` | ong_schnorr_shamir.py:241-242 | multiplying `S1 − w` by `k` cancels the `k⁻¹` of the decryption |
| `Subliminal.HideReveal` | ong_schnorr_shamir.py:188-199 | an envelope verifies exactly the messages congruent to its cover, and reveals `w mod n`, which is `w` itself when `0 ≤ w < n` |
| `Subliminal.SameSecretTwoCovers` | test_ong_schnorr_shamir.py:204-226 | one secret hidden under two covers reveals the same `w mod n` both times, and covers that differ modulo `n` give different `(S1, S2)` |
| `Subliminal.ModulusRejected` | test_ong_schnorr_shamir.py:132-142 | for `n ≥ 2`, the message `n` is refused as the original, and also as the cover when the original is coprime with `n` |
| `Subliminal.HideScenario` | test_ong_schnorr_shamir.py:112-130 | with `n = 1000003`, hiding 9876 under 5432 succeeds. The cover 5432 verifies, 5433 does not, and 9876 is revealed |
| `Subliminal.ScenarioCoprime` | ong_schnorr_shamir.py:183-186 | 9876 and 5432 are coprime with 1000003, so both guards pass in the scenario |

## Left out

- `demo.py`, `examples.py`, the unit-test runner wiring and the `__main__` demo block of `ong_schnorr_shamir.py` print and prompt only. They are not modelled; the unit tests appear only as the lemmas cited above.
- Randomness. `random.getrandbits`, `random.randint` and `random.randrange` become raw integers supplied by the caller. `RandInt`, `RandRange` and `RandBits` map a raw draw into the range the library call guarantees. Uniformity is not modelled.
- Keys.FirstCoprime, Keys.FirstProbablePrime: the source's `while True` loops retry forever. The model has a finite sequence of draws and returns `Err(Exhausted)` when it runs out. Termination of the source's loops is not claimed.
- Keys.GenerateLargePrime: `_is_prime` runs its default five rounds. The model takes the bases of each draw as a sequence and requires each to hold exactly 5 (`WellFormedDraws`). `IsProbablePrime` accepts any number of bases.
- Probabilistic claims are not modelled, because none of them is a deterministic guarantee of the code:
  - the Miller–Rabin error bound;
  - that a prime passes every base, which needs Fermat's little theorem;
  - that a perturbed `S1` or `S2` is rejected, which does not hold in general since `(S1+1)² ≡ S1²` can happen;
  - that repeated signings use distinct `r`.
- Bit length and security level. The model records only that a generated modulus is below `2^512`. It does not force the top bit, and neither does the source. The `bits` argument of `generate_keys` is ignored here as in the source.
- Keys.NewKey: a negative supplied modulus is rejected with `NonPositiveModulus`. Python would go on with negative-modulus `%` and `pow` semantics. For `n = 0` the rejection matches Python, where `pow(k, -1, 0)` raises.
- Python's exception handling is not modelled. Each `ValueError`, including the ones re-raised with a new message, becomes an `Err` value of the `Error` datatype. The type checks of the unit tests (`assertIsInstance`) hold by typing.
- `_generate_coprime` and `_generate_random_coprime` have the same body, so both are modelled by the one method `Keys.DrawCoprime`.
- Signature.Verify: for `n = 1`, every message is congruent to every other, so any `(S1, S2)` verifies any message. The model shows this case rather than excluding it.
