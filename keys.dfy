/**
 * Key material of the Ong-Schnorr-Shamir scheme, the base class
 * `OngSchnorrShamir`: the modulus n, the private k coprime with n and the
 * public h = -(k^-1)^2 mod n; how a key is built from given or drawn values,
 * and the two retry loops that draw the modulus and a coprime value.
 */
module Keys {
  import opened Wrappers
  import opened Arithmetic
  import opened RandomSource
  import opened Primality

  /** Bit length of the modulus candidates the constructor draws. */
  const PrimeBits: nat := 512

  /** Which argument of the subliminal transform was not coprime with n. */
  datatype Operand = Original | Cover

  /** The failures the core signals (all of them ValueError in the source). */
  datatype Error =
    | InvalidKey                  // gcd(n, k) != 1 at construction
    | NotCoprime(operand: Operand) // a subliminal argument shares a factor with n
    | NoInverse                   // a modular inverse that does not exist
    | NonPositiveModulus          // n <= 0: the modular arithmetic has no positive modulus
    | EmptyRange                  // randint(2, n - 1) with n < 3
    | Exhausted                   // the supplied draws ran out

  /** What a verifier needs: the modulus and h, not k. */
  datatype PublicKey = PublicKey(n: int, h: int)

  /** The (n, k, h) triple an `OngSchnorrShamir` object holds; it is never changed once built. */
  datatype KeyMaterial = KeyMaterial(n: int, k: int, h: int) {

    /** The invariant construction establishes. */
    predicate Valid() {
      n >= 1 && Gcd(n, k) == 1 && h == CalculateH(n, k)
    }

    function Public(): PublicKey {
      PublicKey(n, h)
    }
  }

  /** `pow(k, -1, n)` for a valid key: it always exists because gcd(n, k) == 1. */
  function KInverse(key: KeyMaterial): (kInv: int)
    requires key.Valid()
    ensures 0 <= kInv < key.n && (key.k * kInv) % key.n == 1 % key.n
  {
    GcdComm(key.n, key.k);
    ModInv(key.k, key.n).value
  }

  /** `_calculate_h`: h = -(k^-1)^2 mod n, the residue with h * k^2 ≡ -1 (mod n). */
  function CalculateH(n: int, k: int): (h: int)
    requires n >= 1 && Gcd(n, k) == 1
    ensures 0 <= h < n
    ensures (h * (k * k) + 1) % n == 0
  {
    GcdComm(n, k);
    var kInv := ModInv(k, n).value;
    HTimesKSquared(n, k, kInv);
    (-(kInv * kInv)) % n
  }

  lemma HTimesKSquared(n: int, k: int, kInv: int)
    requires n >= 1 && (k * kInv) % n == 1 % n
    ensures ((-(kInv * kInv)) % n * (k * k) + 1) % n == 0
  {
    var h := (-(kInv * kInv)) % n;
    CongMod(-(kInv * kInv), n);
    CongMul(h, -(kInv * kInv), k * k, k * k, n);
    assert -(kInv * kInv) * (k * k) == -((k * kInv) * (k * kInv));
    CongMul(k * kInv, 1, k * kInv, 1, n);
    CongNeg((k * kInv) * (k * kInv), 1, n);
    CongAdd(h * (k * k), -1, 1, 1, n);
    assert 0 % n == 0;
  }

  /** h is determined by n and k: any residue h' with h' * k^2 ≡ -1 is CalculateH(n, k). */
  lemma HUnique(n: int, k: int, h': int)
    requires n >= 1 && Gcd(n, k) == 1
    requires 0 <= h' < n && (h' * (k * k) + 1) % n == 0
    ensures h' == CalculateH(n, k)
  {
    var h := CalculateH(n, k);
    GcdComm(n, k);
    var ki := ModInv(k, n).value;
    // both h and h' are ≡ -(ki^2): x ≡ x * (k*ki)^2 = (x*k^2) * ki^2 ≡ -ki^2
    HFromProduct(n, k, ki, h);
    HFromProduct(n, k, ki, h');
    ModSmall(h, n);
    ModSmall(h', n);
  }

  lemma HFromProduct(n: int, k: int, ki: int, x: int)
    requires n >= 1 && (k * ki) % n == 1 % n && (x * (k * k) + 1) % n == 0
    ensures Cong(x, -(ki * ki), n)
  {
    CongMul(k * ki, 1, k * ki, 1, n);
    CongMul(x, x, (k * ki) * (k * ki), 1, n);
    assert x * ((k * ki) * (k * ki)) == (x * (k * k)) * (ki * ki);
    CongMinusOne(x * (k * k), n);
    CongMul(x * (k * k), -1, ki * ki, ki * ki, n);
  }

  /**
   * The constructor with both n and k given: gcd(n, k) must be 1 (InvalidKey
   * otherwise); n is not tested for primality.
   */
  function NewKey(n: int, k: int): (res: Result<KeyMaterial, Error>)
    ensures Gcd(n, k) != 1 ==> res == Err(InvalidKey)
    ensures res.Ok? <==> Gcd(n, k) == 1 && n >= 1
    ensures res.Ok? ==> res.value.Valid() && res.value.n == n && res.value.k == k
    ensures res.Ok? ==> 0 <= res.value.h < n && (res.value.h * (k * k) + 1) % n == 0
  {
    if Gcd(n, k) != 1 then Err(InvalidKey)
    else if n < 1 then Err(NonPositiveModulus)
    else Ok(KeyMaterial(n, k, CalculateH(n, k)))
  }

  /** A composite modulus is accepted: 15 = 3 * 5 with k = 2 builds a key. */
  lemma CompositeModulusAccepted()
    ensures NewKey(15, 2).Ok?
  {
    assert GcdNat(15, 2) == GcdNat(2, 1) == GcdNat(1, 0) == 1;
  }

  /** A stream of draws for the coprime search. */
  function FirstCoprime(n: int, draws: seq<int>): (res: Result<int, Error>)
    ensures n < 3 ==> res == Err(EmptyRange)
    ensures res.Ok? ==> 2 <= res.value <= n - 1 && Gcd(n, res.value) == 1
    ensures res.Ok? ==>
      exists i :: 0 <= i < |draws| && res.value == RandInt(2, n - 1, draws[i]) && forall j :: 0 <= j < i ==> Gcd(n, RandInt(2, n - 1, draws[j])) != 1
    ensures res.Err? && n >= 3 ==>
      res.error == Exhausted && forall i :: 0 <= i < |draws| ==> Gcd(n, RandInt(2, n - 1, draws[i])) != 1
    decreases |draws|
  {
    if n < 3 then Err(EmptyRange)
    else if |draws| == 0 then Err(Exhausted)
    else
      var c := RandInt(2, n - 1, draws[0]);
      if Gcd(n, c) == 1 then Ok(c)
      else
        var rest := FirstCoprime(n, draws[1..]);
        assert forall i :: 1 <= i < |draws| ==> draws[i] == draws[1..][i - 1];
        if rest.Ok? then
          CoprimeWitnessShifts(n, draws, rest.value);
          rest
        else rest
  }

  /** A first coprime draw of draws[1..] is one of draws when draws[0] is not coprime. */
  lemma CoprimeWitnessShifts(n: int, draws: seq<int>, v: int)
    requires n >= 3 && |draws| >= 1 && Gcd(n, RandInt(2, n - 1, draws[0])) != 1
    requires exists i :: 0 <= i < |draws| - 1 && v == RandInt(2, n - 1, draws[1..][i]) && forall j :: 0 <= j < i ==> Gcd(n, RandInt(2, n - 1, draws[1..][j])) != 1
    ensures exists i :: 0 <= i < |draws| && v == RandInt(2, n - 1, draws[i]) && forall j :: 0 <= j < i ==> Gcd(n, RandInt(2, n - 1, draws[j])) != 1
  {
    var i :| 0 <= i < |draws| - 1 && v == RandInt(2, n - 1, draws[1..][i]) && forall j :: 0 <= j < i ==> Gcd(n, RandInt(2, n - 1, draws[1..][j])) != 1;
    assert forall j :: 1 <= j < i + 1 ==> draws[j] == draws[1..][j - 1];
    assert v == RandInt(2, n - 1, draws[i + 1]);
  }

  /**
   * `_generate_coprime` and `_generate_random_coprime` (the same loop):
   * draw `randint(2, n - 1)` until it is coprime with n.
   */
  method DrawCoprime(n: int, draws: seq<int>) returns (res: Result<int, Error>)
    ensures res == FirstCoprime(n, draws)
    ensures res.Ok? ==> 2 <= res.value <= n - 1 && Gcd(n, res.value) == 1
  {
    if n - 1 < 2 {
      return Err(EmptyRange);
    }
    var i := 0;
    while i < |draws|
      invariant 0 <= i <= |draws|
      invariant FirstCoprime(n, draws[i..]) == FirstCoprime(n, draws)
    {
      var c := RandInt(2, n - 1, draws[i]);
      if Gcd(n, c) == 1 {
        return Ok(c);
      }
      assert draws[i..][1..] == draws[i + 1..];
      i := i + 1;
    }
    return Err(Exhausted);
  }

  /** One modulus candidate: the raw bits drawn and the raw bases for its Miller-Rabin rounds. */
  datatype PrimeDraw = PrimeDraw(bits: int, bases: seq<int>)

  /** Each candidate carries one base per default Miller-Rabin round. */
  predicate WellFormedDraws(draws: seq<PrimeDraw>) {
    forall i | 0 <= i < |draws| :: |draws[i].bases| == Rounds
  }

  /** The first candidate `getrandbits(bits)` that passes the Miller-Rabin test. */
  function FirstProbablePrime(bits: nat, draws: seq<PrimeDraw>): (res: Result<int, Error>)
    ensures res.Ok? ==> 0 <= res.value < Pow2(bits)
    ensures res.Ok? ==>
      exists i :: 0 <= i < |draws| && res.value == RandBits(bits, draws[i].bits) && MillerRabin(res.value, draws[i].bases)
        && forall j :: 0 <= j < i ==> !MillerRabin(RandBits(bits, draws[j].bits), draws[j].bases)
    ensures res.Err? ==>
      res.error == Exhausted &&
      forall i :: 0 <= i < |draws| ==> !MillerRabin(RandBits(bits, draws[i].bits), draws[i].bases)
    decreases |draws|
  {
    if |draws| == 0 then Err(Exhausted)
    else
      var num := RandBits(bits, draws[0].bits);
      if MillerRabin(num, draws[0].bases) then Ok(num)
      else
        var rest := FirstProbablePrime(bits, draws[1..]);
        assert forall i :: 1 <= i < |draws| ==> draws[i] == draws[1..][i - 1];
        if rest.Ok? then
          PrimeWitnessShifts(bits, draws, rest.value);
          rest
        else rest
  }

  /** A first passing candidate of draws[1..] is one of draws when draws[0] fails. */
  lemma PrimeWitnessShifts(bits: nat, draws: seq<PrimeDraw>, v: int)
    requires |draws| >= 1 && !MillerRabin(RandBits(bits, draws[0].bits), draws[0].bases)
    requires exists i :: 0 <= i < |draws| - 1 && v == RandBits(bits, draws[1..][i].bits) && MillerRabin(v, draws[1..][i].bases) && forall j :: 0 <= j < i ==> !MillerRabin(RandBits(bits, draws[1..][j].bits), draws[1..][j].bases)
    ensures exists i :: 0 <= i < |draws| && v == RandBits(bits, draws[i].bits) && MillerRabin(v, draws[i].bases) && forall j :: 0 <= j < i ==> !MillerRabin(RandBits(bits, draws[j].bits), draws[j].bases)
  {
    var i :| 0 <= i < |draws| - 1 && v == RandBits(bits, draws[1..][i].bits) && MillerRabin(v, draws[1..][i].bases)
      && forall j :: 0 <= j < i ==> !MillerRabin(RandBits(bits, draws[1..][j].bits), draws[1..][j].bases);
    assert forall j :: 1 <= j < i + 1 ==> draws[j] == draws[1..][j - 1];
    assert draws[i + 1] == draws[1..][i];
  }

  /**
   * `_generate_large_prime`: draw `getrandbits(bits)` until the candidate
   * passes `_is_prime`. The candidate is not forced to be odd or to have
   * its top bit set.
   */
  method GenerateLargePrime(bits: nat, draws: seq<PrimeDraw>) returns (res: Result<int, Error>)
    requires WellFormedDraws(draws)
    ensures res == FirstProbablePrime(bits, draws)
  {
    var i := 0;
    while i < |draws|
      invariant 0 <= i <= |draws|
      invariant FirstProbablePrime(bits, draws[i..]) == FirstProbablePrime(bits, draws)
    {
      var num := RandBits(bits, draws[i].bits);
      var probablyPrime := IsProbablePrime(num, draws[i].bases);
      if probablyPrime {
        return Ok(num);
      }
      assert draws[i..][1..] == draws[i + 1..];
      i := i + 1;
    }
    return Err(Exhausted);
  }

  /**
   * What the constructor `OngSchnorrShamir(n, k)` returns: a missing n is
   * drawn as a 512-bit probable prime, a missing k by the coprime search,
   * and the pair is then validated.
   */
  function Construct(n: Option<int>, k: Option<int>, primeDraws: seq<PrimeDraw>, keyDraws: seq<int>): (res: Result<KeyMaterial, Error>)
    ensures res.Ok? ==> res.value.Valid()
    ensures n.Some? && k.Some? ==> res == NewKey(n.value, k.value)
    ensures res.Ok? ==> ChosenModulus(n, primeDraws) == Ok(res.value.n)
    ensures res.Ok? && k.Some? ==> res.value.k == k.value
    ensures res.Ok? && k.None? ==> FirstCoprime(res.value.n, keyDraws) == Ok(res.value.k)
    ensures ChosenModulus(n, primeDraws).Err? ==> res == Err(ChosenModulus(n, primeDraws).error)
    ensures ChosenModulus(n, primeDraws).Ok? && k.Some? ==>
      var m := ChosenModulus(n, primeDraws).value;
      res.Ok? <==> m >= 1 && Gcd(m, k.value) == 1
    ensures ChosenModulus(n, primeDraws).Ok? && k.None? ==>
      (res.Ok? <==> FirstCoprime(ChosenModulus(n, primeDraws).value, keyDraws).Ok?)
  {
    var n' :- ChosenModulus(n, primeDraws);
    var k' :- if k.Some? then Ok(k.value) else FirstCoprime(n', keyDraws);
    NewKey(n', k')
  }

  /** The modulus the constructor works with: the one supplied, or the first probable prime drawn. */
  function ChosenModulus(n: Option<int>, primeDraws: seq<PrimeDraw>): Result<int, Error>
  {
    if n.Some? then Ok(n.value) else FirstProbablePrime(PrimeBits, primeDraws)
  }

  /** The constructor: the retry loops, then the gcd check and h. */
  method Init(n: Option<int>, k: Option<int>, primeDraws: seq<PrimeDraw>, keyDraws: seq<int>)
    returns (res: Result<KeyMaterial, Error>)
    requires WellFormedDraws(primeDraws)
    ensures res == Construct(n, k, primeDraws, keyDraws)
    ensures res.Ok? ==> res.value.Valid()
  {
    var modulus: int;
    if n.Some? {
      modulus := n.value;
    } else {
      var drawn := GenerateLargePrime(PrimeBits, primeDraws);
      if drawn.Err? {
        return Err(drawn.error);
      }
      modulus := drawn.value;
    }
    var secret: int;
    if k.Some? {
      secret := k.value;
    } else {
      var drawn := DrawCoprime(modulus, keyDraws);
      if drawn.Err? {
        return Err(drawn.error);
      }
      secret := drawn.value;
    }
    return NewKey(modulus, secret);
  }

  /**
   * A fully generated key: n is an odd probable prime below 2^512 that
   * passed the test with its own bases, 2 <= k < n and gcd(n, k) == 1.
   */
  lemma GeneratedKey(primeDraws: seq<PrimeDraw>, keyDraws: seq<int>)
    requires Construct(None, None, primeDraws, keyDraws).Ok?
    ensures var key := Construct(None, None, primeDraws, keyDraws).value;
      && key.Valid()
      && 3 <= key.n < Pow2(PrimeBits) && key.n % 2 == 1
      && 2 <= key.k < key.n && Gcd(key.n, key.k) == 1
    ensures var key := Construct(None, None, primeDraws, keyDraws).value;
      exists i :: 0 <= i < |primeDraws| && key.n == RandBits(PrimeBits, primeDraws[i].bits) && MillerRabin(key.n, primeDraws[i].bases) && forall j :: 0 <= j < i ==> !MillerRabin(RandBits(PrimeBits, primeDraws[j].bits), primeDraws[j].bases)
    ensures var key := Construct(None, None, primeDraws, keyDraws).value;
      exists i :: 0 <= i < |keyDraws| && key.k == RandInt(2, key.n - 1, keyDraws[i]) && forall j :: 0 <= j < i ==> Gcd(key.n, RandInt(2, key.n - 1, keyDraws[j])) != 1
  {
    var p := FirstProbablePrime(PrimeBits, primeDraws);
    var i :| 0 <= i < |primeDraws| && p.value == RandBits(PrimeBits, primeDraws[i].bits) && MillerRabin(p.value, primeDraws[i].bases);
    MillerRabinAccepted(p.value, primeDraws[i].bases);
    var c := FirstCoprime(p.value, keyDraws);
    assert c.Ok?;
  }

  /**
   * The candidate is not forced odd or large: a first draw of 2 passes the
   * primality test, and the constructor then fails because randint(2, 1)
   * has an empty range.
   */
  lemma DrawnModulusTwoFails(bases: seq<int>, rest: seq<PrimeDraw>, keyDraws: seq<int>)
    ensures Construct(None, None, [PrimeDraw(2, bases)] + rest, keyDraws) == Err(EmptyRange)
  {
    Pow2AtLeastFour(PrimeBits);
    var draws := [PrimeDraw(2, bases)] + rest;
    assert draws[0] == PrimeDraw(2, bases);
    assert RandBits(PrimeBits, 2) == 2;
    assert FirstProbablePrime(PrimeBits, draws) == Ok(2);
  }

  lemma Pow2AtLeastFour(e: nat)
    requires e >= 2
    ensures Pow2(e) >= 4
  {
    assert Pow2(e) == 2 * Pow2(e - 1) == 4 * Pow2(e - 2);
  }

  /** `generate_keys(bits)`: the triple (n, k, h) of a fresh key; `bits` is ignored. */
  method GenerateKeys(bits: int, primeDraws: seq<PrimeDraw>, keyDraws: seq<int>)
    returns (res: Result<(int, int, int), Error>)
    requires WellFormedDraws(primeDraws)
    ensures res.Ok? <==> Construct(None, None, primeDraws, keyDraws).Ok?
    ensures res.Ok? ==>
      var key := Construct(None, None, primeDraws, keyDraws).value;
      res.value == (key.n, key.k, key.h)
    ensures res.Ok? ==> Gcd(res.value.0, res.value.1) == 1 && res.value.0 > 0 && res.value.1 > 0
  {
    var key := Init(None, None, primeDraws, keyDraws);
    if key.Err? {
      return Err(key.error);
    }
    GeneratedKey(primeDraws, keyDraws);
    return Ok((key.value.n, key.value.k, key.value.h));
  }
}
