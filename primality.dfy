/**
 * The Miller-Rabin probable-prime test `_is_prime`, with its random
 * bases supplied as explicit draws: one draw per round, so the number of
 * rounds is the length of `bases`.
 */
module Primality {
  import opened Arithmetic
  import opened RandomSource

  /** The Miller-Rabin round count the source uses by default. */
  const Rounds: nat := 5

  /**
   * The unique way to write a positive m as d * 2^r with d odd
   * (`d` is the odd part, `r` the number of factors 2).
   */
  function {:induction false} Decompose(m: int): (dr: (nat, nat))
    requires m >= 1
    ensures dr.0 % 2 == 1
    ensures m == dr.0 * Pow2(dr.1)
    ensures m % 2 == 0 <==> dr.1 >= 1
    decreases m
  {
    if m % 2 == 1 then (m, 0)
    else
      var (d, r) := Decompose(m / 2);
      assert d * Pow2(r + 1) == 2 * (d * Pow2(r));
      (d, r + 1)
  }

  /** Any odd d and r with m == d * 2^r are the ones Decompose finds. */
  lemma {:induction false} DecomposeUnique(m: int, d: nat, r: nat)
    requires m >= 1 && d % 2 == 1 && m == d * Pow2(r)
    ensures Decompose(m) == (d, r)
    decreases r
  {
    if r == 0 {
    } else {
      assert m == 2 * (d * Pow2(r - 1));
      DecomposeUnique(m / 2, d, r - 1);
    }
  }

  /** a^(d * 2^j) mod n: the j-th value of a round's squaring chain. */
  function Chain(n: int, a: int, d: nat, j: nat): int
    requires n >= 1
  {
    ModPow(a, d * Pow2(j), n)
  }

  /** One more squaring moves the chain one step. */
  lemma ChainStep(n: int, a: int, d: nat, j: nat)
    requires n >= 1
    ensures Chain(n, a, d, j + 1) == ModPow(Chain(n, a, d, j), 2, n)
  {
    assert d * Pow2(j + 1) == 2 * (d * Pow2(j));
    ModPowSquare(a, d * Pow2(j), n);
  }

  /**
   * The base `a` lets n pass one round: a^d ≡ 1, or a^(d * 2^j) ≡ n - 1
   * for some 0 <= j < r.
   */
  predicate BasePasses(n: int, a: int, d: nat, r: nat)
    requires n >= 1
  {
    var x := ModPow(a, d, n);
    x == 1 || x == n - 1 || exists j | 1 <= j < r :: Chain(n, a, d, j) == n - 1
  }

  /**
   * The verdict of `_is_prime(n)` when its rounds draw the bases
   * `randrange(2, n - 1)` from `bases`.
   */
  predicate MillerRabin(n: int, bases: seq<int>)
  {
    if n < 2 then false
    else if n == 2 || n == 3 then true
    else if n % 2 == 0 then false
    else
      var dr := Decompose(n - 1);
      forall i | 0 <= i < |bases| :: BasePasses(n, RandRange(2, n - 1, bases[i]), dr.0, dr.1)
  }

  /** `_is_prime`: rejects small and even n, strips factors 2 off n - 1, then runs one round per base. */
  method IsProbablePrime(n: int, bases: seq<int>) returns (probablyPrime: bool)
    ensures probablyPrime == MillerRabin(n, bases)
    ensures n < 2 || (n >= 4 && n % 2 == 0) ==> !probablyPrime
    ensures n == 2 || n == 3 ==> probablyPrime
  {
    if n < 2 {
      return false;
    }
    if n == 2 || n == 3 {
      return true;
    }
    if n % 2 == 0 {
      return false;
    }

    var d, r := SplitPowerOfTwo(n - 1);
    assert (n - 1) % 2 == 0;
    assert r >= 1;

    var i := 0;
    while i < |bases|
      invariant 0 <= i <= |bases|
      invariant forall t :: 0 <= t < i ==> BasePasses(n, RandRange(2, n - 1, bases[t]), d, r)
    {
      var a := RandRange(2, n - 1, bases[i]);
      var passes := Round(n, a, d, r);
      if !passes {
        assert !BasePasses(n, RandRange(2, n - 1, bases[i]), d, r);
        return false;
      }
      i := i + 1;
    }
    return true;
  }

  /** The loop of `_is_prime` that writes m = n - 1 as d * 2^r by halving. */
  method SplitPowerOfTwo(m: int) returns (d: nat, r: nat)
    requires m >= 1
    ensures (d, r) == Decompose(m)
  {
    r := 0;
    d := m;
    while d % 2 == 0
      invariant d >= 1
      invariant Decompose(d).0 == Decompose(m).0
      invariant Decompose(d).1 + r == Decompose(m).1
      decreases d
    {
      r := r + 1;
      d := d / 2;
    }
  }

  /**
   * One round of `_is_prime` with base a: x = a^d mod n, then up to r - 1
   * squarings looking for n - 1 (the `for ... else: return False` loop).
   */
  method Round(n: int, a: int, d: nat, r: nat) returns (passes: bool)
    requires n >= 2 && r >= 1
    ensures passes == BasePasses(n, a, d, r)
  {
    var x := ModPow(a, d, n);
    if x == 1 || x == n - 1 {
      return true;
    }
    assert x == Chain(n, a, d, 0);
    var j := 1;
    while j < r
      invariant 1 <= j <= r
      invariant x == Chain(n, a, d, j - 1)
      invariant forall t :: 1 <= t < j ==> Chain(n, a, d, t) != n - 1
    {
      ChainStep(n, a, d, j - 1);
      x := ModPow(x, 2, n);
      if x == n - 1 {
        assert Chain(n, a, d, j) == n - 1;
        return true;
      }
      j := j + 1;
    }
    return false;
  }

  /** A chain that reached 1 stays at 1. */
  lemma {:induction false} ChainStaysOne(n: int, a: int, d: nat, j: nat, r: nat)
    requires n >= 2 && j <= r && Chain(n, a, d, j) == 1
    ensures Chain(n, a, d, r) == 1
    decreases r - j
  {
    if j < r {
      ChainStep(n, a, d, j);
      ModPowTwo(1, n);
      ModSmall(1, n);
      ChainStaysOne(n, a, d, j + 1, r);
    }
  }

  /** Squaring n - 1 gives 1 modulo n. */
  lemma ChainAfterMinusOne(n: int, a: int, d: nat, j: nat)
    requires n >= 2 && Chain(n, a, d, j) == n - 1
    ensures Chain(n, a, d, j + 1) == 1
  {
    ChainStep(n, a, d, j);
    ModPowTwo(n - 1, n);
    SquareOfMinusOne(n);
  }

  /** A base that passes a round is no Fermat witness: a^(d * 2^r) ≡ 1 (mod n). */
  lemma PassImpliesFermat(n: int, a: int, d: nat, r: nat)
    requires n >= 2 && r >= 1 && BasePasses(n, a, d, r)
    ensures Chain(n, a, d, r) == 1
  {
    assert Chain(n, a, d, 0) == ModPow(a, d, n);
    if ModPow(a, d, n) == 1 {
      ChainStaysOne(n, a, d, 0, r);
    } else if ModPow(a, d, n) == n - 1 {
      ChainAfterMinusOne(n, a, d, 0);
      ChainStaysOne(n, a, d, 1, r);
    } else {
      var j :| 1 <= j < r && Chain(n, a, d, j) == n - 1;
      ChainAfterMinusOne(n, a, d, j);
      ChainStaysOne(n, a, d, j + 1, r);
    }
  }

  /**
   * What acceptance guarantees: n is 2 or odd and at least 3, and every
   * base drawn for n >= 5 satisfies Fermat's condition a^(n-1) ≡ 1 (mod n);
   * so a single Fermat witness among the drawn bases makes the test reject.
   */
  lemma MillerRabinAccepted(n: int, bases: seq<int>)
    requires MillerRabin(n, bases)
    ensures n == 2 || (n >= 3 && n % 2 == 1)
    ensures n >= 5 ==> forall i :: 0 <= i < |bases| ==> ModPow(RandRange(2, n - 1, bases[i]), n - 1, n) == 1
  {
    if n >= 5 {
      forall i | 0 <= i < |bases|
        ensures ModPow(RandRange(2, n - 1, bases[i]), n - 1, n) == 1
      {
        PassingBaseIsFermat(n, RandRange(2, n - 1, bases[i]));
      }
    }
  }

  lemma PassingBaseIsFermat(n: int, a: int)
    requires n >= 5 && n % 2 == 1 && BasePasses(n, a, Decompose(n - 1).0, Decompose(n - 1).1)
    ensures ModPow(a, n - 1, n) == 1
  {
    var dr := Decompose(n - 1);
    assert (n - 1) % 2 == 0;
    PassImpliesFermat(n, a, dr.0, dr.1);
    assert Chain(n, a, dr.0, dr.1) == ModPow(a, dr.0 * Pow2(dr.1), n);
  }

  /** One failing base is enough for the test to report a composite. */
  lemma FailingBaseRejects(n: int, bases: seq<int>, i: int)
    requires n >= 5 && n % 2 == 1 && 0 <= i < |bases|
    requires !BasePasses(n, RandRange(2, n - 1, bases[i]), Decompose(n - 1).0, Decompose(n - 1).1)
    ensures !MillerRabin(n, bases)
  {
  }

  /** The composite 9 is rejected by the base 2: 8 = 1 * 2^3 and the chain 2, 4, 7 never meets 8. */
  lemma NineRejectedByTwo()
    ensures !MillerRabin(9, [2])
  {
    NineRejected(9, [2]);
    FailingBaseRejects(9, [2], 0);
  }

  lemma NineRejected(n: int, bases: seq<int>)
    requires n == 9 && bases == [2]
    ensures !BasePasses(n, RandRange(2, n - 1, bases[0]), Decompose(n - 1).0, Decompose(n - 1).1)
  {
    EightDecomposed(n - 1);
    NineChain(n, RandRange(2, n - 1, bases[0]), Decompose(n - 1).0, Decompose(n - 1).1);
  }

  lemma EightDecomposed(m: int)
    requires m == 8
    ensures Decompose(m) == (1, 3)
  {
    assert Pow2(3) == 2 * Pow2(2) == 4 * Pow2(1) == 8 * Pow2(0);
    DecomposeUnique(m, 1, 3);
  }

  lemma NineChain(n: int, a: int, d: nat, r: nat)
    requires n == 9 && a == 2 && d == 1 && r == 3
    ensures !BasePasses(n, a, d, r)
  {
    assert Pow(a, 1) == a * Pow(a, 0);
    assert Chain(n, a, 1, 0) == 2;
    NineSquare(n, 2, 4);
    ChainStep(n, a, 1, 0);
    assert Chain(n, a, 1, 1) == 4;
    NineSquare(n, 4, 7);
    ChainStep(n, a, 1, 1);
    assert Chain(n, a, 1, 2) == 7;
  }

  lemma NineSquare(n: int, x: int, y: int)
    requires n == 9 && 0 <= y < 9 && (x * x) % 9 == y
    ensures ModPow(x, 2, n) == y
  {
    ModPowTwo(x, n);
  }
}
