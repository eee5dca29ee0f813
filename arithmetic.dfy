/**
 * Integer arithmetic the scheme relies on: powers, modular exponentiation
 * (Python's three-argument `pow`), the greatest common divisor
 * (`math.gcd`) and the modular inverse (`pow(x, -1, n)`), each with the
 * facts about it that the scheme's proofs need.
 *
 * Dafny's `%` with a positive modulus is Euclidean, which agrees with
 * Python's `%` for every dividend when the modulus is positive.
 */
module Arithmetic {
  import opened Wrappers

  function Abs(x: int): (a: nat)
    ensures a == x || a == -x
  {
    if x < 0 then -x else x
  }

  /** Plain integer power b^e. */
  function Pow(b: int, e: nat): int
  {
    if e == 0 then 1 else b * Pow(b, e - 1)
  }

  /** 2^e. */
  function Pow2(e: nat): (p: nat)
    ensures p >= 1
  {
    if e == 0 then 1 else 2 * Pow2(e - 1)
  }

  /** Pow2 is the power of two that `Pow` defines. */
  lemma {:induction false} Pow2IsPow(e: nat)
    ensures Pow2(e) == Pow(2, e)
  {
    if e > 0 {
      Pow2IsPow(e - 1);
    }
  }

  // ---------------------------------------------------------------------
  // Euclidean division facts

  lemma DivModUnique(a: int, m: int, q: int, r: int)
    requires m > 0 && 0 <= r < m && a == q * m + r
    ensures a / m == q && a % m == r
  {
    var q0, r0 := a / m, a % m;
    assert a == q0 * m + r0;
    assert (q - q0) * m == r0 - r;
    if q > q0 {
      MulAtLeast(q - q0, m);
    } else if q < q0 {
      MulAtLeast(q0 - q, m);
    }
  }

  lemma MulAtLeast(t: int, m: int)
    requires t >= 1 && m > 0
    ensures t * m >= m
  {
    var u: nat := t - 1;
    assert t * m == m + u * m;
  }

  lemma ModAddMultiple(a: int, q: int, m: int)
    requires m > 0
    ensures (a + q * m) % m == a % m
  {
    DivModUnique(a + q * m, m, a / m + q, a % m);
  }

  lemma ModOfMod(a: int, m: int)
    requires m > 0
    ensures (a % m) % m == a % m
  {
    DivModUnique(a % m, m, 0, a % m);
  }

  lemma ModSmall(a: int, m: int)
    requires m > 0
    ensures 0 <= a < m ==> a % m == a
  {
    if 0 <= a < m {
      DivModUnique(a, m, 0, a);
    }
  }

  lemma ModAdd(a: int, b: int, m: int)
    requires m > 0
    ensures (a + b) % m == (a % m + b % m) % m
  {
    var qa, qb := a / m, b / m;
    assert a + b == (a % m + b % m) + (qa + qb) * m;
    ModAddMultiple(a % m + b % m, qa + qb, m);
  }

  lemma ModMul(a: int, b: int, m: int)
    requires m > 0
    ensures (a * b) % m == ((a % m) * (b % m)) % m
  {
    var qa, ra, qb, rb := a / m, a % m, b / m, b % m;
    assert a * b == ra * rb + (qa * qb * m + qa * rb + ra * qb) * m by {
      assert a == qa * m + ra;
      assert b == qb * m + rb;
    }
    ModAddMultiple(ra * rb, qa * qb * m + qa * rb + ra * qb, m);
  }

  // ---------------------------------------------------------------------
  // Congruence modulo m

  /** a ≡ b (mod m). */
  ghost predicate Cong(a: int, b: int, m: int)
    requires m > 0
  {
    a % m == b % m
  }

  lemma CongMod(a: int, m: int)
    requires m > 0
    ensures Cong(a % m, a, m)
  {
    ModOfMod(a, m);
  }

  lemma CongAdd(a: int, b: int, c: int, d: int, m: int)
    requires m > 0 && Cong(a, b, m) && Cong(c, d, m)
    ensures Cong(a + c, b + d, m)
  {
    ModAdd(a, c, m);
    ModAdd(b, d, m);
  }

  lemma CongNeg(a: int, b: int, m: int)
    requires m > 0 && Cong(a, b, m)
    ensures Cong(-a, -b, m)
  {
    // -a and -b are both -(a % m) plus a multiple of m
    var ra := a % m;
    assert -a == -ra + -(a / m) * m;
    assert -b == -ra + -(b / m) * m;
    ModAddMultiple(-ra, -(a / m), m);
    ModAddMultiple(-ra, -(b / m), m);
  }

  lemma CongMinusOne(x: int, m: int)
    requires m > 0 && (x + 1) % m == 0
    ensures Cong(x, -1, m)
  {
    var q := (x + 1) / m;
    assert x == -1 + q * m;
    ModAddMultiple(-1, q, m);
  }

  lemma CongSub(a: int, b: int, c: int, d: int, m: int)
    requires m > 0 && Cong(a, b, m) && Cong(c, d, m)
    ensures Cong(a - c, b - d, m)
  {
    CongNeg(c, d, m);
    CongAdd(a, b, -c, -d, m);
  }

  lemma CongMul(a: int, b: int, c: int, d: int, m: int)
    requires m > 0 && Cong(a, b, m) && Cong(c, d, m)
    ensures Cong(a * c, b * d, m)
  {
    ModMul(a, c, m);
    ModMul(b, d, m);
  }

  // ---------------------------------------------------------------------
  // Powers

  lemma {:induction false} PowAdd(b: int, e1: nat, e2: nat)
    ensures Pow(b, e1 + e2) == Pow(b, e1) * Pow(b, e2)
  {
    if e1 > 0 {
      PowAdd(b, e1 - 1, e2);
      assert Pow(b, e1 + e2) == b * Pow(b, e1 - 1 + e2);
    }
  }

  lemma PowSquare(b: int)
    ensures Pow(b, 2) == b * b
  {
    assert Pow(b, 2) == b * Pow(b, 1);
    assert Pow(b, 1) == b * Pow(b, 0);
  }

  /**
   * Modular exponentiation by repeated multiplication, reducing at every
   * step; it computes the true power's residue.
   */
  function {:induction false} ModPow(b: int, e: nat, m: int): (r: int)
    requires m >= 1
    ensures 0 <= r < m
    ensures r == Pow(b, e) % m
    decreases e
  {
    if e == 0 then 1 % m
    else
      var t := ModPow(b, e - 1, m);
      ModMul(b, Pow(b, e - 1), m);
      ModMul(b % m, t, m);
      ModOfMod(b, m);
      ModOfMod(Pow(b, e - 1), m);
      (b % m) * t % m
  }

  /** Squaring a residue of b^e modulo m gives the residue of b^(2e). */
  lemma ModPowSquare(b: int, e: nat, m: int)
    requires m >= 1
    ensures ModPow(ModPow(b, e, m), 2, m) == ModPow(b, 2 * e, m)
  {
    var y := ModPow(b, e, m);
    PowSquare(y);
    PowAdd(b, e, e);
    ModMul(Pow(b, e), Pow(b, e), m);
  }

  /** (m - 1)^2 ≡ 1 (mod m). */
  lemma SquareOfMinusOne(m: int)
    requires m >= 2
    ensures ((m - 1) * (m - 1)) % m == 1
  {
    assert (m - 1) * (m - 1) == 1 + (m - 2) * m;
    ModAddMultiple(1, m - 2, m);
    ModSmall(1, m);
  }

  /** Consecutive integers are never congruent modulo m >= 2. */
  lemma SuccessorNotCongruent(a: int, m: int)
    requires m >= 2
    ensures (a + 1) % m != a % m
  {
    var q, r := a / m, a % m;
    assert a + 1 == q * m + (r + 1);
    if r + 1 < m {
      DivModUnique(a + 1, m, q, r + 1);
    } else {
      DivModUnique(a + 1, m, q + 1, 0);
    }
  }

  lemma ModPowTwo(x: int, m: int)
    requires m >= 1
    ensures ModPow(x, 2, m) == (x * x) % m
  {
    PowSquare(x);
  }

  // ---------------------------------------------------------------------
  // Python's `%` and `pow` for a modulus of either sign

  /**
   * Python's `a % m` for m != 0: the result takes the sign of m and is
   * congruent to a modulo |m|. For m > 0 it is Dafny's `%`.
   */
  function PyMod(a: int, m: int): (r: int)
    requires m != 0
    ensures m > 0 ==> 0 <= r < m
    ensures m < 0 ==> m < r <= 0
    ensures r % Abs(m) == a % Abs(m)
  {
    if m > 0 then a % m
    else
      var z := a % (-m);
      ModOfMod(a, -m);
      if z == 0 then 0
      else
        ModAddMultiple(z, -1, -m);
        z + m
  }

  /** Python decides `a % m == b % m` exactly by congruence modulo |m|. */
  lemma PyModEqual(a: int, b: int, m: int)
    requires m != 0
    ensures PyMod(a, m) == PyMod(b, m) <==> a % Abs(m) == b % Abs(m)
  {
  }

  /**
   * Python's three-argument `pow(b, e, m)` for m != 0: for a negative
   * modulus the residue modulo |m| is shifted to the sign of m.
   */
  function PyModPow(b: int, e: nat, m: int): (r: int)
    requires m != 0
    ensures r == PyMod(Pow(b, e), m)
  {
    if m > 0 then ModPow(b, e, m)
    else
      var z := ModPow(b, e, -m);
      if z == 0 then 0 else z + m
  }

  // ---------------------------------------------------------------------
  // Greatest common divisor

  /** Euclid's algorithm on naturals. */
  function GcdNat(a: nat, b: nat): nat
    decreases b
  {
    if b == 0 then a else GcdNat(b, a % b)
  }

  /** Python's `math.gcd`: the gcd of the absolute values, gcd(0, 0) == 0. */
  function Gcd(a: int, b: int): nat
  {
    GcdNat(Abs(a), Abs(b))
  }

  /** d is a positive divisor of a. */
  ghost predicate Divides(d: int, a: int)
  {
    d > 0 && a % d == 0
  }

  lemma DividesLinear(d: int, x: int, y: int, p: int, q: int)
    requires Divides(d, x) && Divides(d, y)
    ensures Divides(d, p * x + q * y)
  {
    var cx, cy := x / d, y / d;
    assert x == cx * d;
    assert y == cy * d;
    assert p * x + q * y == (p * cx + q * cy) * d;
    DivModUnique(p * x + q * y, d, p * cx + q * cy, 0);
  }

  lemma {:induction false} GcdNatDivides(a: nat, b: nat)
    requires a > 0 || b > 0
    ensures GcdNat(a, b) > 0
    ensures Divides(GcdNat(a, b), a) && Divides(GcdNat(a, b), b)
    decreases b
  {
    if b == 0 {
      ModSmall(0, a);
      DivModUnique(a, a, 1, 0);
    } else {
      var g := GcdNat(b, a % b);
      GcdNatDivides(b, a % b);
      assert a == (a / b) * b + 1 * (a % b);
      DividesLinear(g, b, a % b, a / b, 1);
    }
  }

  lemma GcdNatComm(a: nat, b: nat)
    ensures GcdNat(a, b) == GcdNat(b, a)
  {
    if a == b {
    } else if a == 0 {
      assert GcdNat(0, b) == GcdNat(b, 0 % b);
      ModSmall(0, b);
    } else if b == 0 {
      assert GcdNat(0, a) == GcdNat(a, 0 % a);
      ModSmall(0, a);
    } else if a < b {
      ModSmall(a, b);
      assert GcdNat(a, b) == GcdNat(b, a % b);
    } else {
      ModSmall(b, a);
      assert GcdNat(b, a) == GcdNat(a, b % a);
    }
  }

  lemma GcdComm(a: int, b: int)
    ensures Gcd(a, b) == Gcd(b, a)
  {
    GcdNatComm(Abs(a), Abs(b));
  }

  /** A divisor of a divides |a|, and the other way round. */
  lemma DividesAbs(d: int, a: int)
    ensures Divides(d, a) <==> Divides(d, Abs(a))
  {
    if Divides(d, a) {
      DividesLinear(d, a, a, -1, 0);
    }
    if Divides(d, Abs(a)) {
      DividesLinear(d, Abs(a), Abs(a), -1, 0);
    }
  }

  lemma {:induction false} GcdNatGreatest(a: nat, b: nat, d: int)
    requires Divides(d, a) && Divides(d, b)
    ensures Divides(d, GcdNat(a, b))
    decreases b
  {
    if b > 0 {
      assert a % b == 1 * a + (-(a / b)) * b;
      DividesLinear(d, a, b, 1, -(a / b));
      GcdNatGreatest(b, a % b, d);
    }
  }

  /** `math.gcd(a, b)` divides a and b, and is positive unless both are 0. */
  lemma GcdCommonDivisor(a: int, b: int)
    ensures a == 0 && b == 0 ==> Gcd(a, b) == 0
    ensures a != 0 || b != 0 ==> Gcd(a, b) >= 1 && Divides(Gcd(a, b), a) && Divides(Gcd(a, b), b)
  {
    if a != 0 || b != 0 {
      GcdNatDivides(Abs(a), Abs(b));
      DividesAbs(Gcd(a, b), a);
      DividesAbs(Gcd(a, b), b);
    }
  }

  /** Every positive common divisor of a and b divides `math.gcd(a, b)`: it is the greatest. */
  lemma GcdGreatest(a: int, b: int, d: int)
    requires Divides(d, a) && Divides(d, b)
    ensures Divides(d, Gcd(a, b))
  {
    DividesAbs(d, a);
    DividesAbs(d, b);
    GcdNatGreatest(Abs(a), Abs(b), d);
  }

  /** gcd(n, n) == n for positive n: a modulus is never coprime with itself unless it is 1. */
  lemma GcdSelf(n: int)
    requires n >= 1
    ensures Gcd(n, n) == n
  {
    assert GcdNat(n, n) == GcdNat(n, n % n);
    DivModUnique(n, n, 1, 0);
  }

  /** gcd(2, n) == 1 exactly when n is odd. */
  lemma GcdTwo(n: int)
    requires n >= 1
    ensures Gcd(2, n) == 1 <==> n % 2 == 1
  {
    if n == 1 {
      assert GcdNat(2, 1) == GcdNat(1, 0);
    } else if n == 2 {
      assert GcdNat(2, 2) == GcdNat(2, 0);
    } else {
      ModSmall(2, n);
      assert GcdNat(2, n) == GcdNat(n, 2);
      assert GcdNat(n, 2) == GcdNat(2, n % 2);
      if n % 2 == 1 {
        assert GcdNat(2, 1) == GcdNat(1, 0);
      }
    }
  }

  /**
   * Extended Euclid: the gcd together with Bezout coefficients (g, s, t)
   * such that s*a + t*b == g.
   */
  function {:induction false} ExtGcd(a: nat, b: nat): (res: (nat, int, int))
    ensures res.0 == GcdNat(a, b)
    ensures res.1 * a + res.2 * b == res.0
    decreases b
  {
    if b == 0 then (a, 1, 0)
    else
      var (g, s, t) := ExtGcd(b, a % b);
      assert a == (a / b) * b + a % b;
      assert t * a + (s - t * (a / b)) * b == s * b + t * (a % b);
      (g, t, s - t * (a / b))
  }

  /**
   * Python's `pow(x, -1, m)` for a positive modulus: the inverse of x in
   * [0, m) when gcd(x, m) == 1, and None (where Python raises ValueError)
   * otherwise. For m == 1 every x has inverse 0.
   */
  function ModInv(x: int, m: int): (inv: Option<int>)
    requires m >= 1
    ensures inv.Some? <==> Gcd(x, m) == 1
    ensures inv.Some? ==> 0 <= inv.value < m && (x * inv.value) % m == 1 % m
  {
    var (g, s, t) := ExtGcd(Abs(x), m);
    if g != 1 then None
    else
      var c := if x < 0 then -s else s;
      InverseFromBezout(x, c, t, m);
      Some(c % m)
  }

  lemma InverseFromBezout(x: int, c: int, t: int, m: int)
    requires m >= 1 && x * c + t * m == 1
    ensures (x * (c % m)) % m == 1 % m
  {
    ModMul(x, c, m);
    ModMul(x, c % m, m);
    ModOfMod(c, m);
    assert x * c == 1 + (-t) * m;
    ModAddMultiple(1, -t, m);
  }

  /** When gcd(x, m) != 1 no y whatsoever is an inverse of x modulo m. */
  lemma NoInverseWhenNotCoprime(x: int, m: int, y: int)
    requires m >= 1 && Gcd(x, m) != 1
    ensures (x * y) % m != 1 % m
  {
    var g := Gcd(x, m);
    GcdNatDivides(Abs(x), m);
    assert g > 1;
    if (x * y) % m == 1 % m {
      ModSmall(1, m);
      var q := (x * y) / m;
      assert x * y == q * m + 1;
      assert Divides(g, x) by {
        if x < 0 {
          DividesLinear(g, Abs(x), m, -1, 0);
        }
      }
      DividesLinear(g, x, m, y, -q);
      assert 1 == y * x + (-q) * m;
      ModSmall(1, g);
      assert false;
    }
  }

  /** Modular inverses are unique: any inverse in [0, m) is the one ModInv returns. */
  lemma InverseUnique(x: int, m: int, y: int)
    requires m >= 1 && 0 <= y < m && (x * y) % m == 1 % m
    ensures ModInv(x, m) == Some(y)
  {
    if Gcd(x, m) != 1 {
      NoInverseWhenNotCoprime(x, m, y);
    }
    var z := ModInv(x, m).value;
    // y ≡ y*(x*z) = (x*y)*z ≡ z
    assert Cong(x * z, 1, m);
    assert Cong(x * y, 1, m);
    CongMul(y, y, x * z, 1, m);
    CongMul(x * y, 1, z, z, m);
    assert y * (x * z) == (x * y) * z;
    ModSmall(y, m);
    ModSmall(z, m);
  }
}
