/**
 * The arithmetic behind the toy RSA cipher: powers, Euclidean and C-style
 * remainders, greatest common divisors with Bezout coefficients, binomial
 * coefficients, Fermat's little theorem and the Chinese remainder step for
 * the modulus 3233 = 61 * 53.
 */
module NumberTheory {
  import opened CTypes

  function Pow(b: int, e: nat): int
    decreases e
  {
    if e == 0 then 1 else b * Pow(b, e - 1)
  }

  /** d divides x (for a positive d). */
  predicate Dvd(d: int, x: int)
    requires d > 0
  {
    x % d == 0
  }

  predicate IsPrime(p: int) {
    p > 1 && forall d :: 1 < d < p ==> !Dvd(d, p)
  }

  // ---------------------------------------------------------------------------
  // Powers

  lemma {:induction false} PowAdd(b: int, x: nat, y: nat)
    ensures Pow(b, x + y) == Pow(b, x) * Pow(b, y)
    decreases x
  {
    if x > 0 {
      PowAdd(b, x - 1, y);
      calc {
        Pow(b, x + y);
        b * Pow(b, x - 1 + y);
        b * (Pow(b, x - 1) * Pow(b, y));
        (b * Pow(b, x - 1)) * Pow(b, y);
      }
    }
  }

  lemma {:induction false} PowSquare(b: int, h: nat)
    ensures Pow(b * b, h) == Pow(b, 2 * h)
    decreases h
  {
    if h > 0 {
      PowSquare(b, h - 1);
      PowAdd(b, 2, 2 * (h - 1));
      assert Pow(b, 2) == b * b;
      assert 2 * h == 2 + 2 * (h - 1);
    }
  }

  lemma {:induction false} PowNonneg(b: int, e: nat)
    requires b >= 0
    ensures Pow(b, e) >= 0
    decreases e
  {
    if e > 0 {
      PowNonneg(b, e - 1);
    }
  }

  lemma {:induction false} PowOfZero(e: nat)
    requires e > 0
    ensures Pow(0, e) == 0
  {
  }

  /** An odd power keeps the sign of its base. */
  lemma {:induction false} PowNegOdd(b: int, e: nat)
    requires e % 2 == 1
    ensures Pow(-b, e) == -Pow(b, e)
    decreases e
  {
    if e > 1 {
      PowNegOdd(b, e - 2);
      PowAdd(-b, 2, e - 2);
      PowAdd(b, 2, e - 2);
      assert Pow(-b, 2) == Pow(b, 2);
    }
  }

  // ---------------------------------------------------------------------------
  // Euclidean division

  /** A product with a positive factor m is at least m, at most -m, or zero. */
  lemma MulBounds(m: int, k: int)
    requires m > 0
    ensures k >= 1 ==> m * k >= m
    ensures k <= -1 ==> m * k <= -m
    ensures k == 0 ==> m * k == 0
  {
  }

  lemma DivModUnique(a: int, m: int, q: int, r: int)
    requires m > 0 && 0 <= r < m && a == m * q + r
    ensures a / m == q && a % m == r
  {
    var q', r' := a / m, a % m;
    assert a == m * q' + r';
    assert m * (q - q') == r' - r;
    MulBounds(m, q - q');
  }

  lemma ModSmall(x: int, m: int)
    requires 0 <= x < m
    ensures x % m == x
  {
    DivModUnique(x, m, 0, x);
  }

  lemma ModOfMultiplePlus(x: int, k: int, m: int)
    requires m > 0
    ensures (x + m * k) % m == x % m
  {
    DivModUnique(x + m * k, m, x / m + k, x % m);
  }

  lemma DvdMultiple(d: int, k: int)
    requires d > 0
    ensures Dvd(d, d * k)
  {
    DivModUnique(d * k, d, k, 0);
  }

  lemma DvdWitness(d: int, x: int)
    requires d > 0 && Dvd(d, x)
    ensures x == d * (x / d)
  {
  }

  lemma DvdAdd(d: int, x: int, y: int)
    requires d > 0 && Dvd(d, x) && Dvd(d, y)
    ensures Dvd(d, x + y) && Dvd(d, x - y)
  {
    DvdWitness(d, x);
    DvdWitness(d, y);
    assert x + y == d * (x / d + y / d);
    assert x - y == d * (x / d - y / d);
    DvdMultiple(d, x / d + y / d);
    DvdMultiple(d, x / d - y / d);
  }

  lemma DvdMul(d: int, x: int, c: int)
    requires d > 0 && Dvd(d, x)
    ensures Dvd(d, x * c)
  {
    DvdWitness(d, x);
    assert x * c == d * ((x / d) * c);
    DvdMultiple(d, (x / d) * c);
  }

  /** x and y leave the same remainder exactly when m divides their difference. */
  lemma CongruentIffDvd(x: int, y: int, m: int)
    requires m > 0
    ensures x % m == y % m <==> Dvd(m, x - y)
  {
    var qx, qy := x / m, y / m;
    assert x == m * qx + x % m;
    assert y == m * qy + y % m;
    if x % m == y % m {
      assert x - y == m * (qx - qy);
      DvdMultiple(m, qx - qy);
    }
    if Dvd(m, x - y) {
      var k := (x - y) / m;
      DvdWitness(m, x - y);
      assert x == m * (qy + k) + y % m;
      DivModUnique(x, m, qy + k, y % m);
    }
  }

  lemma ProductExpansion(m: int, qa: int, ra: int, qb: int, rb: int)
    ensures (m * qa + ra) * (m * qb + rb) == ra * rb + m * (qa * m * qb + qa * rb + ra * qb)
  {
  }

  /** The product of two quotient-remainder decompositions, as a multiple of m plus ra * rb. */
  lemma ModMulCore(x: int, y: int, m: int, qa: int, ra: int, qb: int, rb: int)
    requires m > 0 && x == m * qa + ra && y == m * qb + rb
    ensures (ra * rb) % m == (x * y) % m
  {
    var k := qa * m * qb + qa * rb + ra * qb;
    ProductExpansion(m, qa, ra, qb, rb);
    assert x * y == ra * rb + m * k;
    ModOfMultiplePlus(ra * rb, k, m);
  }

  lemma ModMul(a: int, b: int, m: int)
    requires m > 0
    ensures ((a % m) * (b % m)) % m == (a * b) % m
  {
    ModMulCore(a, b, m, a / m, a % m, b / m, b % m);
  }

  // ---------------------------------------------------------------------------
  // C remainder

  lemma CRemOfNeg(x: int, m: int)
    requires m > 0 && x >= 0
    ensures CRem(-x, m) == -(x % m)
  {
  }

  lemma CRemIdem(a: int, m: int)
    requires m > 0
    ensures CRem(CRem(a, m), m) == CRem(a, m)
  {
    if a >= 0 {
      ModSmall(a % m, m);
    } else {
      ModSmall((-a) % m, m);
    }
  }

  /** C's `%` of a negated value is the negated remainder. */
  lemma CRemNeg(x: int, m: int)
    requires m > 0
    ensures CRem(-x, m) == -CRem(x, m)
  {
  }

  lemma CRemMulNonneg(a: int, b: int, m: int)
    requires m > 0 && a >= 0 && b >= 0
    ensures CRem(CRem(a, m) * CRem(b, m), m) == CRem(a * b, m)
  {
    ModMul(a, b, m);
    var ra, rb := a % m, b % m;
    assert ra >= 0 && rb >= 0;
    MulNonneg(ra, rb);
    MulNonneg(a, b);
  }

  lemma MulNonneg(a: int, b: int)
    requires a >= 0 && b >= 0
    ensures a * b >= 0
  {
  }

  /** Negating the left factor carries C's `%` of a product along with it. */
  lemma CRemMulFlip(a: int, b: int, m: int)
    requires m > 0
    requires CRem(CRem(-a, m) * CRem(b, m), m) == CRem((-a) * b, m)
    ensures CRem(CRem(a, m) * CRem(b, m), m) == CRem(a * b, m)
  {
    var ca, cb := CRem(a, m), CRem(b, m);
    CRemNeg(a, m);
    NegatedFactor(ca, cb);
    CRemNeg(CRem(-a, m) * cb, m);
    NegatedFactor(a, b);
    CRemNeg(a * b, m);
  }

  lemma NegatedFactor(x: int, y: int)
    ensures (-x) * y == -(x * y)
  {
  }

  lemma CRemMulSym(a: int, b: int, m: int)
    requires m > 0
    requires CRem(CRem(b, m) * CRem(a, m), m) == CRem(b * a, m)
    ensures CRem(CRem(a, m) * CRem(b, m), m) == CRem(a * b, m)
  {
    MulCommutes(a, b);
    MulCommutes(CRem(a, m), CRem(b, m));
  }

  lemma MulCommutes(x: int, y: int)
    ensures x * y == y * x
  {
  }

  /** C's `%` is compatible with multiplication, whatever the signs. */
  lemma CRemMul(a: int, b: int, m: int)
    requires m > 0
    ensures CRem(CRem(a, m) * CRem(b, m), m) == CRem(a * b, m)
  {
    if a >= 0 && b >= 0 {
      CRemMulNonneg(a, b, m);
    } else if a < 0 && b >= 0 {
      CRemMulNonneg(-a, b, m);
      CRemMulFlip(a, b, m);
    } else if a >= 0 {
      CRemMulNonneg(-b, a, m);
      CRemMulFlip(b, a, m);
      CRemMulSym(a, b, m);
    } else {
      CRemMulNonneg(-b, -a, m);
      CRemMulFlip(b, -a, m);
      CRemMulSym(-a, b, m);
      CRemMulFlip(a, b, m);
    }
  }

  /** Replacing a factor by one with the same C remainder keeps the C remainder of the product. */
  lemma CRemCongruence(x: int, y: int, y': int, m: int)
    requires m > 0 && CRem(y, m) == CRem(y', m)
    ensures CRem(x * y, m) == CRem(x * y', m)
  {
    CRemMul(x, y, m);
    CRemMul(x, y', m);
  }

  lemma {:induction false} CRemPow(y: int, k: nat, m: int)
    requires m > 0
    ensures CRem(Pow(CRem(y, m), k), m) == CRem(Pow(y, k), m)
    decreases k
  {
    if k > 0 {
      var c := CRem(y, m);
      CRemPow(y, k - 1, m);
      calc {
        CRem(Pow(c, k), m);
        CRem(c * Pow(c, k - 1), m);
        { CRemMul(c, Pow(c, k - 1), m); }
        CRem(CRem(c, m) * CRem(Pow(c, k - 1), m), m);
        { CRemIdem(y, m); }
        CRem(CRem(y, m) * CRem(Pow(y, k - 1), m), m);
        { CRemMul(y, Pow(y, k - 1), m); }
        CRem(y * Pow(y, k - 1), m);
      }
    }
  }

  /** Squaring the base and halving the exponent leaves the power unchanged modulo m. */
  lemma SquaredBase(base: int, h: nat, m: int)
    requires m > 0
    ensures CRem(Pow(CRem(base * base, m), h), m) == CRem(Pow(base, 2 * h), m)
  {
    CRemPow(base * base, h, m);
    PowSquare(base, h);
  }

  lemma OddStepAlgebra(result: int, base: int, p: int)
    ensures p * (result * base) == result * (base * p)
  {
  }

  /** One iteration of square-and-multiply keeps result * base^exp fixed modulo m. */
  lemma SquareAndMultiplyStep(result: int, base: int, exp: nat, m: int)
    requires m > 0 && exp > 0
    ensures var result' := if exp % 2 == 1 then CRem(result * base, m) else result;
            CRem(result' * Pow(CRem(base * base, m), exp / 2), m) == CRem(result * Pow(base, exp), m)
  {
    var h := exp / 2;
    var P := Pow(base, 2 * h);
    SquaredBase(base, h, m);
    if exp % 2 == 1 {
      var r' := CRem(result * base, m);
      CRemCongruence(r', Pow(CRem(base * base, m), h), P, m);
      CRemIdem(result * base, m);
      CRemCongruence(P, r', result * base, m);
      assert P * r' == r' * P;
      OddStepAlgebra(result, base, P);
      assert exp == 2 * h + 1;
      assert Pow(base, exp) == base * P;
    } else {
      CRemCongruence(result, Pow(CRem(base * base, m), h), P, m);
      assert exp == 2 * h;
    }
  }

  // ---------------------------------------------------------------------------
  // Greatest common divisor and Bezout coefficients

  function Gcd(a: nat, b: nat): nat
    decreases b
  {
    if b == 0 then a else Gcd(b, a % b)
  }

  lemma {:induction false} GcdDivides(a: nat, b: nat)
    requires a > 0 || b > 0
    ensures Gcd(a, b) > 0 && Dvd(Gcd(a, b), a) && Dvd(Gcd(a, b), b)
    decreases b
  {
    if b == 0 {
      DvdMultiple(a, 1);
      DvdMultiple(a, 0);
    } else {
      GcdDivides(b, a % b);
      var g := Gcd(b, a % b);
      assert a == b * (a / b) + a % b;
      DvdMul(g, b, a / b);
      DvdAdd(g, b * (a / b), a % b);
    }
  }

  lemma {:induction false} Bezout(a: nat, b: nat) returns (x: int, y: int)
    ensures a * x + b * y == Gcd(a, b)
    decreases b
  {
    if b == 0 {
      x, y := 1, 0;
    } else {
      var x', y' := Bezout(b, a % b);
      assert a % b == a - b * (a / b);
      x, y := y', x' - (a / b) * y';
      calc {
        a * x + b * y;
        a * y' + b * x' - b * (a / b) * y';
        b * x' + (a - b * (a / b)) * y';
        b * x' + (a % b) * y';
      }
    }
  }

  /** A positive multiple of d is at least d. */
  lemma DvdBound(d: int, x: int)
    requires d > 0 && x > 0 && Dvd(d, x)
    ensures d <= x
  {
    DvdWitness(d, x);
    MulBounds(d, x / d);
  }

  /** Euclid's lemma: a prime dividing a product with a smaller positive factor divides the other factor. */
  lemma EuclidPrime(p: int, k: int, c: int)
    requires IsPrime(p) && 0 < k < p && Dvd(p, k * c)
    ensures Dvd(p, c)
  {
    GcdDivides(k, p);
    var g := Gcd(k, p);
    DvdBound(g, k);
    assert g == 1;
    var x, y := Bezout(k, p);
    assert c == (k * c) * x + p * (c * y);
    DvdMul(p, k * c, x);
    DvdMultiple(p, c * y);
    DvdAdd(p, (k * c) * x, p * (c * y));
  }

  // ---------------------------------------------------------------------------
  // Binomial coefficients and the binomial theorem

  function Binom(n: nat, k: nat): nat
    decreases n
  {
    if k == 0 then 1 else if n == 0 then 0 else Binom(n - 1, k - 1) + Binom(n - 1, k)
  }

  lemma {:induction false} BinomAbove(n: nat, k: nat)
    requires k > n
    ensures Binom(n, k) == 0
    decreases n
  {
    if n > 0 {
      BinomAbove(n - 1, k - 1);
      BinomAbove(n - 1, k);
    }
  }

  lemma {:induction false} BinomDiagonal(n: nat)
    ensures Binom(n, n) == 1
    decreases n
  {
    if n > 0 {
      BinomDiagonal(n - 1);
      BinomAbove(n - 1, n);
    }
  }

  lemma AbsorptionStep(n: int, k: int, x: int, y: int, u: int, w: int)
    requires (k - 1) * x == (n - 1) * u && k * y == (n - 1) * w && x == u + w
    ensures k * (x + y) == n * x
  {
    calc {
      k * (x + y);
      (k - 1) * x + x + k * y;
      (n - 1) * u + x + (n - 1) * w;
      (n - 1) * (u + w) + x;
    }
  }

  /** The absorption identity k * C(n, k) == n * C(n - 1, k - 1). */
  lemma {:induction false} Absorption(n: nat, k: nat)
    requires n >= 1 && k >= 1
    ensures k * Binom(n, k) == n * Binom(n - 1, k - 1)
    decreases n
  {
    if n == 1 {
      if k > 1 {
        BinomAbove(1, k);
        BinomAbove(0, k - 1);
      }
    } else if k == 1 {
      Absorption(n - 1, 1);
    } else {
      Absorption(n - 1, k - 1);
      Absorption(n - 1, k);
      AbsorptionStep(n, k, Binom(n - 1, k - 1), Binom(n - 1, k), Binom(n - 2, k - 2), Binom(n - 2, k - 1));
    }
  }

  /** A prime p divides C(p, k) for 0 < k < p. */
  lemma PrimeDividesBinom(p: nat, k: nat)
    requires IsPrime(p) && 0 < k < p
    ensures Dvd(p, Binom(p, k))
  {
    Absorption(p, k);
    DvdMultiple(p, Binom(p - 1, k - 1));
    EuclidPrime(p, k, Binom(p, k));
  }

  /** The sum of C(n, k) * a^k for k = 0 .. m. */
  function BinomSum(n: nat, a: int, m: nat): int
    decreases m
  {
    if m == 0 then 1 else BinomSum(n, a, m - 1) + Binom(n, m) * Pow(a, m)
  }

  lemma PascalSumStep(a: int, s1: int, s2: int, c1: int, c: int, p1: int)
    ensures s1 + a * s2 + (c1 + c) * (a * p1) == (s1 + c * (a * p1)) + a * (s2 + c1 * p1)
  {
  }

  lemma {:induction false} PascalSum(n: nat, a: int, m: nat)
    requires m >= 1
    ensures BinomSum(n + 1, a, m) == BinomSum(n, a, m) + a * BinomSum(n, a, m - 1)
    decreases m
  {
    assert Pow(a, m) == a * Pow(a, m - 1);
    if m == 1 {
      assert Binom(n + 1, 1) == 1 + Binom(n, 1);
      assert Pow(a, 1) == a;
    } else {
      PascalSum(n, a, m - 1);
      assert Binom(n + 1, m) == Binom(n, m - 1) + Binom(n, m);
      PascalSumStep(a, BinomSum(n, a, m - 1), BinomSum(n, a, m - 2), Binom(n, m - 1), Binom(n, m), Pow(a, m - 1));
    }
  }

  lemma {:induction false} BinomSumStable(n: nat, a: int, m: nat)
    requires m >= n
    ensures BinomSum(n, a, m) == BinomSum(n, a, n)
    decreases m
  {
    if m > n {
      BinomSumStable(n, a, m - 1);
      BinomAbove(n, m);
    }
  }

  /** The binomial theorem, (a + 1)^n == sum of C(n, k) * a^k. */
  lemma {:induction false} BinomialTheorem(n: nat, a: int)
    ensures Pow(a + 1, n) == BinomSum(n, a, n)
    decreases n
  {
    if n > 0 {
      BinomialTheorem(n - 1, a);
      PascalSum(n - 1, a, n);
      BinomSumStable(n - 1, a, n);
      calc {
        Pow(a + 1, n);
        (a + 1) * BinomSum(n - 1, a, n - 1);
        BinomSum(n - 1, a, n - 1) + a * BinomSum(n - 1, a, n - 1);
        BinomSum(n, a, n);
      }
    }
  }

  /** Every middle term of the expansion of (a + 1)^p is a multiple of p. */
  lemma {:induction false} MiddleTermsDivisible(p: nat, a: int, m: nat)
    requires IsPrime(p) && m < p
    ensures Dvd(p, BinomSum(p, a, m) - 1)
    decreases m
  {
    if m == 0 {
      DvdMultiple(p, 0);
    } else {
      MiddleTermsDivisible(p, a, m - 1);
      PrimeDividesBinom(p, m);
      DvdMul(p, Binom(p, m), Pow(a, m));
      DvdAdd(p, BinomSum(p, a, m - 1) - 1, Binom(p, m) * Pow(a, m));
    }
  }

  /** The "freshman's dream" modulo a prime: (a + 1)^p - a^p - 1 is a multiple of p. */
  lemma FreshmansDream(p: nat, a: int)
    requires IsPrime(p)
    ensures Dvd(p, Pow(a + 1, p) - Pow(a, p) - 1)
  {
    BinomialTheorem(p, a);
    BinomDiagonal(p);
    MiddleTermsDivisible(p, a, p - 1);
    assert BinomSum(p, a, p) == BinomSum(p, a, p - 1) + Pow(a, p);
  }

  /** Fermat's little theorem: a^p - a is a multiple of the prime p. */
  lemma {:induction false} Fermat(p: nat, a: nat)
    requires IsPrime(p)
    ensures Dvd(p, Pow(a, p) - a)
    decreases a
  {
    if a == 0 {
      PowOfZero(p);
      DvdMultiple(p, 0);
    } else {
      Fermat(p, a - 1);
      FreshmansDream(p, a - 1);
      DvdAdd(p, Pow(a, p) - Pow(a - 1, p) - 1, Pow(a - 1, p) - (a - 1));
    }
  }

  lemma FermatPowerStep(x: int, a: int, b: int)
    ensures a * b - x == (a - x) * b + (x * b - x)
  {
  }

  lemma ExponentStep(p: int, k: int)
    ensures 1 + (p - 1) * k == (1 + (p - 1) * (k - 1)) + (p - 1)
  {
  }

  /** If p divides a - x and x * b - x, it divides a * b - x. */
  lemma FermatCombine(p: int, x: int, a: int, b: int)
    requires p > 0 && Dvd(p, a - x) && Dvd(p, x * b - x)
    ensures Dvd(p, a * b - x)
  {
    FermatPowerStep(x, a, b);
    DvdMul(p, a - x, b);
    DvdAdd(p, (a - x) * b, x * b - x);
  }

  /** One more factor x^(p - 1) keeps x^e congruent to x modulo p. */
  lemma FermatExponentStep(p: nat, x: nat, e: nat)
    requires p > 1 && Dvd(p, Pow(x, e) - x) && Dvd(p, Pow(x, p) - x)
    ensures Dvd(p, Pow(x, e + (p - 1)) - x)
  {
    PowAdd(x, e, p - 1);
    assert Pow(x, p) == x * Pow(x, p - 1);
    FermatCombine(p, x, Pow(x, e), Pow(x, p - 1));
  }

  /** Consequence of Fermat: x^(1 + (p - 1) * k) - x is a multiple of p. */
  lemma {:induction false} FermatPower(p: nat, x: nat, k: nat)
    requires IsPrime(p)
    ensures Dvd(p, Pow(x, 1 + (p - 1) * k) - x)
    decreases k
  {
    if k == 0 {
      DvdMultiple(p, 0);
    } else {
      MulNonneg(p - 1, k - 1);
      var e := 1 + (p - 1) * (k - 1);
      FermatPower(p, x, k - 1);
      Fermat(p, x);
      ExponentStep(p, k);
      FermatExponentStep(p, x, e);
    }
  }

  // ---------------------------------------------------------------------------
  // The RSA identity for n = 61 * 53, e = 17, d = 2753

  lemma Prime61()
    ensures IsPrime(61)
  {
    forall d | 1 < d < 61
      ensures !Dvd(d, 61)
    {
    }
  }

  lemma Prime53()
    ensures IsPrime(53)
  {
    forall d | 1 < d < 53
      ensures !Dvd(d, 53)
    {
    }
  }

  /** Chinese remainder step: a multiple of both 61 and 53 is a multiple of 3233. */
  lemma CrtStep(x: int)
    requires Dvd(61, x) && Dvd(53, x)
    ensures Dvd(3233, x)
  {
    DvdWitness(53, x);
    var k := x / 53;
    assert x == 53 * k;
    Prime61();
    EuclidPrime(61, 53, k);
    DvdWitness(61, k);
    assert x == 3233 * (k / 61);
    DvdMultiple(3233, k / 61);
  }

  /** Raising to 17 * 2753 = 46801 is the identity on residues modulo 3233. */
  lemma RsaIdentity(x: nat)
    requires x < 3233
    ensures Pow(x, 17 * 2753) % 3233 == x
  {
    Prime61();
    Prime53();
    FermatPower(61, x, 780);
    FermatPower(53, x, 900);
    CrtStep(Pow(x, 46801) - x);
    CongruentIffDvd(Pow(x, 46801), x, 3233);
  }

  /**
   * The RSA round trip with C's `%`: for |v| < 3233, decrypting the
   * encryption of v gives v back, whatever the sign of v.
   */
  lemma RsaRoundTrip(v: int)
    requires -3233 < v < 3233
    ensures CRem(Pow(CRem(Pow(v, 17), 3233), 2753), 3233) == v
  {
    CRemPow(Pow(v, 17), 2753, 3233);
    PowMulExp(v, 17, 2753);
    if v >= 0 {
      RsaIdentity(v);
      PowNonneg(v, 46801);
    } else {
      RsaIdentity(-v);
      PowNegOdd(v, 46801);
      assert Pow(-v, 46801) == -Pow(v, 46801) by {
        PowNegOdd(-v, 46801);
      }
      PowNonneg(-v, 46801);
      CRemOfNeg(Pow(-v, 46801), 3233);
    }
  }

  lemma {:induction false} PowMulExp(b: int, x: nat, y: nat)
    ensures Pow(Pow(b, x), y) == Pow(b, x * y)
    decreases y
  {
    if y > 0 {
      PowMulExp(b, x, y - 1);
      PowAdd(b, x, x * (y - 1));
      assert x * y == x + x * (y - 1);
    }
  }
}
