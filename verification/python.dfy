/** The pieces of the Python runtime that the modelled code relies on: the
    exceptions it raises or catches, a result type carrying them, and the
    exact rationals of `fractions.Fraction`, which Python keeps reduced by
    the greatest common divisor of numerator and denominator. */
module Python {

  /** The exceptions that the modelled code raises or catches. */
  datatype Exc = AttributeError | TypeError | ValueError | KeyError | ZeroDivisionError | OverflowError

  datatype Option<+T> = None | Some(value: T)

  /** Either the value a call returns or the exception it raises instead. */
  datatype Result<+T> = Ok(value: T) | Raise(exc: Exc) {
    predicate IsFailure() { Raise? }

    function PropagateFailure<U>(): Result<U>
      requires Raise?
    {
      Raise(exc)
    }

    function Extract(): T
      requires Ok?
    {
      value
    }
  }

  type Pos = n: int | n > 0 witness 1

  // ---------------------------------------------------------------------
  // Integer division facts (Dafny's `/` and `%` are Euclidean; for the
  // positive divisors used here they agree with Python's `//` and `%`).
  // ---------------------------------------------------------------------

  lemma MulAtLeast(g: int, m: int)
    requires g > 0 && m >= 1
    ensures g * m >= g
  {
    assert g * m == g * (m - 1) + g;
  }

  /** A multiple of a positive number that lies below it is zero times it. */
  lemma ZeroMultiple(g: int, m: int)
    requires g > 0 && 0 <= g * m < g
    ensures m == 0
  {
    if m >= 1 {
      MulAtLeast(g, m);
      assert false;
    } else if m <= -1 {
      MulAtLeast(g, -m);
      assert false;
    }
  }

  /** Dividing an exact multiple gives the cofactor and no remainder. */
  lemma DivExact(x: int, g: int, a: int)
    requires g > 0 && x == g * a
    ensures x / g == a && x % g == 0
  {
    var q, r := x / g, x % g;
    assert x == g * q + r;
    assert r == g * (a - q);
    ZeroMultiple(g, a - q);
  }

  lemma MulNonPositive(g: int, m: int)
    requires g > 0 && m <= 0
    ensures g * m <= 0
  {
    if m < 0 {
      MulAtLeast(g, -m);
    }
  }

  /** A positive multiple of `g` is at least `g`. */
  lemma DivisorAtMost(g: int, x: int)
    requires g > 0 && x > 0 && x % g == 0
    ensures g <= x
  {
    var q := x / g;
    assert x == g * q;
    if q <= 0 {
      MulNonPositive(g, q);
      assert false;
    }
    MulAtLeast(g, q);
  }

  /** `g*u + g*v == g*(u + v)`, with `u` itself a product. */
  lemma Factor(g: int, k: int, q: int, r: int)
    ensures g * k * q + g * r == g * (k * q + r)
  {
  }

  // ---------------------------------------------------------------------
  // Greatest common divisor (Euclid), as `math.gcd` computes it.
  // ---------------------------------------------------------------------

  function Gcd(a: nat, b: nat): nat
    decreases b
  {
    if b == 0 then a else Gcd(b, a % b)
  }

  /** The gcd divides both arguments, and it is positive unless both are zero. */
  lemma {:induction false} GcdDivides(a: nat, b: nat)
    ensures a > 0 || b > 0 ==> Gcd(a, b) > 0
    ensures Gcd(a, b) > 0 ==> a % Gcd(a, b) == 0 && b % Gcd(a, b) == 0
    decreases b
  {
    if b > 0 {
      GcdDivides(b, a % b);
      if Gcd(b, a % b) > 0 {
        DividesSum(a, b, a / b, a % b, Gcd(b, a % b));
      }
    }
  }

  /** A divisor of `b` and `r` divides `b * q + r`. */
  lemma DividesSum(a: int, b: int, q: int, r: int, g: int)
    requires g > 0 && b % g == 0 && r % g == 0 && a == b * q + r
    ensures a % g == 0
  {
    var kb, kr := b / g, r / g;
    assert b == g * kb;
    assert r == g * kr;
    assert a == g * kb * q + g * kr;
    Factor(g, kb, q, kr);
    DivExact(a, g, kb * q + kr);
  }

  /** Every common divisor of `a` and `b` divides their gcd. */
  lemma {:induction false} GcdGreatest(a: nat, b: nat, c: int)
    requires c > 0 && a % c == 0 && b % c == 0
    ensures Gcd(a, b) % c == 0
    decreases b
  {
    if b > 0 {
      var ka, kb := a / c, b / c;
      assert a == c * ka && b == c * kb;
      assert a % b == a - b * (a / b);
      assert a % b == c * (ka - kb * (a / b));
      DivExact(a % b, c, ka - kb * (a / b));
      GcdGreatest(b, a % b, c);
    }
  }

  // ---------------------------------------------------------------------
  // Fractions
  // ---------------------------------------------------------------------

  /** A `fractions.Fraction`: numerator and positive denominator. */
  datatype Frac = Frac(num: int, den: Pos) {
    function Value(): real {
      num as real / den as real
    }

    /** In lowest terms, as every `Fraction` object is. */
    predicate Reduced() {
      Gcd(if num < 0 then -num else num, den) == 1
    }
  }

  function Abs(n: int): nat {
    if n < 0 then -n else n
  }

  /** `Fraction(n, d)` for `d > 0`: both parts divided by their gcd. Because the
      reduced form of a rational is unique, this is also the result of every
      `Fraction` operation whose exact value is `n/d`. */
  function Normalize(n: int, d: Pos): (f: Frac)
    ensures f.Value() == n as real / d as real
    ensures f.Reduced()
    ensures f.den <= d
    ensures 0 <= n ==> 0 <= f.num <= n
  {
    var g := Gcd(Abs(n), d);
    GcdDivides(Abs(n), d);
    var a, b := n / g, d / g;
    SignedCofactor(n, g);
    Cofactor(d, g);
    ReducedParts(n, d, g, a, b);
    Frac(a, b)
  }

  /** Facts behind `Normalize`: dividing by the gcd keeps the value, leaves
      coprime parts and does not grow a non-negative numerator. */
  lemma ReducedParts(n: int, d: int, g: int, a: int, b: int)
    requires d > 0 && g == Gcd(Abs(n), d) && g > 0
    requires n == g * a && d == g * b
    ensures b > 0 && b <= d
    ensures a as real / b as real == n as real / d as real
    ensures Gcd(Abs(a), b) == 1
    ensures 0 <= n ==> 0 <= a <= n
  {
    CofactorBounds(d, g, b);
    if 0 <= n {
      CofactorBounds'(n, g, a);
    }
    SameRatio(n, d, a, b, g);
    CofactorsCoprime(n, d, g, a, b);
  }

  lemma CofactorBounds(x: int, g: int, c: int)
    requires x > 0 && g > 0 && x == g * c
    ensures 0 < c <= x
  {
    if c <= 0 {
      MulNonPositive(g, c);
      assert false;
    }
    MulAtLeast(c, g);
  }

  lemma CofactorBounds'(x: int, g: int, c: int)
    requires x >= 0 && g > 0 && x == g * c
    ensures 0 <= c <= x
  {
    if x > 0 {
      CofactorBounds(x, g, c);
    } else if c != 0 {
      ZeroMultiple(g, c);
    }
  }

  lemma SameRatio(n: int, d: int, a: int, b: int, g: int)
    requires b > 0 && d > 0 && n == g * a && d == g * b
    ensures a as real / b as real == n as real / d as real
  {
    assert n * b == a * d;
    assert (n * b) as real == n as real * b as real;
    assert (a * d) as real == a as real * d as real;
  }

  /** Dividing by a divisor of the magnitude is exact for either sign. */
  lemma SignedCofactor(n: int, g: int)
    requires g > 0 && Abs(n) % g == 0
    ensures n == g * (n / g)
  {
    Cofactor(Abs(n), g);
    if n < 0 {
      DivExact(n, g, -(Abs(n) / g));
    }
  }

  /** `x == h * (x / h)` when `h` divides `x`. */
  lemma Cofactor(x: int, h: int)
    requires h > 0 && x % h == 0
    ensures x == h * (x / h)
  {
  }

  lemma CofactorsCoprime(n: int, d: int, g: int, a: int, b: int)
    requires d > 0 && g == Gcd(Abs(n), d) && g > 0 && b > 0
    requires n == g * a && d == g * b
    ensures Gcd(Abs(a), b) == 1
  {
    AbsScale(g, a);
    GcdScale(Abs(a), b, g);
    UnitFactor(g, Gcd(Abs(a), b));
  }

  lemma AbsScale(g: int, a: int)
    requires g > 0
    ensures Abs(g * a) == g * Abs(a)
  {
    if a < 0 {
      assert g * a == -(g * -a);
    }
  }

  lemma UnitFactor(g: int, h: int)
    requires g > 0 && g * h == g
    ensures h == 1
  {
    assert g * (h - 1) == 0;
    ZeroMultiple(g, h - 1);
  }

  lemma Regroup(g: int, h: int, k: int)
    ensures g * (h * k) == (g * h) * k
  {
  }

  // ---------------------------------------------------------------------
  // Uniqueness of reduced fractions
  // ---------------------------------------------------------------------

  /** Euclidean division is unique: any quotient and remainder in range are
      the ones `/` and `%` give. */
  lemma DivModUnique(x: int, m: int, q: int, r: int)
    requires m > 0 && x == m * q + r && 0 <= r < m
    ensures x / m == q && x % m == r
  {
    var q', r' := x / m, x % m;
    assert m * q + r == m * q' + r';
    assert m * (q - q') == r' - r;
    if q - q' >= 1 {
      MulAtLeast(m, q - q');
      assert false;
    } else if q' - q >= 1 {
      MulAtLeast(m, q' - q);
      assert false;
    }
  }

  lemma Distribute(n: int, d: int, v: int)
    ensures n * (d * v) + d == d * (n * v + 1)
  {
  }

  /** An even factor makes the product even. */
  lemma EvenProduct(n: int, v: int)
    requires v % 2 == 0
    ensures (n * v) % 2 == 0 && (n * v + 1) % 2 == 1
  {
    assert n * v == 2 * (n * (v / 2));
  }

  lemma MulLess(k: int, r: int, b: int)
    requires k > 0 && 0 <= r < b
    ensures 0 <= k * r < k * b
  {
    MulAtLeast(k, b - r);
    assert k * b - k * r == k * (b - r);
    if r > 0 {
      MulAtLeast(k, r);
    }
  }

  /** Scaling both operands scales the remainder. */
  lemma ModScale(a: nat, b: nat, k: nat)
    requires b > 0 && k > 0
    ensures (k * a) % (k * b) == k * (a % b)
  {
    var q, r := a / b, a % b;
    assert k * a == (k * b) * q + k * r by {
      assert a == b * q + r;
      Regroup(k, b, q);
    }
    MulLess(k, r, b);
    MulAtLeast(k, b);
    DivModUnique(k * a, k * b, q, k * r);
  }

  /** `gcd(k*a, k*b) == k * gcd(a, b)`. */
  lemma {:induction false} GcdScale(a: nat, b: nat, k: nat)
    requires k > 0
    ensures Gcd(k * a, k * b) == k * Gcd(a, b)
    decreases b
  {
    if b > 0 {
      MulAtLeast(k, b);
      ModScale(a, b, k);
      GcdScale(b, a % b, k);
    }
  }

  /** Euclid's lemma: a number coprime to `a` that divides `a * d` divides `d`. */
  lemma Euclid(a: nat, b: nat, d: nat)
    requires b > 0 && Gcd(a, b) == 1 && (a * d) % b == 0
    ensures d % b == 0
  {
    assert a * d == d * a;
    if d > 0 {
      ScaledGcd(a, b, d);
    }
  }

  lemma ScaledGcd(a: nat, b: nat, d: nat)
    requires b > 0 && d > 0 && Gcd(a, b) == 1 && (d * a) % b == 0
    ensures d % b == 0
  {
    GcdScale(a, b, d);
    CommonDivisor(d * a, d * b, b, d);
  }

  lemma CommonDivisor(x: nat, y: nat, b: int, d: nat)
    requires b > 0 && x % b == 0 && y == d * b && Gcd(x, y) == d
    ensures d % b == 0
  {
    DivExact(y, b, d);
    GcdGreatest(x, y, b);
  }

  lemma CrossMultiply(a: int, b: int, c: int, d: int)
    requires b > 0 && d > 0
    requires a as real / b as real == c as real / d as real
    ensures a * d == c * b
  {
    var x, y, z, w := a as real, b as real, c as real, d as real;
    assert x * w == z * y by {
      assert x / y * (y * w) == z / w * (y * w);
    }
    CastProduct(a, d);
    CastProduct(c, b);
  }

  lemma CastProduct(a: int, b: int)
    ensures (a * b) as real == a as real * b as real
  {
  }

  lemma AddReciprocal(a: real, b: real, e: real)
    requires b > 0.0 && e > 0.0
    ensures (a * e + b) / (b * e) == a / b + 1.0 / e
  {
    assert (a / b + 1.0 / e) * (b * e) == a * e + b;
  }

  /** `a/b + 1/d` written over the common denominator `b*d`, as `Fraction`
      addition does before it reduces. */
  lemma RealFraction(a: int, b: int, d: int)
    requires b > 0 && d > 0
    ensures ((a * d + b) as real) / ((b * d) as real) == a as real / b as real + 1.0 / d as real
  {
    CastProduct(a, d);
    CastProduct(b, d);
    AddReciprocal(a as real, b as real, d as real);
  }

  lemma CancelReal(a: real, b: real, k: real)
    requires b > 0.0 && k > 0.0
    ensures (k * a) / (k * b) == a / b
  {
    assert a / b * (k * b) == k * a;
  }

  lemma CancelRight(a: int, b: int, k: int)
    requires k > 0 && b > 0
    ensures ((a * k) as real) / ((b * k) as real) == a as real / b as real
  {
    CastProduct(a, k);
    CastProduct(b, k);
    CancelReal(a as real, b as real, k as real);
  }

  /** Taking one from the numerator takes one over the denominator away. */
  lemma LessUnit(n: int, d: Pos)
    ensures (n - 1) as real / d as real == n as real / d as real - 1.0 / d as real
  {
  }

  /** A common factor cancels: `(k*a)/(k*b) == a/b`. */
  lemma CancelFactor(k: int, a: int, b: int)
    requires k > 0 && b > 0
    ensures ((k * a) as real) / ((k * b) as real) == a as real / b as real
  {
    CastProduct(k, a);
    CastProduct(k, b);
    CancelReal(a as real, b as real, k as real);
  }

  lemma AbsProduct(a: int, d: int)
    requires d > 0
    ensures Abs(a * d) == Abs(a) * d
  {
    if a < 0 {
      assert a * d == -((-a) * d);
    }
  }

  /** If `a/b == c/d` in lowest terms, then `b` divides `d`. */
  lemma ReducedDivides(a: int, b: Pos, c: int, d: Pos)
    requires Gcd(Abs(a), b) == 1 && a * d == c * b
    ensures d % b == 0
  {
    AbsProduct(a, d);
    AbsProduct(c, b);
    assert Abs(a) * d == Abs(c) * b;
    DivExact(Abs(c) * b, b, Abs(c));
    Euclid(Abs(a), b, d);
  }

  /** Two fractions in lowest terms with the same value are the same fraction;
      this is why every `Fraction` result is determined by its value. */
  lemma ReducedUnique(f: Frac, g: Frac)
    requires f.Reduced() && g.Reduced() && f.Value() == g.Value()
    ensures f == g
  {
    CrossMultiply(f.num, f.den, g.num, g.den);
    ReducedDivides(f.num, f.den, g.num, g.den);
    ReducedDivides(g.num, g.den, f.num, f.den);
    SameCross(f.num, f.den, g.num, g.den);
  }

  /** Cross-equal fractions whose denominators divide each other are equal. */
  lemma SameCross(a: int, b: int, c: int, d: int)
    requires b > 0 && d > 0 && d % b == 0 && b % d == 0 && a * d == c * b
    ensures a == c && b == d
  {
    DivisorAtMost(b, d);
    DivisorAtMost(d, b);
    assert b * (a - c) == 0;
    if a != c {
      if a - c > 0 {
        MulAtLeast(b, a - c);
      } else {
        MulAtLeast(b, c - a);
      }
      assert false;
    }
  }

  /** `Fraction(n, d)` is any fraction in lowest terms with value `n/d`. */
  lemma NormalizeUnique(n: int, d: Pos, f: Frac)
    requires f.Reduced() && f.Value() == n as real / d as real
    ensures Normalize(n, d) == f
  {
    ReducedUnique(Normalize(n, d), f);
  }

  // ---------------------------------------------------------------------
  // Powers of two
  // ---------------------------------------------------------------------

  predicate IsPow2(n: int)
    decreases if n > 0 then n else 0
  {
    n == 1 || (n > 1 && n % 2 == 0 && IsPow2(n / 2))
  }

  lemma Pow2Double(n: int)
    requires IsPow2(n)
    ensures IsPow2(2 * n)
  {
    DivExact(2 * n, 2, n);
  }

  /** `2**k`. */
  function Pow2(k: nat): Pos {
    if k == 0 then 1 else 2 * Pow2(k - 1)
  }

  lemma {:induction false} Pow2Monotone(j: nat, k: nat)
    requires j <= k
    ensures Pow2(j) <= Pow2(k)
    decreases k
  {
    if j < k {
      Pow2Monotone(j, k - 1);
    }
  }

  lemma {:induction false} Pow2Add(j: nat, k: nat)
    ensures Pow2(j + k) == Pow2(j) * Pow2(k)
    decreases k
  {
    if k > 0 {
      Pow2Add(j, k - 1);
      var a, b := Pow2(j), Pow2(k - 1);
      assert Pow2(j + k) == 2 * (a * b);
      assert a * (2 * b) == 2 * (a * b);
    }
  }

  lemma Pow2Split(s: nat, k: nat)
    requires k <= s
    ensures Pow2(s) == Pow2(s - k) * Pow2(k)
  {
    Pow2Add(s - k, k);
  }

  /** The exponent of a power of two. */
  function Log2(n: int): (k: nat)
    requires IsPow2(n)
    ensures Pow2(k) == n
    decreases if n > 0 then n else 0
  {
    if n == 1 then 0 else 1 + Log2(n / 2)
  }

  /** `n.bit_length()`: the number of binary digits of `n`. */
  function BitLength(n: Pos): (l: nat)
    ensures l >= 1 && Pow2(l - 1) <= n < Pow2(l)
  {
    if n == 1 then 1 else 1 + BitLength(n / 2)
  }

  /** The bit length is the only `l` with `2^(l-1) <= n < 2^l`. */
  lemma BitLengthUnique(n: Pos, l: nat)
    requires l >= 1 && Pow2(l - 1) <= n < Pow2(l)
    ensures BitLength(n) == l
  {
    var b := BitLength(n);
    if b < l {
      Pow2Monotone(b, l - 1);
      assert false;
    } else if b > l {
      Pow2Monotone(l, b - 1);
      assert false;
    }
  }

  /** Only powers of two divide a power of two. */
  lemma {:induction false} DivisorOfPow2(x: Pos, s: nat)
    requires Pow2(s) % x == 0
    ensures IsPow2(x)
    decreases s
  {
    if s == 0 {
      DivisorAtMost(x, 1);
    } else if x % 2 == 1 {
      OddCoprimeTwo(x);
      Euclid(2, x, Pow2(s - 1));
      DivisorOfPow2(x, s - 1);
    } else {
      var y, t := x / 2, Pow2(s) / x;
      Cofactor(Pow2(s), x);
      assert Pow2(s - 1) == y * t by {
        assert 2 * Pow2(s - 1) == (2 * y) * t;
        Regroup(2, y, t);
      }
      DivExact(Pow2(s - 1), y, t);
      DivisorOfPow2(y, s - 1);
      Pow2Double(y);
    }
  }

  /** A divisor of an odd number is odd. */
  lemma OddDivisor(g: int, n: int)
    requires g > 0 && n % 2 == 1 && n % g == 0
    ensures g % 2 == 1
  {
    if g % 2 == 0 {
      var t, u := n / g, g / 2;
      assert n == g * t;
      assert g == 2 * u;
      assert n == 2 * (u * t) by {
        Regroup(2, u, t);
      }
      DivExact(n, 2, u * t);
      assert false;
    }
  }

  lemma SmallMod(a: int, g: int)
    requires 0 <= a < g
    ensures a % g == a
  {
  }

  /** An odd number is coprime to 2. */
  lemma OddCoprimeTwo(g: nat)
    requires g % 2 == 1
    ensures Gcd(2, g) == 1
  {
    if g > 1 {
      SmallMod(2, g);
      assert Gcd(2, g) == Gcd(g, 2);
      assert Gcd(g, 2) == Gcd(2, 1);
    }
  }

  /** An odd numerator over a power of two is in lowest terms. */
  lemma {:induction false} OddOverPow2(n: nat, d: Pos)
    requires n % 2 == 1 && IsPow2(d)
    ensures Gcd(n, d) == 1
    decreases d
  {
    var g := Gcd(n, d);
    GcdDivides(n, d);
    if d == 1 {
      assert n % 1 == 0;
      assert Gcd(n, 1) == Gcd(1, 0);
    } else {
      var e := d / 2;
      OddOverPow2(n, e);
      OddDivisor(g, n);
      OddCoprimeTwo(g);
      assert 2 * e == d;
      Euclid(2, g, e);
      GcdGreatest(n, e, g);
      DivisorAtMost(g, 1);
    }
  }

  lemma UnitReduced(d: Pos)
    ensures Frac(1, d).Reduced()
  {
    if d > 1 {
      assert 1 % d == 1;
      assert Gcd(1, d) == Gcd(d, 1);
      assert d % 1 == 0;
    }
  }

  /** The denominator of `Fraction(n, d)` divides `d`. */
  lemma NormalizeDivides(n: int, d: Pos)
    ensures d % Normalize(n, d).den == 0
  {
    var g := Gcd(Abs(n), d);
    GcdDivides(Abs(n), d);
    Cofactor(d, g);
    DivExact(d, d / g, g);
  }

  // ---------------------------------------------------------------------
  // Floats: `1/n` for a positive `int`
  // ---------------------------------------------------------------------

  /** `a / b` rounded to the nearest integer, a tie going to the even one. */
  function RoundHalfEven(a: nat, b: Pos): nat {
    var q, r := a / b, a % b;
    if 2 * r < b || (2 * r == b && q % 2 == 0) then q else q + 1
  }

  /** The rounded quotient `c` lies within half of `b` of `a / b`, and when
      it lies exactly half away it is even. */
  lemma RoundHalfEvenNearest(a: nat, b: Pos)
    ensures var c := RoundHalfEven(a, b);
      && 2 * a - b <= 2 * (b * c) <= 2 * a + b
      && (2 * (b * c) == 2 * a - b || 2 * (b * c) == 2 * a + b ==> c % 2 == 0)
  {
    var q, r := a / b, a % b;
    var x := b * q;
    assert a == x + r;
    if RoundHalfEven(a, b) == q + 1 {
      assert b * (q + 1) == x + b;
    }
  }

  /** The exponent `s` such that the doubles next to `1/n` are the multiples
      of `2^-s`: for `2^(l-1) <= n < 2^l` the quotient lies in
      `(2^-l, 2^-(l-1)]`, where a double's 53 significant bits make its last
      bit worth `2^-(l+52)`, and never less than `2^-1074`, the smallest
      double. */
  function ReciprocalScale(n: Pos): nat {
    var l := BitLength(n);
    if l <= 1022 then l + 52 else 1074
  }

  /** `Fraction(1/n)` for an `int` `n > 0`: Python 3's true division returns
      the double nearest to `1/n`, ties to even, and `Fraction` reads it back
      exactly. */
  function FloatReciprocal(n: Pos): (f: Frac)
    ensures f.Reduced() && f.num >= 0
  {
    var s := ReciprocalScale(n);
    Normalize(RoundHalfEven(Pow2(s), n), Pow2(s))
  }

  /** The double holds `1/n` exactly when `n` is a power of two no larger
      than `2^1074`, and only then: every double is a multiple of a power of
      two, so `1/n` with an odd factor in `n` has none. */
  lemma FloatReciprocalExact(n: Pos)
    ensures FloatReciprocal(n) == Frac(1, n) <==> IsPow2(n) && n <= Pow2(1074)
  {
    if IsPow2(n) && n <= Pow2(1074) {
      ExactOfPow2(n);
    }
    if FloatReciprocal(n) == Frac(1, n) {
      NormalizeDivides(RoundHalfEven(Pow2(ReciprocalScale(n)), n), Pow2(ReciprocalScale(n)));
      DivisorOfPow2(n, ReciprocalScale(n));
      if n > Pow2(1074) {
        var k := Log2(n);
        if k <= 1074 {
          Pow2Monotone(k, 1074);
        }
        Pow2Monotone(1075, k);
        FloatReciprocalZero(n);
        assert false;
      }
    }
  }

  lemma ExactOfPow2(n: Pos)
    requires IsPow2(n) && n <= Pow2(1074)
    ensures FloatReciprocal(n) == Frac(1, n)
  {
    var k := Log2(n);
    if k > 1074 {
      Pow2Monotone(1075, k);
    }
    ExactReciprocal(k, n);
  }

  lemma ExactReciprocal(k: nat, n: Pos)
    requires k <= 1074 && n == Pow2(k)
    ensures FloatReciprocal(n) == Frac(1, n)
  {
    var s := ScaleOfPow2(n, k);
    var a, m := Pow2(s), Pow2(s - k);
    Pow2Split(s, k);
    ExactQuotient(a, n, m);
    UnitOver(m, n, a);
    ReciprocalOf(n, s, m);
  }

  /** For `n == 2^k` with `k <= 1074` the scale is at least `k`. */
  lemma ScaleOfPow2(n: Pos, k: nat) returns (s: nat)
    requires n == Pow2(k) && k <= 1074
    ensures s == ReciprocalScale(n) && s >= k
  {
    BitLengthUnique(n, k + 1);
    s := ReciprocalScale(n);
  }

  lemma ReciprocalOf(n: Pos, s: nat, q: nat)
    requires s == ReciprocalScale(n) && RoundHalfEven(Pow2(s), n) == q
    ensures FloatReciprocal(n) == Normalize(q, Pow2(s))
  {
  }

  lemma ExactQuotient(a: nat, n: Pos, m: nat)
    requires a == m * n
    ensures RoundHalfEven(a, n) == m
  {
    DivModUnique(a, n, m, 0);
  }

  lemma UnitOver(m: Pos, n: Pos, a: Pos)
    requires a == m * n
    ensures Normalize(m, a) == Frac(1, n)
  {
    UnitReduced(n);
    CancelRight(1, n, m);
    NormalizeUnique(m, a, Frac(1, n));
  }

  /** `1/n` underflows to `0.0`, a zero `Fraction`, exactly from `2^1075` on:
      `2^-1075` lies halfway between 0 and the smallest double, and the tie
      goes to the even zero. */
  lemma FloatReciprocalZero(n: Pos)
    ensures FloatReciprocal(n).num == 0 <==> n >= Pow2(1075)
  {
    var s := ReciprocalScale(n);
    var a := Pow2(s);
    var q := RoundHalfEven(a, n);
    assert FloatReciprocal(n) == Normalize(q, a);
    if n >= Pow2(1075) {
      UnderflowScale(n);
      ZeroQuotient(a, n);
    } else {
      NormalScale(n);
      PositiveQuotient(a, n);
      PositiveFraction(q, a, Normalize(q, a));
    }
  }

  /** From `2^1075` on the scale is 1074 and `2^1074` is at most half of `n`. */
  lemma UnderflowScale(n: Pos)
    requires n >= Pow2(1075)
    ensures ReciprocalScale(n) == 1074 && 2 * Pow2(1074) <= n
  {
    var l := BitLength(n);
    if l <= 1075 {
      Pow2Monotone(l, 1075);
    }
  }

  /** Below `2^1075`, `2^s` is more than half of `n`. */
  lemma NormalScale(n: Pos)
    requires n < Pow2(1075)
    ensures 2 * Pow2(ReciprocalScale(n)) > n
  {
    var l := BitLength(n);
    if l <= 1022 {
      Pow2Monotone(l, l + 52);
      assert ReciprocalScale(n) == l + 52;
    } else {
      assert ReciprocalScale(n) == 1074;
      assert Pow2(1075) == 2 * Pow2(1074);
    }
  }

  lemma ZeroQuotient(a: nat, n: Pos)
    requires 2 * a <= n
    ensures RoundHalfEven(a, n) == 0
  {
    DivModUnique(a, n, 0, a);
  }

  lemma PositiveQuotient(a: nat, n: Pos)
    requires 2 * a > n
    ensures RoundHalfEven(a, n) >= 1
  {
    RoundHalfEvenNearest(a, n);
  }

  lemma PositiveFraction(q: int, a: Pos, f: Frac)
    requires q >= 1 && f.Value() == q as real / a as real
    ensures f.num > 0
  {
    assert q as real / a as real > 0.0;
    assert f.num as real == f.Value() * f.den as real;
  }

  /** `Fraction(1/3)` is not `1/3` but the double nearest to it. */
  lemma ReciprocalOfThree()
    ensures FloatReciprocal(3) == Frac(6004799503160661, 18014398509481984)
  {
    BitLengthUnique(3, 2);
    Pow2Of54();
    DivModUnique(18014398509481984, 3, 6004799503160661, 1);
    var f := Frac(6004799503160661, 18014398509481984);
    assert Gcd(6004799503160661, 18014398509481984) == 1;
    NormalizeUnique(6004799503160661, 18014398509481984, f);
  }

  lemma Pow2Of54()
    ensures Pow2(54) == 18014398509481984
  {
    Pow2Of52();
    Pow2Add(52, 2);
  }

  lemma Pow2Of52()
    ensures Pow2(52) == 4503599627370496
  {
    Pow2Of48();
    Pow2Add(48, 4);
  }

  lemma Pow2Of48()
    ensures Pow2(48) == 281474976710656
  {
    Pow2Of16();
    Pow2Add(16, 16);
    Pow2Add(32, 16);
  }

  lemma Pow2Of16()
    ensures Pow2(16) == 65536
  {
    assert Pow2(4) == 16;
    Pow2Add(4, 4);
    Pow2Add(8, 8);
  }
}
