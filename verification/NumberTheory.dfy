/** Powers, primes, Euclid's and Fermat's theorems, and inverses modulo a coprime number. */
module NumberTheory {
  import opened ModArith

  function Pow(a: int, e: nat): int {
    if e == 0 then 1 else a * Pow(a, e - 1)
  }

  lemma {:induction false} PowAdd(a: int, d: nat, e: nat)
    ensures Pow(a, d + e) == Pow(a, d) * Pow(a, e)
  {
    if d > 0 {
      PowAdd(a, d - 1, e);
      MulAssociative(a, Pow(a, d - 1), Pow(a, e));
    }
  }

  lemma {:induction false} PowMul(a: int, b: int, e: nat)
    ensures Pow(a * b, e) == Pow(a, e) * Pow(b, e)
  {
    if e > 0 {
      PowMul(a, b, e - 1);
      calc {
        Pow(a * b, e);
        (a * b) * (Pow(a, e - 1) * Pow(b, e - 1));
        (a * Pow(a, e - 1)) * (b * Pow(b, e - 1));
      }
    }
  }

  /** Squaring the base halves the exponent. */
  lemma PowSquare(a: int, e: nat)
    ensures Pow(a, 2 * e) == Pow(a * a, e)
  {
    PowAdd(a, e, e);
    PowMul(a, a, e);
  }

  lemma {:induction false} PowCongruent(a: int, b: int, e: nat, m: int)
    requires m > 0 && a % m == b % m
    ensures Pow(a, e) % m == Pow(b, e) % m
  {
    if e > 0 {
      PowCongruent(a, b, e - 1, m);
      SameModMul(Pow(a, e - 1), Pow(b, e - 1), a, m);
      SameModMul(a, b, Pow(b, e - 1), m);
    }
  }

  lemma {:induction false} PowPositive(a: int, e: nat)
    requires a > 0
    ensures Pow(a, e) > 0
  {
    if e > 0 {
      PowPositive(a, e - 1);
    }
  }

  // ---- Primes ----

  ghost predicate Prime(p: int) {
    p >= 2 && forall d :: 2 <= d < p ==> p % d != 0
  }

  /** Euclid: a prime that divides a product and not the first factor divides the second. */
  lemma {:induction false} Euclid(p: int, a: int, b: int)
    requires Prime(p) && 0 < a < p && (a * b) % p == 0
    ensures b % p == 0
    decreases a
  {
    if a > 1 {
      var k, r := p / a, p % a;
      assert r * b == b * p + (-k) * (a * b) by {
        assert r == p - k * a;
        assert (k * a) * b == k * (a * b);
        assert (p - k * a) * b == p * b - (k * a) * b;
      }
      ModZero(a * b, p);
      var c := (a * b) / p;
      assert r * b == (b + (-k) * c) * p by {
        assert (-k) * (c * p) == ((-k) * c) * p;
        assert (b + (-k) * c) * p == b * p + ((-k) * c) * p;
      }
      MultipleMod(b + (-k) * c, p);
      Euclid(p, r, b);
    }
  }

  lemma EuclidAny(p: int, a: int, b: int)
    requires Prime(p) && a % p != 0 && (a * b) % p == 0
    ensures b % p == 0
  {
    MulMod(a, b, p);
    Euclid(p, a % p, b);
  }

  // ---- Fermat ----

  /** Pascal's triangle. */
  function Choose(n: nat, k: nat): nat {
    if k == 0 then 1 else if n == 0 then 0 else Choose(n - 1, k) + Choose(n - 1, k - 1)
  }

  lemma {:induction false} ChooseZero(n: nat, k: nat)
    requires k > n
    ensures Choose(n, k) == 0
  {
    if n > 0 {
      ChooseZero(n - 1, k);
      ChooseZero(n - 1, k - 1);
    }
  }

  lemma {:induction false} ChooseAll(n: nat)
    ensures Choose(n, n) == 1
  {
    if n > 0 {
      ChooseAll(n - 1);
      ChooseZero(n - 1, n);
    }
  }

  lemma {:induction false} Absorption(n: nat, k: nat)
    requires n > 0 && k > 0
    ensures k * Choose(n, k) == n * Choose(n - 1, k - 1)
    decreases n
  {
    if n == 1 {
      if k > 1 {
        ChooseZero(0, k);
        ChooseZero(0, k - 1);
      }
    } else if k == 1 {
      Absorption(n - 1, 1);
    } else {
      Absorption(n - 1, k);
      Absorption(n - 1, k - 1);
      AbsorptionStep(n, k, Choose(n - 1, k), Choose(n - 1, k - 1), Choose(n - 2, k - 1), Choose(n - 2, k - 2));
    }
  }

  lemma AbsorptionStep(n: int, k: int, c: int, d: int, e: int, f: int)
    requires k * c == (n - 1) * e && (k - 1) * d == (n - 1) * f && d == e + f
    ensures k * (c + d) == n * d
  {
    assert (n - 1) * e + (n - 1) * f == (n - 1) * d;
  }

  /** A prime divides every entry of its row but the two outer ones. */
  lemma PrimeRow(p: nat, k: nat)
    requires Prime(p) && 0 < k < p
    ensures Choose(p, k) % p == 0
  {
    Absorption(p, k);
    assert k * Choose(p, k) == Choose(p - 1, k - 1) * p;
    MultipleMod(Choose(p - 1, k - 1), p);
    Euclid(p, k, Choose(p, k));
  }

  /** The first m terms of the expansion of (1 + a)^n. */
  function Expansion(n: nat, m: nat, a: int): int {
    if m == 0 then 0 else Expansion(n, m - 1, a) + Choose(n, m - 1) * Pow(a, m - 1)
  }

  lemma {:induction false} ExpansionStep(n: nat, m: nat, a: int)
    ensures Expansion(n + 1, m + 1, a) == Expansion(n, m + 1, a) + a * Expansion(n, m, a)
    decreases m
  {
    if m == 0 {
      assert Expansion(n + 1, 0, a) == Expansion(n, 0, a) == 0;
    } else {
      ExpansionStep(n, m - 1, a);
      ExpansionAlgebra(Expansion(n, m - 1, a), Choose(n, m), Choose(n, m - 1), Pow(a, m - 1), a);
    }
  }

  lemma ExpansionAlgebra(e: int, c: int, d: int, x: int, a: int)
    ensures ((e + d * x) + a * e) + (c + d) * (a * x) == (e + d * x + c * (a * x)) + a * (e + d * x)
  {
    assert (c + d) * (a * x) == c * (a * x) + d * (a * x);
    assert d * (a * x) == a * (d * x);
  }

  lemma {:induction false} BinomialTheorem(n: nat, a: int)
    ensures Expansion(n, n + 1, a) == Pow(1 + a, n)
  {
    if n == 0 {
      assert Expansion(0, 1, a) == Expansion(0, 0, a) + Choose(0, 0) * Pow(a, 0);
    } else {
      BinomialTheorem(n - 1, a);
      ExpansionStep(n - 1, n, a);
      LastTerm(n - 1, a);
      Distribute(a, Pow(1 + a, n - 1));
    }
  }

  lemma LastTerm(n: nat, a: int)
    ensures Expansion(n, n + 2, a) == Expansion(n, n + 1, a)
  {
    ChooseZero(n, n + 1);
    assert 0 * Pow(a, n + 1) == 0;
  }

  lemma Distribute(a: int, x: int)
    ensures x + a * x == (1 + a) * x
  {
  }

  lemma {:induction false} ExpansionModPrime(p: nat, m: nat, a: int)
    requires Prime(p) && 1 <= m <= p
    ensures Expansion(p, m, a) % p == 1
    decreases m
  {
    if m == 1 {
      assert Expansion(p, 0, a) == 0 && Pow(a, 0) == 1;
    } else {
      ExpansionModPrime(p, m - 1, a);
      PrimeRow(p, m - 1);
      AddMultiple(Expansion(p, m - 1, a), Choose(p, m - 1), Pow(a, m - 1), p);
    }
  }

  lemma AddMultiple(e: int, c: int, x: int, m: int)
    requires m > 0 && c % m == 0
    ensures (e + c * x) % m == e % m
  {
    ModZero(c, m);
    assert ((c / m) * m) * x == ((c / m) * x) * m;
    SameMod(e + c * x, e, (c / m) * x, m);
  }

  lemma FreshmansDream(p: nat, a: int)
    requires Prime(p)
    ensures Pow(1 + a, p) % p == (1 + Pow(a, p)) % p
  {
    BinomialTheorem(p, a);
    ChooseAll(p);
    ExpansionModPrime(p, p, a);
    AddMod(Expansion(p, p, a), Pow(a, p), p);
  }

  lemma {:induction false} FermatPower(p: nat, a: nat)
    requires Prime(p)
    ensures Pow(a, p) % p == a % p
  {
    if a == 0 {
      assert Pow(0, p) == 0 * Pow(0, p - 1);
    } else {
      FermatPower(p, a - 1);
      FreshmansDream(p, a - 1);
      AddMod(1, Pow(a - 1, p), p);
      AddMod(1, a - 1, p);
    }
  }

  /** Fermat's little theorem. */
  lemma Fermat(p: nat, a: nat)
    requires Prime(p) && a % p != 0
    ensures Pow(a, p - 1) % p == 1
  {
    FermatPower(p, a);
    CancelOne(p, a, Pow(a, p - 1));
  }

  lemma CancelOne(p: nat, a: nat, x: int)
    requires Prime(p) && p >= 2 && a % p != 0 && (a * x) % p == a % p
    ensures x % p == 1
  {
    hide Prime;
    var k := SameModQuotient(a * x, a, p);
    assert a * (x - 1) == k * p;
    MultipleMod(k, p);
    EuclidAny(p, a, x - 1);
    SameMod(x, 1, (x - 1) / p, p) by {
      ModZero(x - 1, p);
    }
    SmallMod(1, p);
  }

  // ---- Inverses modulo a coprime number ----

  function Gcd(a: nat, b: nat): nat
    decreases b
  {
    if b == 0 then a else Gcd(b, a % b)
  }

  ghost predicate Coprime(a: nat, b: nat) {
    Gcd(a, b) == 1
  }

  /** Extended Euclid: u with u * a congruent to Gcd(a, b) modulo b. */
  function Bezout(a: nat, b: nat): (r: (int, int))
    ensures r.0 * a + r.1 * b == Gcd(a, b)
    decreases b
  {
    if b == 0 then (1, 0)
    else
      var (u, v) := Bezout(b, a % b);
      BezoutStep(a, b, u, v);
      (v, u - (a / b) * v)
  }

  lemma BezoutStep(a: nat, b: nat, u: int, v: int)
    requires b > 0
    ensures v * a + (u - (a / b) * v) * b == u * b + v * (a % b)
  {
    var k := a / b;
    assert v * a == v * (k * b) + v * (a % b);
    assert (u - k * v) * b == u * b - (k * v) * b;
    assert (k * v) * b == v * (k * b);
  }

  /** The inverse of a modulo m, for coprime a and m (BigInteger::ModInverse). */
  function ModInverse(a: nat, m: nat): (x: nat)
    requires m > 0 && Coprime(a, m)
    ensures x < m && (a * x) % m == 1 % m
  {
    var (u, v) := Bezout(a, m);
    assert u * a == 1 + (-v) * m;
    ModPlusMultiple(1, -v, m);
    MulMod(a, u, m);
    assert a * u == u * a;
    u % m
  }

  /** Whether something multiplies a to 1 modulo m. */
  ghost predicate Invertible(a: int, m: int)
    requires m > 0
  {
    exists x: int :: (a * x) % m == 1 % m
  }

  lemma CoprimeInvertible(a: nat, m: nat)
    requires m > 0 && Coprime(a, m)
    ensures Invertible(a, m)
  {
    assert (a * ModInverse(a, m)) % m == 1 % m;
  }

  lemma ProductInvertible(a: int, b: int, m: int)
    requires m > 0 && Invertible(a, m) && Invertible(b, m)
    ensures Invertible(a * b, m)
  {
    var x: int :| (a * x) % m == 1 % m;
    var y: int :| (b * y) % m == 1 % m;
    assert (a * b) * (x * y) == (a * x) * (b * y) by {
      assert (a * b) * (x * y) == a * (b * (x * y));
      assert b * (x * y) == x * (b * y);
      assert a * (x * (b * y)) == (a * x) * (b * y);
    }
    SameModMul(a * x, 1, b * y, m);
    assert ((a * b) * (x * y)) % m == 1 % m;
  }

  /** What an invertible number may be cancelled from. */
  lemma Cancel(a: int, b: int, c: int, m: int)
    requires m > 0 && Invertible(a, m) && (a * b) % m == (a * c) % m
    ensures b % m == c % m
  {
    var x: int :| (a * x) % m == 1 % m;
    SameModMul(a * b, a * c, x, m);
    assert (a * b) * x == (a * x) * b && (a * c) * x == (a * x) * c;
    SameModMul(a * x, 1, b, m);
    SameModMul(a * x, 1, c, m);
  }

  lemma {:induction false} GcdDivides(a: nat, b: nat)
    requires Gcd(a, b) > 0
    ensures a % Gcd(a, b) == 0 && b % Gcd(a, b) == 0
    decreases b
  {
    var g := Gcd(a, b);
    if b == 0 {
      MultipleMod(1, g);
    } else {
      GcdDivides(b, a % b);
      ModZero(b, g);
      ModZero(a % b, g);
      assert a == (a / b) * b + a % b;
      assert (a / b) * ((b / g) * g) == ((a / b) * (b / g)) * g;
      assert ((a / b) * (b / g)) * g + ((a % b) / g) * g == ((a / b) * (b / g) + (a % b) / g) * g;
      MultipleMod((a / b) * (b / g) + (a % b) / g, g);
    }
  }

  lemma {:induction false} GcdPositive(a: nat, b: nat)
    requires a > 0 || b > 0
    ensures Gcd(a, b) > 0
    decreases b
  {
    if b > 0 {
      GcdPositive(b, a % b);
    }
  }

  /** What has an inverse modulo m shares no divisor with m. */
  lemma InvertibleCoprime(a: nat, m: nat)
    requires m > 1 && Invertible(a, m)
    ensures Coprime(a, m)
  {
    var x: int :| (a * x) % m == 1 % m;
    var g := Gcd(a, m);
    GcdPositive(a, m);
    GcdDivides(a, m);
    SmallMod(1, m);
    var k := SameModQuotient(a * x, 1, m);
    ModZero(a, g);
    ModZero(m, g);
    DividesOne(a / g, m / g, x, k, g);
  }

  lemma DividesOne(a: int, m: int, x: int, k: int, g: nat)
    requires g > 0 && (a * g) * x == 1 + k * (m * g)
    ensures g == 1
  {
    assert (a * x - k * m) * g == 1 by {
      assert (a * g) * x == (a * x) * g;
      assert k * (m * g) == (k * m) * g;
      assert (a * x - k * m) * g == (a * x) * g - (k * m) * g;
    }
    if g > 1 {
      SmallMultiple(a * x - k * m, g);
    }
  }

  lemma ModInvertible(a: nat, m: nat)
    requires m > 0 && Invertible(a, m)
    ensures Invertible(a % m, m)
  {
    var x: int :| (a * x) % m == 1 % m;
    MulModLeft(a, x, m);
    assert ((a % m) * x) % m == 1 % m;
  }
}
