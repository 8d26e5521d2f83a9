/** Remainders of sums and products, stated so that every later proof can cite them one at a time. */
module ModArith {

  /** Quotient and remainder are the only pair with a == q * m + r and 0 <= r < m. */
  lemma DivModUnique(a: int, m: int, q: int, r: int)
    requires m > 0 && a == q * m + r && 0 <= r < m
    ensures a / m == q && a % m == r
  {
    var d := q - a / m;
    assert d * m == a % m - r by {
      assert a == (a / m) * m + a % m;
      assert d * m == q * m - (a / m) * m;
    }
    SmallMultiple(d, m);
  }

  lemma SmallMultiple(d: int, m: int)
    requires m > 0 && -m < d * m < m
    ensures d == 0
  {
  }

  lemma ModPlusMultiple(a: int, k: int, m: int)
    requires m > 0
    ensures (a + k * m) % m == a % m
  {
    assert (a / m + k) * m == (a / m) * m + k * m;
    DivModUnique(a + k * m, m, a / m + k, a % m);
  }

  lemma MultipleMod(k: int, m: int)
    requires m > 0
    ensures (k * m) % m == 0 && (k * m) / m == k
  {
    DivModUnique(k * m, m, k, 0);
  }

  /** Equal remainders, as a quotient. */
  lemma SameModQuotient(a: int, b: int, m: int) returns (k: int)
    requires m > 0 && a % m == b % m
    ensures a == b + k * m
  {
    k := a / m - b / m;
    assert k * m == (a / m) * m - (b / m) * m;
  }

  lemma SameMod(a: int, b: int, k: int, m: int)
    requires m > 0 && a == b + k * m
    ensures a % m == b % m
  {
    ModPlusMultiple(b, k, m);
  }

  lemma AddMod(a: int, b: int, m: int)
    requires m > 0
    ensures (a % m + b) % m == (a + b) % m
    ensures (a + b % m) % m == (a + b) % m
    ensures (a % m + b % m) % m == (a + b) % m
  {
    AddModLeft(a, b, m);
    AddModLeft(b, a, m);
    AddModLeft(a, b % m, m);
  }

  lemma AddModLeft(a: int, b: int, m: int)
    requires m > 0
    ensures (a % m + b) % m == (a + b) % m
  {
    SameMod(a + b, a % m + b, a / m, m);
  }

  lemma SubMod(a: int, b: int, m: int)
    requires m > 0
    ensures (a - b % m) % m == (a - b) % m
    ensures (a % m - b) % m == (a - b) % m
  {
    var q := b / m;
    assert b == q * m + b % m;
    SameMod(a - b % m, a - b, q, m);
    SameMod(a - b, a % m - b, a / m, m);
  }

  lemma MulMod(a: int, b: int, m: int)
    requires m > 0
    ensures ((a % m) * b) % m == (a * b) % m
    ensures (a * (b % m)) % m == (a * b) % m
    ensures ((a % m) * (b % m)) % m == (a * b) % m
  {
    MulModLeft(a, b, m);
    MulModLeft(b, a, m);
    MulModLeft(a, b % m, m);
    assert (b % m) * a == a * (b % m) && b * a == a * b;
  }

  lemma MulModLeft(a: int, b: int, m: int)
    requires m > 0
    ensures ((a % m) * b) % m == (a * b) % m
  {
    var q := a / m;
    assert a * b == (a % m) * b + (q * b) * m by {
      assert a == q * m + a % m;
      assert (q * m) * b == (q * b) * m;
      assert (q * m + a % m) * b == (q * m) * b + (a % m) * b;
    }
    ModPlusMultiple((a % m) * b, q * b, m);
  }

  lemma SameModMul(a: int, b: int, c: int, m: int)
    requires m > 0 && a % m == b % m
    ensures (a * c) % m == (b * c) % m
    ensures (c * a) % m == (c * b) % m
  {
    MulModLeft(a, c, m);
    MulModLeft(b, c, m);
    assert c * a == a * c && c * b == b * c;
  }

  lemma SameModAdd(a: int, b: int, c: int, m: int)
    requires m > 0 && a % m == b % m
    ensures (a + c) % m == (b + c) % m
  {
    AddMod(a, c, m);
    AddMod(b, c, m);
  }

  lemma SmallMod(a: int, m: int)
    requires 0 <= a < m
    ensures a % m == a
  {
  }

  lemma MulAssociative(a: int, b: int, c: int)
    ensures (a * b) * c == a * (b * c)
  {
  }

  /** A number with remainder 0 is a multiple. */
  lemma ModZero(a: int, m: int)
    requires m > 0 && a % m == 0
    ensures a == (a / m) * m
  {
  }

  lemma MulMonotone(a: int, b: int, w: nat)
    requires a <= b
    ensures a * w <= b * w
  {
  }

  lemma ZeroTimes(a: int, b: int, m: int)
    requires m > 0 && a % m == 0
    ensures (a * b) % m == 0 && (b * a) % m == 0
  {
    ModZero(a, m);
    assert ((a / m) * m) * b == ((a / m) * b) * m;
    MultipleMod((a / m) * b, m);
    assert b * a == a * b;
  }

  /** Sums of congruent numbers are congruent. */
  lemma SumCongruent(x: int, y: int, s: int, t: int, m: int)
    requires m > 0 && x % m == y % m && s % m == t % m
    ensures (x + s) % m == (y + t) % m
  {
    SameModAdd(x, y, s, m);
    SameModAdd(s, t, y, m);
  }

  // ---- Powers of two ----

  function Two(b: nat): (r: nat)
    ensures r > 0
  {
    if b == 0 then 1 else 2 * Two(b - 1)
  }

  lemma {:induction false} TwoAdd(a: nat, b: nat)
    ensures Two(a + b) == Two(a) * Two(b)
  {
    if a > 0 {
      TwoAdd(a - 1, b);
      MulAssociative(2, Two(a - 1), Two(b));
    }
  }

  lemma {:induction false} TwoMonotone(a: nat, b: nat)
    requires a <= b
    ensures Two(a) <= Two(b)
  {
    if a < b {
      TwoMonotone(a, b - 1);
    }
  }

  lemma TwoStep(b: nat)
    ensures Two(b + 1) == 2 * Two(b) && Two(1) == 2 && Two(0) == 1
  {
  }

  lemma TwoValues()
    ensures Two(32) == 0x1_0000_0000 && Two(60) == 0x1000_0000_0000_0000 && Two(61) == 0x2000_0000_0000_0000
    ensures Two(64) == 0x1_0000_0000_0000_0000
  {
    hide Two;
    TwoStep(0);
    TwoAdd(1, 1);
    TwoAdd(2, 2);
    TwoAdd(4, 4);
    TwoAdd(8, 8);
    TwoAdd(16, 16);
    TwoAdd(16, 8);
    TwoAdd(24, 4);
    TwoAdd(32, 28);
    TwoStep(60);
    TwoAdd(32, 32);
  }
}
