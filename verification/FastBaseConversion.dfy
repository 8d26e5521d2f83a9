/**
 Fast base conversion: from the residues of X modulo a base of pairwise coprime primes to residues
 modulo other primes. The result is that of one integer congruent to X, off by less than k times
 the base's product (half of that, and either way, in the centred variant).
 */
module FastBaseConversion {
  import opened ModArith
  import opened NumberTheory
  import opened SwitchModulus

  function Prod(base: seq<nat>): nat {
    if base == [] then 1 else Prod(base[..|base| - 1]) * base[|base| - 1]
  }

  /** The product of all primes but the i-th. */
  function Hat(base: seq<nat>, i: nat): nat
    requires i < |base|
  {
    Prod(base[..i]) * Prod(base[i + 1..])
  }

  ghost predicate PairwiseCoprime(base: seq<nat>) {
    && (forall i :: 0 <= i < |base| ==> base[i] > 1)
    && forall i, j :: 0 <= i < |base| && 0 <= j < |base| && i != j ==> Coprime(base[i], base[j])
  }

  // ---- Products ----

  lemma {:induction false} ProdConcat(s: seq<nat>, t: seq<nat>)
    ensures Prod(s + t) == Prod(s) * Prod(t)
    decreases |t|
  {
    if t == [] {
      assert s + t == s;
    } else {
      var n := |t| - 1;
      assert (s + t)[..|s| + n] == s + t[..n];
      ProdConcat(s, t[..n]);
      MulAssociative(Prod(s), Prod(t[..n]), t[n]);
    }
  }

  lemma ProdOne(x: nat)
    ensures Prod([x]) == x
  {
    assert [x][..0] == [];
  }

  lemma HatTimes(base: seq<nat>, i: nat)
    requires i < |base|
    ensures Hat(base, i) * base[i] == Prod(base)
  {
    hide Prod;
    var s, t := base[..i], base[i + 1..];
    assert base == (s + [base[i]]) + t;
    ProdConcat(s + [base[i]], t);
    ProdConcat(s, [base[i]]);
    ProdOne(base[i]);
    SwapLast(Prod(s), base[i], Prod(t));
  }

  lemma SwapLast(a: int, b: int, c: int)
    ensures (a * b) * c == (a * c) * b
  {
  }

  /** The division Q / q_i of the reference is exact. */
  lemma HatIsQuotient(base: seq<nat>, i: nat)
    requires i < |base| && base[i] > 0
    ensures Prod(base) / base[i] == Hat(base, i)
  {
    HatTimes(base, i);
    MultipleMod(Hat(base, i), base[i]);
  }

  lemma {:induction false} ProdPositive(base: seq<nat>)
    requires forall i :: 0 <= i < |base| ==> base[i] > 0
    ensures Prod(base) > 0
    decreases |base|
  {
    if base != [] {
      ProdPositive(base[..|base| - 1]);
      PositiveProduct(Prod(base[..|base| - 1]), base[|base| - 1]);
    }
  }

  lemma PositiveProduct(x: nat, y: nat)
    requires x > 0 && y > 0
    ensures x * y > 0
  {
  }

  /** A product of numbers invertible modulo m is invertible. */
  lemma {:induction false} ProdInvertible(s: seq<nat>, m: nat)
    requires m > 0 && forall i :: 0 <= i < |s| ==> Invertible(s[i], m)
    ensures Invertible(Prod(s), m)
    decreases |s|
  {
    hide Invertible;
    if s == [] {
      OneInvertible(m);
    } else {
      ProdInvertible(s[..|s| - 1], m);
      ProductInvertible(Prod(s[..|s| - 1]), s[|s| - 1], m);
    }
  }

  lemma OneInvertible(m: nat)
    requires m > 0
    ensures Invertible(1, m)
  {
    assert (1 * 1) % m == 1 % m;
  }

  lemma HatInvertible(base: seq<nat>, i: nat)
    requires PairwiseCoprime(base) && i < |base|
    ensures Invertible(Hat(base, i), base[i])
  {
    hide Coprime, Invertible;
    forall j | 0 <= j < |base| && j != i ensures Invertible(base[j], base[i]) {
      CoprimeInvertible(base[j], base[i]);
    }
    var t := base[i + 1..];
    forall j | 0 <= j < |t| ensures Invertible(t[j], base[i]) {
      assert t[j] == base[i + 1 + j];
    }
    ProdInvertible(base[..i], base[i]);
    ProdInvertible(t, base[i]);
    ProductInvertible(Prod(base[..i]), Prod(t), base[i]);
  }

  /** Qhat_i is zero modulo every other prime of the base. */
  lemma HatVanishes(base: seq<nat>, i: nat, j: nat)
    requires i < |base| && j < |base| && i != j && base[j] > 0
    ensures Hat(base, i) % base[j] == 0
  {
    hide Prod;
    if j < i {
      MemberDivides(base[..i], j);
      ZeroTimes(Prod(base[..i]), Prod(base[i + 1..]), base[j]);
    } else {
      var t := base[i + 1..];
      assert t[j - i - 1] == base[j];
      MemberDivides(t, j - i - 1);
      ZeroTimes(Prod(t), Prod(base[..i]), base[j]);
    }
  }

  lemma MemberDivides(s: seq<nat>, i: nat)
    requires i < |s| && s[i] > 0
    ensures Prod(s) % s[i] == 0
  {
    HatTimes(s, i);
    MultipleMod(Hat(s, i), s[i]);
  }

  // ---- The conversion of one coefficient ----

  lemma HatCoprime(base: seq<nat>, i: nat)
    requires PairwiseCoprime(base) && i < |base|
    ensures Coprime(Hat(base, i) % base[i], base[i])
  {
    HatInvertible(base, i);
    ModInvertible(Hat(base, i), base[i]);
    InvertibleCoprime(Hat(base, i) % base[i], base[i]);
  }

  /** The inverse of Qhat_i modulo q_i. */
  function HatInverse(base: seq<nat>, i: nat): nat
    requires PairwiseCoprime(base) && i < |base|
  {
    HatCoprime(base, i);
    ModInverse(Hat(base, i) % base[i], base[i])
  }

  function Scaled(x: seq<nat>, base: seq<nat>, i: nat): (v: nat)
    requires PairwiseCoprime(base) && i < |base| == |x|
    ensures v < base[i]
  {
    (x[i] * HatInverse(base, i)) % base[i]
  }

  /** What residue i contributes: the scaled residue, or its signed representative. */
  function Contribution(x: seq<nat>, base: seq<nat>, i: nat, centred: bool): int
    requires PairwiseCoprime(base) && i < |base| == |x|
  {
    if centred then Signed(Scaled(x, base, i), base[i], Half(base[i])) else Scaled(x, base, i)
  }

  function PartialSum(x: seq<nat>, base: seq<nat>, centred: bool, m: nat): int
    requires PairwiseCoprime(base) && m <= |base| == |x|
  {
    if m == 0 then 0
    else PartialSum(x, base, centred, m - 1) + Contribution(x, base, m - 1, centred) * Hat(base, m - 1)
  }

  /** The integer whose residues the conversion computes. */
  function Lift(x: seq<nat>, base: seq<nat>, centred: bool): int
    requires PairwiseCoprime(base) && |x| == |base|
  {
    PartialSum(x, base, centred, |base|)
  }

  // ---- One integer, congruent to X ----

  lemma ContributionMod(x: seq<nat>, base: seq<nat>, i: nat, centred: bool)
    requires PairwiseCoprime(base) && i < |base| == |x|
    ensures (Contribution(x, base, i, centred) * Hat(base, i)) % base[i] == x[i] % base[i]
  {
    hide PairwiseCoprime, Hat, HatInverse, Prod;
    var q, h, inv := base[i], Hat(base, i), HatInverse(base, i);
    ScaledMod(x, base, i, centred);
    HatInverseInverts(base, i);
    SameModMul(Contribution(x, base, i, centred), x[i] * inv, h, q);
    InverseCancels(x[i], inv, h, q);
  }

  lemma InverseCancels(x: int, inv: int, h: int, q: nat)
    requires q > 0 && (h * inv) % q == 1 % q
    ensures ((x * inv) * h) % q == x % q
  {
    MulAssociative(x, inv, h);
    assert inv * h == h * inv;
    SameModMul(h * inv, 1, x, q);
    assert x * 1 == x;
  }

  lemma HatInverseInverts(base: seq<nat>, i: nat)
    requires PairwiseCoprime(base) && i < |base|
    ensures base[i] > 0 && (Hat(base, i) * HatInverse(base, i)) % base[i] == 1 % base[i]
  {
    hide PairwiseCoprime, Hat;
    HatCoprime(base, i);
    BaseAboveOne(base, i);
    MulModLeft(Hat(base, i), HatInverse(base, i), base[i]);
  }

  lemma BaseAboveOne(base: seq<nat>, i: nat)
    requires PairwiseCoprime(base) && i < |base|
    ensures base[i] > 1
  {
  }

  lemma ScaledMod(x: seq<nat>, base: seq<nat>, i: nat, centred: bool)
    requires PairwiseCoprime(base) && i < |base| == |x|
    ensures base[i] > 0 && Contribution(x, base, i, centred) % base[i] == (x[i] * HatInverse(base, i)) % base[i]
  {
    hide HatInverse;
    var q := base[i];
    var p := x[i] * HatInverse(base, i);
    if Contribution(x, base, i, centred) != p % q {
      SameMod(p % q - q, p % q, -1, q);
    }
  }

  lemma AddRemainders(a: int, b: int, m: nat)
    requires m > 0 && (a % m == 0 || b % m == 0)
    ensures (a + b) % m == if a % m == 0 then b % m else a % m
  {
    SmallMod(0, m);
    if a % m == 0 {
      SumCongruent(a, 0, b, b, m);
    } else {
      SumCongruent(a, a, b, 0, m);
    }
  }

  lemma {:induction false} PartialSumMod(x: seq<nat>, base: seq<nat>, centred: bool, m: nat, j: nat)
    requires PairwiseCoprime(base) && m <= |base| == |x| && j < |base|
    ensures base[j] > 0
    ensures PartialSum(x, base, centred, m) % base[j] == if j < m then x[j] % base[j] else 0
  {
    hide PairwiseCoprime, Hat, Contribution;
    BaseAboveOne(base, j);
    if m > 0 {
      var i := m - 1;
      PartialSumMod(x, base, centred, i, j);
      var c := Contribution(x, base, i, centred);
      if i == j {
        ContributionMod(x, base, i, centred);
      } else {
        HatVanishes(base, i, j);
        ZeroTimes(Hat(base, i), c, base[j]);
      }
      AddRemainders(PartialSum(x, base, centred, i), c * Hat(base, i), base[j]);
    } else {
      SmallMod(0, base[j]);
    }
  }

  /** The lifted integer has the given residues. */
  lemma LiftHasResidues(x: seq<nat>, base: seq<nat>, centred: bool, j: nat)
    requires PairwiseCoprime(base) && |base| == |x| && j < |base|
    ensures base[j] > 0 && Lift(x, base, centred) % base[j] == x[j] % base[j]
  {
    PartialSumMod(x, base, centred, |base|, j);
  }

  ghost predicate ResiduesOf(x: seq<nat>, base: seq<nat>, value: int) {
    |x| == |base| && forall i :: 0 <= i < |base| && base[i] > 0 ==> x[i] % base[i] == value % base[i]
  }

  /** Numbers that agree modulo pairwise coprime moduli agree modulo their product. */
  lemma {:induction false} ChineseRemainder(base: seq<nat>, m: nat, v: int, w: int)
    requires PairwiseCoprime(base) && m <= |base|
    requires forall i :: 0 <= i < m ==> v % base[i] == w % base[i]
    ensures Prod(base[..m]) > 0 && v % Prod(base[..m]) == w % Prod(base[..m])
  {
    if m == 0 {
      assert base[..0] == [];
      assert v % 1 == 0 && w % 1 == 0;
    } else {
      var n := m - 1;
      ChineseRemainder(base, n, v, w);
      assert base[..m][..n] == base[..n];
      PrefixInvertible(base, n);
      var p, q := Prod(base[..n]), base[n];
      var k := SameModQuotient(v, w, p);
      BothDivide(v, w, p, q, k);
    }
  }

  lemma PrefixInvertible(base: seq<nat>, n: nat)
    requires PairwiseCoprime(base) && n < |base|
    ensures base[n] > 0 && Invertible(Prod(base[..n]), base[n])
  {
    hide Coprime, Invertible;
    forall i | 0 <= i < n ensures Invertible(base[..n][i], base[n]) {
      CoprimeInvertible(base[i], base[n]);
    }
    ProdInvertible(base[..n], base[n]);
  }

  lemma BothDivide(v: int, w: int, p: nat, q: nat, k: int)
    requires p > 0 && q > 0 && v == w + k * p && v % q == w % q && Invertible(p, q)
    ensures p * q > 0 && v % (p * q) == w % (p * q)
  {
    hide Invertible;
    PositiveProduct(p, q);
    var l := SameModQuotient(v, w, q);
    assert p * k == l * q;
    MultipleMod(l, q);
    assert p * 0 == 0;
    Cancel(p, k, 0, q);
    ModZero(k, q);
    var c := k / q;
    assert (c * q) * p == c * (p * q);
    SameMod(v, w, c, p * q);
  }

  /** The lifted integer is congruent to X modulo the product of the base. */
  lemma LiftCongruent(x: seq<nat>, base: seq<nat>, centred: bool, value: int)
    requires PairwiseCoprime(base) && ResiduesOf(x, base, value)
    ensures Prod(base) > 0 && Lift(x, base, centred) % Prod(base) == value % Prod(base)
  {
    hide Lift, Prod;
    forall i | 0 <= i < |base| ensures base[i] > 0 && Lift(x, base, centred) % base[i] == value % base[i] {
      LiftHasResidues(x, base, centred, i);
    }
    ChineseRemainder(base, |base|, Lift(x, base, centred), value);
    assert base[..|base|] == base;
  }

  // ---- Bounds ----

  lemma {:induction false} StandardBound(x: seq<nat>, base: seq<nat>, m: nat)
    requires PairwiseCoprime(base) && m <= |base| == |x|
    ensures 0 <= PartialSum(x, base, false, m) <= m * Prod(base)
    ensures m > 0 ==> PartialSum(x, base, false, m) < m * Prod(base)
  {
    hide PairwiseCoprime, Hat, Scaled, Prod;
    if m > 0 {
      var i := m - 1;
      StandardBound(x, base, i);
      BaseAboveOne(base, i);
      HatTimes(base, i);
      HatPositive(base, i);
      TermBound(Scaled(x, base, i), base[i], Hat(base, i));
      assert m * Prod(base) == i * Prod(base) + Prod(base);
    }
  }

  lemma HatPositive(base: seq<nat>, i: nat)
    requires PairwiseCoprime(base) && i < |base|
    ensures Hat(base, i) > 0
  {
    ProdPositive(base[..i]);
    ProdPositive(base[i + 1..]);
    PositiveProduct(Prod(base[..i]), Prod(base[i + 1..]));
  }

  lemma TermBound(v: nat, q: nat, h: nat)
    requires v < q && h > 0
    ensures 0 <= v * h < h * q
  {
    assert (q - v) * h > 0;
    assert (q - v) * h == q * h - v * h;
  }

  lemma CentredTermBound(c: int, q: nat, h: nat)
    requires 0 - q < 2 * c < q && h > 0
    ensures -(h * q) < 2 * (c * h) < h * q
  {
    assert (q - 2 * c) * h > 0;
    assert (q - 2 * c) * h == q * h - 2 * (c * h);
    assert (q + 2 * c) * h > 0;
    assert (q + 2 * c) * h == q * h + 2 * (c * h);
  }

  lemma CentredContribution(x: seq<nat>, base: seq<nat>, i: nat)
    requires PairwiseCoprime(base) && i < |base| == |x| && base[i] % 2 == 1
    ensures 0 - base[i] < 2 * Contribution(x, base, i, true) < base[i]
  {
    hide Scaled;
  }

  lemma {:induction false} CentredBound(x: seq<nat>, base: seq<nat>, m: nat)
    requires PairwiseCoprime(base) && m <= |base| == |x| && forall i :: 0 <= i < |base| ==> base[i] % 2 == 1
    ensures -(m * Prod(base)) <= 2 * PartialSum(x, base, true, m) <= m * Prod(base)
    ensures m > 0 ==> -(m * Prod(base)) < 2 * PartialSum(x, base, true, m) < m * Prod(base)
  {
    hide PairwiseCoprime, Hat, Contribution, Prod;
    if m > 0 {
      var i := m - 1;
      CentredBound(x, base, i);
      BaseAboveOne(base, i);
      HatTimes(base, i);
      HatPositive(base, i);
      CentredContribution(x, base, i);
      CentredTermBound(Contribution(x, base, i, true), base[i], Hat(base, i));
      assert m * Prod(base) == i * Prod(base) + Prod(base);
    }
  }

  /** How far the lifted integer can be from its residue class. */
  lemma LiftBounds(x: seq<nat>, base: seq<nat>)
    requires PairwiseCoprime(base) && |x| == |base| > 0
    ensures 0 <= Lift(x, base, false) < |base| * Prod(base)
    ensures (forall i :: 0 <= i < |base| ==> base[i] % 2 == 1) ==>
      -(|base| * Prod(base)) < 2 * Lift(x, base, true) < |base| * Prod(base)
  {
    hide PairwiseCoprime, PartialSum, Prod;
    StandardBound(x, base, |base|);
    if forall i :: 0 <= i < |base| ==> base[i] % 2 == 1 {
      CentredBound(x, base, |base|);
    }
  }

  // ---- The residues computed ----

  function Find(base: seq<nat>, p: nat): (i: nat)
    requires p in base
    ensures i < |base| && base[i] == p && p !in base[..i]
  {
    if base[0] == p then 0
    else
      var i := Find(base[1..], p);
      assert base[..i + 1] == [base[0]] + base[1..][..i];
      i + 1
  }

  /** The residue modulo p: that of the base itself for a prime of the base, else the lift's. */
  function Converted(x: seq<nat>, base: seq<nat>, p: nat, centred: bool): nat
    requires PairwiseCoprime(base) && |x| == |base| && p > 0
  {
    if p in base then x[Find(base, p)] else Lift(x, base, centred) % p
  }

  /** Pass-through primes included, every converted residue is one integer's. */
  lemma ConvertedIsLift(x: seq<nat>, base: seq<nat>, p: nat, centred: bool)
    requires PairwiseCoprime(base) && |x| == |base| && p > 0 && forall i :: 0 <= i < |base| ==> x[i] < base[i]
    ensures Converted(x, base, p, centred) == Lift(x, base, centred) % p
  {
    hide Lift;
    if p in base {
      var i := Find(base, p);
      LiftHasResidues(x, base, centred, i);
      SmallMod(x[i], base[i]);
    }
  }

  /** The statement of the whole: for any X with the given residues there is one integer S, congruent
      to X modulo the base's product and bounded, whose residues are the result. */
  lemma ConversionMeans(x: seq<nat>, base: seq<nat>, centred: bool, value: int) returns (s: int)
    requires PairwiseCoprime(base) && |x| == |base| > 0 && forall i :: 0 <= i < |base| ==> x[i] < base[i]
    requires ResiduesOf(x, base, value)
    ensures Prod(base) > 0 && s % Prod(base) == value % Prod(base)
    ensures forall p: nat :: p > 0 ==> Converted(x, base, p, centred) == s % p
    ensures !centred ==> 0 <= s < |base| * Prod(base)
    ensures centred && (forall i :: 0 <= i < |base| ==> base[i] % 2 == 1) ==>
      -(|base| * Prod(base)) < 2 * s < |base| * Prod(base)
  {
    hide Lift, Converted, Prod;
    s := Lift(x, base, centred);
    LiftCongruent(x, base, centred, value);
    LiftBounds(x, base);
    forall p: nat | p > 0 ensures Converted(x, base, p, centred) == s % p {
      ConvertedIsLift(x, base, p, centred);
    }
  }

  // ---- The reference loops ----

  function Column(residues: seq<seq<nat>>, s: nat): (x: seq<nat>)
    requires forall i :: 0 <= i < |residues| ==> s < |residues[i]|
    ensures |x| == |residues|
  {
    seq(|residues|, i requires 0 <= i < |residues| => residues[i][s])
  }

  method Product(base: seq<nat>) returns (q: nat)
    ensures q == Prod(base)
  {
    q := 1;
    for i := 0 to |base|
      invariant q == Prod(base[..i])
    {
      assert base[..i + 1][..i] == base[..i];
      q := q * base[i];
    }
    assert base[..|base|] == base;
  }

  /** The inverses of Qhat_i modulo q_i and the residues of Qhat_i modulo every target. */
  method Tables(srcBase: seq<nat>, dstBase: seq<nat>) returns (qHat: seq<nat>, qStar: seq<seq<nat>>)
    requires PairwiseCoprime(srcBase) && forall j :: 0 <= j < |dstBase| ==> dstBase[j] > 0
    ensures |qHat| == |qStar| == |srcBase|
    ensures forall i :: 0 <= i < |srcBase| ==> qHat[i] == HatInverse(srcBase, i)
    ensures forall i :: 0 <= i < |srcBase| ==> |qStar[i]| == |dstBase|
    ensures forall i, j :: 0 <= i < |srcBase| && 0 <= j < |dstBase| ==> qStar[i][j] == Hat(srcBase, i) % dstBase[j]
  {
    hide Hat, Prod, Coprime;
    var q := Product(srcBase);
    qHat, qStar := [], [];
    for i := 0 to |srcBase|
      invariant |qHat| == |qStar| == i
      invariant forall k :: 0 <= k < i ==> qHat[k] == HatInverse(srcBase, k)
      invariant forall k :: 0 <= k < i ==> |qStar[k]| == |dstBase|
      invariant forall k, j :: 0 <= k < i && 0 <= j < |dstBase| ==> qStar[k][j] == Hat(srcBase, k) % dstBase[j]
    {
      HatIsQuotient(srcBase, i);
      HatCoprime(srcBase, i);
      var hat := q / srcBase[i];
      qHat := qHat + [ModInverse(hat % srcBase[i], srcBase[i])];
      var row := [];
      for j := 0 to |dstBase|
        invariant |row| == j && forall k :: 0 <= k < j ==> row[k] == hat % dstBase[k]
      {
        row := row + [hat % dstBase[j]];
      }
      qStar := qStar + [row];
    }
  }

  method ScaleSlot(x: seq<nat>, srcBase: seq<nat>, qHat: seq<nat>) returns (scaled: seq<nat>)
    requires PairwiseCoprime(srcBase) && |x| == |qHat| == |srcBase|
    requires forall i :: 0 <= i < |srcBase| ==> qHat[i] == HatInverse(srcBase, i)
    ensures |scaled| == |srcBase| && forall i :: 0 <= i < |srcBase| ==> scaled[i] == Scaled(x, srcBase, i)
  {
    hide HatInverse;
    scaled := [];
    for i := 0 to |srcBase|
      invariant |scaled| == i && forall k :: 0 <= k < i ==> scaled[k] == Scaled(x, srcBase, k)
    {
      scaled := scaled + [(x[i] * qHat[i]) % srcBase[i]];
    }
  }

  lemma AccumulateStep(acc: nat, at: nat, star: nat, sum: int, c: int, h: int, p: nat)
    requires p > 0 && acc % p == sum % p && at == c % p && star == h % p
    ensures (acc + at * star) % p == (sum + c * h) % p
  {
    MulMod(c, h, p);
    SumCongruent(acc, sum, at * star, c * h, p);
  }

  /** One output residue: the contributions, reduced modulo p one by one. */
  method Accumulate(scaled: seq<nat>, srcBase: seq<nat>, qStar: seq<seq<nat>>, j: nat, p: nat, centred: bool, ghost x: seq<nat>)
    returns (acc: nat)
    requires PairwiseCoprime(srcBase) && |scaled| == |qStar| == |x| == |srcBase| && p > 0
    requires forall i :: 0 <= i < |srcBase| ==> scaled[i] == Scaled(x, srcBase, i)
    requires forall i :: 0 <= i < |srcBase| ==> j < |qStar[i]| && qStar[i][j] == Hat(srcBase, i) % p
    ensures acc % p == Lift(x, srcBase, centred) % p
  {
    hide Scaled, Hat, PairwiseCoprime, OracleLift, Signed;
    acc := 0;
    for i := 0 to |srcBase|
      invariant acc % p == PartialSum(x, srcBase, centred, i) % p
    {
      OracleLiftMeans(scaled[i], srcBase[i], p);
      var atP := if centred then OracleLift(scaled[i], srcBase[i], p) else scaled[i] % p;
      AccumulateStep(acc, atP, qStar[i][j], PartialSum(x, srcBase, centred, i), Contribution(x, srcBase, i, centred),
                     Hat(srcBase, i), p);
      acc := acc + atP * qStar[i][j];
    }
  }

  method FastBaseConvert(residues: seq<seq<nat>>, srcBase: seq<nat>, dstBase: seq<nat>, ringDim: nat, centred: bool)
    returns (out: array2<nat>)
    requires PairwiseCoprime(srcBase) && |residues| == |srcBase|
    requires forall i :: 0 <= i < |residues| ==> |residues[i]| == ringDim
    requires forall j :: 0 <= j < |dstBase| ==> dstBase[j] > 0
    ensures fresh(out) && out.Length0 == |dstBase| && out.Length1 == ringDim
    ensures forall j, s :: 0 <= j < |dstBase| && 0 <= s < ringDim ==>
      out[j, s] == Converted(Column(residues, s), srcBase, dstBase[j], centred)
  {
    hide HatInverse, Hat, Lift, Scaled, Prod, Coprime;
    var qHat, qStar := Tables(srcBase, dstBase);
    out := new nat[|dstBase|, ringDim]((_, _) => 0);
    for s := 0 to ringDim
      invariant forall j, t :: 0 <= j < |dstBase| && 0 <= t < s ==>
        out[j, t] == Converted(Column(residues, t), srcBase, dstBase[j], centred)
    {
      ghost var x := Column(residues, s);
      var scaled := ScaleSlot(Column(residues, s), srcBase, qHat);
      for j := 0 to |dstBase|
        invariant forall k, t :: 0 <= k < |dstBase| && 0 <= t < s ==>
          out[k, t] == Converted(Column(residues, t), srcBase, dstBase[k], centred)
        invariant forall k :: 0 <= k < j ==> out[k, s] == Converted(x, srcBase, dstBase[k], centred)
      {
        var p := dstBase[j];
        if p in srcBase {
          out[j, s] := residues[Find(srcBase, p)][s];
        } else {
          var acc := Accumulate(scaled, srcBase, qStar, j, p, centred, x);
          out[j, s] := acc % p;
        }
      }
    }
  }
}
