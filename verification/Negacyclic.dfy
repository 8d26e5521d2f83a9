/**
 Negacyclic convolution: the reference double loop computes the product of two polynomials modulo
 q and X^N + 1, on 64-bit words without overflow.
 */
module Negacyclic {
  import opened Types
  import opened ModArith
  import opened NumberTheory

  // ---- The product, coefficient by coefficient ----

  /** Which coefficient X^i times X^j adds to, with X^N = -1. */
  function Sign(n: nat, i: nat, j: nat, k: nat): int {
    if i + j == k then 1 else if i + j == k + n then -1 else 0
  }

  function Term(a: seq<int>, b: seq<int>, k: nat, i: nat, j: nat): int
    requires i < |a| && j < |b|
  {
    Sign(|a|, i, j, k) * (a[i] * b[j])
  }

  /** The first w terms of row i. */
  function RowSum(a: seq<int>, b: seq<int>, k: nat, i: nat, w: nat): int
    requires i < |a| && w <= |b|
  {
    if w == 0 then 0 else RowSum(a, b, k, i, w - 1) + Term(a, b, k, i, w - 1)
  }

  /** The first m rows, w terms of each. */
  function GridSum(a: seq<int>, b: seq<int>, k: nat, m: nat, w: nat): int
    requires m <= |a| && w <= |b|
  {
    if m == 0 then 0 else GridSum(a, b, k, m - 1, w) + RowSum(a, b, k, m - 1, w)
  }

  /** Coefficient k of a * b in Z[X] / (X^N + 1): products with i + j = k minus those with i + j = k + N. */
  function Coefficient(a: seq<int>, b: seq<int>, k: nat): int
    requires |a| == |b|
  {
    GridSum(a, b, k, |a|, |b|)
  }

  // ---- The loop ----

  /** The cells after all of the first i rows and w terms of row i. */
  ghost predicate Partial(c: seq<nat>, a: seq<nat>, b: seq<nat>, q: nat, i: nat, w: nat)
    requires q > 0 && i < |a| && |a| == |b| == |c| && w <= |b|
  {
    forall k :: 0 <= k < |c| ==> c[k] == (GridSum(a, b, k, i, |b|) + RowSum(a, b, k, i, w)) % q
  }

  ghost predicate RowsDone(c: seq<nat>, a: seq<nat>, b: seq<nat>, q: nat, i: nat)
    requires q > 0 && i <= |a| && |a| == |b| == |c|
  {
    forall k :: 0 <= k < |c| ==> c[k] == GridSum(a, b, k, i, |b|) % q
  }

  lemma OnlyOneCell(n: nat, i: nat, j: nat, k: nat)
    requires i < n && j < n && k < n
    ensures Sign(n, i, j, k) == if k != (i + j) % n then 0 else if i + j >= n then -1 else 1
  {
    if i + j >= n {
      SameMod(i + j, i + j - n, 1, n);
      SmallMod(i + j - n, n);
    } else {
      SmallMod(i + j, n);
    }
  }

  /** What one step does to the cell it hits, on 64-bit words. */
  function Update(cur: nat, term: nat, q: nat, wraps: bool): nat
    requires cur < q && term < q
  {
    if wraps then if cur >= term then cur - term else (cur + (q - term)) % TWO_64
    else
      var sum := (cur + term) % TWO_64;
      if sum >= q then sum - q else sum
  }

  /** For q below 2^63 nothing overflows, and the cell stays reduced. */
  lemma UpdateExact(x: int, product: nat, q: nat, wraps: bool)
    requires 0 < q < 0x8000_0000_0000_0000
    ensures Update(x % q, product % q, q, wraps) == (if wraps then x - product else x + product) % q
  {
    var cur, term := x % q, product % q;
    if wraps {
      SubMod(x, product, q);
      SubMod(cur, product, q);
      if cur >= term {
        SmallMod(cur - term, q);
      } else {
        SmallMod(cur + (q - term), TWO_64);
        SameMod(cur + (q - term), cur - term, 1, q);
        SmallMod(cur + (q - term), q);
      }
    } else {
      AddMod(x, product, q);
      SmallMod(cur + term, TWO_64);
      if cur + term >= q {
        SameMod(cur + term, cur + term - q, 1, q);
        SmallMod(cur + term - q, q);
      } else {
        SmallMod(cur + term, q);
      }
    }
  }

  /** The cells after one more term of row i. */
  lemma StepPartial(c: seq<nat>, a: seq<nat>, b: seq<nat>, q: nat, i: nat, j: nat)
    requires 0 < q < 0x8000_0000_0000_0000 && |a| == |b| == |c| && i < |a| && j < |b|
    requires Partial(c, a, b, q, i, j)
    ensures var n, k := |a|, (i + j) % |a|;
      && k < n && c[k] < q
      && Partial(c[k := Update(c[k], (a[i] * b[j]) % q, q, i + j >= n)], a, b, q, i, j + 1)
  {
    hide GridSum, Update;
    var n, kk := |a|, (i + j) % |a|;
    var c1 := c[kk := Update(c[kk], (a[i] * b[j]) % q, q, i + j >= n)];
    forall k | 0 <= k < n
      ensures c1[k] == (GridSum(a, b, k, i, |b|) + RowSum(a, b, k, i, j + 1)) % q
    {
      OnlyOneCell(n, i, j, k);
      var x := GridSum(a, b, k, i, |b|) + RowSum(a, b, k, i, j);
      if k == kk {
        UpdateExact(x, a[i] * b[j], q, i + j >= n);
      } else {
        assert Term(a, b, k, i, j) == 0 * (a[i] * b[j]);
      }
    }
  }

  /** A zero factor adds nothing. */
  lemma SkipTerm(c: seq<nat>, a: seq<nat>, b: seq<nat>, q: nat, i: nat, j: nat)
    requires q > 0 && |a| == |b| == |c| && i < |a| && j < |b| && b[j] == 0
    requires Partial(c, a, b, q, i, j)
    ensures Partial(c, a, b, q, i, j + 1)
  {
    hide GridSum;
    forall k | 0 <= k < |c| ensures Term(a, b, k, i, j) == 0 {
      assert a[i] * 0 == 0;
    }
  }

  lemma {:induction false} ZeroRow(a: seq<int>, b: seq<int>, k: nat, i: nat, w: nat)
    requires i < |a| && w <= |b| && a[i] == 0
    ensures RowSum(a, b, k, i, w) == 0
  {
    if w > 0 {
      ZeroRow(a, b, k, i, w - 1);
      assert 0 * b[w - 1] == 0;
    }
  }

  lemma SkipRow(c: seq<nat>, a: seq<nat>, b: seq<nat>, q: nat, i: nat)
    requires q > 0 && |a| == |b| == |c| && i < |a| && a[i] == 0 && RowsDone(c, a, b, q, i)
    ensures RowsDone(c, a, b, q, i + 1)
  {
    forall k | 0 <= k < |c| ensures RowSum(a, b, k, i, |b|) == 0 {
      ZeroRow(a, b, k, i, |b|);
    }
  }

  lemma StartRow(c: seq<nat>, a: seq<nat>, b: seq<nat>, q: nat, i: nat)
    requires q > 0 && |a| == |b| == |c| && i < |a|
    ensures RowsDone(c, a, b, q, i) ==> Partial(c, a, b, q, i, 0)
    ensures Partial(c, a, b, q, i, |b|) ==> RowsDone(c, a, b, q, i + 1)
  {
  }

  lemma NothingDone(c: seq<nat>, a: seq<nat>, b: seq<nat>, q: nat)
    requires q > 0 && |a| == |b| == |c| && forall k :: 0 <= k < |c| ==> c[k] == 0
    ensures RowsDone(c, a, b, q, 0)
  {
  }

  method Convolve(a: seq<nat>, b: seq<nat>, q: nat) returns (c: array<nat>)
    requires |a| == |b| && 0 < q < 0x8000_0000_0000_0000
    ensures fresh(c) && c.Length == |a|
    ensures forall k :: 0 <= k < |a| ==> c[k] == Coefficient(a, b, k) % q
  {
    hide Partial, RowsDone, Update;
    var n := |a|;
    c := new nat[n](_ => 0);
    NothingDone(c[..], a, b, q);
    for i := 0 to n
      invariant c.Length == n
      invariant RowsDone(c[..], a, b, q, i)
    {
      if a[i] == 0 {
        SkipRow(c[..], a, b, q, i);
        continue;
      }
      StartRow(c[..], a, b, q, i);
      for j := 0 to n
        invariant c.Length == n
        invariant Partial(c[..], a, b, q, i, j)
      {
        if b[j] == 0 {
          SkipTerm(c[..], a, b, q, i, j);
          continue;
        }
        StepPartial(c[..], a, b, q, i, j);
        var term := (a[i] * b[j]) % q;
        var k := (i + j) % n;
        c[k] := Update(c[k], term, q, i + j >= n);
      }
      StartRow(c[..], a, b, q, i);
    }
    Finished(c[..], a, b, q);
  }

  lemma Finished(c: seq<nat>, a: seq<nat>, b: seq<nat>, q: nat)
    requires q > 0 && |a| == |b| == |c| && RowsDone(c, a, b, q, |a|)
    ensures forall k :: 0 <= k < |a| ==> c[k] == Coefficient(a, b, k) % q
  {
  }

  // ---- Commutativity ----

  lemma {:induction false} SplitColumn(a: seq<int>, b: seq<int>, k: nat, m: nat, w: nat)
    requires |a| == |b| && m <= |a| && w < |b|
    ensures GridSum(a, b, k, m, w + 1) == GridSum(a, b, k, m, w) + RowSum(b, a, k, w, m)
  {
    if m > 0 {
      SplitColumn(a, b, k, m - 1, w);
      assert a[m - 1] * b[w] == b[w] * a[m - 1];
    }
  }

  lemma {:induction false} NoColumns(a: seq<int>, b: seq<int>, k: nat, m: nat)
    requires m <= |a|
    ensures GridSum(a, b, k, m, 0) == 0
  {
    if m > 0 {
      NoColumns(a, b, k, m - 1);
    }
  }

  lemma {:induction false} GridTransposes(a: seq<int>, b: seq<int>, k: nat, m: nat, w: nat)
    requires |a| == |b| && m <= |a| && w <= |b|
    ensures GridSum(a, b, k, m, w) == GridSum(b, a, k, w, m)
    decreases w
  {
    if w == 0 {
      NoColumns(a, b, k, m);
    } else {
      GridTransposes(a, b, k, m, w - 1);
      SplitColumn(a, b, k, m, w - 1);
    }
  }

  lemma Commutative(a: seq<int>, b: seq<int>, k: nat)
    requires |a| == |b|
    ensures Coefficient(a, b, k) == Coefficient(b, a, k)
  {
    GridTransposes(a, b, k, |a|, |b|);
  }

  // ---- Monomials ----

  function Monomial(n: nat, s: nat): (m: seq<int>)
    ensures |m| == n
  {
    seq(n, i => if i == s then 1 else 0)
  }

  lemma {:induction false} MonomialRow(n: nat, s: nat, t: nat, k: nat, i: nat, w: nat)
    requires s < n && t < n && i < n && w <= n
    ensures RowSum(Monomial(n, s), Monomial(n, t), k, i, w) == if i == s && t < w then Sign(n, s, t, k) else 0
  {
    if w > 0 {
      MonomialRow(n, s, t, k, i, w - 1);
    }
  }

  lemma {:induction false} MonomialGrid(n: nat, s: nat, t: nat, k: nat, m: nat)
    requires s < n && t < n && m <= n
    ensures GridSum(Monomial(n, s), Monomial(n, t), k, m, n) == if s < m then Sign(n, s, t, k) else 0
  {
    if m > 0 {
      MonomialGrid(n, s, t, k, m - 1);
      MonomialRow(n, s, t, k, m - 1, n);
    }
  }

  /** X^s times X^t is X^(s+t), or minus X^(s+t-N) once the exponent reaches N. */
  lemma MonomialsMultiply(n: nat, s: nat, t: nat, k: nat)
    requires s < n && t < n && k < n
    ensures Coefficient(Monomial(n, s), Monomial(n, t), k) ==
      if s + t < n then Monomial(n, s + t)[k] else -Monomial(n, s + t - n)[k]
  {
    MonomialGrid(n, s, t, k, n);
  }

  // ---- Evaluation ----

  /** The value of a polynomial at r. */
  function Eval(p: seq<int>, r: int): int {
    if p == [] then 0 else Eval(p[..|p| - 1], r) + p[|p| - 1] * Pow(r, |p| - 1)
  }

  /** p with v added at position k. */
  function Bumped(p: seq<int>, k: nat, v: int): (s: seq<int>)
    requires k < |p|
    ensures |s| == |p|
  {
    p[k := p[k] + v]
  }

  lemma {:induction false} EvalBumped(p: seq<int>, k: nat, v: int, r: int)
    requires k < |p|
    ensures Eval(Bumped(p, k, v), r) == Eval(p, r) + v * Pow(r, k)
    decreases |p|
  {
    hide Pow;
    var n := |p| - 1;
    var s := Bumped(p, k, v);
    if k == n {
      assert s[..n] == p[..n];
      AddFactor(p[n], v, Pow(r, n));
    } else {
      assert s[..n] == Bumped(p[..n], k, v);
      EvalBumped(p[..n], k, v, r);
    }
  }

  lemma AddFactor(x: int, v: int, f: int)
    ensures (x + v) * f == x * f + v * f
  {
  }

  /** The coefficients of the first i rows and w terms of row i. */
  function Cells(a: seq<int>, b: seq<int>, i: nat, w: nat): (s: seq<int>)
    requires |a| == |b| && i < |a| && w <= |b|
    ensures |s| == |a|
  {
    seq(|a|, k requires 0 <= k < |a| => GridSum(a, b, k, i, |b|) + RowSum(a, b, k, i, w))
  }

  lemma CellsStep(a: seq<int>, b: seq<int>, i: nat, j: nat)
    requires |a| == |b| && i < |a| && j < |b|
    ensures var n := |a|; var k := (i + j) % n;
      k < n &&
      Cells(a, b, i, j + 1) == Bumped(Cells(a, b, i, j), k, if i + j >= n then -(a[i] * b[j]) else a[i] * b[j])
  {
    hide GridSum;
    forall k | 0 <= k < |a| ensures Sign(|a|, i, j, k) ==
        if k != (i + j) % |a| then 0 else if i + j >= |a| then -1 else 1 {
      OnlyOneCell(|a|, i, j, k);
    }
  }

  /** Where X^N is -1, a wrapped term still has the value of its monomial. */
  lemma WrappedValue(n: nat, i: nat, j: nat, v: int, r: int, q: nat)
    requires q > 0 && i < n && j < n && (Pow(r, n) + 1) % q == 0
    ensures ((if i + j >= n then -v else v) * Pow(r, (i + j) % n)) % q == (v * Pow(r, i + j)) % q
  {
    hide Pow;
    if i + j >= n {
      var k := i + j - n;
      SameMod(i + j, k, 1, n);
      SmallMod(k, n);
      PowAdd(r, n, k);
      MinusOne(Pow(r, n), v, Pow(r, k), q);
    } else {
      SmallMod(i + j, n);
    }
  }

  lemma MinusOne(x: int, v: int, y: int, q: nat)
    requires q > 0 && (x + 1) % q == 0
    ensures (-v * y) % q == (v * (x * y)) % q
  {
    ModZero(x + 1, q);
    var c := (x + 1) / q;
    assert x == c * q - 1;
    assert v * (x * y) == -v * y + (v * y * c) * q by {
      assert x * y == (c * q) * y - y;
      assert (c * q) * y == (y * c) * q;
      assert v * ((y * c) * q - y) == v * ((y * c) * q) - v * y;
      assert v * ((y * c) * q) == (v * y * c) * q;
    }
    SameMod(v * (x * y), -v * y, v * y * c, q);
  }

  /** Filling row i up to w terms adds a_i r^i times the first w terms of b. */
  lemma {:induction false} EvalRow(a: seq<int>, b: seq<int>, i: nat, w: nat, r: int, q: nat)
    requires |a| == |b| && i < |a| && w <= |b| && q > 0 && (Pow(r, |a|) + 1) % q == 0
    ensures Eval(Cells(a, b, i, w), r) % q ==
      (Eval(Cells(a, b, i, 0), r) + (a[i] * Pow(r, i)) * Eval(b[..w], r)) % q
    decreases w
  {
    hide Pow, Eval, Cells, Bumped;
    if w == 0 {
      EvalNothing(r);
      assert b[..0] == [];
    } else {
      var j := w - 1;
      EvalRow(a, b, i, j, r, q);
      CellsStep(a, b, i, j);
      var n := |a|;
      var v := a[i] * b[j];
      var bump := if i + j >= n then -v else v;
      EvalBumped(Cells(a, b, i, j), (i + j) % n, bump, r);
      WrappedValue(n, i, j, v, r, q);
      PowAdd(r, i, j);
      EvalSnoc(b, j, r);
      RowAlgebra(Eval(Cells(a, b, i, j), r), Eval(Cells(a, b, i, 0), r), a[i], Pow(r, i), Eval(b[..j], r), b[j],
                 Pow(r, j), Pow(r, i + j), bump * Pow(r, (i + j) % n), Eval(Cells(a, b, i, w), r), Eval(b[..w], r), q);
    }
  }

  lemma RowAlgebra(x: int, y: int, ai: int, ri: int, e: int, bj: int, rj: int, rr: int, t: int,
                   x1: int, e1: int, q: nat)
    requires x1 == x + t && e1 == e + bj * rj
    requires q > 0 && x % q == (y + (ai * ri) * e) % q && t % q == ((ai * bj) * rr) % q && rr == ri * rj
    ensures x1 % q == (y + (ai * ri) * e1) % q
  {
    assert (ai * bj) * (ri * rj) == (ai * ri) * (bj * rj) by {
      MulAssociative(ai, bj, ri * rj);
      assert bj * (ri * rj) == ri * (bj * rj);
      MulAssociative(ai, ri, bj * rj);
    }
    assert (ai * ri) * (e + bj * rj) == (ai * ri) * e + (ai * ri) * (bj * rj);
    SumCongruent(x, y + (ai * ri) * e, t, (ai * ri) * (bj * rj), q);
  }

  lemma EvalNothing(r: int)
    ensures Eval([], r) == 0
  {
  }

  lemma EvalSnoc(b: seq<int>, j: nat, r: int)
    requires j < |b|
    ensures Eval(b[..j + 1], r) == Eval(b[..j], r) + b[j] * Pow(r, j)
  {
    hide Pow;
    assert b[..j + 1][..j] == b[..j];
  }

  lemma NextRow(a: seq<int>, b: seq<int>, i: nat)
    requires |a| == |b| && i + 1 < |a|
    ensures Cells(a, b, i + 1, 0) == Cells(a, b, i, |b|)
  {
  }

  lemma {:induction false} EvalRows(a: seq<int>, b: seq<int>, i: nat, r: int, q: nat)
    requires |a| == |b| && i < |a| && q > 0 && (Pow(r, |a|) + 1) % q == 0
    ensures Eval(Cells(a, b, i, |b|), r) % q == (Eval(a[..i + 1], r) * Eval(b, r)) % q
    decreases i
  {
    hide Pow, Eval, Cells;
    EvalRow(a, b, i, |b|, r, q);
    assert b[..|b|] == b;
    EvalSnoc(a, i, r);
    if i == 0 {
      assert a[..0] == [];
      EvalNothing(r);
      CellsOfNone(a, b);
      EvalZeros(Cells(a, b, 0, 0), r);
    } else {
      EvalRows(a, b, i - 1, r, q);
      NextRow(a, b, i - 1);
    }
    RowsAlgebra(Eval(Cells(a, b, i, 0), r), Eval(a[..i], r), a[i] * Pow(r, i), Eval(b, r), q);
  }

  lemma RowsAlgebra(x: int, y: int, t: int, e: int, q: nat)
    requires q > 0 && x % q == (y * e) % q
    ensures (x + t * e) % q == ((y + t) * e) % q
  {
    SameModAdd(x, y * e, t * e, q);
    assert (y + t) * e == y * e + t * e;
  }

  lemma CellsOfNone(a: seq<int>, b: seq<int>)
    requires |a| == |b| && |a| > 0
    ensures forall k :: 0 <= k < |a| ==> Cells(a, b, 0, 0)[k] == 0
  {
  }

  lemma {:induction false} EvalZeros(p: seq<int>, r: int)
    requires forall k :: 0 <= k < |p| ==> p[k] == 0
    ensures Eval(p, r) == 0
    decreases |p|
  {
    if p != [] {
      EvalZeros(p[..|p| - 1], r);
      assert 0 * Pow(r, |p| - 1) == 0;
    }
  }

  function Product(a: seq<int>, b: seq<int>): (p: seq<int>)
    requires |a| == |b|
    ensures |p| == |a|
  {
    seq(|a|, k requires 0 <= k < |a| => Coefficient(a, b, k))
  }

  /** The product has the value of the factors' product at every point where X^N is -1 modulo q, so
      multiplying values slot by slot is multiplying polynomials. */
  lemma ProductEvaluates(a: seq<int>, b: seq<int>, r: int, q: nat)
    requires |a| == |b| && q > 0 && (Pow(r, |a|) + 1) % q == 0
    ensures Eval(Product(a, b), r) % q == (Eval(a, r) * Eval(b, r)) % q
  {
    hide Pow, Eval, GridSum;
    if a == [] {
      EvalNothing(r);
      assert Product(a, b) == [];
    } else {
      EvalRows(a, b, |a| - 1, r, q);
      assert a[..|a|] == a;
      LastCells(a, b);
    }
  }

  lemma LastCells(a: seq<int>, b: seq<int>)
    requires |a| == |b| && |a| > 0
    ensures Cells(a, b, |a| - 1, |b|) == Product(a, b)
  {
  }
}
