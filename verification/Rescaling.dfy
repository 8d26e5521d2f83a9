/**
 Rescaling: dividing by the product P of some primes of the base. The output residues are those of
 one integer near X / P; dropping a single prime in centred form gives the nearest integer, and the
 scalar reference computes that same integer.
 */
module Rescaling {
  import opened Types
  import opened ModArith
  import opened NumberTheory
  import opened Montgomery
  import opened SwitchModulus
  import opened FastBaseConversion
  import D = DeviceModel

  /** The residues at the primes of `part`. */
  function Picked(x: seq<nat>, base: seq<nat>, part: seq<nat>): (r: seq<nat>)
    requires |x| == |base| && forall i :: 0 <= i < |part| ==> part[i] in base
    ensures |r| == |part|
  {
    seq(|part|, i requires 0 <= i < |part| => x[Find(base, part[i])])
  }

  /** The inverse of P modulo q. */
  function ProductInverse(part: seq<nat>, q: nat): nat
    requires q > 0 && Coprime(Prod(part) % q, q)
  {
    ModInverse(Prod(part) % q, q)
  }

  /** (a - b) times the inverse, modulo q. */
  function ScaledDifference(a: nat, b: nat, inverse: nat, q: nat): nat
    requires q > 0 && b < q
  {
    (((a + q - b) % q) * inverse) % q
  }

  /** One output residue: (x_q - S_q) / P modulo q. */
  function RescaledResidue(x: seq<nat>, base: seq<nat>, part: seq<nat>, q: nat, centred: bool): nat
    requires PairwiseCoprime(part) && |x| == |base| && (forall i :: 0 <= i < |part| ==> part[i] in base)
    requires q in base && q !in part && q > 0 && Coprime(Prod(part) % q, q)
  {
    var b := Converted(Picked(x, base, part), part, q, centred);
    ConvertedBelow(Picked(x, base, part), part, q, centred);
    ScaledDifference(x[Find(base, q)], b, ProductInverse(part, q), q)
  }

  /** The integer whose residues the rescale computes. */
  function Quotient(x: seq<nat>, base: seq<nat>, part: seq<nat>, centred: bool, value: int): int
    requires PairwiseCoprime(part) && |x| == |base| && (forall i :: 0 <= i < |part| ==> part[i] in base)
    requires Prod(part) > 0
  {
    (value - Lift(Picked(x, base, part), part, centred)) / Prod(part)
  }

  lemma PickedResidues(x: seq<nat>, base: seq<nat>, part: seq<nat>, value: int)
    requires ResiduesOf(x, base, value) && forall i :: 0 <= i < |part| ==> part[i] in base
    ensures ResiduesOf(Picked(x, base, part), part, value)
  {
  }

  /** P is a unit modulo every prime that stays. */
  lemma PartCoprime(base: seq<nat>, part: seq<nat>, q: nat)
    requires PairwiseCoprime(base) && (forall i :: 0 <= i < |part| ==> part[i] in base)
    requires q in base && q !in part
    ensures q > 1 && Coprime(Prod(part) % q, q)
  {
    hide Coprime, Invertible;
    var j := Find(base, q);
    forall i | 0 <= i < |part| ensures Invertible(part[i], q) {
      var k := Find(base, part[i]);
      assert k != j;
      CoprimeInvertible(base[k], base[j]);
    }
    ProdInvertible(part, q);
    ModInvertible(Prod(part), q);
    InvertibleCoprime(Prod(part) % q, q);
  }

  /** X - P Y is exactly the lifted remainder. */
  lemma QuotientExact(x: seq<nat>, base: seq<nat>, part: seq<nat>, centred: bool, value: int)
    requires PairwiseCoprime(part) && ResiduesOf(x, base, value) && (forall i :: 0 <= i < |part| ==> part[i] in base)
    ensures Prod(part) > 0
    ensures value - Prod(part) * Quotient(x, base, part, centred, value) == Lift(Picked(x, base, part), part, centred)
  {
    hide Lift, Prod, PairwiseCoprime, Picked;
    PickedResidues(x, base, part, value);
    LiftCongruent(Picked(x, base, part), part, centred, value);
    var s, p := Lift(Picked(x, base, part), part, centred), Prod(part);
    var k := SameModQuotient(value, s, p);
    MultipleMod(k, p);
    assert p * k == k * p;
  }

  lemma DivideOut(a: int, s: int, y: int, p: int, inv: int, value: int, q: nat)
    requires q > 0 && a % q == value % q && value - p * y == s && ((p % q) * inv) % q == 1 % q
    ensures (((a + q - s % q) % q) * inv) % q == y % q
  {
    var t := (a + q - s % q) % q;
    assert t == (p * y) % q by {
      SameMod(a + q - s % q, a - s % q, 1, q);
      SubMod(a, s, q);
      SumCongruent(a, value, -s, -s, q);
    }
    MulModLeft(p * y, inv, q);
    assert (p * y) * inv == (p * inv) * y;
    MulModLeft(p, inv, q);
    SameModMul(p * inv, 1, y, q);
  }

  /** Every output residue of a rescale is the quotient's. */
  lemma RescaledIsQuotient(x: seq<nat>, base: seq<nat>, part: seq<nat>, q: nat, centred: bool, value: int)
    requires PairwiseCoprime(part) && ResiduesOf(x, base, value) && (forall i :: 0 <= i < |part| ==> part[i] in base)
    requires forall i :: 0 <= i < |base| ==> x[i] < base[i]
    requires q in base && q !in part && q > 0 && Coprime(Prod(part) % q, q)
    ensures Prod(part) > 0
    ensures RescaledResidue(x, base, part, q, centred) == Quotient(x, base, part, centred, value) % q
  {
    hide Lift, Prod, PairwiseCoprime, Quotient, Converted, Coprime;
    QuotientExact(x, base, part, centred, value);
    var r := Picked(x, base, part);
    ConvertedIsLift(r, part, q, centred);
    ConvertedBelow(r, part, q, centred);
    DivideOut(x[Find(base, q)], Lift(r, part, centred), Quotient(x, base, part, centred, value), Prod(part),
              ProductInverse(part, q), value, q);
  }

  /** The error of a rescale: less than r times P, or half of that either way in centred form. */
  lemma RescaleError(x: seq<nat>, base: seq<nat>, part: seq<nat>, centred: bool, value: int)
    requires PairwiseCoprime(part) && ResiduesOf(x, base, value) && (forall i :: 0 <= i < |part| ==> part[i] in base)
    requires |part| > 0
    ensures Prod(part) > 0
    ensures var p := Prod(part); var y := Quotient(x, base, part, centred, value);
      && (!centred ==> 0 <= value - p * y < |part| * p)
      && (centred && (forall i :: 0 <= i < |part| ==> part[i] % 2 == 1) ==>
            -(|part| * p) < 2 * (value - p * y) < |part| * p)
  {
    hide Lift, Prod, PairwiseCoprime, Quotient;
    QuotientExact(x, base, part, centred, value);
    LiftBounds(Picked(x, base, part), part);
  }

  /** Dropping one odd prime in centred form rounds X / q to the nearest integer: no other integer is
      as near. */
  lemma RescaleRounds(x: seq<nat>, base: seq<nat>, q: nat, value: int, other: int)
    requires PairwiseCoprime([q]) && ResiduesOf(x, base, value) && q in base && q % 2 == 1
    ensures Prod([q]) > 0
    ensures var y := Quotient(x, base, [q], true, value);
      other != y ==> Abs(value - q * y) < Abs(value - q * other)
  {
    hide Prod, Quotient, PairwiseCoprime;
    OnePrimeError(x, base, q, value);
    if other != Quotient(x, base, [q], true, value) {
      NearestMultiple(value, q, Quotient(x, base, [q], true, value), other);
    }
  }

  lemma OnePrimeError(x: seq<nat>, base: seq<nat>, q: nat, value: int)
    requires PairwiseCoprime([q]) && ResiduesOf(x, base, value) && q in base && q % 2 == 1
    ensures Prod([q]) > 0 && 0 - q < 2 * (value - q * Quotient(x, base, [q], true, value)) < q
  {
    hide Prod, Quotient, PairwiseCoprime, ResiduesOf;
    var part := [q];
    ProdOne(q);
    assert forall i :: 0 <= i < |part| ==> part[i] == q;
    RescaleError(x, base, part, true, value);
    assert |part| * Prod(part) == q;
  }

  function Abs(x: int): int {
    if x < 0 then -x else x
  }

  lemma NearestMultiple(value: int, q: nat, y: int, other: int)
    requires 0 - q < 2 * (value - q * y) < q && other != y
    ensures Abs(value - q * y) < Abs(value - q * other)
  {
    var d := y - other;
    assert value - q * other == (value - q * y) + q * d by {
      assert q * d == q * y - q * other;
    }
    if d >= 1 {
      assert q * (d - 1) >= 0;
      assert q * d == q * (d - 1) + q;
    } else {
      assert q * (-1 - d) >= 0;
      assert q * d == -(q * (-1 - d)) - q;
    }
  }

  // ---- The reference loops ----

  /** The primes that stay, with their positions. */
  method KeptPrimes(base: seq<nat>, part: seq<nat>) returns (kept: seq<nat>, at: seq<nat>)
    ensures kept == D.Without(base, part)
    ensures |at| == |kept| && forall j :: 0 <= j < |at| ==> at[j] < |base| && base[at[j]] == kept[j]
    ensures forall j :: 0 <= j < |kept| ==> kept[j] in base && kept[j] !in part
    ensures forall i :: 0 <= i < |base| && base[i] !in part ==> i in at
    ensures forall j, k :: 0 <= j < k < |at| ==> at[j] < at[k]
  {
    hide D.Without;
    kept, at := [], [];
    WithoutNone(part);
    assert base[..0] == [];
    for i := 0 to |base|
      invariant kept == D.Without(base[..i], part)
      invariant |at| == |kept| && forall j :: 0 <= j < |at| ==> at[j] < i && base[at[j]] == kept[j]
      invariant forall j :: 0 <= j < |kept| ==> kept[j] in base && kept[j] !in part
      invariant forall k :: 0 <= k < i && base[k] !in part ==> k in at
      invariant forall j, k :: 0 <= j < k < |at| ==> at[j] < at[k]
    {
      WithoutSnoc(base, i, part);
      if base[i] !in part {
        assert forall k :: k in at + [i] <==> k in at || k == i;
        kept, at := kept + [base[i]], at + [i];
      }
    }
    assert base[..|base|] == base;
  }

  lemma WithoutNone(part: seq<nat>)
    ensures D.Without([], part) == []
  {
  }

  lemma WithoutSnoc(base: seq<nat>, i: nat, part: seq<nat>)
    requires i < |base|
    ensures D.Without(base[..i + 1], part) ==
      if base[i] in part then D.Without(base[..i], part) else D.Without(base[..i], part) + [base[i]]
  {
    assert base[..i + 1][..i] == base[..i];
    assert D.Without(base[..i], part) + [] == D.Without(base[..i], part);
  }

  /** P modulo q, prime by prime. */
  method ProductMod(part: seq<nat>, q: nat) returns (p: nat)
    requires q > 0
    ensures p == Prod(part) % q
  {
    hide Prod;
    p := 1 % q;
    ProdNone();
    assert part[..0] == [];
    for i := 0 to |part|
      invariant p == Prod(part[..i]) % q
    {
      ProdSnoc(part, i);
      MulModLeft(Prod(part[..i]), part[i], q);
      p := (p * part[i]) % q;
    }
    assert part[..|part|] == part;
  }

  lemma ProdNone()
    ensures Prod([]) == 1
  {
  }

  lemma ProdSnoc(part: seq<nat>, i: nat)
    requires i < |part|
    ensures Prod(part[..i + 1]) == Prod(part[..i]) * part[i]
  {
    assert part[..i + 1][..i] == part[..i];
  }

  lemma UniqueFind(base: seq<nat>, i: nat)
    requires PairwiseCoprime(base) && i < |base|
    ensures Find(base, base[i]) == i
  {
    var j := Find(base, base[i]);
    if j != i {
      assert Coprime(base[i], base[j]);
      SelfGcd(base[i]);
    }
  }

  lemma SelfGcd(a: nat)
    requires a > 0
    ensures Gcd(a, a) == a
  {
    assert a % a == 0 by {
      MultipleMod(1, a);
    }
    assert Gcd(a, 0) == a;
  }

  method Rescale(residues: seq<seq<nat>>, base: seq<nat>, part: seq<nat>, ringDim: nat, centred: bool)
    returns (target: seq<nat>, out: array2<nat>)
    requires PairwiseCoprime(base) && PairwiseCoprime(part) && |residues| == |base|
    requires forall i :: 0 <= i < |part| ==> part[i] in base
    requires forall i :: 0 <= i < |residues| ==> |residues[i]| == ringDim
    ensures target == D.Without(base, part) && out.Length0 == |target| && out.Length1 == ringDim
    ensures forall j :: 0 <= j < |target| ==>
      target[j] in base && target[j] !in part && target[j] > 0 && Coprime(Prod(part) % target[j], target[j])
    ensures forall j, s :: 0 <= j < |target| && 0 <= s < ringDim ==>
      out[j, s] == RescaledResidue(Column(residues, s), base, part, target[j], centred)
  {
    hide Prod, Coprime, Converted, PairwiseCoprime, RescaledResidue, Find, D.Without, ModInverse;
    var at;
    target, at := KeptPrimes(base, part);
    forall j | 0 <= j < |target| ensures target[j] > 1 && Coprime(Prod(part) % target[j], target[j]) {
      PartCoprime(base, part, target[j]);
    }
    var chosen := [];
    for i := 0 to |part|
      invariant |chosen| == i && forall k :: 0 <= k < i ==> chosen[k] == residues[Find(base, part[k])]
    {
      chosen := chosen + [residues[Find(base, part[i])]];
    }
    var lifted := FastBaseConvert(chosen, part, target, ringDim, centred);
    LiftedColumns(residues, base, part, chosen, target, lifted, ringDim, centred);
    out := new nat[|target|, ringDim]((_, _) => 0);
    for j := 0 to |target|
      invariant forall k, s :: 0 <= k < |target| && 0 <= s < ringDim ==>
        lifted[k, s] == Converted(Picked(Column(residues, s), base, part), part, target[k], centred)
      invariant forall k, s :: 0 <= k < j && 0 <= s < ringDim ==>
        out[k, s] == RescaledResidue(Column(residues, s), base, part, target[k], centred)
    {
      UniqueFind(base, at[j]);
      RescaleRow(residues, base, part, at[j], lifted, j, ringDim, centred, out);
    }
  }

  lemma LiftedColumns(residues: seq<seq<nat>>, base: seq<nat>, part: seq<nat>, chosen: seq<seq<nat>>, target: seq<nat>,
                      lifted: array2<nat>, ringDim: nat, centred: bool)
    requires PairwiseCoprime(part) && |residues| == |base| && |chosen| == |part|
    requires forall i :: 0 <= i < |part| ==> part[i] in base
    requires forall i :: 0 <= i < |residues| ==> |residues[i]| == ringDim
    requires forall i :: 0 <= i < |part| ==> |chosen[i]| == ringDim && chosen[i] == residues[Find(base, part[i])]
    requires forall j :: 0 <= j < |target| ==> target[j] > 0
    requires lifted.Length0 == |target| && lifted.Length1 == ringDim
    requires forall j, s :: 0 <= j < |target| && 0 <= s < ringDim ==>
      lifted[j, s] == Converted(Column(chosen, s), part, target[j], centred)
    ensures forall j, s :: 0 <= j < |target| && 0 <= s < ringDim ==>
      lifted[j, s] == Converted(Picked(Column(residues, s), base, part), part, target[j], centred)
  {
    hide Converted, PairwiseCoprime, Find;
    forall s | 0 <= s < ringDim ensures Column(chosen, s) == Picked(Column(residues, s), base, part) {
    }
  }

  /** One row of the output: every coefficient modulo one prime. */
  method RescaleRow(residues: seq<seq<nat>>, base: seq<nat>, part: seq<nat>, i: nat, lifted: array2<nat>, j: nat,
                    ringDim: nat, centred: bool, out: array2<nat>)
    requires PairwiseCoprime(part) && |residues| == |base| && (forall k :: 0 <= k < |part| ==> part[k] in base)
    requires forall k :: 0 <= k < |residues| ==> |residues[k]| == ringDim
    requires i < |base| && base[i] > 0 && Find(base, base[i]) == i && base[i] !in part
    requires Coprime(Prod(part) % base[i], base[i])
    requires lifted != out && j < lifted.Length0 == out.Length0 && lifted.Length1 == out.Length1 == ringDim
    requires forall s :: 0 <= s < ringDim ==>
      lifted[j, s] == Converted(Picked(Column(residues, s), base, part), part, base[i], centred)
    modifies out
    ensures forall s :: 0 <= s < ringDim ==>
      out[j, s] == RescaledResidue(Column(residues, s), base, part, base[i], centred)
    ensures forall k, s :: 0 <= k < out.Length0 && k != j && 0 <= s < ringDim ==> out[k, s] == old(out[k, s])
  {
    hide Prod, Coprime, Converted, PairwiseCoprime, RescaledResidue, Find, ModInverse, Picked,
      ScaledDifference;
    var q := base[i];
    var p := ProductMod(part, q);
    var inverse := ModInverse(p, q);
    for s := 0 to ringDim
      invariant forall t :: 0 <= t < s ==>
        out[j, t] == RescaledResidue(Column(residues, t), base, part, q, centred)
      invariant forall k, t :: 0 <= k < out.Length0 && k != j && 0 <= t < ringDim ==> out[k, t] == old(out[k, t])
    {
      ghost var x := Column(residues, s);
      assert x[i] == residues[i][s];
      CellIsResidue(x, base, part, q, i, centred);
      out[j, s] := ScaledDifference(residues[i][s], lifted[j, s], inverse, q);
    }
  }

  lemma CellIsResidue(x: seq<nat>, base: seq<nat>, part: seq<nat>, q: nat, i: nat, centred: bool)
    requires PairwiseCoprime(part) && |x| == |base| && (forall k :: 0 <= k < |part| ==> part[k] in base)
    requires i < |base| && base[i] == q && q > 0 && Find(base, q) == i && q !in part && Coprime(Prod(part) % q, q)
    ensures var b := Converted(Picked(x, base, part), part, q, centred);
      && b < q
      && ScaledDifference(x[i], b, ModInverse(Prod(part) % q, q), q) == RescaledResidue(x, base, part, q, centred)
  {
  }

  lemma ConvertedBelow(x: seq<nat>, base: seq<nat>, q: nat, centred: bool)
    requires PairwiseCoprime(base) && |x| == |base| && q > 0 && q !in base
    ensures Converted(x, base, q, centred) < q
  {
  }

  // ---- The scalar reference ----

  /** With one prime the lift is the residue's signed representative. */
  lemma SinglePrimeLift(v: nat, q: nat)
    requires PairwiseCoprime([q]) && v < q
    ensures Lift([v], [q], true) == Signed(v, q, Half(q))
  {
    hide Prod, Coprime, Signed;
    var base, x := [q], [v];
    assert base[..0] == [] && base[1..] == [];
    ProdNone();
    assert Hat(base, 0) == 1;
    HatInverseInverts(base, 0);
    SmallMod(1, q);
    SmallMod(HatInverse(base, 0), q) by {
      InverseBelow(base);
    }
    assert HatInverse(base, 0) == 1;
    SmallMod(v, q);
    assert Scaled(x, base, 0) == v;
    assert PartialSum(x, base, true, 1) == PartialSum(x, base, true, 0) + Contribution(x, base, 0, true) * 1;
  }

  lemma InverseBelow(base: seq<nat>)
    requires PairwiseCoprime(base) && |base| == 1
    ensures HatInverse(base, 0) < base[0]
  {
  }

  lemma CoprimeNotMultiple(a: nat, q: nat)
    requires q > 1 && Coprime(a, q)
    ensures a % q != 0
  {
    if a % q == 0 {
      assert Gcd(q, 0) == q;
    }
  }

  /** Two inverses of the same number agree as factors. */
  lemma InverseUnique(a: nat, x: nat, y: nat, d: int, q: nat)
    requires q > 1 && (a * x) % q == 1 && (a * y) % q == 1
    ensures (d * x) % q == (d * y) % q
  {
    SmallMod(1, q);
    assert Invertible(a, q) by {
      assert (a * x) % q == 1 % q;
    }
    Cancel(a, x, y, q);
    SameModMul(x, y, d, q);
  }

  /** r is the rescale's residue modulo the t-th prime when the last prime is dropped. */
  ghost predicate DropsLast(x: seq<nat>, base: seq<nat>, t: nat, r: nat)
    requires |x| == |base| && t < |base|
  {
    var qL, q := base[|base| - 1], base[t];
    && PairwiseCoprime([qL]) && (forall i :: 0 <= i < |[qL]| ==> [qL][i] in base)
    && q in base && q !in [qL] && q > 0 && Coprime(Prod([qL]) % q, q)
    && r == RescaledResidue(x, base, [qL], q, true)
  }

  /** Drops the last prime: scales each residue by the inverse of the dropped prime. The result is the
      rescale's, by a different route: a signed lift and Fermat inverses on 64-bit words. */
  method RescaleScalars(scalars: seq<nat>, base: seq<nat>) returns (rescaled: seq<nat>)
    requires |scalars| == |base| >= 1 && PairwiseCoprime(base)
    requires forall i :: 0 <= i < |base| ==>
      base[i] < MODULUS_BOUND && base[i] % 2 == 1 && Prime(base[i]) && scalars[i] < base[i]
    ensures |rescaled| == |base| - 1
    ensures forall t :: 0 <= t < |rescaled| ==> DropsLast(scalars, base, t, rescaled[t])
  {
    hide DropsLast, Prime, PairwiseCoprime, Prod, RescaledResidue, Coprime, SignedLift;
    var n := |base| - 1;
    var qL, vL := base[n], scalars[n];
    rescaled := [];
    for t := 0 to n
      invariant |rescaled| == t
      invariant forall k :: 0 <= k < t ==> DropsLast(scalars, base, k, rescaled[k])
    {
      var q := base[t];
      BaseAboveOne(base, t);
      var lifted := SignedLift(vL, qL, q);
      LiftBelow(vL, qL, q);
      SmallMod(scalars[t] + q, TWO_64);
      var diff := (Add64(scalars[t], q) - lifted) % q;
      var inverse := InversePrime(qL % q, q);
      ScalarStep(scalars, base, t, lifted, inverse);
      rescaled := rescaled + [MulMod64(diff, inverse, q)];
    }
  }

  lemma LiftBelow(v: nat, qDrop: nat, q: nat)
    requires v < qDrop && q > 0
    ensures SignedLift(v, qDrop, q) < q
  {
  }

  lemma LastAlone(base: seq<nat>, t: nat)
    requires PairwiseCoprime(base) && t < |base| - 1
    ensures var qL := base[|base| - 1];
      && PairwiseCoprime([qL]) && base[t] > 1 && qL in base && base[t] in base && base[t] !in [qL]
      && Coprime(Prod([qL]) % base[t], base[t]) && Prod([qL]) == qL && qL % base[t] != 0
      && Find(base, qL) == |base| - 1 && Find(base, base[t]) == t
  {
    hide Prod, Find, PairwiseCoprime, Coprime;
    var qL, q := base[|base| - 1], base[t];
    UniqueFind(base, |base| - 1);
    UniqueFind(base, t);
    BaseAboveOne(base, |base| - 1);
    BaseAboveOne(base, t);
    OnePairwise(qL);
    ProdOne(qL);
    PairAt(base, |base| - 1, t);
    CoprimeNotMultiple(qL, q);
    assert qL != q;
    assert forall i :: 0 <= i < |[qL]| ==> [qL][i] == qL;
    PartCoprime(base, [qL], q);
  }

  lemma OnePairwise(q: nat)
    requires q > 1
    ensures PairwiseCoprime([q])
  {
  }

  lemma PairAt(base: seq<nat>, i: nat, j: nat)
    requires PairwiseCoprime(base) && i < |base| && j < |base| && i != j
    ensures Coprime(base[i], base[j])
  {
  }

  lemma ScalarStep(x: seq<nat>, base: seq<nat>, t: nat, lifted: nat, inverse: nat)
    requires |x| == |base| && PairwiseCoprime(base) && t < |base| - 1
    requires forall i :: 0 <= i < |base| ==> x[i] < base[i] && base[i] % 2 == 1
    requires base[|base| - 1] > x[|base| - 1] && base[t] > 0
    requires lifted == SignedLift(x[|base| - 1], base[|base| - 1], base[t])
    requires Prime(base[t]) && inverse == ModInvPrime(base[|base| - 1] % base[t], base[t])
    ensures DropsLast(x, base, t, (((x[t] + base[t] - lifted) % base[t]) * inverse) % base[t])
  {
    hide PairwiseCoprime, Prod, Lift, Coprime, Prime, SignedLift;
    var qL, q := base[|base| - 1], base[t];
    LastAlone(base, t);
    assert forall i :: 0 <= i < |[qL]| ==> [qL][i] in base;
    assert Picked(x, base, [qL]) == [x[|base| - 1]];
    SinglePrimeLift(x[|base| - 1], qL);
    SignedLiftMeans(x[|base| - 1], qL, q);
    OddHalf(qL);
    SmallMod(qL % q, q);
    ModInvPrimeInverts(qL % q, q);
    SmallMod(1, q);
    InverseUnique(qL % q, inverse, ProductInverse([qL], q), (x[t] + q - lifted) % q, q);
  }

  lemma OddHalf(q: nat)
    requires q % 2 == 1
    ensures q / 2 == Half(q)
  {
  }

  /** The scalar reference computes residues of the nearest integer to X / q_L. */
  lemma ScalarsRound(x: seq<nat>, base: seq<nat>, t: nat, r: nat, value: int, other: int)
    requires |x| == |base| && t < |base| && PairwiseCoprime(base) && DropsLast(x, base, t, r)
    requires ResiduesOf(x, base, value) && forall i :: 0 <= i < |base| ==> x[i] < base[i] && base[i] % 2 == 1
    ensures var qL := base[|base| - 1];
      && Prod([qL]) > 0
      && var y := Quotient(x, base, [qL], true, value);
      && r == y % base[t]
      && (other != y ==> Abs(value - qL * y) < Abs(value - qL * other))
  {
    hide Prod, Quotient, PairwiseCoprime, RescaledResidue, Coprime, ResiduesOf;
    var qL := base[|base| - 1];
    RescaledIsQuotient(x, base, [qL], base[t], true, value);
    RescaleRounds(x, base, qL, value, other);
  }
}
