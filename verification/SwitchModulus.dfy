/**
 Rebasing a residue from one modulus to another through its signed representative: the ordinary
 sequence, the four-instruction sequence on Montgomery-encoded values, and the two reference lifts.
 Sums are 64-bit sums.
 */
module SwitchModulus {
  import opened Types
  import opened ModArith
  import opened NumberTheory
  import opened Montgomery

  /** Largest modulus: below 2^63, so that the sum of two residues fits 64 bits. */
  const MODULUS_BOUND: nat := 0x8000_0000_0000_0000

  function Add64(a: nat, b: nat): nat {
    (a + b) % TWO_64
  }

  /** The representative of v in (-q/2, q/2], for the given halfway point. */
  function Signed(v: nat, q: nat, half: nat): int {
    if v > half then v - q else v
  }

  function Half(q: nat): nat
    requires q > 0
  {
    (q - 1) / 2
  }

  /** p - x, or 0 for 0. */
  function Negate(x: nat, p: nat): (r: nat)
    requires x < p
    ensures r < p && r % p == (0 - x) % p
  {
    NegateMod(x, p);
    if x == 0 then 0 else p - x
  }

  lemma NegateMod(x: nat, p: nat)
    requires x < p
    ensures x == 0 ==> (0 - x) % p == 0
    ensures x != 0 ==> (p - x) % p == (0 - x) % p
  {
    if x != 0 {
      SameMod(p - x, 0 - x, 1, p);
    }
  }

  datatype Immediates = Immediates(mul0: nat, add0: nat, mul1: nat, add1: nat)

  function ComputeImmediates(oldQ: nat, newP: nat, montgomery: bool): Immediates
    requires oldQ > 0 && newP > 0
  {
    var halfQ := Half(oldQ);
    if !montgomery then Immediates(1, halfQ, 1, Negate(halfQ % newP, newP))
    else
      var r := MontgomeryR(newP);
      Immediates(1, halfQ, MulMod64(r, r, newP), Negate(MulMod64(r, halfQ % newP, newP), newP))
  }

  /** (a * b) / R mod q, as the executor multiplies. */
  function MontgomeryMul(a: nat, b: nat, q: nat): (r: nat)
    requires q >= 2
    ensures r < q
  {
    MulMod64(MulMod64(a, b, q), ModInvPrime(MontgomeryR(q), q), q)
  }

  /** The instruction sequence on ordinary residues. */
  method SwitchOrdinary(v: nat, q: nat, p: nat) returns (x: nat)
    requires v < q < MODULUS_BOUND && 0 < p < MODULUS_BOUND && q % 2 == 1
    ensures x == Signed(v, q, Half(q)) % p
  {
    hide MulMod64, Negate, Signed;
    var imm := ComputeImmediates(q, p, false);
    x := MulMod64(v, imm.mul0, q);
    OneTimes(v, q);
    x := Add64(x, imm.add0) % q;
    SmallMod(v + imm.add0, TWO_64);
    ghost var shifted := (v + imm.add0) % q;
    x := MulMod64(x, imm.mul1, p);
    OneTimesMod(shifted, p);
    x := Add64(x, imm.add1) % p;
    SmallMod(shifted % p + imm.add1, TWO_64);
    UnshiftOrdinary(v, q, p, imm.add1);
  }

  /** The same sequence as the executor runs it on a Montgomery-encoded residue gives the encoding of
      the same result. */
  method SwitchMontgomery(v: nat, q: nat, p: nat) returns (x: nat)
    requires v < q < MODULUS_BOUND && 2 <= p < MODULUS_BOUND && q % 2 == 1 && q >= 2
    requires RadixInverts(q) && RadixInverts(p)
    ensures x == ToMontgomery(Signed(v, q, Half(q)) % p, p)
  {
    hide RadixInverts, ModInvPrime;
    var imm := ComputeImmediates(q, p, true);
    x := ToMontgomery(v, q);
    x := MontgomeryMul(x, imm.mul0, q);
    LeaveMontgomery(v, q);
    x := Add64(x, imm.add0) % q;
    SmallMod(v + imm.add0, TWO_64);
    ghost var shifted := (v + imm.add0) % q;
    x := MontgomeryMul(x, imm.mul1, p);
    EnterMontgomery(shifted, p);
    x := Add64(x, imm.add1) % p;
    SmallMod((shifted * MontgomeryR(p)) % p + imm.add1, TWO_64);
    Unshift(v, q, p, imm.add1);
  }

  lemma OneTimes(v: nat, q: nat)
    requires v < q
    ensures MulMod64(v, 1, q) == v
  {
    SmallMod(v, q);
  }

  lemma OneTimesMod(v: nat, q: nat)
    requires q > 0
    ensures MulMod64(v, 1, q) == v % q
  {
  }

  /** Multiplying by an ordinary one takes a value out of the format. */
  lemma LeaveMontgomery(v: nat, q: nat)
    requires v < q && q >= 2 && RadixInverts(q)
    ensures MontgomeryMul(ToMontgomery(v, q), 1, q) == v
  {
    hide RadixInverts, ModInvPrime, ToMontgomery, MontgomeryR;
    OneTimesMod(ToMontgomery(v, q), q);
    DecodeUndoesEncode(v, q);
    SmallMod(v, q);
  }

  /** Multiplying by R^2 puts it back. */
  lemma EnterMontgomery(s: nat, p: nat)
    requires p >= 2 && RadixInverts(p)
    ensures var r := MontgomeryR(p); MontgomeryMul(s, MulMod64(r, r, p), p) == (s * r) % p
  {
    hide ModInvPrime, MontgomeryR, MulMod64;
    var r, i := MontgomeryR(p), ModInvPrime(MontgomeryR(p), p);
    MulMod64Congruent(r, r, p);
    TwiceThenOnce(s, r, i, MulMod64(r, r, p), p);
    ProductForm(s, MulMod64(r, r, p), i, p);
  }

  lemma ProductForm(s: nat, t: nat, i: nat, p: nat)
    requires p > 0
    ensures MulMod64(MulMod64(s, t, p), i, p) == ((s * t) * i) % p
  {
    MulModLeft(s * t, i, p);
  }

  lemma TwiceThenOnce(s: nat, r: nat, i: nat, t: nat, p: nat)
    requires p >= 2 && (r * i) % p == 1 && t % p == (r * r) % p
    ensures ((s * t) * i) % p == (s * r) % p
  {
    SameModMul(t, r * r, s, p);
    SameModMul(s * t, s * (r * r), i, p);
    assert (s * (r * r)) * i == (s * r) * (r * i) by {
      MulAssociative(s, r, r);
      MulAssociative(s * r, r, i);
    }
    SmallMod(1, p);
    SameModMul(r * i, 1, s * r, p);
  }

  /** The shifted residue minus the shift is the signed representative. */
  lemma ShiftIsSigned(v: nat, q: nat)
    requires v < q && q % 2 == 1
    ensures (v + Half(q)) % q - Half(q) == Signed(v, q, Half(q))
  {
    if v > Half(q) {
      SameMod(v + Half(q), v + Half(q) - q, 1, q);
      SmallMod(v + Half(q) - q, q);
    } else {
      SmallMod(v + Half(q), q);
    }
  }

  /** Taking the shift away again, scaled by any factor. */
  lemma ShiftedBack(v: nat, q: nat, p: nat, c: nat, back: nat)
    requires v < q && q % 2 == 1 && p > 0 && back % p == (-(c * Half(q))) % p
    ensures ((c * ((v + Half(q)) % q)) % p + back) % p == (c * Signed(v, q, Half(q))) % p
  {
    hide Signed, Half;
    ShiftIsSigned(v, q);
    TakeBack(c, (v + Half(q)) % q, Half(q), back, p);
  }

  lemma TakeBack(c: int, s: int, h: int, back: int, p: nat)
    requires p > 0 && back % p == (-(c * h)) % p
    ensures ((c * s) % p + back) % p == (c * (s - h)) % p
  {
    AddModLeft(c * s, back, p);
    SameModAdd(back, -(c * h), c * s, p);
    assert -(c * h) + c * s == c * (s - h);
    assert back + c * s == c * s + back;
  }

  lemma Unshift(v: nat, q: nat, p: nat, back: nat)
    requires v < q && q % 2 == 1 && p > 0
    requires back == Negate(MulMod64(MontgomeryR(p), Half(q) % p, p), p)
    ensures (((v + Half(q)) % q * MontgomeryR(p)) % p + back) % p == ToMontgomery(Signed(v, q, Half(q)) % p, p)
  {
    hide MontgomeryR;
    var r := MontgomeryR(p);
    var half := MulMod64(r, Half(q) % p, p);
    NegatedProduct(r, Half(q), p);
    ShiftedBack(v, q, p, r, back);
    assert (v + Half(q)) % q * r == r * ((v + Half(q)) % q);
    EncodesProduct(Signed(v, q, Half(q)), r, p);
  }

  lemma UnshiftOrdinary(v: nat, q: nat, p: nat, back: nat)
    requires v < q && q % 2 == 1 && p > 0 && back == Negate(Half(q) % p, p)
    ensures ((v + Half(q)) % q % p + back) % p == Signed(v, q, Half(q)) % p
  {
    hide Signed, Negate;
    SubMod(0, Half(q), p);
    ShiftedBack(v, q, p, 1, back);
  }

  lemma NegatedProduct(r: nat, h: nat, p: nat)
    requires p > 0
    ensures Negate(MulMod64(r, h % p, p), p) % p == (-(r * h)) % p
  {
    var m := MulMod64(r, h % p, p);
    MulMod(r, h, p);
    SubMod(0, r * h, p);
  }

  lemma EncodesProduct(x: int, r: nat, p: nat)
    requires p > 0 && r == MontgomeryR(p)
    ensures (r * x) % p == ToMontgomery(x % p, p)
  {
    SmallMod(x % p, p);
    MulModLeft(x, r, p);
    assert x * r == r * x;
  }

  /** The formula the tests expect is the signed representative modulo the new prime. */
  lemma ExpectedIsSigned(v: nat, q: nat, p: nat)
    requires v < q && q % 2 == 1 && p > 0
    ensures ((v + Half(q)) % q % p + (p - Half(q) % p)) % p == Signed(v, q, Half(q)) % p
  {
    var h := Half(q);
    assert (p - h % p) % p == (-(1 * h)) % p by {
      SubMod(p, h, p);
      SameMod(p - h, -h, 1, p);
    }
    ShiftedBack(v, q, p, 1, p - h % p);
  }

  // ---- The two reference lifts ----

  /** Signed lift of v from qDrop into qTarget, halfway point qDrop >> 1. */
  function SignedLift(v: nat, qDrop: nat, qTarget: nat): (r: nat)
    requires v < qDrop && qTarget > 0
  {
    var half := qDrop / 2;
    if v > half then
      var negMod := (qDrop - v) % qTarget;
      if negMod == 0 then 0 else qTarget - negMod
    else v % qTarget
  }

  /** The oracle's branch, halfway point (q - 1) / 2. */
  function OracleLift(v: nat, q: nat, p: nat): nat
    requires v < q && p > 0
  {
    if v > Half(q) then (v % p + p - q % p) % p else v % p
  }

  lemma SignedLiftMeans(v: nat, q: nat, p: nat)
    requires v < q && p > 0
    ensures SignedLift(v, q, p) == Signed(v, q, q / 2) % p
  {
    if v > q / 2 {
      var n := (q - v) % p;
      NegateMod(n, p);
      SubMod(0, q - v, p);
      SmallMod(SignedLift(v, q, p), p);
    }
  }

  lemma OracleLiftMeans(v: nat, q: nat, p: nat)
    requires v < q && p > 0
    ensures OracleLift(v, q, p) == Signed(v, q, Half(q)) % p
  {
    if v > Half(q) {
      AddModulus(v % p - q % p, p);
      DifferenceMod(v, q, p);
    }
  }

  lemma AddModulus(a: int, p: int)
    requires p > 0
    ensures (a + p) % p == a % p
  {
    SameMod(a + p, a, 1, p);
  }

  lemma DifferenceMod(a: int, b: int, p: int)
    requires p > 0
    ensures (a % p - b % p) % p == (a - b) % p
  {
    var x := a % p;
    SubMod(x, b, p);
    SubMod(a, b, p);
  }

  /** The two lifts agree except on the exact middle of an even modulus that the target does not
      divide; for the odd moduli of the library they always agree. */
  lemma LiftsAgreeExactly(v: nat, q: nat, p: nat)
    requires v < q && p > 0
    ensures SignedLift(v, q, p) == OracleLift(v, q, p) <==> q % 2 == 1 || v != q / 2 || q % p == 0
  {
    SignedLiftMeans(v, q, p);
    OracleLiftMeans(v, q, p);
    if q % 2 == 0 && v == q / 2 {
      assert v > Half(q);
      if v % p == (v - q) % p {
        var k := SameModQuotient(v, v - q, p);
        MultipleMod(k, p);
      }
      if q % p == 0 {
        ModZero(q, p);
        SameMod(v, v - q, q / p, p);
      }
    }
  }
}
