/** The Montgomery data format: encoding by the radix 2^64, decoding by its inverse, one value at a
    time and in place over a vector. */
module Montgomery {
  import opened Types
  import opened ModArith
  import opened NumberTheory

  /** The product fits 128 bits for 64-bit operands, so it is exact. */
  function MulMod64(a: nat, b: nat, m: nat): (r: nat)
    requires m > 0
    ensures r < m
  {
    (a * b) % m
  }

  /** The radix modulo q. */
  function MontgomeryR(q: nat): nat
    requires q > 0
  {
    TWO_64 % q
  }

  function ToMontgomery(x: nat, q: nat): (r: nat)
    requires q > 0
    ensures r < q
  {
    MulMod64(x % q, MontgomeryR(q), q)
  }

  function ModInvPrime(a: nat, q: nat): (r: nat)
    requires q >= 2
    ensures r < q
  {
    Pow(a % q, q - 2) % q
  }

  function FromMontgomery(y: nat, q: nat): nat
    requires q >= 2
  {
    MulMod64(y % q, ModInvPrime(MontgomeryR(q), q), q)
  }

  // ---- Square and multiply ----

  lemma HalveExponent(b: nat, d: nat)
    requires d > 0
    ensures Pow(b, d) == if d % 2 != 0 then b * Pow(b * b, d / 2) else Pow(b * b, d / 2)
  {
    PowSquare(b, d / 2);
    if d % 2 != 0 {
      PowSquare(b, (d - 1) / 2);
    }
  }

  /** What is still to compute: r times b^d. */
  ghost function Remaining(r: nat, b: nat, d: nat, m: nat): int
    requires m > 0
  {
    (r * Pow(b, d)) % m
  }

  lemma RemainingStep(r: nat, b: nat, d: nat, m: nat)
    requires m > 0 && d > 0
    ensures Remaining(if d % 2 != 0 then MulMod64(r, b, m) else r, MulMod64(b, b, m), d / 2, m) == Remaining(r, b, d, m)
  {
    HalveExponent(b, d);
    var x := Pow(b * b, d / 2);
    var y := Pow(MulMod64(b, b, m), d / 2);
    MulMod64Congruent(b, b, m);
    PowCongruent(MulMod64(b, b, m), b * b, d / 2, m);
    if d % 2 != 0 {
      ShiftFactor(r, b, x, y, m);
    } else {
      SameModMul(y, x, r, m);
    }
  }

  lemma MulMod64Congruent(a: nat, b: nat, m: nat)
    requires m > 0
    ensures MulMod64(a, b, m) % m == (a * b) % m
  {
  }

  lemma ShiftFactor(r: nat, b: nat, x: int, y: int, m: nat)
    requires m > 0 && y % m == x % m
    ensures (MulMod64(r, b, m) * y) % m == (r * (b * x)) % m
  {
    MulMod64Congruent(r, b, m);
    SameModMul(MulMod64(r, b, m), r * b, y, m);
    SameModMul(y, x, r * b, m);
    MulAssociative(r, b, x);
  }

  lemma RemainingStart(a: nat, e: nat, m: nat)
    requires m > 0
    ensures Remaining(1 % m, a % m, e, m) == Pow(a, e) % m
  {
    hide Pow;
    OneFactor(Pow(a % m, e), m);
    SmallMod(a % m, m);
    PowCongruent(a % m, a, e, m);
  }

  lemma OneFactor(x: int, m: int)
    requires m > 0
    ensures ((1 % m) * x) % m == x % m
  {
    MulModLeft(1, x, m);
  }

  lemma RemainingEnd(r: nat, b: nat, m: nat)
    requires r < m
    ensures Remaining(r, b, 0, m) == r
  {
    assert r * Pow(b, 0) == r;
    SmallMod(r, m);
  }

  /** a^e mod m by square-and-multiply. */
  method PowMod(a: nat, e: nat, m: nat) returns (r: nat)
    requires m > 0
    ensures r == Pow(a, e) % m
  {
    hide Remaining, MulMod64, Pow;
    r := 1 % m;
    var b: nat, d: nat := a % m, e;
    RemainingStart(a, e, m);
    while d > 0
      invariant Remaining(r, b, d, m) == Pow(a, e) % m
      invariant r < m
    {
      RemainingStep(r, b, d, m);
      if d % 2 != 0 {
        r := MulMod64(r, b, m);
      }
      b := MulMod64(b, b, m);
      d := d / 2;
    }
    RemainingEnd(r, b, m);
  }

  // ---- Inverses ----

  /** The power a^(q-2) inverts a modulo a prime q. */
  lemma ModInvPrimeInverts(a: nat, q: nat)
    requires Prime(q) && q >= 2 && a % q != 0
    ensures (a * ModInvPrime(a, q)) % q == 1
  {
    hide Prime, Pow;
    Fermat(q, a);
    PowCongruent(a % q, a, q - 2, q);
    PowAdd(a, 1, q - 2);
    PowOne(a);
    FactorCongruent(a, Pow(a % q, q - 2), Pow(a, q - 2), q);
  }

  lemma PowOne(a: int)
    ensures Pow(a, 1) == a
  {
    assert Pow(a, 0) == 1;
  }

  lemma FactorCongruent(a: int, x: int, y: int, q: int)
    requires q > 0 && x % q == y % q
    ensures (a * (x % q)) % q == (a * y) % q
  {
    MulMod(a, x, q);
    SameModMul(x, y, a, q);
  }

  method InversePrime(a: nat, q: nat) returns (r: nat)
    requires q >= 2
    ensures r == ModInvPrime(a, q)
    ensures Prime(q) && a % q != 0 ==> (a * r) % q == 1
  {
    r := PowMod(a % q, q - 2, q);
    PowModulo(a, q);
    if Prime(q) && a % q != 0 {
      ModInvPrimeInverts(a, q);
    }
  }

  lemma PowModulo(a: nat, q: nat)
    requires q >= 2
    ensures Pow(a % q, q - 2) % q == ModInvPrime(a, q)
  {
  }

  /** An odd prime divides no power of two. */
  lemma {:induction false} OddPrimeNotInPower(q: nat, e: nat)
    requires Prime(q) && q != 2
    ensures Pow(2, e) % q != 0
  {
    if e == 0 {
      SmallMod(1, q);
    } else {
      OddPrimeNotInPower(q, e - 1);
      SmallMod(2, q);
      if Pow(2, e) % q == 0 {
        EuclidAny(q, 2, Pow(2, e - 1));
      }
    }
  }

  lemma Radix()
    ensures Pow(2, 64) == TWO_64
  {
    PowAdd(2, 8, 8);
    PowAdd(2, 16, 16);
    PowAdd(2, 32, 32);
    assert Pow(2, 8) == 256;
  }

  /** The radix is a unit: its computed inverse multiplies it to one. */
  ghost predicate RadixInverts(q: nat)
    requires q >= 2
  {
    (MontgomeryR(q) * ModInvPrime(MontgomeryR(q), q)) % q == 1
  }

  lemma OddPrimeRadix(q: nat)
    requires Prime(q) && q != 2
    ensures RadixInverts(q)
  {
    Radix();
    OddPrimeNotInPower(q, 64);
    ModInvPrimeInverts(MontgomeryR(q), q);
  }

  // ---- Round trips ----

  lemma DecodeUndoesEncode(x: nat, q: nat)
    requires q >= 2 && RadixInverts(q)
    ensures FromMontgomery(ToMontgomery(x, q), q) == x % q
    ensures ToMontgomery(FromMontgomery(x, q), q) == x % q
  {
    hide MontgomeryR, ModInvPrime, MulMod64;
    var r, i := MontgomeryR(q), ModInvPrime(MontgomeryR(q), q);
    UndoFactor(x, r, i, q);
    assert i * r == r * i;
    UndoFactor(x, i, r, q);
  }

  lemma UndoFactor(x: nat, r: nat, i: nat, q: nat)
    requires q >= 2 && (r * i) % q == 1
    ensures MulMod64(MulMod64(x % q, r, q) % q, i, q) == x % q
  {
    var y := x % q;
    UndoProduct(y, r, i, q);
    SmallMod(MulMod64(y, r, q), q);
  }

  lemma UndoProduct(y: nat, r: nat, i: nat, q: nat)
    requires q >= 2 && (r * i) % q == 1 && y < q
    ensures (((y * r) % q) * i) % q == y
  {
    MulModLeft(y * r, i, q);
    MulAssociative(y, r, i);
    SmallMod(1, q);
    SameModMul(r * i, 1, y, q);
    SmallMod(y, q);
  }

  /** For a prime modulus the format loses nothing exactly when the modulus is odd. */
  lemma RoundTripExactly(q: nat)
    requires Prime(q)
    ensures (forall x: nat :: FromMontgomery(ToMontgomery(x, q), q) == x % q) <==> q != 2
  {
    if q != 2 {
      OddPrimeRadix(q);
      forall x: nat ensures FromMontgomery(ToMontgomery(x, q), q) == x % q {
        DecodeUndoesEncode(x, q);
      }
    } else {
      assert MontgomeryR(2) == 0;
      assert ToMontgomery(1, 2) == 0;
      assert FromMontgomery(0, 2) == 0;
    }
  }

  // ---- Bulk, in place ----

  function EncodeAll(s: seq<nat>, q: nat): (r: seq<nat>)
    requires q > 0
    ensures |r| == |s|
  {
    seq(|s|, i requires 0 <= i < |s| => ToMontgomery(s[i], q))
  }

  function DecodeAll(s: seq<nat>, q: nat): (r: seq<nat>)
    requires q >= 2
    ensures |r| == |s|
  {
    seq(|s|, i requires 0 <= i < |s| => FromMontgomery(s[i], q))
  }

  method EncodeInPlace(values: array<nat>, q: nat)
    requires q > 0
    modifies values
    ensures values[..] == EncodeAll(old(values[..]), q)
  {
    var r := MontgomeryR(q);
    for k := 0 to values.Length
      invariant values[..k] == EncodeAll(old(values[..]), q)[..k]
      invariant values[k..] == old(values[..])[k..]
    {
      assert values[k] == values[k..][0];
      values[k] := MulMod64(values[k] % q, r, q);
      assert values[..k + 1] == values[..k] + [values[k]];
    }
    assert values[..values.Length] == values[..];
  }

  method DecodeInPlace(values: array<nat>, q: nat)
    requires q >= 2
    modifies values
    ensures values[..] == DecodeAll(old(values[..]), q)
  {
    var inverse := InversePrime(MontgomeryR(q), q);
    for k := 0 to values.Length
      invariant values[..k] == DecodeAll(old(values[..]), q)[..k]
      invariant values[k..] == old(values[..])[k..]
    {
      assert values[k] == values[k..][0];
      values[k] := MulMod64(values[k] % q, inverse, q);
      assert values[..k + 1] == values[..k] + [values[k]];
    }
    assert values[..values.Length] == values[..];
  }

  /** Encoding a vector of residues and decoding it gives the vector back, and the other way round. */
  lemma BulkRoundTrip(s: seq<nat>, q: nat)
    requires Prime(q) && q > 2 && forall i :: 0 <= i < |s| ==> s[i] < q
    ensures DecodeAll(EncodeAll(s, q), q) == s
    ensures EncodeAll(DecodeAll(s, q), q) == s
  {
    hide Prime, ToMontgomery, FromMontgomery, RadixInverts;
    OddPrimeRadix(q);
    forall i | 0 <= i < |s|
      ensures DecodeAll(EncodeAll(s, q), q)[i] == s[i] && EncodeAll(DecodeAll(s, q), q)[i] == s[i]
    {
      SmallMod(s[i], q);
      DecodeUndoesEncode(s[i], q);
    }
  }

  /** The other reference encoding, shifting by 64 bits before reducing, is the same. */
  lemma ShiftEncodingAgrees(x: nat, q: nat)
    requires q > 0
    ensures ((x % q) * TWO_64) % q == ToMontgomery(x, q)
  {
    MulMod(x % q, TWO_64, q);
  }
}
