/** The slot permutation of an automorphism, in slot order and on bit-reversed storage. */
module Automorphism {
  import opened Types
  import opened ModArith
  import opened BitReversal

  /** The slot that automorphism k reads for slot i, with 2^n slots. */
  function Slot(k: nat, i: nat, n: nat): (j: nat)
    requires k > 0
    ensures j < Two(n)
  {
    SlotBound(k * (2 * i + 1) - 1, n);
    ((k * (2 * i + 1) - 1) % Two(n + 1)) / 2
  }

  lemma SlotBound(x: int, n: nat)
    ensures 0 <= (x % Two(n + 1)) / 2 < Two(n)
  {
  }

  /** The same on 64-bit words, where the product and the difference may wrap. */
  function Slot64(k: nat, i: nat, n: nat): nat {
    ((((k * (2 * i + 1)) % TWO_64 - 1) % TWO_64) % Two(n + 1)) / 2
  }

  /** 2^64 is a multiple of the ring's 2N, so wrapping changes nothing. */
  lemma WrapHarmless(k: nat, i: nat, n: nat)
    requires k > 0 && n < 64
    ensures Slot64(k, i, n) == Slot(k, i, n)
  {
    var p, m := k * (2 * i + 1), Two(n + 1);
    TwoAdd(63 - n, n + 1);
    TwoValues();
    WrapTwice(p, Two(63 - n), m);
  }

  lemma WrapTwice(p: int, c: nat, m: nat)
    requires c > 0 && m > 0
    ensures ((p % (c * m) - 1) % (c * m)) % m == (p - 1) % m
  {
    var w := c * m;
    SubMod(p, 1, w) by {
      assert w > 0;
    }
    var q := (p - 1) / w;
    assert p - 1 == q * w + (p - 1) % w;
    assert q * w == (q * c) * m by {
      MulAssociative(q, c, m);
    }
    SameMod(p - 1, (p - 1) % w, q * c, m);
    SubModOne(p, w);
  }

  lemma SubModOne(p: int, w: nat)
    requires w > 0
    ensures (p % w - 1) % w == (p - 1) % w
  {
    SubMod(p, 1, w);
  }

  // ---- Odd automorphisms act by multiplication on odd numbers modulo 2N ----

  /** Slot j is the one whose odd number 2j + 1 is k times 2i + 1. */
  lemma SlotMultiplies(k: nat, i: nat, n: nat)
    requires k % 2 == 1
    ensures (2 * Slot(k, i, n) + 1) % Two(n + 1) == (k * (2 * i + 1)) % Two(n + 1)
  {
    hide Two;
    TwoStep(n);
    OddTimesOdd(k, 2 * i + 1);
    HalfAndBack(k * (2 * i + 1), Two(n));
  }

  lemma HalfAndBack(x: int, h: nat)
    requires h > 0 && x % 2 == 1
    ensures (2 * (((x - 1) % (2 * h)) / 2) + 1) % (2 * h) == x % (2 * h)
  {
    var m := 2 * h;
    ParityKept(x - 1, h);
    HalveEven((x - 1) % m);
    AddModLeft(x - 1, 1, m);
  }

  lemma HalveEven(r: nat)
    requires r % 2 == 0
    ensures 2 * (r / 2) + 1 == r + 1
  {
  }

  lemma ParityKept(x: int, m: nat)
    requires m > 0
    ensures (x % (2 * m)) % 2 == x % 2
  {
    var q := x / (2 * m);
    assert x == q * (2 * m) + x % (2 * m);
    assert q * (2 * m) == 2 * (q * m);
  }

  /** An odd number below 2N determines its slot. */
  lemma OddDetermines(i: nat, j: nat, n: nat)
    requires i < Two(n) && j < Two(n) && (2 * i + 1) % Two(n + 1) == (2 * j + 1) % Two(n + 1)
    ensures i == j
  {
    SmallMod(2 * i + 1, Two(n + 1));
    SmallMod(2 * j + 1, Two(n + 1));
  }

  /** Automorphisms compose by multiplying their indices. */
  lemma SlotsCompose(k: nat, k1: nat, i: nat, n: nat)
    requires k % 2 == 1 && k1 % 2 == 1 && i < Two(n)
    ensures ((k * k1) % Two(n + 1)) % 2 == 1
    ensures Slot(k, Slot(k1, i, n), n) == Slot((k * k1) % Two(n + 1), i, n)
  {
    hide Slot;
    var m := Two(n + 1);
    OddProduct(k, k1, n);
    var kk := (k * k1) % m;
    var inner := Slot(k1, i, n);
    SlotMultiplies(k1, i, n);
    SlotMultiplies(k, inner, n);
    SlotMultiplies(kk, i, n);
    SameModMul(2 * inner + 1, k1 * (2 * i + 1), k, m);
    MulAssociative(k, k1, 2 * i + 1);
    MulModLeft(k * k1, 2 * i + 1, m);
    OddDetermines(Slot(k, inner, n), Slot(kk, i, n), n);
  }

  lemma OddProduct(k: nat, k1: nat, n: nat)
    requires k % 2 == 1 && k1 % 2 == 1
    ensures ((k * k1) % Two(n + 1)) % 2 == 1
  {
    OddTimesOdd(k, k1);
    ParityKept(k * k1, Two(n));
  }

  lemma OddTimesOdd(k: nat, k1: nat)
    requires k % 2 == 1 && k1 % 2 == 1
    ensures (k * k1) % 2 == 1
  {
    var h := k1 / 2;
    var m := k * h;
    assert k * k1 == 2 * m + k by {
      DoubleFactor(k, h);
    }
  }

  lemma DoubleFactor(k: int, h: int)
    ensures k * (2 * h + 1) == 2 * (k * h) + k
  {
  }

  lemma IdentitySlot(i: nat, n: nat)
    requires i < Two(n)
    ensures Slot(1, i, n) == i
  {
    SlotMultiplies(1, i, n);
    OddDetermines(Slot(1, i, n), i, n);
  }

  /** Every odd number has an odd inverse modulo a power of two. */
  lemma {:induction false} OddInverse(k: nat, n: nat) returns (x: nat)
    requires k % 2 == 1
    ensures (k * x) % Two(n + 1) == 1 && x % 2 == 1
  {
    hide Two;
    TwoStep(n);
    if n == 0 {
      x := 1;
    } else {
      TwoStep(n - 1);
      var y := OddInverse(k, n - 1);
      x := NextInverse(k, y, Two(n));
    }
  }

  /** An inverse modulo m, or that plus m, is one modulo 2m. */
  lemma NextInverse(k: nat, y: nat, m: nat) returns (x: nat)
    requires k % 2 == 1 && y % 2 == 1 && m > 1 && m % 2 == 0 && (k * y) % m == 1
    ensures (k * x) % (2 * m) == 1 && x % 2 == 1
  {
    var c := QuotientOfOne(k * y, m);
    if c % 2 == 0 {
      x := y;
      LiftInverse(k * y, c, m);
    } else {
      x := y + m;
      OddLift(k, y, c, m);
    }
  }

  lemma OddLift(k: nat, y: nat, c: int, m: nat)
    requires k % 2 == 1 && c % 2 == 1 && m > 1 && k * y == c * m + 1
    ensures (k * (y + m)) % (2 * m) == 1
  {
    AddTerm(k, y, c, m);
    LiftInverse(k * (y + m), c + k, m);
  }

  lemma AddTerm(k: int, y: int, c: int, m: int)
    requires k * y == c * m + 1
    ensures k * (y + m) == (c + k) * m + 1
  {
  }

  lemma QuotientOfOne(p: int, m: nat) returns (c: int)
    requires m > 1 && p % m == 1
    ensures p == c * m + 1
  {
    c := p / m;
  }

  lemma LiftInverse(x: int, c: int, m: nat)
    requires m > 1 && x == c * m + 1 && c % 2 == 0
    ensures x % (2 * m) == 1
  {
    var h := c / 2;
    assert c * m == h * (2 * m);
    DivModUnique(x, 2 * m, h, 1);
  }

  /** An odd automorphism permutes the slots: each slot is read for exactly one slot. */
  lemma SlotsPermute(k: nat, j: nat, n: nat) returns (i: nat)
    requires k % 2 == 1 && j < Two(n)
    ensures i < Two(n) && Slot(k, i, n) == j
    ensures forall x :: 0 <= x < Two(n) && Slot(k, x, n) == j ==> x == i
  {
    hide Slot, Two;
    var y := OddInverse(k, n);
    i := Slot(y, j, n);
    InverseSlots(k, y, j, n);
    forall x | 0 <= x < Two(n) && Slot(k, x, n) == j ensures x == i {
      assert y * k == k * y;
      InverseSlots(y, k, x, n);
    }
  }

  /** Inverse indices undo each other. */
  lemma InverseSlots(k: nat, y: nat, j: nat, n: nat)
    requires k % 2 == 1 && y % 2 == 1 && j < Two(n) && (k * y) % Two(n + 1) == 1
    ensures Slot(k, Slot(y, j, n), n) == j
  {
    hide Slot;
    SlotsCompose(k, y, j, n);
    IdentitySlot(j, n);
  }

  // ---- On bit-reversed storage ----

  /** Where storage position a of the result reads from. */
  function StoredSource(k: nat, a: nat, n: nat): (b: nat)
    requires k > 0
    ensures b < Two(n)
  {
    Rev(Slot(k, Rev(a, n), n), n)
  }

  function Rotated<T>(s: seq<T>, k: nat, n: nat): (r: seq<T>)
    requires |s| == Two(n) && k > 0
    ensures |r| == |s|
  {
    seq(|s|, a requires 0 <= a < |s| => s[StoredSource(k, a, n)])
  }

  method Sigma(input: array<nat>, k: nat, n: nat) returns (output: array<nat>)
    requires input.Length == Two(n) && n < 64 && k > 0
    ensures fresh(output) && output[..] == Rotated(input[..], k, n)
    ensures input[..] == old(input[..])
  {
    hide Rev, Slot, Slot64, Two;
    output := new nat[input.Length];
    for a := 0 to input.Length
      invariant output[..a] == Rotated(input[..], k, n)[..a]
      invariant input[..] == old(input[..])
    {
      var i := BitRev(a, n);
      WrapHarmless(k, i, n);
      var j := Slot64(k, i, n);
      var b := BitRev(j, n);
      output[a] := input[b];
      assert output[..a + 1] == output[..a] + [output[a]];
    }
    assert output[..input.Length] == output[..];
  }

  lemma SourcesCompose(k: nat, k1: nat, a: nat, n: nat)
    requires k % 2 == 1 && k1 % 2 == 1 && a < Two(n)
    ensures ((k * k1) % Two(n + 1)) % 2 == 1
    ensures StoredSource(k1, StoredSource(k, a, n), n) == StoredSource((k1 * k) % Two(n + 1), a, n)
  {
    hide Rev, Slot;
    RevInvolution(Slot(k, Rev(a, n), n), n);
    SlotsCompose(k1, k, Rev(a, n), n);
    SlotsCompose(k, k1, Rev(a, n), n);
  }

  /** Rotating by k1 and then by k is rotating by their product modulo 2N. */
  lemma RotationsCompose<T>(s: seq<T>, k: nat, k1: nat, n: nat)
    requires |s| == Two(n) && k % 2 == 1 && k1 % 2 == 1
    ensures ((k1 * k) % Two(n + 1)) % 2 == 1
    ensures Rotated(Rotated(s, k1, n), k, n) == Rotated(s, (k1 * k) % Two(n + 1), n)
  {
    hide StoredSource, Two;
    SourcesCompose(k1, k, 0, n);
    assert k1 * k == k * k1;
    forall a | 0 <= a < |s|
      ensures Rotated(Rotated(s, k1, n), k, n)[a] == Rotated(s, (k1 * k) % Two(n + 1), n)[a]
    {
      SourcesCompose(k, k1, a, n);
    }
  }

  /** Rotating by k and then by its inverse modulo 2N gives the vector back. */
  lemma RotateBack<T>(s: seq<T>, k: nat, k1: nat, n: nat)
    requires |s| == Two(n) && k % 2 == 1 && k1 % 2 == 1 && (k1 * k) % Two(n + 1) == 1
    ensures Rotated(Rotated(s, k1, n), k, n) == s
  {
    hide Rev, Slot;
    RotationsCompose(s, k, k1, n);
    forall a | 0 <= a < |s| ensures StoredSource(1, a, n) == a {
      IdentitySlot(Rev(a, n), n);
      RevInvolution(a, n);
    }
  }
}
