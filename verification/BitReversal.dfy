/** Bit reversal: two loops that reverse an index, and the in-place permutation by swaps. */
module BitReversal {
  import opened Types
  import opened ModArith

  /** Bit i of x: (x >> i) & 1. */
  function Bit(x: nat, i: nat): (b: nat)
    ensures b < 2
  {
    (x / Two(i)) % 2
  }

  /** Bitwise or. */
  function Or(a: nat, b: nat): nat
    decreases a + b
  {
    if a == 0 then b
    else if b == 0 then a
    else 2 * Or(a / 2, b / 2) + if a % 2 == 1 || b % 2 == 1 then 1 else 0
  }

  /** The lowest n bits of x in reverse. */
  function Rev(x: nat, n: nat): (r: nat)
    ensures r < Two(n)
  {
    if n == 0 then 0 else 2 * Rev(x, n - 1) + Bit(x, n - 1)
  }

  // ---- What reversal means, bit by bit ----

  lemma HalfQuotient(a: nat, b: nat, m: nat)
    requires b < 2 && m > 0
    ensures (2 * a + b) / (2 * m) == a / m
  {
    var q, r := a / m, a % m;
    assert a == q * m + r;
    assert 2 * a + b == q * (2 * m) + (2 * r + b);
    DivModUnique(2 * a + b, 2 * m, q, 2 * r + b);
  }

  lemma BitShift(a: nat, b: nat, i: nat)
    requires b < 2 && i > 0
    ensures Bit(2 * a + b, i) == Bit(a, i - 1)
  {
    HalfQuotient(a, b, Two(i - 1));
  }

  lemma LowBit(a: nat, b: nat)
    requires b < 2
    ensures Bit(2 * a + b, 0) == b
  {
    assert Two(0) == 1;
  }

  /** Bit i of the reversal is bit n - 1 - i of the index. */
  lemma {:induction false} RevBits(x: nat, n: nat, i: nat)
    requires i < n
    ensures Bit(Rev(x, n), i) == Bit(x, n - 1 - i)
  {
    hide Bit;
    if i == 0 {
      LowBit(Rev(x, n - 1), Bit(x, n - 1));
    } else {
      BitShift(Rev(x, n - 1), Bit(x, n - 1), i);
      RevBits(x, n - 1, i - 1);
    }
  }

  lemma {:induction false} BitsDetermine(x: nat, y: nat, n: nat)
    requires x < Two(n) && y < Two(n) && forall i :: 0 <= i < n ==> Bit(x, i) == Bit(y, i)
    ensures x == y
    decreases n
  {
    hide Bit;
    if n > 0 {
      LowBit(x / 2, x % 2);
      LowBit(y / 2, y % 2);
      assert Bit(x, 0) == Bit(y, 0);
      forall i | 0 <= i < n - 1 ensures Bit(x / 2, i) == Bit(y / 2, i) {
        BitShift(x / 2, x % 2, i + 1);
        BitShift(y / 2, y % 2, i + 1);
        assert Bit(x, i + 1) == Bit(y, i + 1);
      }
      BitsDetermine(x / 2, y / 2, n - 1);
    }
  }

  lemma RevInvolution(x: nat, n: nat)
    requires x < Two(n)
    ensures Rev(Rev(x, n), n) == x
  {
    hide Bit, Rev;
    forall i | 0 <= i < n ensures Bit(Rev(Rev(x, n), n), i) == Bit(x, i) {
      RevBits(Rev(x, n), n, i);
      RevBits(x, n, n - 1 - i);
    }
    BitsDetermine(Rev(Rev(x, n), n), x, n);
  }

  // ---- The two loops ----

  /** Setting bits below all set bits is adding them. */
  lemma {:induction false} OrDisjoint(a: nat, k: nat, b: nat)
    requires b < Two(k)
    ensures Or(a * Two(k), b) == a * Two(k) + b
    decreases k
  {
    if k == 0 || b == 0 || a == 0 {
    } else {
      var m := a * Two(k - 1);
      assert a * Two(k) == 2 * m by {
        assert a * (2 * Two(k - 1)) == 2 * (a * Two(k - 1));
      }
      OrDisjoint(a, k - 1, b / 2);
    }
  }

  /** Shifts the result left and takes the next bit of the index into it, on 64-bit words. */
  method BitReverseIndex(idx: nat, log2n: nat) returns (out: nat)
    requires log2n <= 64
    ensures out == Rev(idx, log2n)
  {
    hide Bit, Or;
    out := 0;
    for b := 0 to log2n
      invariant out == Rev(idx, b)
    {
      ShiftFits(out, b);
      OrDisjoint(out, 1, Bit(idx, b));
      out := Or(out * 2 % TWO_64, Bit(idx, b));
    }
  }

  lemma ShiftFits(x: nat, b: nat)
    requires x < Two(b) && b < 64
    ensures x * 2 % TWO_64 == x * Two(1)
  {
    hide Two;
    TwoValues();
    TwoMonotone(b + 1, 64);
    TwoStep(b);
    SmallMod(x * 2, TWO_64);
  }

  /** Sets each bit of the index at its mirrored place. */
  method BitRev(x: nat, bits: nat) returns (r: nat)
    ensures r == Rev(x, bits)
  {
    hide Bit, Or, Two;
    r := 0;
    TwoStep(0);
    for i := 0 to bits
      invariant r == Rev(x, i) * Two(bits - i)
    {
      MirrorStep(x, bits, i);
      r := Or(r, Bit(x, i) * Two(bits - 1 - i));
    }
  }

  lemma MirrorStep(x: nat, bits: nat, i: nat)
    requires i < bits
    ensures Or(Rev(x, i) * Two(bits - i), Bit(x, i) * Two(bits - 1 - i)) == Rev(x, i + 1) * Two(bits - i - 1)
  {
    hide Bit, Or, Two;
    var m := Two(bits - i - 1);
    TwoStep(bits - i - 1);
    MirrorAlgebra(Rev(x, i), Bit(x, i), m);
    OrDisjoint(Rev(x, i), bits - i, Bit(x, i) * m);
  }

  lemma MirrorAlgebra(r: nat, b: nat, m: nat)
    requires b < 2 && m > 0
    ensures 0 <= b * m < 2 * m
    ensures (2 * r + b) * m == r * (2 * m) + b * m
  {
    if b == 1 {
      assert b * m == m;
    } else {
      assert b * m == 0;
    }
  }

  // ---- The permutation ----

  /** Entry i moves to entry Rev(i). */
  function Permuted<T>(s: seq<T>, n: nat): (r: seq<T>)
    requires |s| == Two(n)
    ensures |r| == |s|
  {
    seq(|s|, i requires 0 <= i < |s| => s[Rev(i, n)])
  }

  lemma PermutedTwice<T>(s: seq<T>, n: nat)
    requires |s| == Two(n)
    ensures Permuted(Permuted(s, n), n) == s
  {
    hide Rev, Two;
    forall i | 0 <= i < |s| ensures Permuted(Permuted(s, n), n)[i] == s[i] {
      RevInvolution(i, n);
    }
  }

  /** What entry k holds once the pairs with an index below i have been swapped. */
  ghost predicate SwappedBelow(was: seq<nat>, now: seq<nat>, n: nat, i: nat)
    requires |was| == |now| == Two(n)
  {
    forall k :: 0 <= k < |was| ==> now[k] == if k < i || Rev(k, n) < i then was[Rev(k, n)] else was[k]
  }

  lemma SwapStep(was: seq<nat>, now: seq<nat>, n: nat, i: nat)
    requires |was| == |now| == Two(n) && i < |was| && SwappedBelow(was, now, n, i)
    ensures var j := Rev(i, n);
      SwappedBelow(was, if i < j then now[i := now[j]][j := now[i]] else now, n, i + 1)
  {
    hide Rev, Two;
    var j := Rev(i, n);
    RevInvolution(i, n);
    var after := if i < j then now[i := now[j]][j := now[i]] else now;
    forall k | 0 <= k < |was|
      ensures after[k] == if k < i + 1 || Rev(k, n) < i + 1 then was[Rev(k, n)] else was[k]
    {
      RevInvolution(k, n);
    }
  }

  /** Permutes `values` in place by swapping each pair once. */
  method ApplyBitReversal(values: array<nat>, ghost n: nat)
    requires values.Length == Two(n) && n <= 63
    modifies values
    ensures values[..] == Permuted(old(values[..]), n)
  {
    hide Rev, SwappedBelow;
    var log2n := LogOf(values.Length, n);
    ghost var was := values[..];
    NothingSwapped(was, n);
    for i := 0 to values.Length
      invariant SwappedBelow(was, values[..], n, i)
    {
      var j := BitReverseIndex(i, log2n);
      SwapStep(was, values[..], n, i);
      if i < j {
        values[i], values[j] := values[j], values[i];
      }
    }
    AllSwapped(was, values[..], n);
  }

  method LogOf(size: nat, ghost n: nat) returns (log2n: nat)
    requires size == Two(n)
    ensures log2n == n
  {
    log2n := 0;
    while Two(log2n) < size
      invariant log2n <= n
      decreases n - log2n
    {
      if log2n == n {
        assert false;
      }
      log2n := log2n + 1;
    }
    if log2n < n {
      TwoMonotone(log2n + 1, n);
    }
  }

  lemma NothingSwapped(was: seq<nat>, n: nat)
    requires |was| == Two(n)
    ensures SwappedBelow(was, was, n, 0)
  {
  }

  lemma AllSwapped(was: seq<nat>, now: seq<nat>, n: nat)
    requires |was| == |now| == Two(n) && SwappedBelow(was, now, n, |was|)
    ensures now == Permuted(was, n)
  {
    hide Rev;
  }
}
