/** The digits of a hybrid key switch: how the tower primes are cut up and where lifted digits go. */
module KeyswitchDigits {
  import opened Types
  import opened Trace
  import D = DeviceModel
  import I = DeviceInvariant
  import ModArith

  function Min(a: nat, b: nat): nat {
    if a < b then a else b
  }

  /** Primes per digit: the chain length over the number of parts, rounded up. */
  function Alpha(chain: nat, numPart: nat): nat
    requires numPart > 0
  {
    (chain + numPart - 1) / numPart
  }

  /** The parts together cover the chain. */
  lemma AlphaCovers(chain: nat, numPart: nat)
    requires numPart > 0
    ensures numPart * Alpha(chain, numPart) >= chain
    ensures chain > 0 ==> Alpha(chain, numPart) > 0
  {
    var x := chain + numPart - 1;
    assert x == (x / numPart) * numPart + x % numPart;
  }

  /** After `part` digits: how many primes are used up. */
  function Used(part: nat, alpha: nat, towers: nat): nat {
    Min(part * alpha, towers)
  }

  lemma SumSnoc(lens: seq<nat>, n: nat)
    ensures D.Sum(lens + [n]) == D.Sum(lens) + n
  {
    assert (lens + [n])[..|lens|] == lens;
  }

  /** Every prefix of full digits sums to where the next digit starts. */
  lemma {:induction false} PrefixSums(lens: seq<nat>, alpha: nat, towers: nat, i: nat)
    requires i <= |lens|
    requires forall k :: 0 <= k < |lens| ==> DigitLength(lens[k], k, alpha, towers)
    ensures D.Sum(lens[..i]) == Used(i, alpha, towers)
  {
    if i == 0 {
      assert lens[..0] == [];
    } else {
      PrefixSums(lens, alpha, towers, i - 1);
      D.SumStep(lens, i - 1);
    }
  }

  method PartitionDigits(qBase: seq<nat>, numPart: nat, towers: nat) returns (flat: seq<nat>, lens: seq<nat>)
    requires numPart > 0 && 0 < towers <= |qBase|
    ensures flat == qBase[..towers]
    ensures 0 < |lens| <= numPart && D.Sum(lens) == towers
    ensures exists k: nat ::
      EvenDigits(lens, |qBase|, numPart, towers, k) && DigitsInOrder(qBase, flat, lens, k, towers)
  {
    hide DigitsInOrder, DigitLength, EvenDigits, Alpha, Used, Min, D.Digit, D.Sum;
    var alpha := Alpha(|qBase|, numPart);
    AlphaCovers(|qBase|, numPart);
    flat, lens := [], [];
    var part := 0;
    NoneUsed(alpha, towers);
    while part < numPart
      invariant 0 <= part <= numPart && |lens| == part && Used(part, alpha, towers) <= towers
      invariant flat == qBase[..Used(part, alpha, towers)] && D.Sum(lens) == Used(part, alpha, towers)
      invariant forall k :: 0 <= k < |lens| ==> DigitLength(lens[k], k, alpha, towers)
      decreases numPart - part
    {
      var start := part * alpha;
      if start >= towers {
        break;
      }
      NextUsed(part, alpha, towers);
      var end := Min(start + alpha, towers);
      SumSnoc(lens, end - start);
      lens := lens + [end - start];
      for i := start to end
        invariant flat == qBase[..i]
      {
        flat := flat + [qBase[i]];
      }
      part := part + 1;
    }
    FullyUsed(part, numPart, alpha, towers, |qBase|);
    AlphaIsEven(lens, |qBase|, numPart, towers, alpha);
    AllDigits(qBase, flat, lens, alpha, towers);
  }

  /** The digits before the last have k primes each, the fewest with which numPart digits cover the chain;
      the last has what is left, and no digit is one too many. */
  ghost predicate EvenDigits(lens: seq<nat>, chain: nat, numPart: nat, towers: nat, k: nat) {
    && k > 0 && (k - 1) * numPart < chain <= k * numPart
    && lens != [] && (forall i :: 0 <= i < |lens| - 1 ==> lens[i] == k) && 1 <= lens[|lens| - 1] <= k
    && (|lens| - 1) * k < towers <= |lens| * k
  }

  lemma AlphaExact(chain: nat, numPart: nat)
    requires numPart > 0 && chain > 0
    ensures var k := Alpha(chain, numPart); k > 0 && (k - 1) * numPart < chain <= k * numPart
  {
    var x := chain + numPart - 1;
    AlphaCovers(chain, numPart);
    assert x == (x / numPart) * numPart + x % numPart;
    assert (x / numPart - 1) * numPart == (x / numPart) * numPart - numPart;
  }

  lemma AlphaIsEven(lens: seq<nat>, chain: nat, numPart: nat, towers: nat, alpha: nat)
    requires numPart > 0 && 0 < towers <= chain && alpha == Alpha(chain, numPart) && lens != []
    requires forall k :: 0 <= k < |lens| ==> DigitLength(lens[k], k, alpha, towers)
    requires Used(|lens|, alpha, towers) == towers
    ensures EvenDigits(lens, chain, numPart, towers, alpha)
  {
    hide Alpha;
    AlphaExact(chain, numPart);
    var n := |lens| - 1;
    assert DigitLength(lens[n], n, alpha, towers);
    forall i | 0 <= i < n ensures lens[i] == alpha {
      assert DigitLength(lens[i], i, alpha, towers);
      assert DigitLength(lens[i + 1], i + 1, alpha, towers);
      NextUsed(i, alpha, towers);
      assert (i + 1) * alpha == i * alpha + alpha;
    }
  }

  /** Digit i is the i-th stretch of alpha primes, the last one cut off at the towers; none is empty. */
  ghost predicate DigitIs(qBase: seq<nat>, flat: seq<nat>, lens: seq<nat>, alpha: nat, towers: nat, i: nat)
    requires towers <= |qBase| && D.Sum(lens) <= |flat| && i < |lens|
  {
    && 0 < lens[i] <= alpha && i * alpha <= Min(i * alpha + alpha, towers)
    && D.Digit(flat, lens, i) == qBase[i * alpha..Min(i * alpha + alpha, towers)]
  }

  ghost predicate DigitsInOrder(qBase: seq<nat>, flat: seq<nat>, lens: seq<nat>, alpha: nat, towers: nat)
    requires towers <= |qBase| && D.Sum(lens) <= |flat|
  {
    forall i :: 0 <= i < |lens| ==> DigitIs(qBase, flat, lens, alpha, towers, i)
  }

  lemma AllDigits(qBase: seq<nat>, flat: seq<nat>, lens: seq<nat>, alpha: nat, towers: nat)
    requires towers <= |qBase| && alpha > 0 && flat == qBase[..towers] && D.Sum(lens) <= |flat|
    requires forall k :: 0 <= k < |lens| ==> DigitLength(lens[k], k, alpha, towers)
    ensures DigitsInOrder(qBase, flat, lens, alpha, towers)
  {
    hide DigitLength, DigitIs;
    forall i | 0 <= i < |lens| ensures DigitIs(qBase, flat, lens, alpha, towers, i) {
      DigitAt(qBase, flat, lens, alpha, towers, i);
    }
  }

  /** The length of digit k: full, or what is left of the towers. */
  predicate DigitLength(n: nat, k: nat, alpha: nat, towers: nat) {
    n == Used(k + 1, alpha, towers) - Used(k, alpha, towers) && k * alpha < towers && 0 < n <= alpha
  }

  lemma NoneUsed(alpha: nat, towers: nat)
    ensures Used(0, alpha, towers) == 0 && D.Sum([]) == 0
  {
    assert 0 * alpha == 0;
  }

  lemma NextUsed(part: nat, alpha: nat, towers: nat)
    requires part * alpha < towers && alpha > 0
    ensures Used(part, alpha, towers) == part * alpha
    ensures Used(part + 1, alpha, towers) == Min(part * alpha + alpha, towers)
    ensures part * alpha < Min(part * alpha + alpha, towers) <= towers
    ensures DigitLength(Min(part * alpha + alpha, towers) - part * alpha, part, alpha, towers)
  {
    assert (part + 1) * alpha == part * alpha + alpha;
  }

  lemma FullyUsed(part: nat, numPart: nat, alpha: nat, towers: nat, chain: nat)
    requires part <= numPart && towers <= chain <= numPart * alpha && (part == numPart || part * alpha >= towers)
    requires 0 < towers
    ensures Used(part, alpha, towers) == towers && part > 0
  {
    assert 0 * alpha == 0;
  }

  lemma DigitAt(qBase: seq<nat>, flat: seq<nat>, lens: seq<nat>, alpha: nat, towers: nat, i: nat)
    requires i < |lens| && towers <= |qBase| && alpha > 0 && flat == qBase[..towers] && D.Sum(lens) <= |flat|
    requires forall k :: 0 <= k < |lens| ==> DigitLength(lens[k], k, alpha, towers)
    ensures DigitIs(qBase, flat, lens, alpha, towers, i)
  {
    hide D.Sum, D.Digit;
    PrefixSums(lens, alpha, towers, i);
    assert DigitLength(lens[i], i, alpha, towers);
    NextUsed(i, alpha, towers);
    SliceIs(qBase, flat, lens, towers, i, i * alpha);
  }

  lemma SliceIs(qBase: seq<nat>, flat: seq<nat>, lens: seq<nat>, towers: nat, i: nat, start: nat)
    requires i < |lens| && towers <= |qBase| && flat == qBase[..towers] && D.Sum(lens) <= |flat|
    requires D.Sum(lens[..i]) == start
    ensures start + lens[i] <= towers && D.Digit(flat, lens, i) == qBase[start..start + lens[i]]
  {
    D.SumPrefix(lens, i);
  }

  /** What the partition hands to ModUp is always valid. */
  lemma PartitionIsValid(qBase: seq<nat>, towers: nat, flat: seq<nat>, lens: seq<nat>, pBase: seq<nat>)
    requires 0 < towers <= |qBase| && flat == qBase[..towers] && lens != [] && D.Sum(lens) == towers && pBase != []
    requires towers < TWO_64
    ensures D.ValidateModUp(qBase[..towers], flat, lens, pBase) == Success
  {
  }

  // ---- The flat output of ModUp ----

  /** (digit, tower) -> digit * width + tower is a bijection onto the flat output. */
  lemma LayoutBijection(digits: nat, width: nat, d: nat, t: nat)
    requires d < digits && t < width
    ensures d * width + t < digits * width
    ensures (d * width + t) / width == d && (d * width + t) % width == t
  {
    ModArith.MulMonotone(d + 1, digits, width);
    assert (d + 1) * width == d * width + width;
    ModArith.DivModUnique(d * width + t, width, d, t);
  }

  lemma LayoutOnto(digits: nat, width: nat, i: nat)
    requires i < digits * width
    ensures width > 0 && i / width < digits && i % width < width && (i / width) * width + i % width == i
  {
    assert digits * 0 == 0;
    if i / width >= digits {
      ModArith.MulMonotone(digits, i / width, width);
    }
  }

  /** Tower t of lifted digit d is stored at flat position d * width + t. */
  lemma {:induction false} LiftedAt(sem: Semantics, vs: seq<Bytes>, srcBase: seq<nat>, digitBases: seq<nat>,
                                    digitLens: seq<nat>, pBase: seq<nat>, count: nat, d: nat, t: nat)
    requires count <= |digitLens| && D.Sum(digitLens) <= |digitBases| && d < count && t < |srcBase + pBase|
    ensures var w := |srcBase + pBase|;
      && d * w + t < count * w
      && I.Lifted(sem, vs, srcBase, digitBases, digitLens, pBase, count)[d * w + t] ==
           sem(OpCode("fast_base_convert", [], srcBase, D.Digit(digitBases, digitLens, d), (srcBase + pBase)[t]), vs)
    decreases count
  {
    hide D.Digit;
    var w := |srcBase + pBase|;
    LayoutBijection(count, w, d, t);
    if d < count - 1 {
      LayoutBijection(count - 1, w, d, t);
      LiftedAt(sem, vs, srcBase, digitBases, digitLens, pBase, count - 1, d, t);
    }
  }
}
