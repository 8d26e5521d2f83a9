/** Validation of the basis-conversion calls, as the loops the program runs. */
module BasisConversion {
  import opened Types
  import D = DeviceModel

  /** The rescaled primes must be a proper part of the source primes. */
  method ValidateModDown(srcBase: seq<nat>, rescaleBase: seq<nat>) returns (s: Status)
    ensures s == D.ValidateModDown(srcBase, rescaleBase)
  {
    if srcBase == [] || rescaleBase == [] {
      return Failure(InvalidArgument);
    }
    if |rescaleBase| >= |srcBase| {
      return Failure(InvalidArgument);
    }
    var srcSet := ToSet(srcBase);
    for j := 0 to |rescaleBase|
      invariant forall k :: 0 <= k < j ==> rescaleBase[k] in srcBase
    {
      if rescaleBase[j] !in srcSet {
        assert rescaleBase[j] in rescaleBase;
        return Failure(InvalidArgument);
      }
    }
    return Success;
  }

  /** The digit lengths must add up, in 64 bits, to the length of the flat digit list. */
  method ValidateModUp(srcBase: seq<nat>, digitBases: Pointer<seq<nat>>, digitLens: seq<nat>, pBase: seq<nat>)
    returns (s: Status)
    ensures s ==
      if digitBases.Null? then Failure(InvalidArgument)
      else D.ValidateModUp(srcBase, digitBases.target, digitLens, pBase)
  {
    if srcBase == [] || digitBases.Null? || digitLens == [] || pBase == [] {
      return Failure(InvalidArgument);
    }
    var sum := 0;
    for i := 0 to |digitLens|
      invariant sum == Cursor(digitLens, i)
    {
      D.SumStep(digitLens, i);
      sum := (sum + digitLens[i]) % TWO_64;
    }
    assert digitLens[..|digitLens|] == digitLens;
    if sum != |digitBases.target| {
      return Failure(InvalidArgument);
    }
    return Success;
  }

  // ---- What validation promises the loop that cuts the digits ----

  /** Where the 64-bit cursor stands in the flat list when digit i is cut off. */
  function Cursor(digitLens: seq<nat>, i: nat): nat
    requires i <= |digitLens|
  {
    D.Sum(digitLens[..i]) % TWO_64
  }

  /** Every digit the cursor cuts off lies inside the flat list. */
  predicate SlicesInBounds(digitBases: seq<nat>, digitLens: seq<nat>) {
    forall i :: 0 <= i < |digitLens| ==> Cursor(digitLens, i) + digitLens[i] <= |digitBases|
  }

  /** Lengths that validation accepts although the first digit reaches far beyond the list: their
      64-bit sum wraps around to its length. */
  lemma WrappedLengthsAccepted()
    ensures D.ValidateModUp([3], [5, 7], [TWO_64 - 1, 3], [11]) == Success
    ensures !SlicesInBounds([5, 7], [TWO_64 - 1, 3])
  {
    var lens := [TWO_64 - 1, 3];
    D.SumStep(lens, 0);
    D.SumStep(lens, 1);
    assert lens[..0] == [] && lens[..2] == lens;
    assert D.Sum(lens) == TWO_64 + 2;
    assert Cursor(lens, 0) + lens[0] > 2;
  }

  /** Of what validation accepts, exactly the lengths whose true sum fits in 64 bits are cut within
      the list. */
  lemma AcceptedSlices(srcBase: seq<nat>, digitBases: seq<nat>, digitLens: seq<nat>, pBase: seq<nat>)
    requires |digitBases| < TWO_64 && D.ValidateModUp(srcBase, digitBases, digitLens, pBase) == Success
    ensures SlicesInBounds(digitBases, digitLens) <==> D.Sum(digitLens) < TWO_64
  {
    assert digitLens[..|digitLens|] == digitLens;
    if D.Sum(digitLens) < TWO_64 {
      forall i | 0 <= i < |digitLens| ensures Cursor(digitLens, i) + digitLens[i] <= |digitBases| {
        D.SumPrefix(digitLens, i);
      }
    } else if SlicesInBounds(digitBases, digitLens) {
      PrefixFits(digitBases, digitLens, |digitLens|);
    }
  }

  lemma {:induction false} PrefixFits(digitBases: seq<nat>, digitLens: seq<nat>, n: nat)
    requires n <= |digitLens| && |digitBases| < TWO_64 && SlicesInBounds(digitBases, digitLens)
    ensures D.Sum(digitLens[..n]) < TWO_64
  {
    if n > 0 {
      PrefixFits(digitBases, digitLens, n - 1);
      D.SumStep(digitLens, n - 1);
    }
  }
}
