/** Device configuration: ring dimension, modulus table and the freeze after hazeConfigureDevice. */
module Configuration {
  import opened Types
  import opened HeapModel
  import opened Allocator
  import opened ModArith

  datatype Settings = Settings(ringDim: nat, moduli: seq<nat>, configured: bool)

  const UNSET := Settings(0, [], false)

  predicate IsPowerOfTwo(n: nat) {
    n == 1 || (n != 0 && n % 2 == 0 && IsPowerOfTwo(n / 2))
  }

  /** The bitwise "and" of two words: a bit is set where it is set in both. */
  function And(a: nat, b: nat): nat {
    if a == 0 || b == 0 then 0 else 2 * And(a / 2, b / 2) + if a % 2 == 1 && b % 2 == 1 then 1 else 0
  }

  lemma {:induction false} AndSelf(a: nat)
    ensures And(a, a) == a
  {
    if a != 0 {
      AndSelf(a / 2);
    }
  }

  /** The test that the program makes, n != 0 && (n & (n - 1)) == 0, finds exactly the powers of two. */
  lemma {:induction false} PowerOfTwoTest(n: nat)
    requires n != 0
    ensures And(n, n - 1) == 0 <==> IsPowerOfTwo(n)
  {
    if n % 2 == 1 {
      AndSelf(n / 2);
    } else {
      PowerOfTwoTest(n / 2);
    }
  }

  /** n * sizeof(uint64_t) in 64-bit arithmetic. */
  function PolynomialSize(n: nat): (bytes: nat)
    ensures bytes % 8 == 0
  {
    8 * n % TWO_64
  }

  /** A power of two beyond 2^b is a multiple of 2^(b+1). */
  lemma {:induction false} PowerOfTwoBeyond(n: nat, b: nat)
    requires IsPowerOfTwo(n) && n > Two(b)
    ensures n % Two(b + 1) == 0
  {
    if b > 0 {
      PowerOfTwoBeyond(n / 2, b - 1);
      var c := (n / 2) / Two(b);
      assert n / 2 == c * Two(b);
      assert n == c * Two(b + 1);
      MultipleMod(c, Two(b + 1));
    }
  }

  /** The product is exact, or so large that it wraps to zero, which refuses every allocation. */
  lemma PolynomialSizeExactOrZero(n: nat)
    requires IsPowerOfTwo(n)
    ensures PolynomialSize(n) == if n <= 0x1000_0000_0000_0000 then 8 * n else 0
  {
    hide IsPowerOfTwo, Two;
    TwoValues();
    if n > 0x1000_0000_0000_0000 {
      PowerOfTwoBeyond(n, 60);
      var c := n / 0x2000_0000_0000_0000;
      MultipleMod(c, TWO_64);
    } else {
      SmallMod(8 * n, TWO_64);
    }
  }

  function SettingsSetModulus(c: Settings, idx: int, modulus: nat): (Settings, Status) {
    if idx < 0 || modulus == 0 then (c, Failure(InvalidArgument))
    else if c.configured then
      (c, if idx < |c.moduli| && c.moduli[idx] == modulus then Success else Failure(NotConfigured))
    else if |c.moduli| < idx then (c, Failure(InvalidArgument))
    else if |c.moduli| == idx then (c.(moduli := c.moduli + [modulus]), Success)
    else (c.(moduli := c.moduli[idx := modulus]), Success)
  }

  function Modulus(c: Settings, idx: int): nat {
    if 0 <= idx < |c.moduli| then c.moduli[idx] else 0
  }

  /** Every configured modulus is non-zero. */
  ghost predicate SettingsOk(c: Settings) {
    forall i :: 0 <= i < |c.moduli| ==> c.moduli[i] != 0
  }

  /** Setting a modulus keeps the table free of zeros, so that a zero answer means "not in the table";
      after the freeze it changes nothing and accepts only what is there already. */
  lemma SetModulusKeeps(c: Settings, idx: int, modulus: nat)
    requires SettingsOk(c)
    ensures var (c1, s) := SettingsSetModulus(c, idx, modulus);
      && SettingsOk(c1) && c1.ringDim == c.ringDim && c1.configured == c.configured
      && (s.Success? <==>
            idx >= 0 && modulus != 0 && if c.configured then Modulus(c, idx) == modulus else idx <= |c.moduli|)
      && (s.Failure? || c.configured ==> c1 == c)
      && (s.Success? ==> Modulus(c1, idx) == modulus)
      && (forall i :: i != idx ==> Modulus(c1, i) == Modulus(c, i))
      && (forall i :: Modulus(c1, i) == 0 <==> i < 0 || i >= |c1.moduli|)
  {
  }

  class Config {
    var ringDim: nat
    var moduli: seq<nat>
    var configured: bool

    function View(): Settings
      reads this
    {
      Settings(ringDim, moduli, configured)
    }

    constructor ()
      ensures View() == UNSET
    {
      ringDim, moduli, configured := 0, [], false;
    }

    method SetRingDimension(n: nat, alloc: DeviceAllocator) returns (s: Status)
      requires n < TWO_64 && alloc.Valid()
      modifies this, alloc
      ensures alloc.Valid() <==> alloc.polyBytes == old(alloc.polyBytes) || alloc.shadow == map[]
      ensures alloc.shadow ==
        if alloc.polyBytes == old(alloc.polyBytes) then old(alloc.shadow) else old(alloc.shadow) - ToSet(old(alloc.poolFree))
      ensures s ==
        if !IsPowerOfTwo(n) then Failure(InvalidArgument)
        else if old(configured) && old(ringDim) != n then Failure(NotConfigured)
        else Success
      ensures View() == if s.Success? then old(View()).(ringDim := n) else old(View())
      ensures alloc.View() ==
        if s.Success? then SetPolynomialSize(old(alloc.View()), PolynomialSize(n)) else old(alloc.View())
    {
      if n == 0 || And(n, n - 1) != 0 {
        if n != 0 {
          PowerOfTwoTest(n);
        }
        return Failure(InvalidArgument);
      }
      PowerOfTwoTest(n);
      if configured && ringDim != n {
        return Failure(NotConfigured);
      }
      ringDim := n;
      alloc.SetPolynomialSize(PolynomialSize(n));
      return Success;
    }

    method SetModulus(idx: int, modulus: nat) returns (s: Status)
      modifies this
      ensures (View(), s) == SettingsSetModulus(old(View()), idx, modulus)
    {
      if idx < 0 || modulus == 0 {
        return Failure(InvalidArgument);
      }
      if configured {
        if idx >= |moduli| || moduli[idx] != modulus {
          return Failure(NotConfigured);
        }
        return Success;
      }
      if |moduli| < idx {
        return Failure(InvalidArgument);
      }
      if |moduli| == idx {
        moduli := moduli + [modulus];
      } else {
        moduli := moduli[idx := modulus];
      }
      return Success;
    }

    method ConfigureDevice() returns (s: Status)
      modifies this
      ensures s == if old(ringDim) == 0 then Failure(NotConfigured) else Success
      ensures View() == if s.Success? then old(View()).(configured := true) else old(View())
    {
      if ringDim == 0 {
        return Failure(NotConfigured);
      }
      configured := true;
      return Success;
    }

    method Reset()
      modifies this
      ensures View() == UNSET
    {
      ringDim, moduli, configured := 0, [], false;
    }
  }
}
