/** Which modulus is recorded for an address: by computations, by copies, and when it is forgotten. */
module Moduli {
  import opened Types
  import opened Trace
  import opened HeapModel
  import opened Allocator
  import opened Configuration
  import opened DeviceModel
  import opened DeviceInvariant
  import opened EagerMemory
  import opened ComputeCalls
  import K = KeyswitchDigits

  /** The recorded moduli are the same everywhere outside `s`. */
  ghost predicate SameModuliBut(d: Device, d1: Device, s: set<DevAddr>) {
    forall a :: a !in s ==> Recorded(d1, a) == Recorded(d, a)
  }

  // ---- Reading and storing ----

  lemma {:induction false} ReadAllModuli(d: Device, srcs: seq<DevAddr>)
    ensures ReadAll(d, srcs).0.modulus == d.modulus
    decreases |srcs|
  {
    if srcs != [] {
      ReadAllModuli(d, srcs[..|srcs| - 1]);
    }
  }

  lemma BindModuli(d: Device, a: DevAddr, v: Bytes, q: nat)
    ensures var d1 := Bind(d, a, v, q); Recorded(d1, a) == q && SameModuliBut(d, d1, {a})
  {
  }

  /** After storing n results at distinct addresses each has its own modulus. */
  ghost predicate ModuliStored(d: Device, d1: Device, dsts: seq<DevAddr>, base: seq<nat>, n: nat)
    requires n <= |dsts| && n <= |base|
  {
    && (forall i :: 0 <= i < n ==> Recorded(d1, dsts[i]) == base[i])
    && SameModuliBut(d, d1, ToSet(dsts[..n]))
  }

  lemma {:induction false} BindAllModuli(d: Device, dsts: seq<DevAddr>, vs: seq<Bytes>, base: seq<nat>)
    requires |vs| <= |dsts| && |vs| <= |base| && Distinct(dsts)
    ensures ModuliStored(d, BindAll(d, dsts, vs, base), dsts, base, |vs|)
    decreases |vs|
  {
    hide Bind, Recorded;
    if vs != [] {
      var n := |vs| - 1;
      BindAllModuli(d, dsts, vs[..n], base);
      BindModuli(BindAll(d, dsts, vs[..n], base), dsts[n], vs[n], base[n]);
      assert dsts[..|vs|] == dsts[..n] + [dsts[n]];
      ToSetSnoc(dsts[..n], dsts[n]);
    }
  }

  lemma RegisterModuli(d: Device, addrs: seq<DevAddr>, moduli: seq<nat>)
    requires addrs != []
    ensures Register(d, addrs, moduli).modulus == d.modulus
  {
    hide WithoutClaims, ToSet;
  }

  lemma StoreMrpModuli(d: Device, dsts: seq<DevAddr>, vs: seq<Bytes>, base: seq<nat>)
    requires |vs| == |base| == |dsts| && Distinct(dsts)
    ensures ModuliStored(d, StoreMrp(d, dsts, vs, base), dsts, base, |dsts|)
  {
    hide BindAll, Register;
    BindAllModuli(d, dsts, vs, base);
    if |base| > 1 {
      RegisterModuli(BindAll(d, dsts, vs, base), dsts, base);
    }
  }

  // ---- Computations ----

  lemma OneModulus(sem: Semantics, d: Device, call: Call)
    requires (call.Binary? || call.Unary?) && Step(sem, d, call).1.Done?
    ensures var d1 := Step(sem, d, call).0;
      && 0 <= call.modIdx < |d.cfg.moduli| && Recorded(d1, call.dst) == d.cfg.moduli[call.modIdx]
      && SameModuliBut(d, d1, {call.dst})
  {
    hide ReadAll, Bind, Recorded;
    ReadAllModuli(d, SourcesOf(call));
    var d0 := ReadAll(d, SourcesOf(call)).0;
    forall v { BindModuli(d0, call.dst, v, Modulus(d.cfg, call.modIdx)); }
    SameRecorded(d, d0);
  }

  lemma SameRecorded(d: Device, d1: Device)
    requires d1.modulus == d.modulus
    ensures forall a :: Recorded(d1, a) == Recorded(d, a)
  {
  }

  /** A slot permutation hands the source's modulus on. */
  lemma AutomorphModulus(sem: Semantics, d: Device, call: Call)
    requires call.Automorph? && Step(sem, d, call).1.Done?
    ensures var d1 := Step(sem, d, call).0;
      Recorded(d1, call.dst) == Recorded(d, call.src) && SameModuliBut(d, d1, {call.dst})
  {
    hide ReadAll, Bind, Recorded;
    ReadAllModuli(d, [call.src]);
    var d0 := ReadAll(d, [call.src]).0;
    SameRecorded(d, d0);
    forall v { BindModuli(d0, call.dst, v, Recorded(d0, call.src)); }
  }

  lemma MrpModuli(sem: Semantics, d: Device, op: OpCode, dsts: seq<DevAddr>, srcs: seq<DevAddr>, base: seq<nat>)
    requires |dsts| == |base| && Distinct(dsts) && MrpOp(sem, d, op, dsts, srcs, base).1.Success?
    ensures ModuliStored(d, MrpOp(sem, d, op, dsts, srcs, base).0, dsts, base, |dsts|)
  {
    hide ReadAll, StoreMrp, Recorded, Results;
    ReadAllModuli(d, srcs);
    var (d0, r) := ReadAll(d, srcs);
    SameRecorded(d, d0);
    StoreMrpModuli(d0, dsts, Results(sem, op, r.value, base), base);
  }

  lemma {:induction false} LiftModuli(sem: Semantics, d: Device, dsts: seq<DevAddr>, vs: seq<Bytes>, srcBase: seq<nat>,
                                      digitBases: seq<nat>, digitLens: seq<nat>, pBase: seq<nat>, count: nat)
    requires count <= |digitLens| && Sum(digitLens) <= |digitBases| && |dsts| == |digitLens| * |srcBase + pBase|
    requires Distinct(dsts)
    ensures var w := |srcBase + pBase|;
      var d1 := LiftDigits(sem, d, dsts, vs, srcBase, digitBases, digitLens, pBase, count);
      && 0 <= count * w <= |dsts|
      && (forall i, t :: 0 <= i < count && 0 <= t < w ==> ModulusAt(d1, dsts, w, i, t, (srcBase + pBase)[t]))
      && SameModuliBut(d, d1, ToSet(dsts[..count * w]))
    decreases count
  {
    hide StoreMrp, Digit, Results, Recorded, ModulusAt, Distinct;
    var target := srcBase + pBase;
    var w := |target|;
    if count == 0 {
      assert 0 * w == 0;
    } else {
      var c := count - 1;
      LiftModuli(sem, d, dsts, vs, srcBase, digitBases, digitLens, pBase, c);
      Stretch(c, |digitLens|, w);
      var d0 := LiftDigits(sem, d, dsts, vs, srcBase, digitBases, digitLens, pBase, c);
      var results := Results(sem, OpCode("fast_base_convert", [], srcBase, Digit(digitBases, digitLens, c), 0), vs, target);
      DistinctSlice(dsts, c * w, count * w);
      StoreMrpModuli(d0, dsts[c * w..count * w], results, target);
      OneMoreStretch(d, d0, StoreMrp(d0, dsts[c * w..count * w], results, target), dsts, target, c);
    }
  }

  /** Position i * w + t of the flat destinations has modulus q. */
  ghost predicate ModulusAt(d: Device, dsts: seq<DevAddr>, w: nat, i: nat, t: nat, q: nat) {
    0 <= i * w + t < |dsts| && Recorded(d, dsts[i * w + t]) == q
  }

  lemma DistinctSlice(s: seq<DevAddr>, lo: nat, hi: nat)
    requires Distinct(s) && lo <= hi <= |s|
    ensures Distinct(s[lo..hi])
  {
  }

  lemma OneMoreStretch(d: Device, d0: Device, d1: Device, dsts: seq<DevAddr>, target: seq<nat>, c: nat)
    requires 0 <= c * |target| <= (c + 1) * |target| <= |dsts| && Distinct(dsts)
    requires (c + 1) * |target| - c * |target| == |target|
    requires forall i, t :: 0 <= i < c && 0 <= t < |target| ==> ModulusAt(d0, dsts, |target|, i, t, target[t])
    requires SameModuliBut(d, d0, ToSet(dsts[..c * |target|]))
    requires ModuliStored(d0, d1, dsts[c * |target|..(c + 1) * |target|], target, |target|)
    ensures forall i, t :: 0 <= i < c + 1 && 0 <= t < |target| ==> ModulusAt(d1, dsts, |target|, i, t, target[t])
    ensures SameModuliBut(d, d1, ToSet(dsts[..(c + 1) * |target|]))
  {
    hide Recorded;
    var w := |target|;
    var lo, hi := c * w, (c + 1) * w;
    var part := dsts[lo..hi];
    assert part[..w] == part;
    forall i, t | 0 <= i < c + 1 && 0 <= t < w ensures ModulusAt(d1, dsts, w, i, t, target[t]) {
      if i == c {
        assert part[t] == dsts[lo + t];
      } else {
        assert ModulusAt(d0, dsts, w, i, t, target[t]);
        K.LayoutBijection(c, w, i, t);
        NotInSlice(dsts, i * w + t, lo, hi);
      }
    }
    assert dsts[..hi] == dsts[..lo] + part;
  }

  lemma NotInSlice(s: seq<DevAddr>, k: nat, lo: nat, hi: nat)
    requires k < lo <= hi <= |s| && Distinct(s)
    ensures s[k] !in s[lo..hi]
  {
  }

  /** An array computation gives each of its distinct destinations the modulus of its own residue, digit by
      digit for a ModUp, and leaves every other address alone. */
  lemma ArrayModuli(sem: Semantics, d: Device, call: Call)
    requires Shaped(call) && (call.BinaryMrp? || call.UnaryMrp? || call.BasisConvert? || call.ModDown? || call.ModUp?)
    requires Distinct(Destinations(call)) && Step(sem, d, call).1.Done?
    ensures Accepted(call)
    ensures var d1 := Step(sem, d, call).0;
      && (forall i :: 0 <= i < |Destinations(call)| ==> Recorded(d1, Destinations(call)[i]) == OpAt(d.cfg, call, i).out)
      && SameModuliBut(d, d1, ToSet(Destinations(call)))
  {
    hide ReadAll, StoreMrp, MrpOp, LiftDigits, Recorded, ModulusAt, ValidateModDown, Without, Digit;
    var d1 := Step(sem, d, call).0;
    assert Destinations(call)[..|Destinations(call)|] == Destinations(call);
    match call {
      case BinaryMrp(name, dsts, srcs1, srcs2, base) =>
        MrpModuli(sem, d, OpCode(name, [], base, base, 0), dsts, srcs1 + srcs2, base);
      case UnaryMrp(name, imm, dsts, srcs, base) =>
        MrpModuli(sem, d, OpCode(name, imm, base, base, 0), dsts, srcs, base);
      case BasisConvert(dsts, srcs, srcBase, dstBase) =>
        MrpModuli(sem, d, OpCode("fast_base_convert", [], srcBase, srcBase, 0), dsts, srcs, dstBase);
      case ModDown(dsts, srcs, srcBase, rescaleBase) =>
        MrpModuli(sem, d, OpCode("rescale_fbc", [], srcBase, rescaleBase, 0), dsts, srcs, Without(srcBase, rescaleBase));
      case ModUp(dsts, srcs, srcBase, digitBases, digitLens, pBase) => LiftedModuli(sem, d, call);
    }
  }

  lemma LiftedModuli(sem: Semantics, d: Device, call: Call)
    requires Shaped(call) && call.ModUp? && Distinct(call.dsts) && Step(sem, d, call).1.Done?
    ensures Accepted(call)
    ensures var d1 := Step(sem, d, call).0;
      && (forall i :: 0 <= i < |call.dsts| ==> Recorded(d1, call.dsts[i]) == OpAt(d.cfg, call, i).out)
      && SameModuliBut(d, d1, ToSet(call.dsts))
  {
    hide ReadAll, LiftDigits, Recorded, Digit, Distinct, ModulusAt;
    ReadAllModuli(d, call.srcs);
    var (d0, r) := ReadAll(d, call.srcs);
    SameRecorded(d, d0);
    var n, target := |call.digitLens|, call.srcBase + call.pBase;
    LiftModuli(sem, d0, call.dsts, r.value, call.srcBase, call.digitBases, call.digitLens, call.pBase, n);
    var d1 := Step(sem, d, call).0;
    assert call.dsts[..n * |target|] == call.dsts;
    forall i | 0 <= i < |call.dsts| ensures Recorded(d1, call.dsts[i]) == OpAt(d.cfg, call, i).out {
      K.LayoutOnto(n, |target|, i);
      ModulusThere(d1, call.dsts, |target|, i / |target|, i % |target|, target[i % |target|]);
    }
  }

  lemma ModulusThere(d: Device, dsts: seq<DevAddr>, w: nat, i: nat, t: nat, q: nat)
    requires ModulusAt(d, dsts, w, i, t, q)
    ensures 0 <= i * w + t < |dsts| && Recorded(d, dsts[i * w + t]) == q
  {
  }

  // ---- Copies ----

  /** A copy hands the source's modulus on and keeps it. */
  lemma CopyModulus(sem: Semantics, d: Device, dst: DevAddr, src: DevAddr, count: nat)
    requires Step(sem, d, D2D(dst, src, count)).1.Done?
    ensures var d1 := Step(sem, d, D2D(dst, src, count)).0;
      Recorded(d1, dst) == Recorded(d, src) && SameModuliBut(d, d1, {dst})
  {
    hide Read;
    ReadModulus(d, src);
  }

  lemma ReadModulus(d: Device, a: DevAddr)
    ensures Read(d, a).0.modulus == d.modulus
  {
  }

  /** Copy k writes the modulus of `a`: it is the destination, or the source, which is told its modulus. */
  predicate Touches(dsts: seq<DevAddr>, srcs: seq<DevAddr>, k: nat, a: DevAddr)
    requires k < |srcs| <= |dsts|
  {
    dsts[k] == a || srcs[k] == a
  }

  /** Copy k is the last of the first n that touches `a`. */
  ghost predicate LastTouch(dsts: seq<DevAddr>, srcs: seq<DevAddr>, n: nat, k: nat, a: DevAddr)
    requires n <= |srcs| <= |dsts|
  {
    k < n && Touches(dsts, srcs, k, a) && Untouched(dsts, srcs, k + 1, n, a)
  }

  ghost predicate Untouched(dsts: seq<DevAddr>, srcs: seq<DevAddr>, lo: nat, hi: nat, a: DevAddr)
    requires hi <= |srcs| <= |dsts|
  {
    forall j :: lo <= j < hi ==> !Touches(dsts, srcs, j, a)
  }

  /** Of an array copy the last step that touches an address decides its modulus. */
  ghost predicate CopiedModulus(d: Device, d1: Device, dsts: seq<DevAddr>, srcs: seq<DevAddr>, base: seq<nat>, n: nat,
                                a: DevAddr)
    requires n <= |srcs| <= |dsts| && |srcs| <= |base|
  {
    && (Untouched(dsts, srcs, 0, n, a) ==> Recorded(d1, a) == Recorded(d, a))
    && forall k: nat :: LastTouch(dsts, srcs, n, k, a) ==> Recorded(d1, a) == base[k]
  }

  lemma CopyOneModulus(d: Device, dst: DevAddr, src: DevAddr, q: nat)
    requires q != COPY_MODULUS && CopyTo(d, dst, src, q).1.Success?
    ensures var d1 := CopyTo(d, dst, src, q).0;
      Recorded(d1, dst) == q && Recorded(d1, src) == q && SameModuliBut(d, d1, {dst, src})
  {
    hide Read;
    ReadModulus(d, src);
  }

  lemma {:induction false} CopyAllModuli(d: Device, dsts: seq<DevAddr>, srcs: seq<DevAddr>, base: seq<nat>, n: nat)
    requires n <= |srcs| <= |dsts| && |srcs| <= |base| && COPY_MODULUS !in base
    requires CopyAll(d, dsts, srcs[..n], base).1.Success?
    ensures var d1 := CopyAll(d, dsts, srcs[..n], base).0; forall a :: CopiedModulus(d, d1, dsts, srcs, base, n, a)
    decreases n
  {
    hide CopyTo, Recorded, CopiedModulus;
    if n == 0 {
      NothingCopied(d, dsts, srcs, base);
      assert srcs[..0] == [];
    } else {
      assert srcs[..n][..n - 1] == srcs[..n - 1];
      CopyAllModuli(d, dsts, srcs, base, n - 1);
      var d0 := CopyAll(d, dsts, srcs[..n - 1], base).0;
      CopyOneModulus(d0, dsts[n - 1], srcs[n - 1], base[n - 1]);
      var d1 := CopyAll(d, dsts, srcs[..n], base).0;
      forall a ensures CopiedModulus(d, d1, dsts, srcs, base, n, a) {
        assert CopiedModulus(d, d0, dsts, srcs, base, n - 1, a);
        NextCopied(d, d0, d1, dsts, srcs, base, n, a);
      }
    }
  }

  lemma NothingCopied(d: Device, dsts: seq<DevAddr>, srcs: seq<DevAddr>, base: seq<nat>)
    requires |srcs| <= |dsts| && |srcs| <= |base|
    ensures forall a :: CopiedModulus(d, d, dsts, srcs, base, 0, a)
  {
  }

  lemma NextCopied(d: Device, d0: Device, d1: Device, dsts: seq<DevAddr>, srcs: seq<DevAddr>, base: seq<nat>, n: nat,
                   a: DevAddr)
    requires 0 < n <= |srcs| <= |dsts| && |srcs| <= |base|
    requires CopiedModulus(d, d0, dsts, srcs, base, n - 1, a)
    requires Recorded(d1, a) == if Touches(dsts, srcs, n - 1, a) then base[n - 1] else Recorded(d0, a)
    ensures CopiedModulus(d, d1, dsts, srcs, base, n, a)
  {
    hide Recorded, LastTouch, Untouched;
    TouchedOneMore(dsts, srcs, n, a);
    forall k: nat | LastTouch(dsts, srcs, n, k, a) ensures k < n && Recorded(d1, a) == base[k] {
      LastOneMore(dsts, srcs, n, k, a);
    }
  }

  lemma TouchedOneMore(dsts: seq<DevAddr>, srcs: seq<DevAddr>, n: nat, a: DevAddr)
    requires 0 < n <= |srcs| <= |dsts|
    ensures Untouched(dsts, srcs, 0, n, a) <==> Untouched(dsts, srcs, 0, n - 1, a) && !Touches(dsts, srcs, n - 1, a)
  {
  }

  lemma LastOneMore(dsts: seq<DevAddr>, srcs: seq<DevAddr>, n: nat, k: nat, a: DevAddr)
    requires 0 < n <= |srcs| <= |dsts| && LastTouch(dsts, srcs, n, k, a)
    ensures k < n && if Touches(dsts, srcs, n - 1, a) then k == n - 1 else LastTouch(dsts, srcs, n - 1, k, a)
  {
    hide Touches;
  }

  lemma ArrayCopyModuli(sem: Semantics, d: Device, dsts: seq<DevAddr>, srcs: seq<DevAddr>, base: seq<nat>)
    requires Shaped(D2DMrp(dsts, srcs, base)) && COPY_MODULUS !in base
    requires Step(sem, d, D2DMrp(dsts, srcs, base)).1.Done?
    ensures var d1 := Step(sem, d, D2DMrp(dsts, srcs, base)).0;
      forall a :: CopiedModulus(d, d1, dsts, srcs, base, |srcs|, a)
  {
    hide CopyAll, Register, Recorded, CopiedModulus;
    assert srcs[..|srcs|] == srcs;
    CopyAllModuli(d, dsts, srcs, base, |srcs|);
    var d0 := CopyAll(d, dsts, srcs, base).0;
    if |base| > 1 {
      RegisterModuli(d0, dsts, base);
      SameCopied(d, d0, Register(d0, dsts, base), dsts, srcs, base);
    }
  }

  lemma SameCopied(d: Device, d0: Device, d1: Device, dsts: seq<DevAddr>, srcs: seq<DevAddr>, base: seq<nat>)
    requires |srcs| <= |dsts| && |srcs| <= |base| && d1.modulus == d0.modulus
    requires forall a :: CopiedModulus(d, d0, dsts, srcs, base, |srcs|, a)
    ensures forall a :: CopiedModulus(d, d1, dsts, srcs, base, |srcs|, a)
  {
    hide LastTouch, Untouched;
    forall a ensures CopiedModulus(d, d1, dsts, srcs, base, |srcs|, a) {
      assert CopiedModulus(d, d0, dsts, srcs, base, |srcs|, a);
    }
  }

  // ---- Forgetting ----

  /** A free or a fill forgets the modulus of its address, an epoch end all of them. */
  lemma ForgottenModulus(sem: Semantics, d: Device, call: Call)
    requires (call.Free? && call.p != NULL) || (call.Memset? && Step(sem, d, call).1.Done?)
    ensures var d1 := Step(sem, d, call).0; Recorded(d1, call.p) == COPY_MODULUS && SameModuliBut(d, d1, {call.p})
  {
    hide FreeMany, WithoutClaims, Upload, Fill;
    if call.Memset? {
      UploadModuli(d, call.p, Fill(call.value, call.count));
    }
  }

  lemma UploadModuli(d: Device, a: DevAddr, data: Bytes)
    ensures Upload(d, a, data).0.modulus == d.modulus
  {
  }

  lemma EndedModuli(sem: Semantics, d: Device, call: Call)
    requires EndsEpoch(call) && Step(sem, d, call).1 != Failed(UnsupportedDataFormat)
    ensures forall a :: Recorded(Step(sem, d, call).0, a) == COPY_MODULUS
  {
    hide Exported;
  }

  /** An upload keeps the recorded moduli. */
  lemma UploadedModuli(sem: Semantics, d: Device, a: DevAddr, data: Bytes)
    ensures Step(sem, d, H2D(a, data)).0.modulus == d.modulus
  {
    hide WriteFront;
  }
}
