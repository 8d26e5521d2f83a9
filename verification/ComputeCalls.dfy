/**
 Every compute call in one form: it reads all of its sources, then binds each destination in turn to
 the result of one operation on all the values read. Stored bytes change by the reads alone.
 */
module ComputeCalls {
  import opened Types
  import opened Trace
  import opened HeapModel
  import opened Configuration
  import opened DeviceModel
  import opened DeviceInvariant
  import opened EagerMemory
  import K = KeyswitchDigits

  function SourcesOf(call: Call): seq<DevAddr>
    requires IsCompute(call)
  {
    match call
    case Binary(_, _, src1, src2, _) => [src1, src2]
    case Unary(_, _, _, src, _) => [src]
    case Automorph(_, _, _, src) => [src]
    case BinaryMrp(_, _, srcs1, srcs2, _) => srcs1 + srcs2
    case UnaryMrp(_, _, _, srcs, _) => srcs
    case BasisConvert(_, srcs, _, _) => srcs
    case ModDown(_, srcs, _, _) => srcs
    case ModUp(_, srcs, _, _, _, _) => srcs
  }

  predicate Accepted(call: Call)
    requires IsCompute(call)
  {
    call.ModUp? ==> ValidateModUp(call.srcBase, call.digitBases, call.digitLens, call.pBase).Success?
  }

  /** The conversion whose result flat position i gets: position d * width + t is digit d at tower t. */
  function LiftOpAt(srcBase: seq<nat>, digitBases: seq<nat>, digitLens: seq<nat>, pBase: seq<nat>, i: nat): OpCode
    requires Sum(digitLens) <= |digitBases| && i < |digitLens| * |srcBase + pBase|
  {
    var target := srcBase + pBase;
    K.LayoutOnto(|digitLens|, |target|, i);
    OpCode("fast_base_convert", [], srcBase, Digit(digitBases, digitLens, i / |target|), target[i % |target|])
  }

  /** The operation whose result destination i gets. */
  function OpAt(cfg: Settings, call: Call, i: nat): OpCode
    requires IsCompute(call) && Shaped(call) && Accepted(call) && i < |Destinations(call)|
  {
    match call
    case Binary(name, _, _, _, modIdx) => OpCode(name, [], [], [], Modulus(cfg, modIdx))
    case Unary(name, imm, _, _, modIdx) => OpCode(name, imm, [], [], Modulus(cfg, modIdx))
    case Automorph(name, index, _, _) => OpCode(name, [index], [], [], COPY_MODULUS)
    case BinaryMrp(name, _, _, _, base) => OpCode(name, [], base, base, base[i])
    case UnaryMrp(name, imm, _, _, base) => OpCode(name, imm, base, base, base[i])
    case BasisConvert(_, _, srcBase, dstBase) => OpCode("fast_base_convert", [], srcBase, srcBase, dstBase[i])
    case ModDown(_, _, srcBase, rescaleBase) =>
      OpCode("rescale_fbc", [], srcBase, rescaleBase, Without(srcBase, rescaleBase)[i])
    case ModUp(_, _, srcBase, digitBases, digitLens, pBase) =>
      LiftOpAt(srcBase, digitBases, digitLens, pBase, i)
  }

  function ResultsOf(sem: Semantics, cfg: Settings, call: Call, vs: seq<Bytes>): (rs: seq<Bytes>)
    requires IsCompute(call) && Shaped(call) && Accepted(call)
    ensures |rs| == |Destinations(call)|
  {
    seq(|Destinations(call)|, i requires 0 <= i < |Destinations(call)| => sem(OpAt(cfg, call, i), vs))
  }

  /** What a compute call that succeeds leaves of the device `d1` in which its sources were read. */
  ghost predicate ComputedFrom(d1: Device, dsts: seq<DevAddr>, rs: seq<Bytes>, d2: Device)
    requires |rs| <= |dsts|
  {
    d2.host == d1.host && d2.bound == Assign(d1.bound, dsts, rs)
  }

  // ---- Storing results ----

  lemma {:induction false} BindAllBound(d: Device, dsts: seq<DevAddr>, vs: seq<Bytes>, base: seq<nat>)
    requires |vs| <= |dsts| && |vs| <= |base|
    ensures ComputedFrom(d, dsts, vs, BindAll(d, dsts, vs, base))
    decreases |vs|
  {
    if vs != [] {
      BindAllBound(d, dsts, vs[..|vs| - 1], base);
    }
  }

  lemma StoreMrpBound(d: Device, dsts: seq<DevAddr>, vs: seq<Bytes>, base: seq<nat>)
    requires |vs| == |base| == |dsts|
    ensures ComputedFrom(d, dsts, vs, StoreMrp(d, dsts, vs, base))
  {
    hide Register, Assign, BindAll;
    BindAllBound(d, dsts, vs, base);
    if |base| > 1 {
      RegisterMemory(BindAll(d, dsts, vs, base), dsts, base);
    }
  }

  lemma {:induction false} LiftBound(sem: Semantics, d: Device, dsts: seq<DevAddr>, vs: seq<Bytes>, srcBase: seq<nat>,
                                     digitBases: seq<nat>, digitLens: seq<nat>, pBase: seq<nat>, count: nat)
    requires count <= |digitLens| && Sum(digitLens) <= |digitBases| && |dsts| == |digitLens| * |srcBase + pBase|
    ensures count * |srcBase + pBase| <= |dsts|
    ensures ComputedFrom(d, dsts, Lifted(sem, vs, srcBase, digitBases, digitLens, pBase, count),
                         LiftDigits(sem, d, dsts, vs, srcBase, digitBases, digitLens, pBase, count))
    decreases count
  {
    hide StoreMrp, Assign, Results, Digit;
    if count == 0 {
      AssignNone(d.bound, dsts);
    } else {
      var target := srcBase + pBase;
      var i := count - 1;
      LiftBound(sem, d, dsts, vs, srcBase, digitBases, digitLens, pBase, i);
      Stretch(i, |digitLens|, |target|);
      var op := OpCode("fast_base_convert", [], srcBase, Digit(digitBases, digitLens, i), 0);
      StoreMrpBound(LiftDigits(sem, d, dsts, vs, srcBase, digitBases, digitLens, pBase, i),
                    dsts[i * |target|..(i + 1) * |target|], Results(sem, op, vs, target), target);
      AssignConcat(d.bound, dsts, Lifted(sem, vs, srcBase, digitBases, digitLens, pBase, i), Results(sem, op, vs, target));
    }
  }

  lemma MrpOpBound(sem: Semantics, d: Device, op: OpCode, dsts: seq<DevAddr>, srcs: seq<DevAddr>, base: seq<nat>)
    requires |dsts| == |base|
    ensures var (d1, r) := ReadAll(d, srcs); var (d2, s) := MrpOp(sem, d, op, dsts, srcs, base);
      && (s.Success? ==> r.Ok?)
      && (r.Ok? ==> ComputedFrom(d1, dsts, Results(sem, op, r.value, base), d2))
  {
    hide ReadAll, StoreMrp, Assign, Results;
    var (d1, r) := ReadAll(d, srcs);
    if r.Ok? {
      StoreMrpBound(d1, dsts, Results(sem, op, r.value, base), base);
    }
  }

  lemma BindBound(d: Device, dst: DevAddr, v: Bytes, q: nat, rs: seq<Bytes>)
    requires rs == [v]
    ensures ComputedFrom(d, [dst], rs, Bind(d, dst, v, q))
  {
    assert rs[..0] == [];
  }

  // ---- Calls ----

  lemma OneExact(sem: Semantics, d: Device, call: Call)
    requires (call.Binary? || call.Unary? || call.Automorph?) && Step(sem, d, call).1.Done?
    ensures var (d1, r) := ReadAll(d, SourcesOf(call));
      && r.Ok?
      && ComputedFrom(d1, Destinations(call), ResultsOf(sem, d.cfg, call, r.value), Step(sem, d, call).0)
  {
    hide ReadAll, Bind, Assign, ComputedFrom;
    var (d1, r) := ReadAll(d, SourcesOf(call));
    var v := sem(OpAt(d.cfg, call, 0), r.value);
    assert Destinations(call) == [call.dst];
    var rs := ResultsOf(sem, d.cfg, call, r.value);
    assert rs == [v];
    if call.Automorph? {
      BindBound(d1, call.dst, v, Recorded(d1, call.src), rs);
    } else {
      BindBound(d1, call.dst, v, Modulus(d.cfg, call.modIdx), rs);
    }
  }

  /** One operation run per output modulus, seen from either side. */
  lemma SameResults(sem: Semantics, cfg: Settings, call: Call, op: OpCode, base: seq<nat>, vs: seq<Bytes>)
    requires IsCompute(call) && Shaped(call) && Accepted(call) && |base| == |Destinations(call)|
    requires forall i :: 0 <= i < |base| ==> op.(out := base[i]) == OpAt(cfg, call, i)
    ensures Results(sem, op, vs, base) == ResultsOf(sem, cfg, call, vs)
  {
    hide OpAt, Shaped, Destinations, Accepted;
    forall i | 0 <= i < |base| ensures Results(sem, op, vs, base)[i] == ResultsOf(sem, cfg, call, vs)[i] {
      assert op.(out := base[i]) == OpAt(cfg, call, i);
    }
  }

  lemma MrpExact(sem: Semantics, d: Device, call: Call)
    requires Shaped(call) && (call.BinaryMrp? || call.UnaryMrp? || call.BasisConvert? || call.ModDown?)
    requires Step(sem, d, call).1.Done?
    ensures var (d1, r) := ReadAll(d, SourcesOf(call));
      && r.Ok?
      && ComputedFrom(d1, Destinations(call), ResultsOf(sem, d.cfg, call, r.value), Step(sem, d, call).0)
  {
    hide ReadAll, MrpOp, Assign, ComputedFrom, ValidateModDown, Without;
    var (d1, r) := ReadAll(d, SourcesOf(call));
    match call {
      case BinaryMrp(name, dsts, srcs1, srcs2, base) =>
        MrpOpBound(sem, d, OpCode(name, [], base, base, 0), dsts, srcs1 + srcs2, base);
        SameResults(sem, d.cfg, call, OpCode(name, [], base, base, 0), base, r.value);
      case UnaryMrp(name, imm, dsts, srcs, base) =>
        MrpOpBound(sem, d, OpCode(name, imm, base, base, 0), dsts, srcs, base);
        SameResults(sem, d.cfg, call, OpCode(name, imm, base, base, 0), base, r.value);
      case BasisConvert(dsts, srcs, srcBase, dstBase) =>
        var op := OpCode("fast_base_convert", [], srcBase, srcBase, 0);
        MrpOpBound(sem, d, op, dsts, srcs, dstBase);
        SameResults(sem, d.cfg, call, op, dstBase, r.value);
      case ModDown(dsts, srcs, srcBase, rescaleBase) =>
        var op := OpCode("rescale_fbc", [], srcBase, rescaleBase, 0);
        var base := Without(srcBase, rescaleBase);
        MrpOpBound(sem, d, op, dsts, srcs, base);
        SameResults(sem, d.cfg, call, op, base, r.value);
    }
  }

  lemma ModUpExact(sem: Semantics, d: Device, call: Call)
    requires Shaped(call) && call.ModUp? && Step(sem, d, call).1.Done?
    ensures Accepted(call)
    ensures var (d1, r) := ReadAll(d, SourcesOf(call));
      && r.Ok?
      && ComputedFrom(d1, Destinations(call), ResultsOf(sem, d.cfg, call, r.value), Step(sem, d, call).0)
  {
    hide ReadAll, LiftDigits, Assign, ComputedFrom, Digit, Lifted;
    var (d1, r) := ReadAll(d, SourcesOf(call));
    var n := |call.digitLens|;
    LiftBound(sem, d1, call.dsts, r.value, call.srcBase, call.digitBases, call.digitLens, call.pBase, n);
    LiftedIsResults(sem, d.cfg, call, r.value);
  }

  lemma LiftedIsResults(sem: Semantics, cfg: Settings, call: Call, vs: seq<Bytes>)
    requires Shaped(call) && call.ModUp? && Accepted(call)
    ensures Lifted(sem, vs, call.srcBase, call.digitBases, call.digitLens, call.pBase, |call.digitLens|) ==
      ResultsOf(sem, cfg, call, vs)
  {
    hide Digit, Lifted;
    var n, w := |call.digitLens|, |call.srcBase + call.pBase|;
    var lifted := Lifted(sem, vs, call.srcBase, call.digitBases, call.digitLens, call.pBase, n);
    forall i | 0 <= i < n * w ensures lifted[i] == ResultsOf(sem, cfg, call, vs)[i] {
      K.LayoutOnto(n, w, i);
      K.LiftedAt(sem, vs, call.srcBase, call.digitBases, call.digitLens, call.pBase, n, i / w, i % w);
      assert lifted[(i / w) * w + i % w] == sem(OpAt(cfg, call, i), vs);
    }
  }

  /** A compute call that succeeds has read all of its sources, and gives the destinations, in order,
      the results on the values read; no other bound value and no stored byte changes after the reads. */
  lemma ComputeExact(sem: Semantics, d: Device, call: Call)
    requires Shaped(call) && IsCompute(call) && Step(sem, d, call).1.Done?
    ensures Accepted(call)
    ensures var (d1, r) := ReadAll(d, SourcesOf(call));
      && r.Ok?
      && ComputedFrom(d1, Destinations(call), ResultsOf(sem, d.cfg, call, r.value), Step(sem, d, call).0)
  {
    hide Step, ReadAll, ComputedFrom, ResultsOf;
    if call.Binary? || call.Unary? || call.Automorph? {
      OneExact(sem, d, call);
    } else if call.ModUp? {
      ModUpExact(sem, d, call);
    } else {
      MrpExact(sem, d, call);
    }
  }

  lemma ReplyIgnoresSemantics(sem: Semantics, sem1: Semantics, d: Device, call: Call)
    requires Shaped(call) && IsCompute(call)
    ensures Step(sem, d, call).1 == Step(sem1, d, call).1
  {
    hide ReadAll, Bind, StoreMrp, LiftDigits, Results, ValidateModDown, ValidateModUp, Without;
  }
}
