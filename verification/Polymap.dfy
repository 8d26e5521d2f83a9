/** The glue between arrays of residue addresses and the epoch state, and the compute templates. */
module Polymap {
  import opened Types
  import opened Trace
  import opened HeapModel
  import opened Allocator
  import opened Configuration
  import opened DeviceModel
  import opened GroupIndex
  import opened Backend
  import R = RecorderModel
  import opened RecorderModel
  import opened RecorderLaws
  import opened RecorderTableLaws
  import opened Refinement
  import opened Epoch

  /** Resolves the residues of a source array; a live-in group of two or more is named once. */
  method BuildMrp(e: EpochState, polys: seq<DevAddr>, base: seq<nat>) returns (r: Result<seq<Handle>>)
    requires e.Valid() && |polys| == |base|
    modifies e`polyMap, e`inputAddrs, e`inputCounter, e`mrpInNames, e`mrpOutNames, e`mrpInNameCounter,
      e`mrpOutNameCounter, e`mrpInputTaggedNames
    modifies e.alloc`shadow, e.backend`trace, e.backend`inputs, e.backend`mrpInputs
    ensures e.Valid() && (e.View(), r) == R.BuildMrp(old(e.View()), polys, base)
  {
    hide Lookup;
    var hs := [];
    for i := 0 to |polys|
      invariant e.Valid()
      invariant LookupAll(old(e.View()), polys[..i]) == (e.View(), Ok(hs))
    {
      assert polys[..i + 1][..i] == polys[..i];
      var h := e.LookupOrCreate(polys[i]);
      if h.Err? {
        LookupAllStops(old(e.View()), polys, i + 1);
        return Err(h.error);
      }
      hs := hs + [h.value];
    }
    assert polys[..|polys|] == polys;
    if |polys| > 1 && polys[0] in e.inputAddrs {
      var name := e.MrpGroupName(false, polys[0]);
      e.TagMrpInputIfNew(name, Pairs(hs, base));
    }
    return Ok(hs);
  }

  /** A failure in a prefix of the sources is the failure of all of them. */
  lemma {:induction false} LookupAllStops(r: Recorder, srcs: seq<DevAddr>, n: nat)
    requires n <= |srcs| && LookupAll(r, srcs[..n]).1.Err?
    ensures LookupAll(r, srcs) == LookupAll(r, srcs[..n])
    decreases |srcs| - n
  {
    if n == |srcs| {
      assert srcs[..n] == srcs;
    } else {
      assert srcs[..n + 1][..n] == srcs[..n];
      LookupAllStops(r, srcs, n + 1);
    }
  }

  /** Names and registers the group of two or more residues. */
  method GroupUp(e: EpochState, addrs: seq<DevAddr>, base: seq<nat>) returns (s: Status)
    requires e.Valid() && RecorderOk(e.View()) && |addrs| == |base|
    requires forall a :: a in addrs ==> a in e.polyMap
    modifies e
    ensures e.Valid() && (e.View(), s) == R.GroupUp(old(e.View()), addrs, base)
  {
    hide CoreOk, IndexOk, RegisterGroup;
    if |addrs| > 1 {
      assert addrs[0] in addrs;
      NameOutputGroupRefines(e.backend.sem, e.View(), addrs[0]);
      var name := e.MrpGroupName(true, addrs[0]);
      s := e.RegisterMrpOutputGroup(addrs, base, name);
      return s;
    }
    return Success;
  }

  /** Records one operation per destination residue, stores each result, and registers the group. */
  method StoreMrp(e: EpochState, dsts: seq<DevAddr>, op: OpCode, args: seq<Handle>, base: seq<nat>) returns (s: Status)
    requires e.Valid() && RecorderOk(e.View()) && e.recording && |dsts| == |base|
    requires forall h :: h in args ==> h < |e.backend.trace|
    modifies e, e.backend`trace
    ensures e.Valid() && (e.View(), s) == StoreMrpLocked(old(e.View()), dsts, op, args, base)
  {
    hide RecorderOk, R.GroupUp, Store, Emit;
    ghost var r := e.View();
    ghost var sem := e.backend.sem;
    for i := 0 to |dsts|
      invariant e.Valid()
      invariant e.View() == StoreAll(r, dsts, Ops(op, base)[..i], args, base)
    {
      assert Ops(op, base)[..i + 1][..i] == Ops(op, base)[..i];
      StoreOne(e, dsts[i], op.(out := base[i]), args, base[i]);
    }
    assert Ops(op, base)[..|dsts|] == Ops(op, base);
    StoredAll(sem, r, dsts, op, args, base);
    s := GroupUp(e, dsts, base);
  }

  method StoreOne(e: EpochState, dst: DevAddr, op: OpCode, args: seq<Handle>, q: nat)
    requires e.Valid()
    modifies e`polyMap, e`inputAddrs, e`addrModulus, e.backend`trace
    ensures e.Valid()
    ensures e.View() == Store(Emit(old(e.View()), Compute(op, args)), dst, |old(e.backend.trace)|, q)
  {
    var h := e.backend.Emit(Compute(op, args));
    e.StoreComputeResult(dst, h, q);
  }

  /** Handles in range match the values they name. */
  lemma HandlesMatch(vs: seq<Bytes>, hs: seq<Handle>)
    requires forall h :: h in hs ==> h < |vs|
    ensures MatchesAll(vs, Ok(hs), Ok(AtAll(vs, hs)))
  {
    forall i | 0 <= i < |hs| ensures hs[i] < |vs| {
      assert hs[i] in hs;
    }
  }

  lemma StoredAll(sem: Semantics, r: Recorder, dsts: seq<DevAddr>, op: OpCode, args: seq<Handle>, base: seq<nat>)
    requires RecorderOk(r) && r.recording && |dsts| == |base|
    requires forall h :: h in args ==> h < |r.trace|
    ensures var r1 := StoreAll(r, dsts, Ops(op, base), args, base);
      RecorderOk(r1) && forall a :: a in dsts ==> a in r1.binding
  {
    hide CoreOk, IndexOk, Grows, Store;
    var v := AtAll(Vals(sem, r), args);
    HandlesMatch(Vals(sem, r), args);
    StoreAllRefines(sem, r, dsts, op, args, v, base, |base|);
    assert Ops(op, base)[..|base|] == Ops(op, base);
    GrowsRecorderOk(sem, r, StoreAll(r, dsts, Ops(op, base), args, base));
  }

  /** What a session's reads leave for the stores that follow. */
  lemma BuiltFacts(sem: Semantics, r: Recorder, srcs: seq<DevAddr>, base: seq<nat>)
    requires RecorderOk(r) && r.recording && |srcs| == |base|
    ensures var (r1, hs) := R.BuildMrp(r, srcs, base);
      && RecorderOk(r1) && r1.recording && r1.heap == r.heap && |r.trace| <= |r1.trace|
      && (hs.Ok? ==> forall h :: h in hs.value ==> h < |r1.trace|)
  {
    hide CoreOk, IndexOk, LookupAll, Abs, ReadAll;
    BuildMrpRefines(sem, r, srcs, base);
    GrowsRecorderOk(sem, r, R.BuildMrp(r, srcs, base).0);
  }

  // ---- Compute templates: read every source, then store ----

  /** One residue, two sources. */
  method Binary(e: EpochState, name: string, dst: DevAddr, src1: DevAddr, src2: DevAddr, modIdx: int) returns (s: Status)
    requires e.Valid()
    modifies e, e.alloc`shadow, e.backend`trace, e.backend`inputs
    ensures e.Valid() && (e.View(), s) == R.Binary(old(e.View()), name, dst, src1, src2, modIdx)
  {
    hide Lookup, Emit, Store;
    var q := Modulus(e.config.View(), modIdx);
    if q == 0 {
      return Failure(InvalidArgument);
    }
    ghost var r := e.View();
    LookupTwo(r, src1, src2);
    var p1 := e.LookupOrCreate(src1);
    if p1.Err? {
      return Failure(p1.error);
    }
    var p2 := e.LookupOrCreate(src2);
    if p2.Err? {
      return Failure(p2.error);
    }
    StoreOne(e, dst, OpCode(name, [], [], [], q), [p1.value, p2.value], q);
    return Success;
  }

  lemma LookupTwo(r: Recorder, a: DevAddr, b: DevAddr)
    ensures var (r1, h) := Lookup(r, a); var (r2, g) := Lookup(r1, b);
      LookupAll(r, [a, b]) ==
        if h.Err? then (r1, Err(h.error)) else if g.Err? then (r2, Err(g.error)) else (r2, Ok([h.value, g.value]))
  {
    hide Lookup;
    LookupSole(r, a);
    var srcs := [a, b];
    assert srcs[..|srcs| - 1] == [a];
    var (r1, h) := Lookup(r, a);
    var (r2, g) := Lookup(r1, b);
    if h.Ok? && g.Ok? {
      assert [h.value] + [g.value] == [h.value, g.value];
    }
  }

  lemma LookupSole(r: Recorder, a: DevAddr)
    ensures var (r1, h) := Lookup(r, a);
      LookupAll(r, [a]) == if h.Err? then (r1, Err(h.error)) else (r1, Ok([h.value]))
  {
    hide Lookup;
    var srcs := [a];
    assert srcs[..|srcs| - 1] == [];
    assert LookupAll(r, srcs[..|srcs| - 1]) == (r, Ok([]));
    var (r1, h) := Lookup(r, a);
    if h.Ok? {
      EmptyConcat([h.value]);
    }
  }

  /** One residue, one source, and scalar immediates. */
  method Unary(e: EpochState, name: string, imm: seq<nat>, dst: DevAddr, src: DevAddr, modIdx: int) returns (s: Status)
    requires e.Valid()
    modifies e, e.alloc`shadow, e.backend`trace, e.backend`inputs
    ensures e.Valid() && (e.View(), s) == R.Unary(old(e.View()), name, imm, dst, src, modIdx)
  {
    hide Lookup, Emit, Store;
    var q := Modulus(e.config.View(), modIdx);
    if q == 0 {
      return Failure(InvalidArgument);
    }
    LookupSole(e.View(), src);
    var p := e.LookupOrCreate(src);
    if p.Err? {
      return Failure(p.error);
    }
    StoreOne(e, dst, OpCode(name, imm, [], [], q), [p.value], q);
    return Success;
  }

  /** A slot permutation: no modulus of its own, so the source's recorded one. */
  method Automorph(e: EpochState, name: string, index: nat, dst: DevAddr, src: DevAddr) returns (s: Status)
    requires e.Valid()
    modifies e, e.alloc`shadow, e.backend`trace, e.backend`inputs
    ensures e.Valid() && (e.View(), s) == R.Automorph(old(e.View()), name, index, dst, src)
  {
    hide Lookup, Emit, Store;
    LookupSole(e.View(), src);
    var p := e.LookupOrCreate(src);
    if p.Err? {
      return Failure(p.error);
    }
    var q := e.GetRecordedModulus(src);
    StoreOne(e, dst, OpCode(name, [index], [], [], COPY_MODULUS), [p.value], q);
    return Success;
  }

  method BinaryMrp(e: EpochState, op: OpCode, dsts: seq<DevAddr>, srcs1: seq<DevAddr>, srcs2: seq<DevAddr>, base: seq<nat>)
    returns (s: Status)
    requires e.Valid() && RecorderOk(e.View()) && e.recording && |dsts| == |srcs1| == |srcs2| == |base|
    modifies e, e.alloc`shadow, e.backend`trace, e.backend`inputs, e.backend`mrpInputs
    ensures e.Valid() && (e.View(), s) == R.BinaryMrp(old(e.View()), op, dsts, srcs1, srcs2, base)
  {
    hide RecorderOk, R.BuildMrp, StoreMrpLocked;
    BuiltFacts(e.backend.sem, e.View(), srcs1, base);
    var m1 := BuildMrp(e, srcs1, base);
    if m1.Err? {
      return Failure(m1.error);
    }
    BuiltFacts(e.backend.sem, e.View(), srcs2, base);
    var m2 := BuildMrp(e, srcs2, base);
    if m2.Err? {
      return Failure(m2.error);
    }
    s := StoreMrp(e, dsts, op, m1.value + m2.value, base);
  }

  method UnaryMrp(e: EpochState, op: OpCode, dsts: seq<DevAddr>, srcs: seq<DevAddr>, srcBase: seq<nat>, dstBase: seq<nat>)
    returns (s: Status)
    requires e.Valid() && RecorderOk(e.View()) && e.recording && |srcs| == |srcBase| && |dsts| == |dstBase|
    modifies e, e.alloc`shadow, e.backend`trace, e.backend`inputs, e.backend`mrpInputs
    ensures e.Valid() && (e.View(), s) == R.UnaryMrp(old(e.View()), op, dsts, srcs, srcBase, dstBase)
  {
    hide RecorderOk, R.BuildMrp, StoreMrpLocked;
    BuiltFacts(e.backend.sem, e.View(), srcs, srcBase);
    var m := BuildMrp(e, srcs, srcBase);
    if m.Err? {
      return Failure(m.error);
    }
    s := StoreMrp(e, dsts, op, m.value, dstBase);
  }

  method ModUp(e: EpochState, dsts: seq<DevAddr>, srcs: seq<DevAddr>, srcBase: seq<nat>, digitBases: seq<nat>,
               digitLens: seq<nat>, pBase: seq<nat>) returns (s: Status)
    requires e.Valid() && RecorderOk(e.View()) && e.recording && |srcs| == |srcBase|
    requires Sum(digitLens) <= |digitBases| && Sum(digitLens) < TWO_64 && |dsts| == |digitLens| * |srcBase + pBase|
    modifies e, e.alloc`shadow, e.backend`trace, e.backend`inputs, e.backend`mrpInputs
    ensures e.Valid() && (e.View(), s) == ModUpLocked(old(e.View()), dsts, srcs, srcBase, digitBases, digitLens, pBase)
  {
    hide RecorderOk, R.BuildMrp, StoreMrpLocked, LiftAll;
    ghost var sem := e.backend.sem;
    BuiltFacts(sem, e.View(), srcs, srcBase);
    var m := BuildMrp(e, srcs, srcBase);
    if m.Err? {
      return Failure(m.error);
    }
    s := LiftDigits(e, dsts, m.value, srcBase, digitBases, digitLens, pBase);
  }

  /** Walks the flat digit list with a 64-bit cursor, lifting one digit per stretch of destinations. */
  method LiftDigits(e: EpochState, dsts: seq<DevAddr>, args: seq<Handle>, srcBase: seq<nat>, digitBases: seq<nat>,
                    digitLens: seq<nat>, pBase: seq<nat>) returns (s: Status)
    requires e.Valid() && RecorderOk(e.View()) && e.recording
    requires Sum(digitLens) <= |digitBases| && Sum(digitLens) < TWO_64 && |dsts| == |digitLens| * |srcBase + pBase|
    requires forall h :: h in args ==> h < |e.backend.trace|
    modifies e, e.backend`trace
    ensures e.Valid()
    ensures (e.View(), s) == LiftAll(old(e.View()), dsts, args, srcBase, digitBases, digitLens, pBase, |digitLens|)
  {
    hide RecorderOk, StoreMrpLocked;
    ghost var r := e.View();
    ghost var sem := e.backend.sem;
    var target := srcBase + pBase;
    var offset := 0;
    for d := 0 to |digitLens|
      invariant e.Valid() && RecorderOk(e.View()) && e.recording && e.alloc.View() == r.heap
      invariant offset == Sum(digitLens[..d])
      invariant (e.View(), Success) == LiftAll(r, dsts, args, srcBase, digitBases, digitLens, pBase, d)
      invariant |r.trace| <= |e.backend.trace|
    {
      SumPrefix(digitLens, d);
      Stretch(d, |digitLens|, |target|);
      var dlen := digitLens[d];
      var digit := digitBases[offset..offset + dlen];
      offset := (offset + dlen) % TWO_64;
      LiftKeeps(sem, r, dsts, args, srcBase, digitBases, digitLens, pBase, d + 1);
      s := StoreMrp(e, dsts[d * |target|..(d + 1) * |target|],
                    OpCode("fast_base_convert", [], srcBase, digit, 0), args, target);
      if s.Failure? {
        return s;
      }
    }
    return Success;
  }

  lemma LiftKeeps(sem: Semantics, r: Recorder, dsts: seq<DevAddr>, args: seq<Handle>, srcBase: seq<nat>,
                  digitBases: seq<nat>, digitLens: seq<nat>, pBase: seq<nat>, count: nat)
    requires count <= |digitLens| && Sum(digitLens) <= |digitBases| && |dsts| == |digitLens| * |srcBase + pBase|
    requires RecorderOk(r) && r.recording
    requires forall h :: h in args ==> h < |r.trace|
    ensures var (r1, s) := LiftAll(r, dsts, args, srcBase, digitBases, digitLens, pBase, count);
      s == Success && RecorderOk(r1) && r1.recording && r1.heap == r.heap && |r.trace| <= |r1.trace|
  {
    hide RecorderOk, Abs, LiftAll;
    var v := AtAll(Vals(sem, r), args);
    HandlesMatch(Vals(sem, r), args);
    LiftRefines(sem, r, dsts, args, v, srcBase, digitBases, digitLens, pBase, count);
    LiftGrowsTrace(r, dsts, args, srcBase, digitBases, digitLens, pBase, count);
  }

  lemma {:induction false} LiftGrowsTrace(r: Recorder, dsts: seq<DevAddr>, args: seq<Handle>, srcBase: seq<nat>,
                                          digitBases: seq<nat>, digitLens: seq<nat>, pBase: seq<nat>, count: nat)
    requires count <= |digitLens| && Sum(digitLens) <= |digitBases| && |dsts| == |digitLens| * |srcBase + pBase|
    ensures |r.trace| <= |LiftAll(r, dsts, args, srcBase, digitBases, digitLens, pBase, count).0.trace|
    decreases count
  {
    hide RegisterGroup;
    if count > 0 {
      LiftGrowsTrace(r, dsts, args, srcBase, digitBases, digitLens, pBase, count - 1);
      var r1 := LiftAll(r, dsts, args, srcBase, digitBases, digitLens, pBase, count - 1).0;
      var target := srcBase + pBase;
      Stretch(count - 1, |digitLens|, |target|);
      var stretch := dsts[(count - 1) * |target|..count * |target|];
      var op := OpCode("fast_base_convert", [], srcBase, Digit(digitBases, digitLens, count - 1), 0);
      StoreGrowsTrace(r1, stretch, Ops(op, target), args, target);
      GroupKeepsTrace(StoreAll(r1, stretch, Ops(op, target), args, target), stretch, target);
    }
  }

  lemma {:induction false} StoreGrowsTrace(r: Recorder, dsts: seq<DevAddr>, ops: seq<OpCode>, args: seq<Handle>, base: seq<nat>)
    requires |ops| <= |dsts| && |ops| <= |base|
    ensures |r.trace| <= |StoreAll(r, dsts, ops, args, base).trace|
    decreases |ops|
  {
    if ops != [] {
      StoreGrowsTrace(r, dsts, ops[..|ops| - 1], args, base);
    }
  }

  lemma GroupKeepsTrace(r: Recorder, addrs: seq<DevAddr>, base: seq<nat>)
    ensures R.GroupUp(r, addrs, base).0.trace == r.trace
  {
    hide RegisterGroup, R.NameOutputGroup;
    if |addrs| > 1 {
      var (r1, name) := R.NameOutputGroup(r, addrs[0]);
      NamingKeepsTrace(r, addrs[0]);
      RegisterKeepsTrace(r1, addrs, base, name);
    }
  }

  lemma NamingKeepsTrace(r: Recorder, a: DevAddr)
    ensures R.NameOutputGroup(r, a).0.trace == r.trace
  {
  }

  lemma RegisterKeepsTrace(r: Recorder, addrs: seq<DevAddr>, moduli: seq<nat>, name: nat)
    ensures RegisterGroup(r, addrs, moduli, name).0.trace == r.trace
  {
    hide TagOutputs, Installed, EvictOthers;
    var cleared := EvictOthers(r.table, addrs, |addrs|, name);
    TagOutputsKeeps(r.(log := r.log + [Registered(Group(addrs, moduli))],
                       table := Installed(cleared, name, Group(addrs, moduli))), addrs);
  }

  // ---- Transfers ----

  method CopyH2DMrp(e: EpochState, dsts: seq<DevAddr>, datas: seq<Bytes>) returns (s: Status)
    requires e.Valid() && |dsts| == |datas|
    modifies e`recording, e`polyMap, e`inputAddrs, e`inputCounter, e`pendingOutputs
    modifies e.alloc`shadow, e.backend`trace, e.backend`inputs, e.backend`initialized
    ensures e.Valid()
    ensures var (r1, s1) := CopyInAll(old(e.View()), dsts, datas);
      (e.View(), s) == if s1.Failure? then (r1, s1) else TagH2DInputs(Open(r1), dsts)
  {
    hide CopyIn, R.TagH2DInput, CopyInAll, TagH2DInputs;
    ghost var r := e.View();
    NothingCopied(r, dsts);
    assert datas[..0] == [];
    for i := 0 to |dsts|
      invariant e.Valid() && (e.View(), Success) == CopyInAll(r, dsts, datas[..i])
    {
      NextCopied(r, dsts, datas, i);
      var h2d := CopyInOne(e, dsts[i], datas[i]);
      if h2d.Failure? {
        CopyInAllStops(r, dsts, datas, i + 1);
        return h2d;
      }
    }
    assert datas[..|dsts|] == datas;
    e.OpenSession();
    s := TagInputs(e, dsts);
  }

  method TagInputs(e: EpochState, dsts: seq<DevAddr>) returns (s: Status)
    requires e.Valid()
    modifies e`polyMap, e`inputAddrs, e`inputCounter, e`pendingOutputs
    modifies e.backend`trace, e.backend`inputs
    ensures e.Valid() && (e.View(), s) == TagH2DInputs(old(e.View()), dsts)
  {
    hide R.TagH2DInput, TagH2DInputs;
    ghost var r := e.View();
    NothingTagged(r);
    assert dsts[..0] == [];
    for i := 0 to |dsts|
      invariant e.Valid() && (e.View(), Success) == TagH2DInputs(r, dsts[..i])
    {
      NextTagged(r, dsts, i);
      var tag := e.TagH2DInput(dsts[i]);
      if tag.Failure? {
        TagH2DInputsStops(r, dsts, i + 1);
        return tag;
      }
    }
    assert dsts[..|dsts|] == dsts;
    return Success;
  }

  lemma NothingCopied(r: Recorder, dsts: seq<DevAddr>)
    ensures CopyInAll(r, dsts, []) == (r, Success)
  {
  }

  lemma NextCopied(r: Recorder, dsts: seq<DevAddr>, datas: seq<Bytes>, i: nat)
    requires i < |datas| <= |dsts| && CopyInAll(r, dsts, datas[..i]).1.Success?
    ensures CopyInAll(r, dsts, datas[..i + 1]) == CopyIn(CopyInAll(r, dsts, datas[..i]).0, dsts[i], datas[i])
  {
    hide CopyIn;
    assert datas[..i + 1][..i] == datas[..i];
  }

  lemma NothingTagged(r: Recorder)
    ensures TagH2DInputs(r, []) == (r, Success)
  {
  }

  lemma NextTagged(r: Recorder, addrs: seq<DevAddr>, i: nat)
    requires i < |addrs| && TagH2DInputs(r, addrs[..i]).1.Success?
    ensures TagH2DInputs(r, addrs[..i + 1]) == R.TagH2DInput(TagH2DInputs(r, addrs[..i]).0, addrs[i])
  {
    hide R.TagH2DInput;
    assert addrs[..i + 1][..i] == addrs[..i];
  }

  method CopyInOne(e: EpochState, dst: DevAddr, data: Bytes) returns (s: Status)
    requires e.Valid()
    modifies e.alloc`shadow
    ensures e.Valid() && (e.View(), s) == CopyIn(old(e.View()), dst, data)
  {
    s := e.alloc.CopyH2D(dst, To(data));
  }

  lemma {:induction false} CopyInAllStops(r: Recorder, dsts: seq<DevAddr>, datas: seq<Bytes>, n: nat)
    requires n <= |datas| <= |dsts| && CopyInAll(r, dsts, datas[..n]).1.Failure?
    ensures CopyInAll(r, dsts, datas) == CopyInAll(r, dsts, datas[..n])
    decreases |datas| - n
  {
    if n == |datas| {
      assert datas[..n] == datas;
    } else {
      assert datas[..n + 1][..n] == datas[..n];
      CopyInAllStops(r, dsts, datas, n + 1);
    }
  }

  lemma {:induction false} TagH2DInputsStops(r: Recorder, addrs: seq<DevAddr>, n: nat)
    requires n <= |addrs| && TagH2DInputs(r, addrs[..n]).1.Failure?
    ensures TagH2DInputs(r, addrs) == TagH2DInputs(r, addrs[..n])
    decreases |addrs| - n
  {
    if n == |addrs| {
      assert addrs[..n] == addrs;
    } else {
      assert addrs[..n + 1][..n] == addrs[..n];
      TagH2DInputsStops(r, addrs, n + 1);
    }
  }

  method CopyToHostMrp(alloc: DeviceAllocator, srcs: seq<DevAddr>, count: nat) returns (r: Result<seq<Bytes>>)
    requires alloc.Valid()
    ensures r == ReadAllStored(alloc.allocSet, alloc.shadow, alloc.polyBytes, srcs, count)
  {
    var out := [];
    for i := 0 to |srcs|
      invariant ReadAllStored(alloc.allocSet, alloc.shadow, alloc.polyBytes, srcs[..i], count) == Ok(out)
    {
      assert srcs[..i + 1][..i] == srcs[..i];
      var d2h := alloc.CopyToHost(true, srcs[i], count);
      if d2h.Err? {
        ReadAllStops(alloc.allocSet, alloc.shadow, alloc.polyBytes, srcs, count, i + 1);
        return Err(d2h.error);
      }
      out := out + [d2h.value];
    }
    assert srcs[..|srcs|] == srcs;
    return Ok(out);
  }

  lemma {:induction false} ReadAllStops(live: set<DevAddr>, host: map<DevAddr, Bytes>, polyBytes: nat, srcs: seq<DevAddr>,
                                        count: nat, n: nat)
    requires n <= |srcs| && ReadAllStored(live, host, polyBytes, srcs[..n], count).Err?
    ensures ReadAllStored(live, host, polyBytes, srcs, count) == ReadAllStored(live, host, polyBytes, srcs[..n], count)
    decreases |srcs| - n
  {
    if n == |srcs| {
      assert srcs[..n] == srcs;
    } else {
      assert srcs[..n + 1][..n] == srcs[..n];
      ReadAllStops(live, host, polyBytes, srcs, count, n + 1);
    }
  }

  /** Per-residue copies in order, then the destination is registered as a group. */
  method CopyDeviceToDeviceMrp(e: EpochState, dsts: seq<DevAddr>, srcs: seq<DevAddr>, base: seq<nat>) returns (s: Status)
    requires e.Valid() && RecorderOk(e.View()) && e.recording && |dsts| == |srcs| == |base|
    modifies e, e.alloc`shadow, e.backend`trace, e.backend`inputs
    ensures e.Valid()
    ensures var (r1, s1) := CopyResults(old(e.View()), dsts, srcs, base);
      (e.View(), s) == if s1.Failure? then (r1, s1) else R.GroupUp(r1, dsts, base)
  {
    hide RecorderOk, R.CopyResult, R.GroupUp;
    ghost var r := e.View();
    for i := 0 to |dsts|
      invariant e.Valid() && (e.View(), Success) == CopyResults(r, dsts, srcs[..i], base)
    {
      assert srcs[..i + 1][..i] == srcs[..i];
      var copied := e.CopyResult(dsts[i], srcs[i], base[i]);
      if copied.Failure? {
        CopyResultsStops(r, dsts, srcs, base, i + 1);
        return copied;
      }
    }
    assert srcs[..|dsts|] == srcs;
    CopiedFacts(e.backend.sem, r, dsts, srcs, base);
    s := GroupUp(e, dsts, base);
  }

  lemma CopiedFacts(sem: Semantics, r: Recorder, dsts: seq<DevAddr>, srcs: seq<DevAddr>, base: seq<nat>)
    requires RecorderOk(r) && r.recording && |dsts| == |srcs| == |base|
    ensures var (r1, s) := CopyResults(r, dsts, srcs, base);
      RecorderOk(r1) && (s.Success? ==> forall a :: a in dsts ==> a in r1.binding)
  {
    hide CoreOk, IndexOk, R.CopyResult;
    CopyResultsRefines(sem, r, dsts, srcs, base);
    GrowsRecorderOk(sem, r, CopyResults(r, dsts, srcs, base).0);
  }

  lemma {:induction false} CopyResultsStops(r: Recorder, dsts: seq<DevAddr>, srcs: seq<DevAddr>, base: seq<nat>, n: nat)
    requires n <= |srcs| <= |dsts| && |srcs| <= |base| && CopyResults(r, dsts, srcs[..n], base).1.Failure?
    ensures CopyResults(r, dsts, srcs, base) == CopyResults(r, dsts, srcs[..n], base)
    decreases |srcs| - n
  {
    if n == |srcs| {
      assert srcs[..n] == srcs;
    } else {
      assert srcs[..n + 1][..n] == srcs[..n];
      CopyResultsStops(r, dsts, srcs, base, n + 1);
    }
  }
}
