/**
 The memory one would write first: a map from addresses to values that every call updates at once.
 Within an epoch the device's values are this map; at the end of an epoch they are the stored bytes.
 */
module EagerMemory {
  import opened Types
  import opened Trace
  import opened HeapModel
  import opened Allocator
  import opened Configuration
  import opened DeviceModel
  import opened DeviceInvariant

  type Memory = map<DevAddr, Bytes>

  predicate Known(m: Memory, srcs: seq<DevAddr>) {
    forall a :: a in srcs ==> a in m
  }

  function Fetch(m: Memory, srcs: seq<DevAddr>): (vs: seq<Bytes>)
    requires Known(m, srcs)
    ensures |vs| == |srcs|
  {
    seq(|srcs|, i requires 0 <= i < |srcs| => m[srcs[i]])
  }

  /** Runs `op` once per residue on the values of all sources, then assigns every destination. */
  function Compute(sem: Semantics, m: Memory, op: OpCode, dsts: seq<DevAddr>, srcs: seq<DevAddr>, base: seq<nat>): Memory
    requires |dsts| == |base|
  {
    if Known(m, srcs) then Assign(m, dsts, Results(sem, op, Fetch(m, srcs), base)) else m
  }

  /** One operation on one residue. */
  function ComputeOne(sem: Semantics, m: Memory, op: OpCode, dst: DevAddr, srcs: seq<DevAddr>): Memory {
    if dst != NULL && NULL !in srcs && Known(m, srcs) then m[dst := sem(op, Fetch(m, srcs))] else m
  }

  /** What a call inside an epoch does to the memory. */
  function Effect(sem: Semantics, cfg: Settings, live: set<DevAddr>, m: Memory, call: Call): Memory
    requires Shaped(call)
  {
    match call
    case Free(p) => if p == NULL then m else m - {p}
    case FreeMrp(ps) => if |ps| > MAX_CIPHERTEXT_MODULI then m else m - (ToSet(ps) - {NULL})
    case H2D(dst, data) => if dst != NULL && dst in live then m[dst := data] else m
    case H2DMrp(dsts, datas) => Assign(m, dsts, datas)
    case Memset(p, value, count) => if p != NULL && p in live then m[p := Fill(value, count)] else m
    case D2D(dst, src, _) => if dst != NULL && src != NULL && src in m then m[dst := m[src]] else m
    case D2DMrp(dsts, srcs, _) => CopySeq(m, dsts, srcs).0
    case Binary(name, dst, src1, src2, modIdx) =>
      var q := Modulus(cfg, modIdx);
      if q == 0 then m else ComputeOne(sem, m, OpCode(name, [], [], [], q), dst, [src1, src2])
    case Unary(name, imm, dst, src, modIdx) =>
      var q := Modulus(cfg, modIdx);
      if q == 0 then m else ComputeOne(sem, m, OpCode(name, imm, [], [], q), dst, [src])
    case Automorph(name, index, dst, src) =>
      ComputeOne(sem, m, OpCode(name, [index], [], [], COPY_MODULUS), dst, [src])
    case BinaryMrp(name, dsts, srcs1, srcs2, base) =>
      Compute(sem, m, OpCode(name, [], base, base, 0), dsts, srcs1 + srcs2, base)
    case UnaryMrp(name, imm, dsts, srcs, base) => Compute(sem, m, OpCode(name, imm, base, base, 0), dsts, srcs, base)
    case BasisConvert(dsts, srcs, srcBase, dstBase) =>
      if srcBase == [] then m
      else Compute(sem, m, OpCode("fast_base_convert", [], srcBase, srcBase, 0), dsts, srcs, dstBase)
    case ModDown(dsts, srcs, srcBase, rescaleBase) =>
      if ValidateModDown(srcBase, rescaleBase).Failure? then m
      else Compute(sem, m, OpCode("rescale_fbc", [], srcBase, rescaleBase, 0), dsts, srcs, Without(srcBase, rescaleBase))
    case ModUp(dsts, srcs, srcBase, digitBases, digitLens, pBase) =>
      if ValidateModUp(srcBase, digitBases, digitLens, pBase).Failure? || !Known(m, srcs) then m
      else Assign(m, dsts, Lifted(sem, Fetch(m, srcs), srcBase, digitBases, digitLens, pBase, |digitLens|))
    case _ => m
  }

  /** Uploads and fills write whole polynomials; an array upload names live addresses only. */
  predicate FullSize(d: Device, call: Call) {
    match call
    case H2D(_, data) => |data| == d.heap.polyBytes
    case H2DMrp(dsts, datas) =>
      (forall a :: a in dsts ==> a in d.heap.live) && forall v :: v in datas ==> |v| == d.heap.polyBytes
    case Memset(_, _, count) => count == d.heap.polyBytes
    case _ => true
  }

  // ---- Assignment ----

  lemma {:induction false} AssignKeys(m: Memory, dsts: seq<DevAddr>, vs: seq<Bytes>)
    requires |vs| <= |dsts|
    ensures Assign(m, dsts, vs).Keys == m.Keys + ToSet(dsts[..|vs|])
    ensures forall a :: a !in dsts[..|vs|] && a in m ==> Assign(m, dsts, vs)[a] == m[a]
    decreases |vs|
  {
    if vs == [] {
      assert dsts[..0] == [];
    } else {
      var n := |vs| - 1;
      AssignKeys(m, dsts, vs[..n]);
      assert dsts[..|vs|] == dsts[..n] + [dsts[n]];
      ToSetSnoc(dsts[..n], dsts[n]);
    }
  }

  /** To distinct destinations, assigning in order is assigning all at once. */
  lemma {:induction false} AssignDistinct(m: Memory, dsts: seq<DevAddr>, vs: seq<Bytes>)
    requires |vs| <= |dsts| && Distinct(dsts)
    ensures forall i :: 0 <= i < |vs| ==> dsts[i] in Assign(m, dsts, vs) && Assign(m, dsts, vs)[dsts[i]] == vs[i]
    decreases |vs|
  {
    if vs != [] {
      AssignDistinct(m, dsts, vs[..|vs| - 1]);
    }
  }

  /** What an address gets does not depend on what it held. */
  lemma {:induction false} AssignForgets(m: Memory, m1: Memory, dsts: seq<DevAddr>, vs: seq<Bytes>, a: DevAddr)
    requires |vs| <= |dsts| && a in dsts[..|vs|]
    ensures a in Assign(m, dsts, vs) && a in Assign(m1, dsts, vs)
    ensures Assign(m, dsts, vs)[a] == Assign(m1, dsts, vs)[a]
    decreases |vs|
  {
    var n := |vs| - 1;
    assert dsts[..|vs|] == dsts[..n] + [dsts[n]];
    if a != dsts[n] {
      AssignForgets(m, m1, dsts, vs[..n], a);
    }
  }

  // ---- Calls ----

  lemma ReadFetches(d: Device, srcs: seq<DevAddr>)
    requires DeviceOk(d)
    ensures var (d1, r) := ReadAll(d, srcs);
      && DeviceOk(d1) && Mem(d1) == Mem(d) && d1.heap == d.heap && d1.cfg == d.cfg
      && (r.Ok? <==> Known(Mem(d), srcs))
      && (r.Ok? ==> r.value == Fetch(Mem(d), srcs))
  {
    hide MemoryOk, ClaimsOk, Mem, ReadAll;
    ReadAllExact(d, srcs);
    SameClaimsOk(d, ReadAll(d, srcs).0);
  }

  lemma OneEffect(d: Device, srcs: seq<DevAddr>, dst: DevAddr, v: Bytes, q: nat)
    requires DeviceOk(d)
    ensures Mem(Bind(ReadAll(d, srcs).0, dst, v, q)) == Mem(d)[dst := v]
    ensures Mem(ReadAll(d, srcs).0) == Mem(d)
  {
    hide MemoryOk, ClaimsOk, Mem, ReadAll, Bind;
    ReadFetches(d, srcs);
    BindOk(ReadAll(d, srcs).0, dst, v, q);
  }

  lemma ComputeCallEffect(sem: Semantics, d: Device, call: Call)
    requires DeviceOk(d) && Lawful(d, call)
    requires call.Binary? || call.Unary? || call.Automorph?
    ensures Mem(Step(sem, d, call).0) == Effect(sem, d.cfg, d.heap.live, Mem(d), call)
    ensures Step(sem, d, call).1.Failed? ==> Mem(Step(sem, d, call).0) == Mem(d)
  {
    hide DeviceOk, Mem, ReadAll, Bind, Known;
    match call {
      case Binary(name, dst, src1, src2, modIdx) =>
        ReadFetches(d, [src1, src2]);
        if dst != NULL && Known(Mem(d), [src1, src2]) {
          assert dst in Destinations(call);
          var q := Modulus(d.cfg, modIdx);
          OneEffect(d, [src1, src2], dst, sem(OpCode(name, [], [], [], q), Fetch(Mem(d), [src1, src2])), q);
        }
      case Unary(name, imm, dst, src, modIdx) =>
        ReadFetches(d, [src]);
        if dst != NULL && Known(Mem(d), [src]) {
          assert dst in Destinations(call);
          var q := Modulus(d.cfg, modIdx);
          OneEffect(d, [src], dst, sem(OpCode(name, imm, [], [], q), Fetch(Mem(d), [src])), q);
        }
      case Automorph(name, index, dst, src) =>
        ReadFetches(d, [src]);
        if dst != NULL && Known(Mem(d), [src]) {
          assert dst in Destinations(call);
          var d1 := ReadAll(d, [src]).0;
          OneEffect(d, [src], dst, sem(OpCode(name, [index], [], [], COPY_MODULUS), Fetch(Mem(d), [src])), Recorded(d1, src));
        }
      case _ =>
    }
  }

  lemma MrpEffect(sem: Semantics, d: Device, op: OpCode, dsts: seq<DevAddr>, srcs: seq<DevAddr>, base: seq<nat>)
    requires DeviceOk(d) && |dsts| == |base|
    ensures var (d1, s) := MrpOp(sem, d, op, dsts, srcs, base);
      Mem(d1) == Compute(sem, Mem(d), op, dsts, srcs, base) && (s.Failure? ==> Mem(d1) == Mem(d))
  {
    hide MemoryOk, ClaimsOk, Mem, ReadAll, StoreMrp, Known;
    ReadFetches(d, srcs);
    var (d1, r) := ReadAll(d, srcs);
    if r.Ok? {
      StoreMrpOk(d1, dsts, Results(sem, op, r.value, base), base);
    }
  }

  lemma NoResidues(sem: Semantics, m: Memory, op: OpCode, dsts: seq<DevAddr>, srcs: seq<DevAddr>, base: seq<nat>)
    requires |dsts| == |base| == 0
    ensures Compute(sem, m, op, dsts, srcs, base) == m
  {
  }

  lemma MrpCallEffect(sem: Semantics, d: Device, call: Call)
    requires DeviceOk(d) && Lawful(d, call)
    requires call.BinaryMrp? || call.UnaryMrp? || call.BasisConvert? || call.ModDown? || call.ModUp?
    ensures Mem(Step(sem, d, call).0) == Effect(sem, d.cfg, d.heap.live, Mem(d), call)
    ensures Step(sem, d, call).1.Failed? ==> Mem(Step(sem, d, call).0) == Mem(d)
  {
    hide DeviceOk, MrpOp, LiftDigits, ReadAll, Mem, Known, Assign, ValidateModDown, Without;
    match call {
      case BinaryMrp(name, dsts, srcs1, srcs2, base) =>
        var op := OpCode(name, [], base, base, 0);
        if base == [] {
          NoResidues(sem, Mem(d), op, dsts, srcs1 + srcs2, base);
        } else {
          MrpEffect(sem, d, op, dsts, srcs1 + srcs2, base);
          assert Step(sem, d, call).0 == MrpOp(sem, d, op, dsts, srcs1 + srcs2, base).0;
        }
      case UnaryMrp(name, imm, dsts, srcs, base) =>
        var op := OpCode(name, imm, base, base, 0);
        if base == [] {
          NoResidues(sem, Mem(d), op, dsts, srcs, base);
        } else {
          MrpEffect(sem, d, op, dsts, srcs, base);
          assert Step(sem, d, call).0 == MrpOp(sem, d, op, dsts, srcs, base).0;
        }
      case BasisConvert(dsts, srcs, srcBase, dstBase) =>
        var op := OpCode("fast_base_convert", [], srcBase, srcBase, 0);
        if dstBase == [] {
          NoResidues(sem, Mem(d), op, dsts, srcs, dstBase);
        } else if srcBase != [] {
          MrpEffect(sem, d, op, dsts, srcs, dstBase);
          assert Step(sem, d, call).0 == MrpOp(sem, d, op, dsts, srcs, dstBase).0;
        }
      case ModDown(dsts, srcs, srcBase, rescaleBase) =>
        if ValidateModDown(srcBase, rescaleBase).Success? {
          var op := OpCode("rescale_fbc", [], srcBase, rescaleBase, 0);
          MrpEffect(sem, d, op, dsts, srcs, Without(srcBase, rescaleBase));
          assert Step(sem, d, call).0 == MrpOp(sem, d, op, dsts, srcs, Without(srcBase, rescaleBase)).0;
        }
      case ModUp(dsts, srcs, srcBase, digitBases, digitLens, pBase) =>
        if ValidateModUp(srcBase, digitBases, digitLens, pBase).Success? {
          ReadFetches(d, srcs);
          var (d1, r) := ReadAll(d, srcs);
          if r.Ok? {
            LiftDigitsOk(sem, d1, dsts, r.value, srcBase, digitBases, digitLens, pBase, |digitLens|);
          }
        }
      case _ =>
    }
  }

  // ---- Uploads ----

  lemma FullUpload(d: Device, dst: DevAddr, data: Bytes)
    requires MemoryOk(d) && |data| == d.heap.polyBytes && dst in d.heap.live
    ensures Upload(d, dst, data) == (d.(host := d.host[dst := data]), Success)
  {
    hide HeapOk;
    assert Overlay(data, Staged(d.host, dst, d.heap.polyBytes)) == data;
  }

  lemma {:induction false} FullUploads(d: Device, dsts: seq<DevAddr>, datas: seq<Bytes>)
    requires MemoryOk(d) && |datas| <= |dsts| && forall a :: a in dsts ==> a in d.heap.live
    requires forall v :: v in datas ==> |v| == d.heap.polyBytes
    ensures UploadAll(d, dsts, datas) == (d.(host := Assign(d.host, dsts, datas)), Success)
    decreases |datas|
  {
    hide MemoryOk, Upload;
    if datas != [] {
      var n := |datas| - 1;
      FullUploads(d, dsts, datas[..n]);
      UploadAllOk(d, dsts, datas[..n]);
      FullUpload(UploadAll(d, dsts, datas[..n]).0, dsts[n], datas[n]);
    }
  }

  lemma {:induction false} TaggedInputs(d: Device, addrs: seq<DevAddr>)
    requires DeviceOk(d) && forall a :: a in addrs ==> a in d.host
    ensures var (d1, s) := TagInputs(d, addrs);
      && s.Success? && d1.host == d.host
      && d1.bound.Keys == d.bound.Keys + ToSet(addrs)
      && forall a :: a in d1.bound ==> d1.bound[a] == if a in addrs then d.host[a] else d.bound[a]
    decreases |addrs|
  {
    hide DeviceOk, TagInput;
    if addrs != [] {
      var n := |addrs| - 1;
      TaggedInputs(d, addrs[..n]);
      TagInputsOk(d, addrs[..n]);
      TagInputOk(TagInputs(d, addrs[..n]).0, addrs[n]);
      assert addrs == addrs[..n] + [addrs[n]];
      ToSetSnoc(addrs[..n], addrs[n]);
    }
  }

  /** Once every uploaded address is bound to its stored bytes, both maps show the upload. */
  lemma UploadedMaps(host: Memory, bound: Memory, bound1: Memory, dsts: seq<DevAddr>, datas: seq<Bytes>)
    requires |datas| == |dsts| && bound1.Keys == bound.Keys + ToSet(dsts)
    requires ToSet(dsts) <= Assign(host, dsts, datas).Keys
    requires forall a :: a in bound1 ==> bound1[a] == if a in dsts then Assign(host, dsts, datas)[a] else bound[a]
    ensures Assign(host, dsts, datas) + bound1 == Assign(host + bound, dsts, datas)
  {
    hide Assign;
    assert dsts[..|datas|] == dsts;
    AssignKeys(host, dsts, datas);
    AssignKeys(host + bound, dsts, datas);
    forall a | a in Assign(host + bound, dsts, datas)
      ensures (Assign(host, dsts, datas) + bound1)[a] == Assign(host + bound, dsts, datas)[a]
    {
      if a in dsts {
        AssignForgets(host, host + bound, dsts, datas, a);
      }
    }
  }

  lemma UploadsEffect(sem: Semantics, d: Device, dsts: seq<DevAddr>, datas: seq<Bytes>)
    requires DeviceOk(d) && |datas| == |dsts| && dsts != [] && FullSize(d, H2DMrp(dsts, datas))
    ensures var d1 := UploadAll(d, dsts, datas).0;
      UploadAll(d, dsts, datas).1.Success? && Mem(TagInputs(d1, dsts).0) == Assign(Mem(d), dsts, datas)
  {
    hide MemoryOk, ClaimsOk, UploadAll, TagInputs, Assign;
    FullUploads(d, dsts, datas);
    UploadAllOk(d, dsts, datas);
    var d1 := UploadAll(d, dsts, datas).0;
    SameClaimsOk(d, d1);
    assert forall a :: a in dsts ==> a in d1.host;
    TaggedInputs(d1, dsts);
    UploadedMaps(d.host, d.bound, TagInputs(d1, dsts).0.bound, dsts, datas);
  }

  lemma UploadEffect(sem: Semantics, d: Device, dst: DevAddr, data: Bytes)
    requires DeviceOk(d) && |data| == d.heap.polyBytes
    ensures Mem(Step(sem, d, H2D(dst, data)).0) == Effect(sem, d.cfg, d.heap.live, Mem(d), H2D(dst, data))
  {
    hide MemoryOk, ClaimsOk, Upload, TagInput;
    if dst in d.heap.live {
      FullUpload(d, dst, data);
      UploadOk(d, dst, data);
      SameClaimsOk(d, Upload(d, dst, data).0);
      TagInputOk(Upload(d, dst, data).0, dst);
    } else {
      NotLiveUpload(d, dst, data);
    }
  }

  lemma FillEffect(sem: Semantics, d: Device, p: DevAddr, value: int, count: nat)
    requires DeviceOk(d) && count == d.heap.polyBytes
    ensures Mem(Step(sem, d, Memset(p, value, count)).0) == Effect(sem, d.cfg, d.heap.live, Mem(d), Memset(p, value, count))
  {
    hide MemoryOk, ClaimsOk, Upload, Invalidate, Fill;
    if p in d.heap.live {
      FullUpload(d, p, Fill(value, count));
      UploadOk(d, p, Fill(value, count));
      var d1 := Upload(d, p, Fill(value, count)).0;
      SameClaimsOk(d, d1);
      InvalidateOk(d1, p);
    } else {
      NotLiveUpload(d, p, Fill(value, count));
    }
  }

  lemma TransferCallEffect(sem: Semantics, d: Device, call: Call)
    requires DeviceOk(d) && Lawful(d, call) && FullSize(d, call)
    requires call.H2D? || call.H2DMrp? || call.D2D? || call.D2DMrp? || call.Memset?
    ensures Mem(Step(sem, d, call).0) == Effect(sem, d.cfg, d.heap.live, Mem(d), call)
  {
    hide MemoryOk, ClaimsOk, UploadAll, TagInputs, CopyTo, CopyAll, Register, Assign, Mem;
    match call {
      case H2D(dst, data) => UploadEffect(sem, d, dst, data);
      case H2DMrp(dsts, datas) =>
        if dsts == [] {
          AssignNone(Mem(d), dsts);
        } else {
          UploadsEffect(sem, d, dsts, datas);
        }
      case D2D(dst, src, _) =>
        if dst != NULL {
          assert dst in Destinations(call);
          CopyToOk(d, dst, src, COPY_MODULUS);
        }
      case D2DMrp(dsts, srcs, base) =>
        CopyAllOk(d, dsts, srcs, base);
        if |base| > 1 {
          RegisterMemory(CopyAll(d, dsts, srcs, base).0, dsts, base);
        }
      case Memset(p, value, count) => FillEffect(sem, d, p, value, count);
      case _ =>
    }
  }

  lemma NotLiveUpload(d: Device, dst: DevAddr, data: Bytes)
    requires dst !in d.heap.live
    ensures Upload(d, dst, data) == (d, Failure(UnknownAddress))
  {
  }

  lemma MemoryCallEffect(sem: Semantics, d: Device, call: Call)
    requires DeviceOk(d) && Lawful(d, call)
    requires call.Malloc? || call.MallocMrp? || call.Free? || call.FreeMrp?
    ensures Mem(Step(sem, d, call).0) == Effect(sem, d.cfg, d.heap.live, Mem(d), call)
  {
    hide MemoryOk, ClaimsOk, FreeMany, AllocateMany, AllocateOne, Invalidate, InvalidateAll, Mem;
    match call {
      case Free(p) =>
        if p == NULL {
          assert {p} - {NULL} == {};
          assert d.host - {} == d.host;
          SameValues(d, Step(sem, d, call).0);
        } else {
          InvalidateOk(d, p);
          ForgottenValues(d, Step(sem, d, call).0, {p});
        }
      case FreeMrp(ps) =>
        InvalidateAllOk(d, ps);
        if |ps| <= MAX_CIPHERTEXT_MODULI {
          ForgottenValues(d, Step(sem, d, call).0, ToSet(ps) - {NULL});
        }
      case Malloc(_) => SameValues(d, Step(sem, d, call).0);
      case MallocMrp(_, _) => SameValues(d, Step(sem, d, call).0);
      case _ =>
    }
  }

  lemma ForgottenValues(d: Device, d1: Device, s: set<DevAddr>)
    requires d1.host == d.host - s && d1.bound == d.bound - s
    ensures Mem(d1) == Mem(d) - s
  {
  }

  lemma ControlCallEffect(sem: Semantics, d: Device, call: Call)
    requires DeviceOk(d) && Lawful(d, call)
    requires call.TagOutput? || call.SetModulus? || call.ConfigureDevice? || call.D2H? || call.D2HMrp? || call.SetRingDimension?
    ensures Mem(Step(sem, d, call).0) == Effect(sem, d.cfg, d.heap.live, Mem(d), call)
  {
    hide DeviceOk, TagOut, IsPowerOfTwo, SetPolynomialSize, Mem, ReadBack, ReadAllStored;
    if call.TagOutput? {
      TagOutMemory(d, call.p);
    }
    SameValues(d, Step(sem, d, call).0);
  }

  lemma SameValues(d: Device, d1: Device)
    requires d1.host == d.host && d1.bound == d.bound
    ensures Mem(d1) == Mem(d)
  {
  }

  /** Within an epoch, every lawful call does to the device's values what Effect says. */
  lemma StepEffect(sem: Semantics, d: Device, call: Call)
    requires DeviceOk(d) && Lawful(d, call) && FullSize(d, call) && !EndsEpoch(call)
    ensures Mem(Step(sem, d, call).0) == Effect(sem, d.cfg, d.heap.live, Mem(d), call)
  {
    hide DeviceOk, Step, Lawful, Effect, FullSize, Mem;
    match call {
      case Malloc(_) => MemoryCallEffect(sem, d, call);
      case MallocMrp(_, _) => MemoryCallEffect(sem, d, call);
      case Free(_) => MemoryCallEffect(sem, d, call);
      case FreeMrp(_) => MemoryCallEffect(sem, d, call);
      case H2D(_, _) => TransferCallEffect(sem, d, call);
      case H2DMrp(_, _) => TransferCallEffect(sem, d, call);
      case D2D(_, _, _) => TransferCallEffect(sem, d, call);
      case D2DMrp(_, _, _) => TransferCallEffect(sem, d, call);
      case Memset(_, _, _) => TransferCallEffect(sem, d, call);
      case Binary(_, _, _, _, _) => ComputeCallEffect(sem, d, call);
      case Unary(_, _, _, _, _) => ComputeCallEffect(sem, d, call);
      case Automorph(_, _, _, _) => ComputeCallEffect(sem, d, call);
      case BinaryMrp(_, _, _, _, _) => MrpCallEffect(sem, d, call);
      case UnaryMrp(_, _, _, _, _) => MrpCallEffect(sem, d, call);
      case BasisConvert(_, _, _, _) => MrpCallEffect(sem, d, call);
      case ModDown(_, _, _, _) => MrpCallEffect(sem, d, call);
      case ModUp(_, _, _, _, _, _) => MrpCallEffect(sem, d, call);
      case _ => ControlCallEffect(sem, d, call);
    }
  }

  predicate IsCompute(call: Call) {
    call.Binary? || call.Unary? || call.Automorph? || call.BinaryMrp? || call.UnaryMrp? || call.BasisConvert? ||
    call.ModDown? || call.ModUp?
  }

  /** A compute call that fails changes no address's value, even if some of its sources were read. */
  lemma FailedComputeChangesNothing(sem: Semantics, d: Device, call: Call)
    requires DeviceOk(d) && Lawful(d, call) && IsCompute(call) && Step(sem, d, call).1.Failed?
    ensures Mem(Step(sem, d, call).0) == Mem(d)
  {
    hide DeviceOk, Step, Lawful, Effect, Mem;
    if call.Binary? || call.Unary? || call.Automorph? {
      ComputeCallEffect(sem, d, call);
    } else {
      MrpCallEffect(sem, d, call);
    }
  }

  /** Calls inside one epoch, run on the plain memory. */
  ghost function Effects(sem: Semantics, d: Device, calls: seq<Call>): Memory
    requires forall i :: 0 <= i < |calls| ==> Shaped(calls[i])
    decreases |calls|
  {
    if calls == [] then Mem(d)
    else
      var n := |calls| - 1;
      var before := Run(sem, d, calls[..n]).0;
      Effect(sem, before.cfg, before.heap.live, Effects(sem, d, calls[..n]), calls[n])
  }

  /** A run inside one epoch whose uploads and fills write whole polynomials. */
  ghost predicate InEpoch(sem: Semantics, d: Device, calls: seq<Call>)
    requires forall i :: 0 <= i < |calls| ==> Shaped(calls[i])
  {
    forall i :: 0 <= i < |calls| ==> !EndsEpoch(calls[i]) && FullSize(Run(sem, d, calls[..i]).0, calls[i])
  }

  lemma InEpochPrefix(sem: Semantics, d: Device, calls: seq<Call>)
    requires forall i :: 0 <= i < |calls| ==> Shaped(calls[i])
    requires InEpoch(sem, d, calls) && calls != []
    ensures InEpoch(sem, d, calls[..|calls| - 1])
    ensures !EndsEpoch(calls[|calls| - 1]) && FullSize(Run(sem, d, calls[..|calls| - 1]).0, calls[|calls| - 1])
  {
    hide FullSize, Run;
    var front := calls[..|calls| - 1];
    forall i | 0 <= i < |front| ensures FullSize(Run(sem, d, front[..i]).0, front[i]) {
      assert front[..i] == calls[..i];
    }
  }

  /** Over any run inside an epoch the device's values are the plain memory's. */
  lemma {:induction false} RunEffects(sem: Semantics, d: Device, calls: seq<Call>)
    requires DeviceOk(d) && LawfulRun(sem, d, calls) && InEpoch(sem, d, calls)
    ensures Mem(Run(sem, d, calls).0) == Effects(sem, d, calls)
    decreases |calls|
  {
    hide DeviceOk, Step, Lawful, Effect, InEpoch, Mem;
    if calls == [] {
    } else {
      var n := |calls| - 1;
      LawfulPrefix(sem, d, calls);
      InEpochPrefix(sem, d, calls);
      RunEffects(sem, d, calls[..n]);
      RunOk(sem, d, calls[..n]);
      StepEffect(sem, Run(sem, d, calls[..n]).0, calls[n]);
    }
  }
}
