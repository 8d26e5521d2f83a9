/**
 What comes back to the host. A flush stores the value of every tagged address and nothing else;
 between flushes a read-back sees stored bytes only, which a computation over them makes stale.
 */
module Freshness {
  import opened Types
  import opened Trace
  import opened HeapModel
  import opened Allocator
  import opened Configuration
  import opened DeviceModel
  import opened DeviceInvariant
  import opened EagerMemory
  import opened ComputeCalls
  import R = RecorderModel
  import opened RecorderLaws
  import opened Refinement
  import Lifetimes

  // ---- Flush ----

  /** A replayed flush gives every tagged address its value, leaves all other stored bytes alone, and
      from then on the stored bytes are the memory. */
  lemma FlushExact(sem: Semantics, d: Device)
    requires DeviceOk(d)
    ensures var (d1, reply) := Step(sem, d, Flush(Replayed));
      && reply == Done && Mem(d1) == d1.host && d1.heap == d.heap && d1.cfg == d.cfg
      && d1.host.Keys == d.host.Keys + d.tags
      && forall a :: a in d1.host ==>
           d1.host[a] == if a in d.tags then Fit(Mem(d)[a], d.heap.polyBytes) else d.host[a]
  {
    hide MemoryOk, ClaimsOk, Exported, Mem;
    ExportedExact(d, d.tags);
    var d1 := Step(sem, d, Flush(Replayed)).0;
    EndedMemory(d1);
  }

  /** A flush whose read-back stops midway has given exactly the addresses it got to their values. All
      other stored bytes are as they were, those of the tagged addresses it missed included, and the
      epoch is over all the same. */
  lemma InterruptedExact(sem: Semantics, d: Device, env: BackendOutcome)
    requires DeviceOk(d) && env.Interrupted? && Lawful(d, Flush(env))
    ensures var (d1, reply) := Step(sem, d, Flush(env));
      && reply == Failed(FaultError(env.fault)) && d1.heap == d.heap && d1.cfg == d.cfg && d1.bound == map[] && d1.tags == {}
      && d1.host.Keys == d.host.Keys + env.stored
      && forall a :: a in d1.host ==>
           d1.host[a] == if a in env.stored then Fit(Mem(d)[a], d.heap.polyBytes) else d.host[a]
  {
    hide MemoryOk, ClaimsOk, Exported, Mem;
    ExportedExact(d, env.stored);
  }

  /** A tagged address that a failing flush did not store answers a read-back as before the flush. That is
      an error, as intended, exactly if nothing was stored for it before. */
  lemma MissedReadBack(sem: Semantics, d: Device, env: BackendOutcome, a: DevAddr, count: nat)
    requires DeviceOk(d) && Lawful(d, Flush(env)) && a in d.tags && Step(sem, d, Flush(env)).1.Failed?
    requires env.Interrupted? ==> a !in env.stored
    ensures var reply := Step(sem, Step(sem, d, Flush(env)).0, D2H(a, count)).1;
      && reply == Step(sem, d, D2H(a, count)).1
      && (reply.Failed? <==> a !in d.host || count > d.heap.polyBytes)
  {
    hide HeapOk, ClaimsOk, Mem, Exported;
    if env.Interrupted? {
      InterruptedExact(sem, d, env);
    }
    if a in d.host {
      LiveNotNull(d.heap, a);
    }
  }

  lemma EndedMemory(d: Device)
    requires d.bound == map[]
    ensures Mem(d) == d.host
  {
  }

  lemma ExportedExact(d: Device, done: set<DevAddr>)
    requires DeviceOk(d) && done <= d.tags
    ensures Exported(d, done).Keys == d.host.Keys + done
    ensures forall a :: a in Exported(d, done) ==>
      (a in done ==> a in Mem(d)) &&
      Exported(d, done)[a] == if a in done then Fit(Mem(d)[a], d.heap.polyBytes) else d.host[a]
    ensures done == {} ==> Exported(d, done) == d.host
  {
    hide MemoryOk, Apart, Fit;
  }

  /** When nothing is read back, no stored byte changes; only a refused flush keeps the epoch. */
  lemma UnreplayedKeepsStored(sem: Semantics, d: Device, call: Call)
    requires (call.Flush? && call.env != Replayed && !call.env.Interrupted?) || call.WriteProgram?
    ensures var (d1, reply) := Step(sem, d, call);
      && d1.host == d.host && d1.heap == d.heap && d1.cfg == d.cfg
      && if reply == Failed(UnsupportedDataFormat) then d1 == d else d1.bound == map[] && d1.tags == {}
  {
  }

  lemma LiveNotNull(h: Heap, a: DevAddr)
    requires HeapOk(h) && a in h.live
    ensures a != NULL
  {
    assert a in Slots(h.origin, h.polyBytes, h.bumps);
  }

  /** Record, tag, flush, read back: the library returns the value the plain memory has for a tagged
      address, and for any other address the bytes it would have returned before the flush. */
  lemma EndToEnd(sem: Semantics, calls: seq<Call>, a: DevAddr, count: nat)
    requires LawfulRun(sem, RESET, calls) && Lawful(Run(sem, RESET, calls).0, Flush(Replayed))
    ensures var d := Run(sem, RESET, calls).0;
      var r := R.ActAll(sem, FRESH, calls).0;
      var flushed := R.Act(sem, r, Flush(Replayed)).0;
      var reply := R.Act(sem, flushed, D2H(a, count)).1;
      && (a in d.tags && count <= d.heap.polyBytes ==>
            a in Mem(d) && reply == Data(Fit(Mem(d)[a], d.heap.polyBytes)[..count]))
      && (a !in d.tags ==> reply == R.Act(sem, r, D2H(a, count)).1)
  {
    hide RecorderOk, Abs, R.Act, Step, DeviceOk, Lawful, Mem;
    FreshRefines(sem);
    ResetOk();
    RunRefines(sem, FRESH, calls);
    RunOk(sem, RESET, calls);
    var r := R.ActAll(sem, FRESH, calls).0;
    var d := Run(sem, RESET, calls).0;
    FlushStoresLive(d);
    ActRefines(sem, r, Flush(Replayed));
    var flushed := R.Act(sem, r, Flush(Replayed)).0;
    ReadLawful(d, a, count);
    ReadLawful(Abs(sem, flushed), a, count);
    ActRefines(sem, r, D2H(a, count));
    ActRefines(sem, flushed, D2H(a, count));
    FlushExact(sem, d);
    ReadAfterFlush(sem, d, a, count);
  }

  lemma FlushStoresLive(d: Device)
    requires Lawful(d, Flush(Replayed))
    ensures d.tags <= d.heap.live
  {
  }

  lemma ReadLawful(d: Device, a: DevAddr, count: nat)
    ensures Lawful(d, D2H(a, count))
  {
  }

  lemma ReadAfterFlush(sem: Semantics, d: Device, a: DevAddr, count: nat)
    requires DeviceOk(d) && d.tags <= d.heap.live
    ensures var d1 := Step(sem, d, Flush(Replayed)).0;
      var reply := Step(sem, d1, D2H(a, count)).1;
      && (a in d.tags && count <= d.heap.polyBytes ==>
            a in Mem(d) && reply == Data(Fit(Mem(d)[a], d.heap.polyBytes)[..count]))
      && (a !in d.tags ==> reply == Step(sem, d, D2H(a, count)).1)
  {
    hide HeapOk, Apart, Finalize;
    FlushExact(sem, d);
    if a in d.tags {
      LiveNotNull(d.heap, a);
    }
  }

  // ---- Read-back between flushes ----

  /** Stored bytes and epoch values agree wherever both exist. */
  ghost predicate Coherent(d: Device) {
    forall a :: a in d.host && a in d.bound ==> d.host[a] == d.bound[a]
  }

  /** On a coherent device what a read-back returns is the current value. */
  lemma CoherentReads(sem: Semantics, d: Device, a: DevAddr, count: nat)
    requires DeviceOk(d) && Coherent(d) && Step(sem, d, D2H(a, count)).1.Data?
    ensures a in Mem(d) && count <= |Mem(d)[a]| && Step(sem, d, D2H(a, count)).1 == Data(Mem(d)[a][..count])
  {
    hide HeapOk, Apart;
  }

  lemma ReadStaysCoherent(d: Device, a: DevAddr)
    requires Coherent(d)
    ensures Coherent(Read(d, a).0)
  {
  }

  lemma {:induction false} ReadAllStaysCoherent(d: Device, srcs: seq<DevAddr>)
    requires Coherent(d)
    ensures Coherent(ReadAll(d, srcs).0)
    decreases |srcs|
  {
    hide Coherent, Read;
    if srcs != [] {
      ReadAllStaysCoherent(d, srcs[..|srcs| - 1]);
      ReadStaysCoherent(ReadAll(d, srcs[..|srcs| - 1]).0, srcs[|srcs| - 1]);
    }
  }

  /** Binding a result keeps the device coherent exactly if nothing else is stored for it. */
  lemma BindCoherent(d: Device, a: DevAddr, v: Bytes, q: nat)
    requires Coherent(d)
    ensures Coherent(Bind(d, a, v, q)) <==> a !in d.host || d.host[a] == v
  {
    if a in d.host && d.host[a] != v {
      assert Bind(d, a, v, q).bound[a] == v;
    }
  }

  /** `a` still has stored bytes once a call has read `srcs`: the bytes of an unbound source move into
      the epoch, those of a bound one stay. */
  predicate StaysStored(d: Device, srcs: seq<DevAddr>, a: DevAddr) {
    a in d.host && (a in d.bound || a !in srcs)
  }

  lemma ReadStored(d: Device, src: DevAddr, a: DevAddr)
    requires Read(d, src).1.Ok?
    ensures var d1 := Read(d, src).0;
      && (a in d1.host <==> a in d.host && (a in d.bound || a != src))
      && (a in d1.host ==> d1.host[a] == d.host[a])
      && (a in d1.bound <==> a in d.bound || a == src)
  {
  }

  lemma {:induction false} LeftStoredExact(d: Device, srcs: seq<DevAddr>, a: DevAddr)
    requires ReadAll(d, srcs).1.Ok?
    ensures var d1 := ReadAll(d, srcs).0;
      (a in d1.host <==> StaysStored(d, srcs, a)) && (a in d1.host ==> d1.host[a] == d.host[a])
    decreases |srcs|
  {
    hide Read;
    if srcs != [] {
      var n := |srcs| - 1;
      assert srcs == srcs[..n] + [srcs[n]];
      LeftStoredExact(d, srcs[..n], a);
      BoundAfterReads(d, srcs[..n], a);
      ReadStored(ReadAll(d, srcs[..n]).0, srcs[n], a);
    }
  }

  lemma {:induction false} BoundAfterReads(d: Device, srcs: seq<DevAddr>, a: DevAddr)
    requires ReadAll(d, srcs).1.Ok?
    ensures a in ReadAll(d, srcs).0.bound <==> a in d.bound || a in srcs
    decreases |srcs|
  {
    if srcs != [] {
      var n := |srcs| - 1;
      assert srcs == srcs[..n] + [srcs[n]];
      BoundAfterReads(d, srcs[..n], a);
    }
  }

  // ---- Programs whose read-backs are fresh ----

  /** A call that computes only into addresses with no stored bytes; a batch upload that fails midway
      is not one either. */
  predicate Clean(d: Device, call: Call, reply: Reply) {
    && (forall a :: a in Destinations(call) ==> a !in d.host)
    && (call.H2DMrp? ==> reply.Done?)
  }

  lemma {:induction false} BindAllCoherent(d: Device, dsts: seq<DevAddr>, vs: seq<Bytes>, base: seq<nat>)
    requires Coherent(d) && |vs| <= |dsts| && |vs| <= |base| && forall a :: a in dsts ==> a !in d.host
    ensures var d1 := BindAll(d, dsts, vs, base); Coherent(d1) && d1.host == d.host
    decreases |vs|
  {
    hide Coherent;
    if vs != [] {
      var n := |vs| - 1;
      BindAllCoherent(d, dsts, vs[..n], base);
      BindCoherent(BindAll(d, dsts, vs[..n], base), dsts[n], vs[n], base[n]);
    }
  }

  lemma StoreMrpCoherent(d: Device, dsts: seq<DevAddr>, vs: seq<Bytes>, base: seq<nat>)
    requires Coherent(d) && |vs| == |base| == |dsts| && forall a :: a in dsts ==> a !in d.host
    ensures var d1 := StoreMrp(d, dsts, vs, base); Coherent(d1) && d1.host == d.host
  {
    hide Register, BindAll;
    BindAllCoherent(d, dsts, vs, base);
    if |base| > 1 {
      RegisterMemory(BindAll(d, dsts, vs, base), dsts, base);
    }
  }

  lemma {:induction false} LiftCoherent(sem: Semantics, d: Device, dsts: seq<DevAddr>, vs: seq<Bytes>, srcBase: seq<nat>,
                                        digitBases: seq<nat>, digitLens: seq<nat>, pBase: seq<nat>, count: nat)
    requires count <= |digitLens| && Sum(digitLens) <= |digitBases| && |dsts| == |digitLens| * |srcBase + pBase|
    requires Coherent(d) && forall a :: a in dsts ==> a !in d.host
    ensures var d1 := LiftDigits(sem, d, dsts, vs, srcBase, digitBases, digitLens, pBase, count);
      Coherent(d1) && d1.host == d.host
    decreases count
  {
    hide Coherent, StoreMrp, Digit, Results;
    if count > 0 {
      var target := srcBase + pBase;
      var i := count - 1;
      LiftCoherent(sem, d, dsts, vs, srcBase, digitBases, digitLens, pBase, i);
      Stretch(i, |digitLens|, |target|);
      var d1 := LiftDigits(sem, d, dsts, vs, srcBase, digitBases, digitLens, pBase, i);
      StoreMrpCoherent(d1, dsts[i * |target|..(i + 1) * |target|],
                       Results(sem, OpCode("fast_base_convert", [], srcBase, Digit(digitBases, digitLens, i), 0), vs, target),
                       target);
    }
  }

  lemma MrpCoherent(sem: Semantics, d: Device, op: OpCode, dsts: seq<DevAddr>, srcs: seq<DevAddr>, base: seq<nat>)
    requires DeviceOk(d) && Coherent(d) && |dsts| == |base| && forall a :: a in dsts ==> a !in d.host
    ensures Coherent(MrpOp(sem, d, op, dsts, srcs, base).0)
  {
    hide MemoryOk, ClaimsOk, Coherent, ReadAll, StoreMrp, Mem;
    ReadAllStaysCoherent(d, srcs);
    ReadAllExact(d, srcs);
    var (d1, r) := ReadAll(d, srcs);
    if r.Ok? {
      StoreMrpCoherent(d1, dsts, Results(sem, op, r.value, base), base);
    }
  }

  lemma MrpCallCoherent(sem: Semantics, d: Device, call: Call)
    requires DeviceOk(d) && Coherent(d) && Lawful(d, call) && forall a :: a in Destinations(call) ==> a !in d.host
    requires call.BinaryMrp? || call.UnaryMrp? || call.BasisConvert? || call.ModDown? || call.ModUp?
    ensures Coherent(Step(sem, d, call).0)
  {
    hide MemoryOk, ClaimsOk, Coherent, MrpOp, LiftDigits, ReadAll, ValidateModDown, Without, Mem;
    match call {
      case BinaryMrp(name, dsts, srcs1, srcs2, base) =>
        MrpCoherent(sem, d, OpCode(name, [], base, base, 0), dsts, srcs1 + srcs2, base);
      case UnaryMrp(name, imm, dsts, srcs, base) =>
        MrpCoherent(sem, d, OpCode(name, imm, base, base, 0), dsts, srcs, base);
      case BasisConvert(dsts, srcs, srcBase, dstBase) =>
        MrpCoherent(sem, d, OpCode("fast_base_convert", [], srcBase, srcBase, 0), dsts, srcs, dstBase);
      case ModDown(dsts, srcs, srcBase, rescaleBase) =>
        MrpCoherent(sem, d, OpCode("rescale_fbc", [], srcBase, rescaleBase, 0), dsts, srcs, Without(srcBase, rescaleBase));
      case ModUp(dsts, srcs, srcBase, digitBases, digitLens, pBase) =>
        if ValidateModUp(srcBase, digitBases, digitLens, pBase).Success? {
          ReadAllStaysCoherent(d, srcs);
          ReadAllExact(d, srcs);
          var (d1, r) := ReadAll(d, srcs);
          if r.Ok? {
            LiftCoherent(sem, d1, dsts, r.value, srcBase, digitBases, digitLens, pBase, |digitLens|);
          }
        }
      case _ =>
    }
  }

  lemma CopyToCoherent(d: Device, dst: DevAddr, src: DevAddr, q: nat)
    requires DeviceOk(d) && Coherent(d) && dst !in d.host
    ensures var d1 := CopyTo(d, dst, src, q).0; Coherent(d1) && d1.host.Keys <= d.host.Keys
  {
    hide MemoryOk, ClaimsOk, Read, Mem;
    ReadStaysCoherent(d, src);
    ReadExact(d, src);
  }

  lemma {:induction false} CopyAllCoherent(d: Device, dsts: seq<DevAddr>, srcs: seq<DevAddr>, base: seq<nat>)
    requires DeviceOk(d) && Coherent(d) && |srcs| <= |dsts| && |srcs| <= |base|
    requires forall a :: a in dsts ==> a !in d.host
    ensures var d1 := CopyAll(d, dsts, srcs, base).0; Coherent(d1) && d1.host.Keys <= d.host.Keys
    decreases |srcs|
  {
    hide MemoryOk, ClaimsOk, Coherent, CopyTo, Mem;
    if srcs != [] {
      var n := |srcs| - 1;
      CopyAllCoherent(d, dsts, srcs[..n], base);
      CopyAllOk(d, dsts, srcs[..n], base);
      SameClaimsOk(d, CopyAll(d, dsts, srcs[..n], base).0);
      CopyToCoherent(CopyAll(d, dsts, srcs[..n], base).0, dsts[n], srcs[n], base[n]);
    }
  }

  lemma {:induction false} UploadAllElsewhere(d: Device, dsts: seq<DevAddr>, datas: seq<Bytes>, a: DevAddr)
    requires |datas| <= |dsts| && a !in dsts
    ensures var d1 := UploadAll(d, dsts, datas).0;
      (a in d1.host <==> a in d.host) && (a in d.host ==> d1.host[a] == d.host[a])
    decreases |datas|
  {
    if datas != [] {
      UploadAllElsewhere(d, dsts, datas[..|datas| - 1], a);
    }
  }

  lemma UploadsCoherent(d: Device, dsts: seq<DevAddr>, datas: seq<Bytes>)
    requires DeviceOk(d) && Coherent(d) && |datas| == |dsts| && UploadAll(d, dsts, datas).1.Success?
    ensures Coherent(TagInputs(UploadAll(d, dsts, datas).0, dsts).0)
  {
    hide MemoryOk, ClaimsOk, UploadAll, TagInputs;
    UploadAllOk(d, dsts, datas);
    var d1 := UploadAll(d, dsts, datas).0;
    SameClaimsOk(d, d1);
    TaggedInputs(d1, dsts);
    var d2 := TagInputs(d1, dsts).0;
    forall a | a in d2.host && a in d2.bound ensures d2.host[a] == d2.bound[a] {
      if a !in dsts {
        UploadAllElsewhere(d, dsts, datas, a);
      }
    }
  }

  lemma TransferCoherent(sem: Semantics, d: Device, call: Call)
    requires DeviceOk(d) && Coherent(d) && Lawful(d, call) && Clean(d, call, Step(sem, d, call).1)
    requires call.H2D? || call.H2DMrp? || call.D2D? || call.D2DMrp? || call.Memset?
    ensures Coherent(Step(sem, d, call).0)
  {
    hide MemoryOk, ClaimsOk, Upload, UploadAll, TagInput, TagInputs, CopyTo, CopyAll, Invalidate, Fill, Register, Mem, Coherent;
    match call {
      case H2D(dst, data) => UploadCoherent(sem, d, dst, data);
      case H2DMrp(dsts, datas) =>
        if dsts != [] && UploadAll(d, dsts, datas).1.Success? {
          UploadsCoherent(d, dsts, datas);
        }
      case D2D(dst, src, _) =>
        if dst != NULL {
          assert dst in Destinations(call);
          CopyToCoherent(d, dst, src, COPY_MODULUS);
        }
      case D2DMrp(dsts, srcs, base) =>
        CopyAllCoherent(d, dsts, srcs, base);
        if |base| > 1 {
          var d1 := CopyAll(d, dsts, srcs, base).0;
          RegisterMemory(d1, dsts, base);
          SameCoherent(d1, Register(d1, dsts, base));
        }
      case Memset(p, value, count) => FillCoherent(sem, d, p, value, count);
      case _ =>
    }
  }

  lemma SameCoherent(d: Device, d1: Device)
    requires Coherent(d) && d1.host == d.host && d1.bound == d.bound
    ensures Coherent(d1)
  {
  }

  lemma UploadCoherent(sem: Semantics, d: Device, dst: DevAddr, data: Bytes)
    requires DeviceOk(d) && Coherent(d)
    ensures Coherent(Step(sem, d, H2D(dst, data)).0)
  {
    hide MemoryOk, ClaimsOk, TagInput, Upload;
    UploadOk(d, dst, data);
    SameClaimsOk(d, Upload(d, dst, data).0);
    TagInputOk(Upload(d, dst, data).0, dst);
    if dst !in d.heap.live || |data| > d.heap.polyBytes {
      RefusedUpload(d, dst, data);
    }
  }

  lemma RefusedUpload(d: Device, dst: DevAddr, data: Bytes)
    requires dst !in d.heap.live || |data| > d.heap.polyBytes
    ensures Upload(d, dst, data).0 == d
  {
  }

  lemma FillCoherent(sem: Semantics, d: Device, p: DevAddr, value: int, count: nat)
    requires DeviceOk(d) && Coherent(d)
    ensures Coherent(Step(sem, d, Memset(p, value, count)).0)
  {
    hide MemoryOk, ClaimsOk, Invalidate, Upload, Fill;
    var data := Fill(value, count);
    UploadOk(d, p, data);
    SameClaimsOk(d, Upload(d, p, data).0);
    InvalidateOk(Upload(d, p, data).0, p);
    if p !in d.heap.live || |data| > d.heap.polyBytes {
      RefusedUpload(d, p, data);
    }
  }

  lemma ComputeOneCoherent(sem: Semantics, d: Device, call: Call)
    requires DeviceOk(d) && Coherent(d) && Lawful(d, call) && forall a :: a in Destinations(call) ==> a !in d.host
    requires call.Binary? || call.Unary? || call.Automorph?
    ensures Coherent(Step(sem, d, call).0)
  {
    hide MemoryOk, ClaimsOk, Coherent, ReadAll, Bind, Mem;
    if call.dst != NULL {
      assert call.dst in Destinations(call);
    }
    var srcs := SourcesOf(call);
    ReadAllStaysCoherent(d, srcs);
    ReadAllExact(d, srcs);
    forall v, q | call.dst !in d.host ensures Coherent(Bind(ReadAll(d, srcs).0, call.dst, v, q)) {
      BindCoherent(ReadAll(d, srcs).0, call.dst, v, q);
    }
  }

  lemma MemoryCoherent(sem: Semantics, d: Device, call: Call)
    requires DeviceOk(d) && Coherent(d) && Lawful(d, call)
    requires !(call.BinaryMrp? || call.UnaryMrp? || call.BasisConvert? || call.ModDown? || call.ModUp?)
    requires !(call.H2D? || call.H2DMrp? || call.D2D? || call.D2DMrp? || call.Memset?)
    requires !(call.Binary? || call.Unary? || call.Automorph?)
    ensures Coherent(Step(sem, d, call).0)
  {
    hide MemoryOk, ClaimsOk, FreeMany, AllocateMany, AllocateOne, Invalidate, InvalidateAll, TagOut, IsPowerOfTwo,
      SetPolynomialSize, Exported;
    match call {
      case Free(p) => InvalidateOk(d, p);
      case FreeMrp(ps) => InvalidateAllOk(d, ps);
      case TagOutput(p) => TagOutMemory(d, p);
      case _ =>
    }
  }

  /** Calls that compute only into addresses with no stored bytes keep every read-back fresh. */
  lemma StepCoherent(sem: Semantics, d: Device, call: Call)
    requires DeviceOk(d) && Coherent(d) && Lawful(d, call) && Clean(d, call, Step(sem, d, call).1)
    ensures Coherent(Step(sem, d, call).0)
  {
    hide DeviceOk, Coherent, Step, Lawful;
    if call.BinaryMrp? || call.UnaryMrp? || call.BasisConvert? || call.ModDown? || call.ModUp? {
      MrpCallCoherent(sem, d, call);
    } else if call.H2D? || call.H2DMrp? || call.D2D? || call.D2DMrp? || call.Memset? {
      TransferCoherent(sem, d, call);
    } else if call.Binary? || call.Unary? || call.Automorph? {
      ComputeOneCoherent(sem, d, call);
    } else {
      MemoryCoherent(sem, d, call);
    }
  }

  ghost predicate CleanRun(sem: Semantics, d: Device, calls: seq<Call>)
    requires forall i :: 0 <= i < |calls| ==> Shaped(calls[i])
  {
    forall i :: 0 <= i < |calls| ==>
      var before := Run(sem, d, calls[..i]).0; Clean(before, calls[i], Step(sem, before, calls[i]).1)
  }

  lemma CleanPrefix(sem: Semantics, d: Device, calls: seq<Call>)
    requires forall i :: 0 <= i < |calls| ==> Shaped(calls[i])
    requires CleanRun(sem, d, calls) && calls != []
    ensures CleanRun(sem, d, calls[..|calls| - 1])
    ensures var before := Run(sem, d, calls[..|calls| - 1]).0;
      Clean(before, calls[|calls| - 1], Step(sem, before, calls[|calls| - 1]).1)
  {
    hide Clean, Run, Step, Shaped;
    var front := calls[..|calls| - 1];
    forall i | 0 <= i < |front|
      ensures var before := Run(sem, d, front[..i]).0; Clean(before, front[i], Step(sem, before, front[i]).1)
    {
      assert front[..i] == calls[..i];
    }
  }

  /** In a program that never computes into an address with stored bytes, every read-back returns the
      current value or an error, at any point and across any number of epochs. */
  lemma {:induction false} CleanRunCoherent(sem: Semantics, d: Device, calls: seq<Call>)
    requires DeviceOk(d) && Coherent(d) && LawfulRun(sem, d, calls) && CleanRun(sem, d, calls)
    ensures Coherent(Run(sem, d, calls).0)
    decreases |calls|
  {
    hide DeviceOk, Coherent, Step, Lawful, Clean, CleanRun;
    if calls == [] {
    } else {
      var n := |calls| - 1;
      LawfulPrefix(sem, d, calls);
      CleanPrefix(sem, d, calls);
      CleanRunCoherent(sem, d, calls[..n]);
      RunOk(sem, d, calls[..n]);
      StepCoherent(sem, Run(sem, d, calls[..n]).0, calls[n]);
    }
  }

  // ---- When a computation leaves a stale read-back ----

  /** After a computation exactly the destinations that stay stored decide. */
  lemma ComputedCoherent(sem: Semantics, d: Device, call: Call)
    requires Coherent(d) && Shaped(call) && IsCompute(call) && Step(sem, d, call).1.Done?
    ensures var d1 := Step(sem, d, call).0; Coherent(d1) <==>
      forall a :: a in Destinations(call) && StaysStored(d, SourcesOf(call), a) ==>
        a in Mem(d1) && Mem(d1)[a] == d.host[a]
  {
    hide Step, ReadAll, Assign, ResultsOf, Shaped;
    ComputeExact(sem, d, call);
    ReadAllStaysCoherent(d, SourcesOf(call));
    var (before, r) := ReadAll(d, SourcesOf(call));
    var dsts, vs := Destinations(call), ResultsOf(sem, d.cfg, call, r.value);
    assert dsts[..|vs|] == dsts;
    AssignKeys(before.bound, dsts, vs);
    forall a ensures
      (a in before.host <==> StaysStored(d, SourcesOf(call), a)) && (a in before.host ==> before.host[a] == d.host[a])
    {
      LeftStoredExact(d, SourcesOf(call), a);
    }
  }

  lemma {:induction false} AssignSame(m: Memory, dsts: seq<DevAddr>, vs: seq<Bytes>, v: Bytes, a: DevAddr)
    requires |vs| == |dsts| && a in dsts && forall i :: 0 <= i < |vs| ==> vs[i] == v
    ensures a in Assign(m, dsts, vs) && Assign(m, dsts, vs)[a] == v
  {
    var m1 := Assign(m, dsts, vs);
    var n := |dsts| - 1;
    assert dsts == dsts[..n] + [dsts[n]];
    if a != dsts[n] {
      AssignSame(m, dsts[..n], vs[..n], v, a);
      AssignPrefix(m, dsts[..n], dsts, vs[..n]);
    }
  }

  /** Under an arithmetic with one result for everything, every destination gets it. */
  lemma ConstantResult(sem: Semantics, d: Device, call: Call, v: Bytes, a: DevAddr)
    requires Shaped(call) && IsCompute(call) && Step(sem, d, call).1.Done? && a in Destinations(call)
    requires forall op, args :: sem(op, args) == v
    ensures var d1 := Step(sem, d, call).0; a in Mem(d1) && Mem(d1)[a] == v
  {
    hide Step, ReadAll, Assign, Shaped, OpAt;
    ComputeExact(sem, d, call);
    var (before, r) := ReadAll(d, SourcesOf(call));
    var rs := ResultsOf(sem, d.cfg, call, r.value);
    forall i | 0 <= i < |rs| ensures rs[i] == v {
      assert rs[i] == sem(OpAt(d.cfg, call, i), r.value);
    }
    AssignSame(before.bound, Destinations(call), rs, v, a);
  }

  /** An arithmetic whose results are polynomials of n bytes. */
  ghost predicate Yields(sem: Semantics, n: nat) {
    forall op, args :: |sem(op, args)| == n
  }

  /** Bytes of the same length that differ from `v`. */
  function Flipped(v: Bytes): (w: Bytes)
    requires v != []
    ensures |w| == |v| && w != v
  {
    [if v[0] == 0 then 1 else 0] + v[1..]
  }

  /** "A read-back is fresh or an error" survives a computation, whatever polynomials it computes, exactly
      when none of its destinations still has stored bytes. For one arithmetic the destinations that do
      must be given the bytes that are stored. */
  lemma ComputeFreshness(sem: Semantics, d: Device, call: Call)
    requires DeviceOk(d) && Coherent(d) && Shaped(call) && IsCompute(call) && Step(sem, d, call).1.Done?
    ensures (forall s: Semantics :: Yields(s, d.heap.polyBytes) ==> Coherent(Step(s, d, call).0)) <==>
      forall a :: a in Destinations(call) ==> !StaysStored(d, SourcesOf(call), a)
    ensures (forall s: Semantics :: Coherent(Step(s, d, call).0)) <==>
      forall a :: a in Destinations(call) ==> !StaysStored(d, SourcesOf(call), a)
    ensures var d1 := Step(sem, d, call).0; Coherent(d1) <==>
      forall a :: a in Destinations(call) && StaysStored(d, SourcesOf(call), a) ==>
        a in Mem(d1) && Mem(d1)[a] == d.host[a]
  {
    hide DeviceOk, Coherent, Mem, Step, StaysStored, Shaped;
    ComputedCoherent(sem, d, call);
    if a :| a in Destinations(call) && StaysStored(d, SourcesOf(call), a) {
      StaysStoredIsStored(d, SourcesOf(call), a);
      var v := Flipped(d.host[a]);
      var other: Semantics := (_, _) => v;
      ReplyIgnoresSemantics(sem, other, d, call);
      ConstantResult(other, d, call, v, a);
      ComputedCoherent(other, d, call);
      assert Yields(other, d.heap.polyBytes) && !Coherent(Step(other, d, call).0);
    } else {
      forall s: Semantics ensures Coherent(Step(s, d, call).0) {
        ReplyIgnoresSemantics(sem, s, d, call);
        ComputedCoherent(s, d, call);
      }
    }
  }

  lemma StaysStoredIsStored(d: Device, srcs: seq<DevAddr>, a: DevAddr)
    requires DeviceOk(d) && StaysStored(d, srcs, a)
    ensures a in d.host && |d.host[a]| == d.heap.polyBytes > 0
  {
    hide HeapOk, ClaimsOk;
    PolyBytesPositive(d.heap, a);
  }

  // ---- When a copy does ----

  /** A copy keeps read-backs fresh exactly if its destination does not stay stored, or what is stored
      there is the copied value. */
  lemma CopyFreshness(sem: Semantics, d: Device, dst: DevAddr, src: DevAddr, count: nat)
    requires DeviceOk(d) && Coherent(d) && Step(sem, d, D2D(dst, src, count)).1.Done?
    ensures src in Mem(d)
    ensures Coherent(Step(sem, d, D2D(dst, src, count)).0) <==>
      !StaysStored(d, [src], dst) || d.host[dst] == Mem(d)[src]
  {
    hide HeapOk, ClaimsOk;
    ReadExact(d, src);
    ReadStored(d, src, dst);
    ReadStaysCoherent(d, src);
    var d1 := Read(d, src).0;
    var d2 := Step(sem, d, D2D(dst, src, count)).0;
    assert d2.host == d1.host && d2.bound == d1.bound[dst := Mem(d)[src]];
    if dst in d1.host {
      assert d2.bound[dst] == Mem(d)[src];
    }
  }

  /** `a` still has stored bytes after the copies: it has them now, and each time it is a source it has
      an epoch value already, its own or one copied to it before. */
  ghost predicate StaysStoredCopying(d: Device, dsts: seq<DevAddr>, srcs: seq<DevAddr>, a: DevAddr)
    requires |srcs| <= |dsts|
  {
    a in d.host && (a in d.bound || forall j :: 0 <= j < |srcs| && srcs[j] == a ==> a in dsts[..j])
  }

  /** Stored bytes and epoch values agree wherever both exist, except at `s`. */
  ghost predicate CoherentBut(d: Device, s: set<DevAddr>) {
    forall a :: a in d.host && a in d.bound && a !in s ==> d.host[a] == d.bound[a]
  }

  lemma CopyOne(d: Device, dst: DevAddr, src: DevAddr, q: nat, s: set<DevAddr>)
    requires CopyTo(d, dst, src, q).1.Success? && CoherentBut(d, s)
    ensures var d1 := CopyTo(d, dst, src, q).0;
      && CoherentBut(d1, s + {dst})
      && (forall a :: a in d1.host <==> a in d.host && (a in d.bound || a != src))
      && (forall a :: a in d1.host ==> d1.host[a] == d.host[a])
      && d1.bound.Keys == d.bound.Keys + {src, dst}
  {
    var d0 := Read(d, src).0;
    var d1 := CopyTo(d, dst, src, q).0;
    assert d1.host == d0.host;
    assert forall a :: a in d1.bound && a != dst ==> a in d0.bound && d1.bound[a] == d0.bound[a];
  }

  lemma {:induction false} CopiedStored(d: Device, dsts: seq<DevAddr>, srcs: seq<DevAddr>, base: seq<nat>)
    requires Coherent(d) && |srcs| <= |dsts| && |srcs| <= |base| && CopyAll(d, dsts, srcs, base).1.Success?
    ensures var d1 := CopyAll(d, dsts, srcs, base).0;
      && CoherentBut(d1, ToSet(dsts[..|srcs|]))
      && (forall a :: a in d1.host <==> StaysStoredCopying(d, dsts, srcs, a))
      && (forall a :: a in d1.host ==> d1.host[a] == d.host[a])
      && d1.bound.Keys == d.bound.Keys + ToSet(srcs) + ToSet(dsts[..|srcs|])
    decreases |srcs|
  {
    hide CopyTo, CoherentBut, Coherent;
    if srcs == [] {
      CoherentEverywhere(d);
      assert dsts[..0] == [];
      assert d.bound.Keys + ToSet(srcs) + ToSet(dsts[..0]) == d.bound.Keys;
    } else {
      var n := |srcs| - 1;
      CopiedStored(d, dsts, srcs[..n], base);
      var d1 := CopyAll(d, dsts, srcs[..n], base).0;
      CopyOne(d1, dsts[n], srcs[n], base[n], ToSet(dsts[..n]));
      assert srcs == srcs[..n] + [srcs[n]];
      assert dsts[..|srcs|] == dsts[..n] + [dsts[n]];
      ToSetSnoc(srcs[..n], srcs[n]);
      ToSetSnoc(dsts[..n], dsts[n]);
      assert ToSet(dsts[..|srcs|]) == ToSet(dsts[..n]) + {dsts[n]};
      forall a ensures a in CopyAll(d, dsts, srcs, base).0.host <==> StaysStoredCopying(d, dsts, srcs, a) {
        StaysOneMore(d, dsts, srcs, a);
      }
    }
  }

  lemma CoherentEverywhere(d: Device)
    requires Coherent(d)
    ensures CoherentBut(d, {}) && CoherentBut(d, ToSet([]))
  {
  }

  lemma StaysOneMore(d: Device, dsts: seq<DevAddr>, srcs: seq<DevAddr>, a: DevAddr)
    requires 0 < |srcs| <= |dsts|
    ensures var n := |srcs| - 1;
      StaysStoredCopying(d, dsts, srcs, a) <==>
        StaysStoredCopying(d, dsts, srcs[..n], a) && (a in d.bound || a in srcs[..n] || a in dsts[..n] || a != srcs[n])
  {
  }

  /** Residue-by-residue copies keep read-backs fresh exactly if every destination that stays stored
      holds already what the copies leave in it. */
  lemma CopiesFreshness(sem: Semantics, d: Device, dsts: seq<DevAddr>, srcs: seq<DevAddr>, base: seq<nat>)
    requires DeviceOk(d) && Coherent(d) && Shaped(D2DMrp(dsts, srcs, base))
    requires Step(sem, d, D2DMrp(dsts, srcs, base)).1.Done?
    ensures var m := CopySeq(Mem(d), dsts, srcs).0;
      Coherent(Step(sem, d, D2DMrp(dsts, srcs, base)).0) <==>
        forall a :: a in dsts && StaysStoredCopying(d, dsts, srcs, a) ==> a in m && m[a] == d.host[a]
  {
    hide MemoryOk, ClaimsOk, CopyAll, CopySeq, Register, StaysStoredCopying;
    CopyAllOk(d, dsts, srcs, base);
    CopiedStored(d, dsts, srcs, base);
    var d1 := CopyAll(d, dsts, srcs, base).0;
    if |base| > 1 {
      RegisterMemory(d1, dsts, base);
    }
    assert dsts[..|srcs|] == dsts;
    var d2 := Step(sem, d, D2DMrp(dsts, srcs, base)).0;
    assert d2.host == d1.host && d2.bound == d1.bound;
  }

  lemma RunSnoc(sem: Semantics, d: Device, calls: seq<Call>, call: Call)
    requires LawfulRun(sem, d, calls) && Lawful(Run(sem, d, calls).0, call)
    ensures LawfulRun(sem, d, calls + [call])
    ensures Run(sem, d, calls + [call]).0 == Step(sem, Run(sem, d, calls).0, call).0
  {
    hide Step, Lawful;
    assert (calls + [call])[..|calls|] == calls;
    LawfulSnoc(sem, d, calls, call);
  }

  lemma LawfulSnoc(sem: Semantics, d: Device, calls: seq<Call>, call: Call)
    requires LawfulRun(sem, d, calls) && Lawful(Run(sem, d, calls).0, call)
    ensures LawfulRun(sem, d, calls + [call])
  {
    hide Run, Step, Lawful, Shaped;
    var more := calls + [call];
    LawfulShaped(Run(sem, d, calls).0, call);
    forall i | 0 <= i < |more| ensures Lawful(Run(sem, d, more[..i]).0, more[i]) {
      assert more[..i] == if i < |calls| then calls[..i] else calls;
    }
  }

  lemma LawfulShaped(d: Device, call: Call)
    requires Lawful(d, call)
    ensures Shaped(call)
  {
  }

  const A8: DevAddr := HBM_BASE
  const SIZED := RESET.(cfg := Settings(1, [3], false), heap := Heap({}, [], A8, 8, A8, 0))
  const HOLDING := SIZED.(heap := Heap({A8}, [], A8 + 8, 8, A8, 1))
  const UPLOADED := HOLDING.(host := map[A8 := Zeros(8)], bound := map[A8 := Zeros(8)])

  lemma SizedSteps(sem: Semantics)
    ensures var d := Step(sem, RESET, SetRingDimension(1)).0;
      d.heap.live == {} && Step(sem, d, SetModulus(0, 3)).0 == SIZED
  {
    assert ToSet(EMPTY.pool) == {};
    assert EMPTY.live - {} == {};
    assert [] + [3] == [3];
  }

  lemma UploadedSteps(sem: Semantics)
    ensures Step(sem, SIZED, Malloc(8)).0 == HOLDING
    ensures Step(sem, HOLDING, H2D(A8, Zeros(8))).0 == UPLOADED
  {
    assert {} + {A8} == {A8};
    assert Overlay(Zeros(8), Staged(map[], A8, 8)) == Zeros(8);
    assert map[][A8 := Zeros(8)] == map[A8 := Zeros(8)];
    assert {} - {A8} == {};
  }

  /** The scalar addition of 1 to an all-zero polynomial, which is not all zeros. */
  const ADD_ONE := OpCode("addps", [1], [], [], 3)

  /** Zeros were uploaded and 1 was added in place. */
  function Stale(sem: Semantics): Device {
    Step(sem, UPLOADED, Unary("addps", [1], A8, A8, 0)).0
  }

  lemma StaleSteps(sem: Semantics)
    ensures var d := Stale(sem);
      && d.host == map[A8 := Zeros(8)] && d.tags == {} && d.groups == map[] && d.heap == HOLDING.heap && A8 in d.bound
      && Step(sem, d, D2H(A8, 8)).1 == Data(Zeros(8))
      && A8 in Mem(d) && Mem(d)[A8] == sem(ADD_ONE, [Zeros(8)])
  {
    assert [A8][..0] == [];
    assert ReadAll(UPLOADED, []) == (UPLOADED, Ok([]));
    assert [] + [Zeros(8)] == [Zeros(8)];
    assert ReadAll(UPLOADED, [A8]) == (UPLOADED, Ok([Zeros(8)]));
    assert Zeros(8)[..8] == Zeros(8);
  }

  /** A program that reads back stale bytes under every arithmetic in which adding 1 to zeros does not
      give zeros: upload zeros, add 1 in place, download. */
  lemma StaleReadBack(sem: Semantics) returns (calls: seq<Call>)
    requires sem(ADD_ONE, [Zeros(8)]) != Zeros(8)
    ensures LawfulRun(sem, RESET, calls) && Run(sem, RESET, calls).0 == Stale(sem)
    ensures var d := Run(sem, RESET, calls).0;
      && Step(sem, d, D2H(A8, 8)).1 == Data(Zeros(8))
      && A8 in Mem(d) && Mem(d)[A8] == sem(ADD_ONE, [Zeros(8)]) && Mem(d)[A8] != Zeros(8)
  {
    hide Step, Run, Mem;
    var c0, c1, c2, c3, c4 :=
      SetRingDimension(1), SetModulus(0, 3), Malloc(8), H2D(A8, Zeros(8)), Unary("addps", [1], A8, A8, 0);
    SizedSteps(sem);
    UploadedSteps(sem);
    StaleSteps(sem);
    RunNothing(sem);
    RunSnoc(sem, RESET, [], c0);
    RunSnoc(sem, RESET, [] + [c0], c1);
    RunSnoc(sem, RESET, [] + [c0] + [c1], c2);
    RunSnoc(sem, RESET, [] + [c0] + [c1] + [c2], c3);
    RunSnoc(sem, RESET, [] + [c0] + [c1] + [c2] + [c3], c4);
    calls := [] + [c0] + [c1] + [c2] + [c3] + [c4];
  }

  /** How a flush can fail without having stored anything. */
  predicate Fails(env: BackendOutcome) {
    match env
    case Interrupted(stored, fault) => stored == {} && fault != NotLive
    case Replayed => false
    case FormatRejected => false
    case _ => true
  }

  /** The same program, tagged for export, reads back the stale bytes after a failing flush too, whichever
      way the flush fails; its failure was to let none surface. */
  lemma StaleAfterFailedFlush(sem: Semantics, env: BackendOutcome) returns (calls: seq<Call>)
    requires sem(ADD_ONE, [Zeros(8)]) != Zeros(8) && Fails(env)
    ensures LawfulRun(sem, RESET, calls) && LawfulRun(sem, RESET, calls + [Flush(env)])
    ensures var d := Run(sem, RESET, calls).0;
      && A8 in d.tags && A8 in Mem(d) && Mem(d)[A8] == sem(ADD_ONE, [Zeros(8)]) && Mem(d)[A8] != Zeros(8)
      && Step(sem, d, Flush(env)).1.Failed?
    ensures var flushed := Run(sem, RESET, calls + [Flush(env)]).0;
      Step(sem, flushed, D2H(A8, 8)).1 == Data(Zeros(8))
  {
    hide Step, Run, Mem, DeviceOk, Lawful, Stale;
    var before := StaleReadBack(sem);
    var tag := TagOutput(A8);
    TaggedStale(sem, env);
    RunSnoc(sem, RESET, before, tag);
    calls := before + [tag];
    RunSnoc(sem, RESET, calls, Flush(env));
    ResetOk();
    RunOk(sem, RESET, calls);
    MissedReadBack(sem, Run(sem, RESET, calls).0, env, A8, 8);
  }

  lemma TaggedStale(sem: Semantics, env: BackendOutcome)
    requires Fails(env)
    ensures Lawful(Stale(sem), TagOutput(A8))
    ensures var d := Step(sem, Stale(sem), TagOutput(A8)).0;
      && d.tags == {A8} && A8 in Mem(d) && Mem(d)[A8] == sem(ADD_ONE, [Zeros(8)])
      && Lawful(d, Flush(env)) && Step(sem, d, Flush(env)).1.Failed?
      && Step(sem, d, D2H(A8, 8)).1 == Data(Zeros(8))
  {
    hide Stale, Step, Lawful, Mem;
    StaleSteps(sem);
    TagAlone(sem, Stale(sem), A8);
    FlushFails(sem, Step(sem, Stale(sem), TagOutput(A8)).0, A8, env);
  }

  /** Tagging a bound address of no group changes nothing but the tags. */
  lemma TagAlone(sem: Semantics, d: Device, a: DevAddr)
    requires a != NULL && a in d.bound && d.groups == map[] && d.tags == {}
    ensures Lawful(d, TagOutput(a))
    ensures var d1 := Step(sem, d, TagOutput(a)).0;
      d1.tags == {a} && d1.heap == d.heap && Mem(d1) == Mem(d) && Step(sem, d1, D2H(a, 8)).1 == Step(sem, d, D2H(a, 8)).1
  {
    assert LeadersOf(map[], a) == {};
  }

  lemma FlushFails(sem: Semantics, d: Device, a: DevAddr, env: BackendOutcome)
    requires Fails(env) && d.tags == {a} && a in d.heap.live
    ensures Lawful(d, Flush(env)) && Step(sem, d, Flush(env)).1.Failed?
  {
    hide Exported;
  }

  lemma RunNothing(sem: Semantics)
    ensures LawfulRun(sem, RESET, []) && Run(sem, RESET, []).0 == RESET
  {
  }
}
