/** Which errors a client can see: no lawful run is told that the library has broken its own rules. */
module ErrorReplies {
  import opened Types
  import opened Trace
  import opened HeapModel
  import opened Allocator
  import opened Configuration
  import opened DeviceModel
  import opened DeviceInvariant
  import R = RecorderModel
  import opened RecorderLaws
  import opened Refinement

  /** The errors that stand for a broken invariant of the library. */
  predicate Broken(e: Error) {
    e == ShadowSizeMismatch || e == PoolMapDesync || e == MissingPolyMapBinding || e == MrpGroupAddrModuliMismatch
  }

  /** The errors that the client sees as an internal one: those, and the failures of the back end. */
  predicate Internal(e: Error) {
    Broken(e) || e == BackendReplayFailed || e == BridgeHookFailed || e == BackendOutputMissing ||
    e == BackendOutputDecodeFailed
  }

  /** A call that ends an epoch with something to export while the back end fails. */
  predicate BackendFails(d: Device, call: Call) {
    && (d.tags != {} || d.promoted != {})
    && match call
       case Flush(env) =>
         env.StopFailed? || env.HookFailed? || env.ReplayFailed? || (env.Interrupted? && !env.fault.NotLive?)
       case WriteProgram(env) => env.StopFailed? || env.HookFailed?
       case _ => false
  }

  predicate InternalReply(reply: Reply) {
    reply.Failed? && Internal(reply.error)
  }

  // ---- Values ----

  lemma ReadClean(d: Device, a: DevAddr)
    requires MemoryOk(d)
    ensures Read(d, a).1.Err? ==> !Internal(Read(d, a).1.error)
  {
    hide HeapOk;
    if a in d.host {
      PolyBytesPositive(d.heap, a);
    }
  }

  lemma {:induction false} ReadAllClean(d: Device, srcs: seq<DevAddr>)
    requires MemoryOk(d)
    ensures ReadAll(d, srcs).1.Err? ==> !Internal(ReadAll(d, srcs).1.error)
    decreases |srcs|
  {
    hide MemoryOk, Read, Internal;
    if srcs != [] {
      var n := |srcs| - 1;
      ReadAllClean(d, srcs[..n]);
      ReadAllExact(d, srcs[..n]);
      ReadClean(ReadAll(d, srcs[..n]).0, srcs[n]);
    }
  }

  lemma CopyToClean(d: Device, dst: DevAddr, src: DevAddr, q: nat)
    requires MemoryOk(d)
    ensures CopyTo(d, dst, src, q).1.Failure? ==> !Internal(CopyTo(d, dst, src, q).1.error)
  {
    hide MemoryOk, Read, Internal;
    ReadClean(d, src);
  }

  lemma {:induction false} CopyAllClean(d: Device, dsts: seq<DevAddr>, srcs: seq<DevAddr>, base: seq<nat>)
    requires MemoryOk(d) && |srcs| <= |dsts| && |srcs| <= |base|
    ensures CopyAll(d, dsts, srcs, base).1.Failure? ==> !Internal(CopyAll(d, dsts, srcs, base).1.error)
    decreases |srcs|
  {
    hide MemoryOk, CopyTo, Internal;
    if srcs != [] {
      var n := |srcs| - 1;
      CopyAllClean(d, dsts, srcs[..n], base);
      CopyAllOk(d, dsts, srcs[..n], base);
      CopyToClean(CopyAll(d, dsts, srcs[..n], base).0, dsts[n], srcs[n], base[n]);
    }
  }

  lemma TagInputClean(d: Device, a: DevAddr)
    requires DeviceOk(d)
    ensures TagInput(d, a).1.Failure? ==> !Internal(TagInput(d, a).1.error)
  {
    hide HeapOk, ClaimsOk;
    if a in d.host {
      PolyBytesPositive(d.heap, a);
    }
  }

  lemma {:induction false} TagInputsClean(d: Device, addrs: seq<DevAddr>)
    requires DeviceOk(d)
    ensures TagInputs(d, addrs).1.Failure? ==> !Internal(TagInputs(d, addrs).1.error)
    decreases |addrs|
  {
    hide DeviceOk, TagInput, Internal;
    if addrs != [] {
      var n := |addrs| - 1;
      TagInputsClean(d, addrs[..n]);
      TagInputsOk(d, addrs[..n]);
      TagInputClean(TagInputs(d, addrs[..n]).0, addrs[n]);
    }
  }

  lemma {:induction false} UploadAllClean(d: Device, dsts: seq<DevAddr>, datas: seq<Bytes>)
    requires |datas| <= |dsts|
    ensures UploadAll(d, dsts, datas).1.Failure? ==> !Internal(UploadAll(d, dsts, datas).1.error)
    decreases |datas|
  {
    if datas != [] {
      UploadAllClean(d, dsts, datas[..|datas| - 1]);
    }
  }

  lemma {:induction false} ReadAllStoredClean(d: Device, srcs: seq<DevAddr>, count: nat)
    ensures var r := ReadAllStored(d.heap.live, d.host, d.heap.polyBytes, srcs, count);
      r.Err? ==> !Internal(r.error)
    decreases |srcs|
  {
    if srcs != [] {
      ReadAllStoredClean(d, srcs[..|srcs| - 1], count);
    }
  }

  lemma {:induction false} FreeManyClean(h: Heap, addrs: seq<DevAddr>)
    ensures FreeMany(h, addrs).1.Failure? ==> FreeMany(h, addrs).1.error == UnknownAddress
    decreases |addrs|
  {
    if addrs != [] {
      FreeManyClean(if addrs[0] == NULL then h else FreeOne(h, addrs[0]).0, addrs[1..]);
    }
  }

  lemma {:induction false} GrabError(h: Heap, count: nat, taken: seq<DevAddr>)
    ensures Grab(h, count, taken).1.Err? ==> Grab(h, count, taken).1.error == PoolMapDesync
    decreases count
  {
    if count > 0 {
      var (h1, a) := AllocateOne(h);
      if a.Ok? {
        GrabError(h1, count - 1, taken + [a.value]);
      }
    }
  }

  // ---- Calls ----

  lemma MemoryCallClean(sem: Semantics, d: Device, call: Call)
    requires DeviceOk(d) && (call.Malloc? || call.MallocMrp? || call.Free? || call.FreeMrp?)
    ensures !InternalReply(Step(sem, d, call).1)
  {
    hide DeviceOk, FreeMany, Invalidate, InvalidateAll, Grab;
    match call {
      case Malloc(size) => AllocationSafe(sem, d, call);
      case MallocMrp(count, size) =>
        AllocationSafe(sem, d, call);
        GrabError(d.heap, count, []);
      case Free(p) => FreeManyClean((if p == NULL then d else Invalidate(d, p)).heap, [p]);
      case FreeMrp(ps) => FreeManyClean(InvalidateAll(d, ps).heap, ps);
      case _ =>
    }
  }

  lemma TransferCallClean(sem: Semantics, d: Device, call: Call)
    requires DeviceOk(d) && Shaped(call)
    requires call.H2D? || call.H2DMrp? || call.D2H? || call.D2HMrp? || call.D2D? || call.D2DMrp? || call.Memset?
    ensures !InternalReply(Step(sem, d, call).1)
  {
    hide MemoryOk, ClaimsOk, UploadAll, TagInput, TagInputs, CopyTo, CopyAll, ReadAllStored, Register, Invalidate, WriteFront;
    match call {
      case H2D(dst, data) =>
        UploadOk(d, dst, data);
        SameClaimsOk(d, Upload(d, dst, data).0);
        TagInputClean(Upload(d, dst, data).0, dst);
      case H2DMrp(dsts, datas) =>
        UploadAllOk(d, dsts, datas);
        SameClaimsOk(d, UploadAll(d, dsts, datas).0);
        UploadAllClean(d, dsts, datas);
        TagInputsClean(UploadAll(d, dsts, datas).0, dsts);
      case D2HMrp(srcs, count) => ReadAllStoredClean(d, srcs, count);
      case D2D(dst, src, _) => CopyToClean(d, dst, src, COPY_MODULUS);
      case D2DMrp(dsts, srcs, base) => CopyAllClean(d, dsts, srcs, base);
      case _ =>
    }
  }

  lemma ComputeCallClean(sem: Semantics, d: Device, call: Call)
    requires DeviceOk(d) && Shaped(call)
    requires call.Binary? || call.Unary? || call.Automorph? || call.BinaryMrp? || call.UnaryMrp? || call.BasisConvert? ||
             call.ModDown? || call.ModUp?
    ensures !InternalReply(Step(sem, d, call).1)
  {
    hide MemoryOk, ClaimsOk, ReadAll, Bind, StoreMrp, LiftDigits, Results, Without;
    match call {
      case Binary(_, _, src1, src2, _) => ReadAllClean(d, [src1, src2]);
      case Unary(_, _, _, src, _) => ReadAllClean(d, [src]);
      case Automorph(_, _, _, src) => ReadAllClean(d, [src]);
      case BinaryMrp(_, _, srcs1, srcs2, _) => ReadAllClean(d, srcs1 + srcs2);
      case UnaryMrp(_, _, _, srcs, _) => ReadAllClean(d, srcs);
      case BasisConvert(_, srcs, _, _) => ReadAllClean(d, srcs);
      case ModDown(_, srcs, _, _) => ReadAllClean(d, srcs);
      case ModUp(_, srcs, _, _, _, _) => ReadAllClean(d, srcs);
    }
  }

  lemma ControlCallClean(sem: Semantics, d: Device, call: Call)
    requires Lawful(d, call)
    requires call.TagOutput? || call.Flush? || call.WriteProgram? || call.SetRingDimension? || call.SetModulus? ||
             call.ConfigureDevice? || call.DeviceReset?
    ensures InternalReply(Step(sem, d, call).1) <==> BackendFails(d, call)
    ensures Step(sem, d, call).1.Failed? ==> !Broken(Step(sem, d, call).1.error)
  {
    hide Exported, IsPowerOfTwo, SetPolynomialSize, LeadersOf;
  }

  /** A lawful call is answered with an internal error exactly if it ends an epoch that has something to
      export while the back end fails, and never because the library broke its own rules. */
  lemma InternalExactly(sem: Semantics, d: Device, call: Call)
    requires DeviceOk(d) && Lawful(d, call)
    ensures InternalReply(Step(sem, d, call).1) <==> BackendFails(d, call)
    ensures Step(sem, d, call).1.Failed? ==> !Broken(Step(sem, d, call).1.error)
  {
    hide DeviceOk, Step, Lawful;
    LawfulIsShaped(d, call);
    match call {
      case Malloc(_) => MemoryCallClean(sem, d, call);
      case MallocMrp(_, _) => MemoryCallClean(sem, d, call);
      case Free(_) => MemoryCallClean(sem, d, call);
      case FreeMrp(_) => MemoryCallClean(sem, d, call);
      case H2D(_, _) => TransferCallClean(sem, d, call);
      case H2DMrp(_, _) => TransferCallClean(sem, d, call);
      case D2H(_, _) => TransferCallClean(sem, d, call);
      case D2HMrp(_, _) => TransferCallClean(sem, d, call);
      case D2D(_, _, _) => TransferCallClean(sem, d, call);
      case D2DMrp(_, _, _) => TransferCallClean(sem, d, call);
      case Memset(_, _, _) => TransferCallClean(sem, d, call);
      case Binary(_, _, _, _, _) => ComputeCallClean(sem, d, call);
      case Unary(_, _, _, _, _) => ComputeCallClean(sem, d, call);
      case Automorph(_, _, _, _) => ComputeCallClean(sem, d, call);
      case BinaryMrp(_, _, _, _, _) => ComputeCallClean(sem, d, call);
      case UnaryMrp(_, _, _, _, _) => ComputeCallClean(sem, d, call);
      case BasisConvert(_, _, _, _) => ComputeCallClean(sem, d, call);
      case ModDown(_, _, _, _) => ComputeCallClean(sem, d, call);
      case ModUp(_, _, _, _, _, _) => ComputeCallClean(sem, d, call);
      case _ => ControlCallClean(sem, d, call);
    }
  }

  lemma LawfulIsShaped(d: Device, call: Call)
    requires Lawful(d, call)
    ensures Shaped(call)
  {
  }

  // ---- Runs ----

  lemma {:induction false} RunClean(sem: Semantics, d: Device, calls: seq<Call>, i: nat)
    requires DeviceOk(d) && LawfulRun(sem, d, calls) && i < |calls|
    ensures var replies := Run(sem, d, calls).1;
      && |replies| == |calls|
      && (InternalReply(replies[i]) <==> BackendFails(Run(sem, d, calls[..i]).0, calls[i]))
      && (replies[i].Failed? ==> !Broken(replies[i].error))
    decreases |calls|
  {
    hide DeviceOk, Step, Lawful, InternalReply, BackendFails, Broken;
    var n := |calls| - 1;
    LawfulPrefix(sem, d, calls);
    RepliesCounted(sem, d, calls[..n]);
    if i == n {
      RunOk(sem, d, calls[..n]);
      InternalExactly(sem, Run(sem, d, calls[..n]).0, calls[n]);
    } else {
      RunClean(sem, d, calls[..n], i);
      assert calls[..n][..i] == calls[..i];
    }
  }

  lemma {:induction false} RepliesCounted(sem: Semantics, d: Device, calls: seq<Call>)
    requires forall i :: 0 <= i < |calls| ==> Shaped(calls[i])
    ensures |Run(sem, d, calls).1| == |calls|
    decreases |calls|
  {
    hide Step;
    if calls != [] {
      RepliesCounted(sem, d, calls[..|calls| - 1]);
    }
  }

  /** In no lawful program does the recording library report a broken invariant, and it reports an
      internal error exactly where the back end fails at the end of an epoch with something to export. */
  lemma LibraryNeverBroken(sem: Semantics, calls: seq<Call>, i: nat)
    requires LawfulRun(sem, RESET, calls) && i < |calls|
    ensures var replies := R.ActAll(sem, FRESH, calls).1;
      && |replies| == |calls|
      && (InternalReply(replies[i]) <==> BackendFails(Run(sem, RESET, calls[..i]).0, calls[i]))
      && (replies[i].Failed? ==> !Broken(replies[i].error))
  {
    hide RecorderOk, DeviceOk, InternalReply, BackendFails, Broken;
    FreshRefines(sem);
    RunRefines(sem, FRESH, calls);
    ResetOk();
    RunClean(sem, RESET, calls, i);
  }
}
