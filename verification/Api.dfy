/**
 The calls a client makes, over the epoch state and the allocator, and whole programs of them.
 Each method is proved to be one step of the recorder; Execute and ExecuteAll tie them to the
 machine that computes at once.
 */
module Api {
  import opened Types
  import opened Trace
  import opened HeapModel
  import opened Allocator
  import opened Configuration
  import opened DeviceModel
  import opened Backend
  import R = RecorderModel
  import opened RecorderModel
  import opened RecorderLaws
  import opened RecorderTableLaws
  import opened Refinement
  import opened Epoch
  import P = Polymap
  import BasisConversion

  // ---- Memory ----

  /** `ptr` says whether the caller gave a place for the address. */
  method HazeMalloc(e: EpochState, ptr: bool, size: nat) returns (reply: Reply)
    requires e.Valid()
    modifies e.alloc
    ensures e.Valid()
    ensures (e.View(), reply) ==
      if !ptr then (old(e.View()), Failed(InvalidArgument)) else Act(e.backend.sem, old(e.View()), Malloc(size))
  {
    if !ptr {
      return Failed(InvalidArgument);
    }
    var result := e.alloc.Allocate(size);
    match result
    case Ok(addr) => return Address(addr);
    case Err(error) => return Failed(error);
  }

  /** `ptrs` says whether the caller gave an array for the addresses; that is checked first. */
  method HazeMallocMrp(e: EpochState, ptrs: bool, count: nat, size: nat) returns (reply: Reply)
    requires e.Valid()
    modifies e.alloc
    ensures e.Valid()
    ensures (e.View(), reply) ==
      if !ptrs then (old(e.View()), Failed(InvalidArgument)) else Act(e.backend.sem, old(e.View()), MallocMrp(count, size))
  {
    if !ptrs {
      return Failed(InvalidArgument);
    }
    if count > MAX_CIPHERTEXT_MODULI {
      return Failed(InvalidArgument);
    }
    var result := e.alloc.AllocateMany(count, size);
    match result
    case Ok(addrs) => return Addresses(addrs);
    case Err(error) => return Failed(error);
  }

  method HazeFree(e: EpochState, p: DevAddr) returns (reply: Reply)
    requires e.Valid() && RecorderOk(e.View())
    modifies e, e.alloc
    ensures e.Valid() && (e.View(), reply) == Act(e.backend.sem, old(e.View()), Free(p))
  {
    hide CoreOk, FreeMany, InvalidateAddr;
    if p != NULL {
      e.Invalidate(p);
    }
    var freed := e.alloc.Free(p);
    return ReplyOf(freed);
  }

  method HazeFreeMrp(e: EpochState, ptrs: Pointer<seq<DevAddr>>) returns (reply: Reply)
    requires e.Valid() && RecorderOk(e.View())
    modifies e, e.alloc
    ensures e.Valid()
    ensures (e.View(), reply) ==
      if ptrs.Null? then (old(e.View()), Failed(InvalidArgument))
      else Act(e.backend.sem, old(e.View()), FreeMrp(ptrs.target))
  {
    hide RecorderOk, FreeMany, InvalidateAddr;
    if ptrs.Null? {
      return Failed(InvalidArgument);
    }
    var ps := ptrs.target;
    if |ps| > MAX_CIPHERTEXT_MODULI {
      return Failed(InvalidArgument);
    }
    ghost var r := e.View();
    for i := 0 to |ps|
      invariant e.Valid() && RecorderOk(e.View()) && e.View() == InvalidateAddrs(r, ps[..i])
    {
      assert ps[..i + 1][..i] == ps[..i];
      if ps[i] != NULL {
        InvalidateRefines(e.backend.sem, e.View(), ps[i]);
        IndexIsOk(e.View());
        e.Invalidate(ps[i]);
      }
    }
    assert ps[..|ps|] == ps;
    var freed := e.alloc.FreeMany(ps);
    return ReplyOf(freed);
  }

  lemma IndexIsOk(r: Recorder)
    requires RecorderOk(r)
    ensures GroupIndex.IndexOk(r.table)
  {
  }

  // ---- Transfers ----

  method HazeMemcpyH2D(e: EpochState, dst: DevAddr, src: Pointer<Bytes>) returns (reply: Reply)
    requires e.Valid()
    modifies e, e.alloc, e.backend
    ensures e.Valid()
    ensures (e.View(), reply) ==
      if src.Null? then (old(e.View()), Failed(InvalidArgument))
      else Act(e.backend.sem, old(e.View()), H2D(dst, src.target))
  {
    hide CopyIn, TagH2DInput;
    if dst == NULL || src.Null? {
      return Failed(InvalidArgument);
    }
    var h2d := P.CopyInOne(e, dst, src.target);
    if h2d.Failure? {
      return ReplyOf(h2d);
    }
    e.OpenSession();
    var tagged := e.TagH2DInput(dst);
    return ReplyOf(tagged);
  }

  method HazeMemcpyMrpH2D(e: EpochState, dsts: seq<DevAddr>, datas: seq<Bytes>) returns (reply: Reply)
    requires e.Valid() && Shaped(H2DMrp(dsts, datas))
    modifies e, e.alloc, e.backend
    ensures e.Valid() && (e.View(), reply) == Act(e.backend.sem, old(e.View()), H2DMrp(dsts, datas))
  {
    hide CopyInAll, TagH2DInputs;
    if dsts == [] {
      return Failed(InvalidArgument);
    }
    var copied := P.CopyH2DMrp(e, dsts, datas);
    return ReplyOf(copied);
  }

  /** `dst` says whether the caller gave a place to copy to. */
  method HazeMemcpyD2H(e: EpochState, dst: bool, src: DevAddr, count: nat) returns (reply: Reply)
    requires e.Valid()
    ensures (e.View(), reply) ==
      if !dst then (e.View(), Failed(InvalidArgument)) else Act(e.backend.sem, e.View(), D2H(src, count))
  {
    if !dst || src == NULL {
      return Failed(InvalidArgument);
    }
    var d2h := e.alloc.CopyToHost(dst, src, count);
    match d2h
    case Ok(bytes) => return Data(bytes);
    case Err(error) => return Failed(error);
  }

  method HazeMemcpyMrpD2H(e: EpochState, srcs: seq<DevAddr>, count: nat) returns (reply: Reply)
    requires e.Valid()
    ensures (e.View(), reply) == Act(e.backend.sem, e.View(), D2HMrp(srcs, count))
  {
    if srcs == [] {
      return Failed(InvalidArgument);
    }
    var d2h := P.CopyToHostMrp(e.alloc, srcs, count);
    match d2h
    case Ok(residues) => return DataMrp(residues);
    case Err(error) => return Failed(error);
  }

  method HazeMemcpyD2D(e: EpochState, dst: DevAddr, src: DevAddr, count: nat) returns (reply: Reply)
    requires e.Valid()
    modifies e, e.alloc, e.backend
    ensures e.Valid() && (e.View(), reply) == Act(e.backend.sem, old(e.View()), D2D(dst, src, count))
  {
    hide CopyResult, Act;
    CopyCall(e.backend.sem, e.View(), dst, src, count);
    if dst == NULL || src == NULL {
      return Failed(InvalidArgument);
    }
    e.OpenSession();
    var copied := e.CopyResult(dst, src, COPY_MODULUS);
    return ReplyOf(copied);
  }

  lemma CopyCall(sem: Semantics, r: Recorder, dst: DevAddr, src: DevAddr, count: nat)
    ensures Act(sem, r, D2D(dst, src, count)) ==
      if dst == NULL || src == NULL then (r, Failed(InvalidArgument))
      else (CopyResult(Open(r), dst, src, COPY_MODULUS).0, ReplyOf(CopyResult(Open(r), dst, src, COPY_MODULUS).1))
  {
    hide CopyResult;
  }

  method HazeMemcpyMrpD2D(e: EpochState, dsts: seq<DevAddr>, srcs: seq<DevAddr>, base: seq<nat>) returns (reply: Reply)
    requires e.Valid() && RecorderOk(e.View()) && Shaped(D2DMrp(dsts, srcs, base))
    modifies e, e.alloc, e.backend
    ensures e.Valid() && (e.View(), reply) == Act(e.backend.sem, old(e.View()), D2DMrp(dsts, srcs, base))
  {
    hide RecorderOk, CopyResults, GroupUp;
    if base == [] {
      return Failed(InvalidArgument);
    }
    Session(e);
    var copied := P.CopyDeviceToDeviceMrp(e, dsts, srcs, base);
    return ReplyOf(copied);
  }

  /** Opens a session; what holds of the recorder still does. */
  method Session(e: EpochState)
    requires e.Valid() && RecorderOk(e.View())
    modifies e`recording, e.backend`initialized
    ensures e.Valid() && e.View() == Open(old(e.View())) && RecorderOk(e.View())
  {
    hide CoreOk;
    OpenRefines(e.backend.sem, e.View());
    e.OpenSession();
  }

  method HazeMemset(e: EpochState, p: DevAddr, value: int, count: nat) returns (reply: Reply)
    requires e.Valid() && RecorderOk(e.View())
    modifies e, e.alloc
    ensures e.Valid() && (e.View(), reply) == Act(e.backend.sem, old(e.View()), Memset(p, value, count))
  {
    hide CoreOk, InvalidateAddr, WriteFront, Fill;
    if p == NULL {
      return Failed(InvalidArgument);
    }
    var filled := e.alloc.Memset(p, value, count);
    if filled.Failure? {
      return ReplyOf(filled);
    }
    e.Invalidate(p);
    return Done;
  }

  // ---- Arithmetic on one residue ----

  method HazeBinary(e: EpochState, name: string, dst: DevAddr, src1: DevAddr, src2: DevAddr, modIdx: int)
    returns (reply: Reply)
    requires e.Valid()
    modifies e, e.alloc, e.backend
    ensures e.Valid()
    ensures (e.View(), reply) == Act(e.backend.sem, old(e.View()), DeviceModel.Binary(name, dst, src1, src2, modIdx))
  {
    hide R.Binary;
    if dst == NULL || src1 == NULL || src2 == NULL {
      return Failed(InvalidArgument);
    }
    e.OpenSession();
    var computed := P.Binary(e, name, dst, src1, src2, modIdx);
    return ReplyOf(computed);
  }

  method HazeUnary(e: EpochState, name: string, imm: seq<nat>, dst: DevAddr, src: DevAddr, modIdx: int)
    returns (reply: Reply)
    requires e.Valid()
    modifies e, e.alloc, e.backend
    ensures e.Valid()
    ensures (e.View(), reply) == Act(e.backend.sem, old(e.View()), DeviceModel.Unary(name, imm, dst, src, modIdx))
  {
    hide R.Unary;
    if dst == NULL || src == NULL {
      return Failed(InvalidArgument);
    }
    e.OpenSession();
    var computed := P.Unary(e, name, imm, dst, src, modIdx);
    return ReplyOf(computed);
  }

  method HazeAutomorph(e: EpochState, name: string, index: nat, dst: DevAddr, src: DevAddr) returns (reply: Reply)
    requires e.Valid()
    modifies e, e.alloc, e.backend
    ensures e.Valid()
    ensures (e.View(), reply) == Act(e.backend.sem, old(e.View()), DeviceModel.Automorph(name, index, dst, src))
  {
    hide R.Automorph;
    if dst == NULL || src == NULL {
      return Failed(InvalidArgument);
    }
    e.OpenSession();
    var computed := P.Automorph(e, name, index, dst, src);
    return ReplyOf(computed);
  }

  // ---- Arithmetic on all residues ----

  method HazeBinaryMrp(e: EpochState, name: string, dsts: seq<DevAddr>, srcs1: seq<DevAddr>, srcs2: seq<DevAddr>,
                       base: seq<nat>)
    returns (reply: Reply)
    requires e.Valid() && RecorderOk(e.View()) && |dsts| == |srcs1| == |srcs2| == |base|
    modifies e, e.alloc, e.backend
    ensures e.Valid()
    ensures (e.View(), reply) ==
      Act(e.backend.sem, old(e.View()), DeviceModel.BinaryMrp(name, dsts, srcs1, srcs2, base))
  {
    hide RecorderOk, R.BinaryMrp;
    if base == [] {
      return Failed(InvalidArgument);
    }
    Session(e);
    var stored := P.BinaryMrp(e, OpCode(name, [], base, base, 0), dsts, srcs1, srcs2, base);
    return ReplyOf(stored);
  }

  method HazeUnaryMrp(e: EpochState, name: string, imm: seq<nat>, dsts: seq<DevAddr>, srcs: seq<DevAddr>, base: seq<nat>)
    returns (reply: Reply)
    requires e.Valid() && RecorderOk(e.View()) && |dsts| == |srcs| == |base|
    modifies e, e.alloc, e.backend
    ensures e.Valid()
    ensures (e.View(), reply) == Act(e.backend.sem, old(e.View()), DeviceModel.UnaryMrp(name, imm, dsts, srcs, base))
  {
    hide RecorderOk, R.UnaryMrp;
    if base == [] {
      return Failed(InvalidArgument);
    }
    Session(e);
    var stored := P.UnaryMrp(e, OpCode(name, imm, base, base, 0), dsts, srcs, base, base);
    return ReplyOf(stored);
  }

  method HazeBasisConvert(e: EpochState, dsts: seq<DevAddr>, srcs: seq<DevAddr>, srcBase: seq<nat>, dstBase: seq<nat>)
    returns (reply: Reply)
    requires e.Valid() && RecorderOk(e.View()) && |srcs| == |srcBase| && |dsts| == |dstBase|
    modifies e, e.alloc, e.backend
    ensures e.Valid()
    ensures (e.View(), reply) == Act(e.backend.sem, old(e.View()), BasisConvert(dsts, srcs, srcBase, dstBase))
  {
    hide RecorderOk, R.UnaryMrp;
    if srcBase == [] || dstBase == [] {
      return Failed(InvalidArgument);
    }
    Session(e);
    var stored := P.UnaryMrp(e, OpCode("fast_base_convert", [], srcBase, srcBase, 0), dsts, srcs, srcBase, dstBase);
    return ReplyOf(stored);
  }

  method HazeModDown(e: EpochState, dsts: seq<DevAddr>, srcs: seq<DevAddr>, srcBase: seq<nat>, rescaleBase: seq<nat>)
    returns (reply: Reply)
    requires e.Valid() && RecorderOk(e.View()) && Shaped(ModDown(dsts, srcs, srcBase, rescaleBase))
    modifies e, e.alloc, e.backend
    ensures e.Valid()
    ensures (e.View(), reply) == Act(e.backend.sem, old(e.View()), ModDown(dsts, srcs, srcBase, rescaleBase))
  {
    hide RecorderOk, R.UnaryMrp, ValidateModDown, Without;
    var valid := BasisConversion.ValidateModDown(srcBase, rescaleBase);
    if valid.Failure? {
      return ReplyOf(valid);
    }
    Session(e);
    var stored := P.UnaryMrp(e, OpCode("rescale_fbc", [], srcBase, rescaleBase, 0), dsts, srcs, srcBase,
                             Without(srcBase, rescaleBase));
    return ReplyOf(stored);
  }

  method HazeModUp(e: EpochState, dsts: seq<DevAddr>, srcs: seq<DevAddr>, srcBase: seq<nat>,
                   digitBases: Pointer<seq<nat>>, digitLens: seq<nat>, pBase: seq<nat>)
    returns (reply: Reply)
    requires e.Valid() && RecorderOk(e.View())
    requires digitBases.To? ==> Shaped(ModUp(dsts, srcs, srcBase, digitBases.target, digitLens, pBase))
    modifies e, e.alloc, e.backend
    ensures e.Valid()
    ensures (e.View(), reply) ==
      if digitBases.Null? then (old(e.View()), Failed(InvalidArgument))
      else Act(e.backend.sem, old(e.View()), ModUp(dsts, srcs, srcBase, digitBases.target, digitLens, pBase))
  {
    hide RecorderOk, ModUpLocked;
    var valid := BasisConversion.ValidateModUp(srcBase, digitBases, digitLens, pBase);
    if valid.Failure? {
      return ReplyOf(valid);
    }
    Session(e);
    var stored := P.ModUp(e, dsts, srcs, srcBase, digitBases.target, digitLens, pBase);
    return ReplyOf(stored);
  }

  // ---- Outputs and lifecycle ----

  method HazeTagOutput(e: EpochState, p: DevAddr) returns (reply: Reply)
    requires e.Valid() && RecorderOk(e.View())
    modifies e
    ensures e.Valid() && (e.View(), reply) == Act(e.backend.sem, old(e.View()), TagOutput(p))
  {
    hide CoreOk, TagOutputLocked;
    if p == NULL {
      return Failed(InvalidArgument);
    }
    var tagged := e.TagOutputLocked(p);
    return ReplyOf(tagged);
  }

  lemma FlushCall(sem: Semantics, r: Recorder, env: BackendOutcome)
    ensures Act(sem, r, Flush(env)) ==
      if env == FormatRejected then (r, Failed(UnsupportedDataFormat))
      else (FinalizeLocked(sem, r, env, true).0, ReplyOf(FinalizeLocked(sem, r, env, true).1))
  {
    hide FinalizeLocked;
  }

  lemma WriteCall(sem: Semantics, r: Recorder, env: BackendOutcome)
    ensures Act(sem, r, WriteProgram(env)) ==
      (FinalizeLocked(sem, r, env, false).0, ReplyOf(FinalizeLocked(sem, r, env, false).1))
  {
    hide FinalizeLocked;
  }

  /** Whether a flush can go as `env` says. */
  ghost predicate CanFlush(e: EpochState, env: BackendOutcome)
    reads e, e.alloc
  {
    env != FormatRejected && ReadsBack(env, true) ==> CanReadBack(env, e.pendingOutputs.Keys, e.alloc.allocSet)
  }

  method HazeFlush(e: EpochState, env: BackendOutcome) returns (reply: Reply)
    requires e.Valid() && RecorderOk(e.View()) && CanFlush(e, env)
    modifies e, e.alloc, e.backend
    ensures e.Valid()
    ensures (e.View(), reply) == Act(e.backend.sem, old(e.View()), Flush(env))
  {
    hide RecorderOk, FinalizeLocked, ExportReady, Act;
    FlushCall(e.backend.sem, e.View(), env);
    if env == FormatRejected {
      return Failed(UnsupportedDataFormat);
    }
    AlwaysExportReady(e.View());
    var flushed := e.Finalize(env, true);
    return ReplyOf(flushed);
  }

  method HazeWriteProgram(e: EpochState, env: BackendOutcome) returns (reply: Reply)
    requires e.Valid() && RecorderOk(e.View())
    modifies e, e.alloc, e.backend
    ensures e.Valid() && (e.View(), reply) == Act(e.backend.sem, old(e.View()), WriteProgram(env))
  {
    hide RecorderOk, FinalizeLocked, ExportReady, Act;
    WriteCall(e.backend.sem, e.View(), env);
    AlwaysExportReady(e.View());
    var written := e.Finalize(env, false);
    return ReplyOf(written);
  }

  method HazeSetRingDimension(e: EpochState, n: nat) returns (reply: Reply)
    requires e.Valid() && n < TWO_64 && (PolynomialSize(n) != e.alloc.polyBytes ==> e.alloc.allocSet == {})
    modifies e.config, e.alloc
    ensures e.Valid() && (e.View(), reply) == Act(e.backend.sem, old(e.View()), SetRingDimension(n))
  {
    hide IsPowerOfTwo, PolynomialSize;
    var status := e.config.SetRingDimension(n, e.alloc);
    return ReplyOf(status);
  }

  method HazeSetCiphertextModulus(e: EpochState, idx: int, q: nat) returns (reply: Reply)
    requires e.Valid()
    modifies e.config
    ensures e.Valid() && (e.View(), reply) == Act(e.backend.sem, old(e.View()), SetModulus(idx, q))
  {
    var status := e.config.SetModulus(idx, q);
    return ReplyOf(status);
  }

  method HazeConfigureDevice(e: EpochState) returns (reply: Reply)
    requires e.Valid()
    modifies e.config
    ensures e.Valid() && (e.View(), reply) == Act(e.backend.sem, old(e.View()), ConfigureDevice)
  {
    var configured := e.config.ConfigureDevice();
    return ReplyOf(configured);
  }

  method HazeDeviceReset(e: EpochState) returns (reply: Reply)
    requires e.Valid()
    modifies e, e.alloc, e.backend, e.config
    ensures e.Valid() && (e.View(), reply) == Act(e.backend.sem, old(e.View()), DeviceReset)
  {
    e.ClearState();
    e.backend.Reset();
    e.alloc.Reset();
    e.config.Reset();
    return Done;
  }

  // ---- Programs ----

  method Execute(e: EpochState, call: Call) returns (reply: Reply)
    requires e.Valid() && RecorderOk(e.View()) && Lawful(Abs(e.backend.sem, e.View()), call)
    modifies e, e.alloc, e.backend, e.config
    ensures e.Valid() && RecorderOk(e.View())
    ensures (e.View(), reply) == Act(e.backend.sem, old(e.View()), call)
    ensures (Abs(e.backend.sem, e.View()), reply) == Step(e.backend.sem, old(Abs(e.backend.sem, e.View())), call)
  {
    hide RecorderOk, Act, Step, Abs;
    ActRefines(e.backend.sem, e.View(), call);
    LiveIsLive(e.backend.sem, e.View());
    match call {
      case Malloc(size) => reply := HazeMalloc(e, true, size);
      case MallocMrp(count, size) => reply := HazeMallocMrp(e, true, count, size);
      case Free(p) => reply := HazeFree(e, p);
      case FreeMrp(ps) => reply := HazeFreeMrp(e, To(ps));
      case H2D(dst, data) => reply := HazeMemcpyH2D(e, dst, To(data));
      case H2DMrp(dsts, datas) => reply := HazeMemcpyMrpH2D(e, dsts, datas);
      case D2H(src, count) => reply := HazeMemcpyD2H(e, true, src, count);
      case D2HMrp(srcs, count) => reply := HazeMemcpyMrpD2H(e, srcs, count);
      case D2D(dst, src, count) => reply := HazeMemcpyD2D(e, dst, src, count);
      case D2DMrp(dsts, srcs, base) => reply := HazeMemcpyMrpD2D(e, dsts, srcs, base);
      case Memset(p, value, count) => reply := HazeMemset(e, p, value, count);
      case Binary(name, dst, src1, src2, modIdx) => reply := HazeBinary(e, name, dst, src1, src2, modIdx);
      case Unary(name, imm, dst, src, modIdx) => reply := HazeUnary(e, name, imm, dst, src, modIdx);
      case Automorph(name, index, dst, src) => reply := HazeAutomorph(e, name, index, dst, src);
      case BinaryMrp(name, dsts, srcs1, srcs2, base) => reply := HazeBinaryMrp(e, name, dsts, srcs1, srcs2, base);
      case UnaryMrp(name, imm, dsts, srcs, base) => reply := HazeUnaryMrp(e, name, imm, dsts, srcs, base);
      case BasisConvert(dsts, srcs, srcBase, dstBase) => reply := HazeBasisConvert(e, dsts, srcs, srcBase, dstBase);
      case ModDown(dsts, srcs, srcBase, rescaleBase) => reply := HazeModDown(e, dsts, srcs, srcBase, rescaleBase);
      case ModUp(dsts, srcs, srcBase, digitBases, digitLens, pBase) =>
        reply := HazeModUp(e, dsts, srcs, srcBase, To(digitBases), digitLens, pBase);
      case TagOutput(p) => reply := HazeTagOutput(e, p);
      case Flush(env) => reply := HazeFlush(e, env);
      case WriteProgram(env) => reply := HazeWriteProgram(e, env);
      case SetRingDimension(n) => reply := HazeSetRingDimension(e, n);
      case SetModulus(idx, q) => reply := HazeSetCiphertextModulus(e, idx, q);
      case ConfigureDevice => reply := HazeConfigureDevice(e);
      case DeviceReset => reply := HazeDeviceReset(e);
    }
  }

  lemma LiveIsLive(sem: Semantics, r: Recorder)
    ensures Abs(sem, r).heap == r.heap && Abs(sem, r).tags == r.pending.Keys
  {
  }

  /** A whole program run on the recording objects gives the replies of the machine that computes at
      once, and ends in a state that stands for that machine's. */
  method ExecuteAll(e: EpochState, calls: seq<Call>) returns (replies: seq<Reply>)
    requires e.Valid() && RecorderOk(e.View()) && LawfulRun(e.backend.sem, Abs(e.backend.sem, e.View()), calls)
    modifies e, e.alloc, e.backend, e.config
    ensures e.Valid() && RecorderOk(e.View())
    ensures (Abs(e.backend.sem, e.View()), replies) == Run(e.backend.sem, old(Abs(e.backend.sem, e.View())), calls)
    ensures (e.View(), replies) == ActAll(e.backend.sem, old(e.View()), calls)
  {
    hide RecorderOk, Step, Act, Abs, Lawful;
    replies := [];
    ghost var sem := e.backend.sem;
    ghost var r := e.View();
    ghost var d := Abs(sem, r);
    for i := 0 to |calls|
      invariant e.Valid() && RecorderOk(e.View())
      invariant (Abs(sem, e.View()), replies) == Run(sem, d, calls[..i])
      invariant (e.View(), replies) == ActAll(sem, r, calls[..i])
    {
      assert calls[..i + 1][..i] == calls[..i];
      var reply := Execute(e, calls[i]);
      replies := replies + [reply];
    }
    assert calls[..|calls|] == calls;
  }

  /** The same from start-up: a new library object run on any lawful program. */
  method RunProgram(sem: Semantics, calls: seq<Call>) returns (e: EpochState, replies: seq<Reply>)
    requires LawfulRun(sem, RESET, calls)
    ensures e.Valid() && RecorderOk(e.View())
    ensures (Abs(sem, e.View()), replies) == Run(sem, RESET, calls)
    ensures (e.View(), replies) == ActAll(sem, FRESH, calls)
  {
    hide RecorderOk, Abs, Act, Step, Lawful;
    var alloc := new DeviceAllocator();
    var config := new Config();
    var backend := new CompilerBackend(sem);
    e := new EpochState(alloc, config, backend);
    FreshRefines(sem);
    assert e.View() == FRESH;
    replies := ExecuteAll(e, calls);
  }
}
