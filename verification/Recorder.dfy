/**
 The recorder's state as a value, and what each call does to it: the binding of addresses to
 handles, the generated names, the group table and the recorded instructions. The classes are
 proved to compute these functions; RecorderLaws.dfy proves what the functions mean.
 */
module RecorderModel {
  import opened Types
  import opened Trace
  import opened HeapModel
  import opened Allocator
  import opened Configuration
  import opened DeviceModel
  import opened GroupIndex
  import opened Backend

  /** Names are kept by number: haze_in_k in `inputTags`, haze_out_k in `pending`, haze_mrp_out_k in
      `table.names`, haze_mrp_in_k in `inNames`. */
  datatype Recorder = Recorder(
    cfg: Settings,
    heap: Heap,
    shadow: map<DevAddr, Bytes>,
    trace: seq<Instr>,
    binding: map<DevAddr, Handle>,
    inputs: set<DevAddr>,
    modulus: map<DevAddr, nat>,
    pending: map<DevAddr, nat>,
    table: Index,
    inNames: map<DevAddr, nat>,
    inputTags: map<nat, Handle>,
    mrpInputTags: map<nat, seq<(Handle, nat)>>,
    inCount: nat,
    outCount: nat,
    mrpInCount: nat,
    initialized: bool,
    recording: bool,
    written: Program,
    probes: map<nat, seq<(Bytes, nat)>>,
    log: seq<GroupEvent>)

  const NO_GROUPS := Index(map[], map[], {}, map[], 0)

  // ---- Values ----

  function Open(r: Recorder): Recorder {
    r.(initialized := true, recording := true)
  }

  function Emit(r: Recorder, i: Instr): Recorder {
    r.(trace := r.trace + [i])
  }

  function Lookup(r: Recorder, a: DevAddr): (Recorder, Result<Handle>) {
    if a in r.binding then (r, Ok(r.binding[a]))
    else
      match ComponentsStatus(r.heap.live, r.shadow, r.heap.polyBytes, a, r.cfg.ringDim)
      case Success => (BindInput(r.(shadow := r.shadow - {a}), a, r.shadow[a]), Ok(|r.trace|))
      case Failure(NoData) => (r, Err(SourceUnavailable))
      case Failure(ShadowSizeMismatch) => (r.(shadow := r.shadow - {a}), Err(ShadowSizeMismatch))
      case Failure(e) => (r, Err(e))
  }

  /** Records an input instruction under a new name and binds `a` to it. */
  function BindInput(r: Recorder, a: DevAddr, data: Bytes): Recorder {
    r.(trace := r.trace + [Input(data)],
       binding := r.binding[a := |r.trace|],
       inputs := r.inputs + {a},
       inputTags := r.inputTags[r.inCount := |r.trace|],
       inCount := r.inCount + 1)
  }

  function LookupAll(r: Recorder, srcs: seq<DevAddr>): (p: (Recorder, Result<seq<Handle>>))
    ensures p.1.Ok? ==> |p.1.value| == |srcs|
    decreases |srcs|
  {
    if srcs == [] then (r, Ok([]))
    else
      var n := |srcs| - 1;
      var (r1, before) := LookupAll(r, srcs[..n]);
      if before.Err? then (r1, before)
      else
        var (r2, h) := Lookup(r1, srcs[n]);
        match h
        case Err(e) => (r2, Err(e))
        case Ok(v) => (r2, Ok(before.value + [v]))
  }

  function RecordedModulus(r: Recorder, a: DevAddr): nat {
    if a in r.modulus then r.modulus[a] else COPY_MODULUS
  }

  function Store(r: Recorder, a: DevAddr, h: Handle, q: nat): Recorder {
    r.(binding := r.binding[a := h], inputs := r.inputs - {a},
       modulus := if q != COPY_MODULUS then r.modulus[a := q] else r.modulus - {a})
  }

  /** Records each operation and stores its result, in order. */
  function StoreAll(r: Recorder, dsts: seq<DevAddr>, ops: seq<OpCode>, args: seq<Handle>, base: seq<nat>): Recorder
    requires |ops| <= |dsts| && |ops| <= |base|
    decreases |ops|
  {
    if ops == [] then r
    else
      var n := |ops| - 1;
      var r1 := StoreAll(r, dsts, ops[..n], args, base);
      Store(Emit(r1, Compute(ops[n], args)), dsts[n], |r1.trace|, base[n])
  }

  function CopyResult(r: Recorder, dst: DevAddr, src: DevAddr, q: nat): (Recorder, Status) {
    var (r1, h) := Lookup(r, src);
    match h
    case Err(e) => (r1, Failure(e))
    case Ok(v) =>
      var q1 := if q == COPY_MODULUS then RecordedModulus(r1, src) else q;
      var r2 := Emit(r1, Copy(v));
      var r3 := if q1 != COPY_MODULUS then r2.(modulus := r2.modulus[src := q1]) else r2;
      (Store(r3, dst, |r1.trace|, q1), Success)
  }

  function CopyResults(r: Recorder, dsts: seq<DevAddr>, srcs: seq<DevAddr>, base: seq<nat>): (Recorder, Status)
    requires |srcs| <= |dsts| && |srcs| <= |base|
    decreases |srcs|
  {
    if srcs == [] then (r, Success)
    else
      var n := |srcs| - 1;
      var (r1, s) := CopyResults(r, dsts, srcs[..n], base);
      if s.Failure? then (r1, s) else CopyResult(r1, dsts[n], srcs[n], base[n])
  }

  // ---- Uploads ----

  function CopyIn(r: Recorder, dst: DevAddr, data: Bytes): (Recorder, Status) {
    if dst !in r.heap.live then (r, Failure(UnknownAddress))
    else if |data| > r.heap.polyBytes then (r, Failure(AllocTooSmall))
    else (r.(shadow := WriteFront(r.shadow, dst, data, r.heap.polyBytes)), Success)
  }

  function CopyInAll(r: Recorder, dsts: seq<DevAddr>, datas: seq<Bytes>): (Recorder, Status)
    requires |datas| <= |dsts|
    decreases |datas|
  {
    if datas == [] then (r, Success)
    else
      var n := |datas| - 1;
      var (r1, s) := CopyInAll(r, dsts, datas[..n]);
      if s.Failure? then (r1, s) else CopyIn(r1, dsts[n], datas[n])
  }

  function TagH2DInput(r: Recorder, a: DevAddr): (Recorder, Status) {
    match ComponentsStatus(r.heap.live, r.shadow, r.heap.polyBytes, a, r.cfg.ringDim)
    case Failure(e) => (r, Failure(e))
    case Success => (BindInput(r, a, r.shadow[a]).(pending := r.pending - {a}), Success)
  }

  function TagH2DInputs(r: Recorder, addrs: seq<DevAddr>): (Recorder, Status)
    decreases |addrs|
  {
    if addrs == [] then (r, Success)
    else
      var n := |addrs| - 1;
      var (r1, s) := TagH2DInputs(r, addrs[..n]);
      if s.Failure? then (r1, s) else TagH2DInput(r1, addrs[n])
  }

  // ---- Groups ----

  ghost function InvalidateAddr(r: Recorder, a: DevAddr): Recorder {
    r.(table := Dropped(r.table, a), binding := r.binding - {a}, pending := r.pending - {a},
       modulus := r.modulus - {a}, inputs := r.inputs - {a}, inNames := r.inNames - {a},
       log := r.log + [Invalidated(a)])
  }

  ghost function InvalidateAddrs(r: Recorder, addrs: seq<DevAddr>): Recorder
    decreases |addrs|
  {
    if addrs == [] then r
    else
      var n := |addrs| - 1;
      var r1 := InvalidateAddrs(r, addrs[..n]);
      if addrs[n] == NULL then r1 else InvalidateAddr(r1, addrs[n])
  }

  /** The output name of the group led by `a`; a leader without one gets the next number. */
  function NameOutputGroup(r: Recorder, a: DevAddr): (Recorder, nat) {
    if a in r.table.names then (r, r.table.names[a])
    else
      (r.(table := r.table.(names := r.table.names[a := r.table.counter], counter := r.table.counter + 1)),
       r.table.counter)
  }

  function NameInputGroup(r: Recorder, a: DevAddr): (Recorder, nat) {
    if a in r.inNames then (r, r.inNames[a])
    else (r.(inNames := r.inNames[a := r.mrpInCount], mrpInCount := r.mrpInCount + 1), r.mrpInCount)
  }

  /** Gives a new output name to each of the first n addresses that has none. */
  function NameOutputs(pending: map<DevAddr, nat>, count: nat, addrs: seq<DevAddr>, n: nat): (map<DevAddr, nat>, nat)
    requires n <= |addrs|
  {
    if n == 0 then (pending, count)
    else
      var (p, c) := NameOutputs(pending, count, addrs, n - 1);
      if addrs[n - 1] in p then (p, c) else (p[addrs[n - 1] := c], c + 1)
  }

  function TagOutputs(r: Recorder, addrs: seq<DevAddr>): Recorder {
    var (p, c) := NameOutputs(r.pending, r.outCount, addrs, |addrs|);
    r.(pending := p, outCount := c)
  }

  ghost function RegisterGroup(r: Recorder, addrs: seq<DevAddr>, moduli: seq<nat>, name: nat): (Recorder, Status) {
    var g := Group(addrs, moduli);
    var logged := r.(log := r.log + [Registered(g)]);
    if |addrs| != |moduli| then (r, Failure(MrpGroupAddrModuliMismatch))
    else if name in r.table.known && r.table.known[name] == g then (logged, Success)
    else
      var cleared := EvictOthers(r.table, addrs, |addrs|, name);
      var r1 := logged.(table := Installed(cleared, name, g));
      (if name in cleared.known && name in cleared.pending then TagOutputs(r1, addrs) else r1, Success)
  }

  /** Names the group of two or more residues after its leader and registers it. */
  ghost function GroupUp(r: Recorder, addrs: seq<DevAddr>, base: seq<nat>): (Recorder, Status) {
    if |addrs| <= 1 then (r, Success)
    else
      var (r1, name) := NameOutputGroup(r, addrs[0]);
      RegisterGroup(r1, addrs, base, name)
  }

  ghost function TagOutputLocked(r: Recorder, a: DevAddr): (Recorder, Status) {
    if a !in r.binding then (r, Failure(SourceUnavailable))
    else if a in r.table.owners then
      var name := AnyOwner(r.table, a);
      if name !in r.table.known then (r, Success)
      else
        (TagOutputs(r, r.table.known[name].addrs).(table := r.table.(pending := r.table.pending + {name})), Success)
    else (TagOutputs(r, [a]), Success)
  }

  // ---- Multi-residue values ----

  function Pairs(hs: seq<Handle>, base: seq<nat>): seq<(Handle, nat)>
    requires |hs| == |base|
  {
    seq(|hs|, i requires 0 <= i < |hs| => (hs[i], base[i]))
  }

  /** Resolves the residues of a source; a live-in group of two or more is named as an input once. */
  function BuildMrp(r: Recorder, srcs: seq<DevAddr>, base: seq<nat>): (p: (Recorder, Result<seq<Handle>>))
    requires |srcs| == |base|
    ensures p.1.Ok? ==> |p.1.value| == |srcs|
  {
    var (r1, hs) := LookupAll(r, srcs);
    if hs.Ok? && |srcs| > 1 && srcs[0] in r1.inputs then
      var (r2, name) := NameInputGroup(r1, srcs[0]);
      (if name in r2.mrpInputTags then r2
       else r2.(mrpInputTags := r2.mrpInputTags[name := Pairs(hs.value, base)]), hs)
    else (r1, hs)
  }

  function Ops(op: OpCode, base: seq<nat>): (ops: seq<OpCode>)
    ensures |ops| == |base|
  {
    seq(|base|, i requires 0 <= i < |base| => op.(out := base[i]))
  }

  ghost function StoreMrpLocked(r: Recorder, dsts: seq<DevAddr>, op: OpCode, args: seq<Handle>, base: seq<nat>):
      (Recorder, Status)
    requires |dsts| == |base|
  {
    GroupUp(StoreAll(r, dsts, Ops(op, base), args, base), dsts, base)
  }

  // ---- Epoch end ----

  function ClearState(r: Recorder): Recorder {
    r.(trace := [], binding := map[], inputs := {}, modulus := map[], pending := map[], table := NO_GROUPS,
       inNames := map[], inputTags := map[], mrpInputTags := map[], inCount := 0, outCount := 0, mrpInCount := 0,
       recording := false, log := [])
  }

  /** What exporting needs: everything named is bound, promoted groups are known, and no two
      addresses share an output name. */
  ghost predicate ExportReady(r: Recorder) {
    && r.pending.Keys <= r.binding.Keys
    && (forall a, b :: SameName(r.pending, a, b) ==> a == b)
    && r.table.pending <= r.table.known.Keys
    && (forall n :: n in r.table.pending ==> |r.table.known[n].addrs| == |r.table.known[n].moduli|)
    && (forall a, n :: n in r.table.pending && Member(r.table.known, a, n) ==> a in r.binding)
  }

  function GroupPairs(binding: map<DevAddr, Handle>, g: Group): seq<(Handle, nat)>
    requires |g.addrs| == |g.moduli|
  {
    seq(|g.addrs|, i requires 0 <= i < |g.addrs| =>
      (if g.addrs[i] in binding then binding[g.addrs[i]] else 0, g.moduli[i]))
  }

  ghost function ReplayedProbes(sem: Semantics, r: Recorder): map<nat, seq<(Bytes, nat)>> {
    map n | n in r.table.pending && n in r.table.known && |r.table.known[n].addrs| == |r.table.known[n].moduli| ::
      Residues(Values(sem, r.trace), GroupPairs(r.binding, r.table.known[n]))
  }

  ghost function ReplayedShadow(sem: Semantics, r: Recorder, done: set<DevAddr>): map<DevAddr, Bytes> {
    r.shadow + map a | a in done && a in r.binding ::
      Fit(At(Values(sem, r.trace), r.binding[a]), r.heap.polyBytes)
  }

  /** The address that bears the name k. */
  ghost function NamedBy(pending: map<DevAddr, nat>, k: nat): DevAddr
    requires exists a :: a in pending && pending[a] == k
  {
    var a :| a in pending && pending[a] == k; a
  }

  /** The handle under each output name. */
  ghost function OutputsOf(pending: map<DevAddr, nat>, binding: map<DevAddr, Handle>): map<nat, Handle> {
    map k | k in pending.Values && NamedBy(pending, k) in binding :: binding[NamedBy(pending, k)]
  }

  ghost function OutputGroupsOf(table: Index, binding: map<DevAddr, Handle>): map<nat, seq<(Handle, nat)>> {
    map n | n in table.pending && n in table.known && |table.known[n].addrs| == |table.known[n].moduli| ::
      GroupPairs(binding, table.known[n])
  }

  ghost function WrittenProgram(r: Recorder): Program {
    Program(r.trace, r.inputTags, r.mrpInputTags, OutputsOf(r.pending, r.binding), OutputGroupsOf(r.table, r.binding))
  }

  ghost function FinalizeLocked(sem: Semantics, r: Recorder, env: BackendOutcome, replay: bool): (Recorder, Status) {
    if !r.recording then (r.(log := []), Success)
    else if r.pending == map[] && r.table.pending == {} then (ClearState(r), Success)
    else if env == StopFailed then (ClearState(r), Failure(BackendReplayFailed))
    else Materialize(sem, r.(written := WrittenProgram(r)), env, replay)
  }

  /** What follows once the program is written. */
  ghost function Materialize(sem: Semantics, r: Recorder, env: BackendOutcome, replay: bool): (Recorder, Status) {
    if env == HookFailed then (ClearState(r), Failure(BridgeHookFailed))
    else if !replay then (ClearState(r), Success)
    else if env == ReplayFailed then (ClearState(r), Failure(BackendReplayFailed))
    else
      (ClearState(r.(shadow := ReplayedShadow(sem, r, StoredBack(env, r.pending.Keys)), probes := ReplayedProbes(sem, r))),
       ReadStatus(env))
  }

  // ---- Compute ----

  function Binary(r: Recorder, name: string, dst: DevAddr, src1: DevAddr, src2: DevAddr, modIdx: int): (Recorder, Status) {
    var q := Modulus(r.cfg, modIdx);
    if q == 0 then (r, Failure(InvalidArgument))
    else
      var (r1, hs) := LookupAll(r, [src1, src2]);
      match hs
      case Err(e) => (r1, Failure(e))
      case Ok(args) => (Store(Emit(r1, Compute(OpCode(name, [], [], [], q), args)), dst, |r1.trace|, q), Success)
  }

  function Unary(r: Recorder, name: string, imm: seq<nat>, dst: DevAddr, src: DevAddr, modIdx: int): (Recorder, Status) {
    var q := Modulus(r.cfg, modIdx);
    if q == 0 then (r, Failure(InvalidArgument))
    else
      var (r1, hs) := LookupAll(r, [src]);
      match hs
      case Err(e) => (r1, Failure(e))
      case Ok(args) => (Store(Emit(r1, Compute(OpCode(name, imm, [], [], q), args)), dst, |r1.trace|, q), Success)
  }

  function Automorph(r: Recorder, name: string, index: nat, dst: DevAddr, src: DevAddr): (Recorder, Status) {
    var (r1, hs) := LookupAll(r, [src]);
    match hs
    case Err(e) => (r1, Failure(e))
    case Ok(args) =>
      var op := OpCode(name, [index], [], [], COPY_MODULUS);
      (Store(Emit(r1, Compute(op, args)), dst, |r1.trace|, RecordedModulus(r1, src)), Success)
  }

  ghost function BinaryMrp(r: Recorder, op: OpCode, dsts: seq<DevAddr>, srcs1: seq<DevAddr>, srcs2: seq<DevAddr>,
                     base: seq<nat>): (Recorder, Status)
    requires |dsts| == |srcs1| == |srcs2| == |base|
  {
    var (r1, m1) := BuildMrp(r, srcs1, base);
    match m1
    case Err(e) => (r1, Failure(e))
    case Ok(hs1) =>
      var (r2, m2) := BuildMrp(r1, srcs2, base);
      match m2
      case Err(e) => (r2, Failure(e))
      case Ok(hs2) => StoreMrpLocked(r2, dsts, op, hs1 + hs2, base)
  }

  ghost function UnaryMrp(r: Recorder, op: OpCode, dsts: seq<DevAddr>, srcs: seq<DevAddr>, srcBase: seq<nat>,
                    dstBase: seq<nat>): (Recorder, Status)
    requires |srcs| == |srcBase| && |dsts| == |dstBase|
  {
    var (r1, m) := BuildMrp(r, srcs, srcBase);
    match m
    case Err(e) => (r1, Failure(e))
    case Ok(hs) => StoreMrpLocked(r1, dsts, op, hs, dstBase)
  }

  ghost function LiftAll(r: Recorder, dsts: seq<DevAddr>, args: seq<Handle>, srcBase: seq<nat>,
                   digitBases: seq<nat>, digitLens: seq<nat>, pBase: seq<nat>, count: nat): (Recorder, Status)
    requires count <= |digitLens| && Sum(digitLens) <= |digitBases|
    requires |dsts| == |digitLens| * |srcBase + pBase|
    decreases count
  {
    if count == 0 then (r, Success)
    else
      var target := srcBase + pBase;
      var i := count - 1;
      var (r1, s) := LiftAll(r, dsts, args, srcBase, digitBases, digitLens, pBase, i);
      if s.Failure? then (r1, s)
      else
        Stretch(i, |digitLens|, |target|);
        StoreMrpLocked(r1, dsts[i * |target|..(i + 1) * |target|],
                       OpCode("fast_base_convert", [], srcBase, Digit(digitBases, digitLens, i), 0), args, target)
  }

  ghost function ModUpLocked(r: Recorder, dsts: seq<DevAddr>, srcs: seq<DevAddr>, srcBase: seq<nat>,
                       digitBases: seq<nat>, digitLens: seq<nat>, pBase: seq<nat>): (Recorder, Status)
    requires Sum(digitLens) <= |digitBases| && |srcs| == |srcBase|
    requires |dsts| == |digitLens| * |srcBase + pBase|
  {
    var (r1, m) := BuildMrp(r, srcs, srcBase);
    match m
    case Err(e) => (r1, Failure(e))
    case Ok(hs) => LiftAll(r1, dsts, hs, srcBase, digitBases, digitLens, pBase, |digitLens|)
  }

  // ---- The API ----

  ghost function Act(sem: Semantics, r: Recorder, call: Call): (Recorder, Reply)
    requires Shaped(call)
  {
    match call
    case Malloc(size) =>
      var (h, a) := Allocate(r.heap, size);
      (r.(heap := h), match a case Ok(v) => Address(v) case Err(e) => Failed(e))
    case MallocMrp(count, size) =>
      if count > MAX_CIPHERTEXT_MODULI then (r, Failed(InvalidArgument))
      else
        var (h, a) := AllocateMany(r.heap, count, size);
        (r.(heap := h), match a case Ok(v) => Addresses(v) case Err(e) => Failed(e))
    case Free(p) =>
      var r1 := if p == NULL then r else InvalidateAddr(r, p);
      var (h, s) := FreeMany(r1.heap, [p]);
      (r1.(heap := h, shadow := r1.shadow - ({p} - {NULL})), ReplyOf(s))
    case FreeMrp(ps) =>
      if |ps| > MAX_CIPHERTEXT_MODULI then (r, Failed(InvalidArgument))
      else
        var r1 := InvalidateAddrs(r, ps);
        var (h, s) := FreeMany(r1.heap, ps);
        (r1.(heap := h, shadow := r1.shadow - (ToSet(ps) - {NULL})), ReplyOf(s))
    case H2D(dst, data) =>
      if dst == NULL then (r, Failed(InvalidArgument))
      else
        var (r1, s) := CopyIn(r, dst, data);
        if s.Failure? then (r1, ReplyOf(s)) else var (r2, t) := TagH2DInput(Open(r1), dst); (r2, ReplyOf(t))
    case H2DMrp(dsts, datas) =>
      if dsts == [] then (r, Failed(InvalidArgument))
      else
        var (r1, s) := CopyInAll(r, dsts, datas);
        if s.Failure? then (r1, ReplyOf(s)) else var (r2, t) := TagH2DInputs(Open(r1), dsts); (r2, ReplyOf(t))
    case D2H(src, count) =>
      if src == NULL then (r, Failed(InvalidArgument))
      else (r, DataReply(ReadStored(r.heap.live, r.shadow, r.heap.polyBytes, src, count)))
    case D2HMrp(srcs, count) =>
      if srcs == [] then (r, Failed(InvalidArgument))
      else (r, DataMrpReply(ReadAllStored(r.heap.live, r.shadow, r.heap.polyBytes, srcs, count)))
    case D2D(dst, src, _) =>
      if dst == NULL || src == NULL then (r, Failed(InvalidArgument))
      else var (r1, s) := CopyResult(Open(r), dst, src, COPY_MODULUS); (r1, ReplyOf(s))
    case D2DMrp(dsts, srcs, base) =>
      if base == [] then (r, Failed(InvalidArgument))
      else
        var (r1, s) := CopyResults(Open(r), dsts, srcs, base);
        if s.Failure? then (r1, ReplyOf(s)) else var (r2, t) := GroupUp(r1, dsts, base); (r2, ReplyOf(t))
    case Memset(p, value, count) =>
      if p == NULL then (r, Failed(InvalidArgument))
      else
        var (r1, s) := CopyIn(r, p, Fill(value, count));
        if s.Failure? then (r1, ReplyOf(s)) else (InvalidateAddr(r1, p), Done)
    case Binary(name, dst, src1, src2, modIdx) =>
      if dst == NULL || src1 == NULL || src2 == NULL then (r, Failed(InvalidArgument))
      else var (r1, s) := Binary(Open(r), name, dst, src1, src2, modIdx); (r1, ReplyOf(s))
    case Unary(name, imm, dst, src, modIdx) =>
      if dst == NULL || src == NULL then (r, Failed(InvalidArgument))
      else var (r1, s) := Unary(Open(r), name, imm, dst, src, modIdx); (r1, ReplyOf(s))
    case Automorph(name, index, dst, src) =>
      if dst == NULL || src == NULL then (r, Failed(InvalidArgument))
      else var (r1, s) := Automorph(Open(r), name, index, dst, src); (r1, ReplyOf(s))
    case BinaryMrp(name, dsts, srcs1, srcs2, base) =>
      if base == [] then (r, Failed(InvalidArgument))
      else
        var (r1, s) := BinaryMrp(Open(r), OpCode(name, [], base, base, 0), dsts, srcs1, srcs2, base); (r1, ReplyOf(s))
    case UnaryMrp(name, imm, dsts, srcs, base) =>
      if base == [] then (r, Failed(InvalidArgument))
      else var (r1, s) := UnaryMrp(Open(r), OpCode(name, imm, base, base, 0), dsts, srcs, base, base); (r1, ReplyOf(s))
    case BasisConvert(dsts, srcs, srcBase, dstBase) =>
      if srcBase == [] || dstBase == [] then (r, Failed(InvalidArgument))
      else
        var op := OpCode("fast_base_convert", [], srcBase, srcBase, 0);
        var (r1, s) := UnaryMrp(Open(r), op, dsts, srcs, srcBase, dstBase); (r1, ReplyOf(s))
    case ModDown(dsts, srcs, srcBase, rescaleBase) =>
      var v := ValidateModDown(srcBase, rescaleBase);
      if v.Failure? then (r, ReplyOf(v))
      else
        var op := OpCode("rescale_fbc", [], srcBase, rescaleBase, 0);
        var (r1, s) := UnaryMrp(Open(r), op, dsts, srcs, srcBase, Without(srcBase, rescaleBase)); (r1, ReplyOf(s))
    case ModUp(dsts, srcs, srcBase, digitBases, digitLens, pBase) =>
      var v := ValidateModUp(srcBase, digitBases, digitLens, pBase);
      if v.Failure? then (r, ReplyOf(v))
      else var (r1, s) := ModUpLocked(Open(r), dsts, srcs, srcBase, digitBases, digitLens, pBase); (r1, ReplyOf(s))
    case TagOutput(p) =>
      if p == NULL then (r, Failed(InvalidArgument))
      else var (r1, s) := TagOutputLocked(r, p); (r1, ReplyOf(s))
    case Flush(env) =>
      if env == FormatRejected then (r, Failed(UnsupportedDataFormat))
      else var (r1, s) := FinalizeLocked(sem, r, env, true); (r1, ReplyOf(s))
    case WriteProgram(env) =>
      var (r1, s) := FinalizeLocked(sem, r, env, false); (r1, ReplyOf(s))
    case SetRingDimension(n) =>
      if !IsPowerOfTwo(n) then (r, Failed(InvalidArgument))
      else if r.cfg.configured && r.cfg.ringDim != n then (r, Failed(NotConfigured))
      else (r.(cfg := r.cfg.(ringDim := n), heap := SetPolynomialSize(r.heap, PolynomialSize(n))), Done)
    case SetModulus(idx, q) =>
      var (c, s) := SettingsSetModulus(r.cfg, idx, q); (r.(cfg := c), ReplyOf(s))
    case ConfigureDevice =>
      if r.cfg.ringDim == 0 then (r, Failed(NotConfigured)) else (r.(cfg := r.cfg.(configured := true)), Done)
    case DeviceReset => (ClearState(r).(heap := EMPTY, shadow := map[], cfg := UNSET, initialized := false), Done)
  }

  /** The recorder and the replies after a list of calls. */
  ghost function ActAll(sem: Semantics, r: Recorder, calls: seq<Call>): (Recorder, seq<Reply>)
    requires forall i :: 0 <= i < |calls| ==> Shaped(calls[i])
    decreases |calls|
  {
    if calls == [] then (r, [])
    else
      var n := |calls| - 1;
      var (r1, replies) := ActAll(sem, r, calls[..n]);
      var (r2, reply) := Act(sem, r1, calls[n]);
      (r2, replies + [reply])
  }
}
