/**
 The device as its clients may think of it: a machine that computes at once. It has no recorded
 instructions, no names, no counters and no reverse index. `bound` holds the values of the
 addresses that entered the current epoch, `host` the bytes a read-back returns. The classes in
 DeviceAllocator.dfy and Epoch.dfy, which record and replay, are proved to be this machine.
 */
module DeviceModel {
  import opened Types
  import opened Trace
  import opened HeapModel
  import opened Allocator
  import opened Configuration

  /** Addresses that hold one multi-residue value, with the modulus of each residue. */
  datatype Group = Group(addrs: seq<DevAddr>, moduli: seq<nat>)

  /** What can end a group's claim on its addresses. */
  datatype GroupEvent = Registered(g: Group) | Invalidated(a: DevAddr)

  datatype Device = Device(
    cfg: Settings,
    heap: Heap,
    host: map<DevAddr, Bytes>,
    bound: map<DevAddr, Bytes>,
    modulus: map<DevAddr, nat>,
    tags: set<DevAddr>,
    groups: map<DevAddr, Group>,  // by leading address
    promoted: set<DevAddr>,       // leaders of the groups to export
    log: seq<GroupEvent>)

  const RESET := Device(UNSET, EMPTY, map[], map[], map[], {}, map[], {}, [])

  /** What stops the storing of replayed results: one is missing, does not decode, or belongs to an
      address that is not allocated. */
  datatype ReadFault = NoResult | Garbled | NotLive

  /** What the backend does when an epoch is finalized. `Interrupted`: replay works, but storing the
      results stops at a fault after those of `stored`, in whatever order the table is walked. */
  datatype BackendOutcome =
    | Replayed
    | Interrupted(stored: set<DevAddr>, fault: ReadFault)
    | FormatRejected
    | StopFailed
    | HookFailed
    | ReplayFailed

  datatype Reply =
    | Done
    | Address(a: DevAddr)
    | Addresses(addrs: seq<DevAddr>)
    | Data(bytes: Bytes)
    | DataMrp(residues: seq<Bytes>)
    | Failed(error: Error)

  datatype Call =
    | Malloc(size: nat)
    | MallocMrp(count: nat, size: nat)
    | Free(p: DevAddr)
    | FreeMrp(ps: seq<DevAddr>)
    | H2D(dst: DevAddr, data: Bytes)
    | H2DMrp(dsts: seq<DevAddr>, datas: seq<Bytes>)
    | D2H(src: DevAddr, count: nat)
    | D2HMrp(srcs: seq<DevAddr>, count: nat)
    | D2D(dst: DevAddr, src: DevAddr, count: nat)
    | D2DMrp(dsts: seq<DevAddr>, srcs: seq<DevAddr>, base: seq<nat>)
    | Memset(p: DevAddr, value: int, count: nat)
    | Binary(name: string, dst: DevAddr, src1: DevAddr, src2: DevAddr, modIdx: int)
    | Unary(name: string, imm: seq<nat>, dst: DevAddr, src: DevAddr, modIdx: int)
    | Automorph(name: string, index: nat, dst: DevAddr, src: DevAddr)
    | BinaryMrp(name: string, dsts: seq<DevAddr>, srcs1: seq<DevAddr>, srcs2: seq<DevAddr>, base: seq<nat>)
    | UnaryMrp(name: string, imm: seq<nat>, dsts: seq<DevAddr>, srcs: seq<DevAddr>, base: seq<nat>)
    | BasisConvert(dsts: seq<DevAddr>, srcs: seq<DevAddr>, srcBase: seq<nat>, dstBase: seq<nat>)
    | ModDown(dsts: seq<DevAddr>, srcs: seq<DevAddr>, srcBase: seq<nat>, rescaleBase: seq<nat>)
    | ModUp(dsts: seq<DevAddr>, srcs: seq<DevAddr>, srcBase: seq<nat>,
            digitBases: seq<nat>, digitLens: seq<nat>, pBase: seq<nat>)
    | TagOutput(p: DevAddr)
    | Flush(env: BackendOutcome)
    | WriteProgram(env: BackendOutcome)
    | SetRingDimension(n: nat)
    | SetModulus(idx: int, q: nat)
    | ConfigureDevice
    | DeviceReset

  /** The value an address has for computation: its epoch value, else its stored bytes. */
  function Mem(d: Device): map<DevAddr, Bytes> {
    d.host + d.bound
  }

  function Recorded(d: Device, a: DevAddr): nat {
    if a in d.modulus then d.modulus[a] else COPY_MODULUS
  }

  function ReplyOf(s: Status): Reply {
    match s
    case Success => Done
    case Failure(e) => Failed(e)
  }

  function DataReply(r: Result<Bytes>): Reply {
    match r
    case Ok(bytes) => Data(bytes)
    case Err(e) => Failed(e)
  }

  function DataMrpReply(r: Result<seq<Bytes>>): Reply {
    match r
    case Ok(residues) => DataMrp(residues)
    case Err(e) => Failed(e)
  }

  // ---- Values ----

  /** Resolves a source. Its stored bytes move into the epoch on first use. */
  function Read(d: Device, a: DevAddr): (Device, Result<Bytes>) {
    if a in d.bound then (d, Ok(d.bound[a]))
    else
      match ComponentsStatus(d.heap.live, d.host, d.heap.polyBytes, a, d.cfg.ringDim)
      case Success => (d.(host := d.host - {a}, bound := d.bound[a := d.host[a]]), Ok(d.host[a]))
      case Failure(NoData) => (d, Err(SourceUnavailable))
      case Failure(ShadowSizeMismatch) => (d.(host := d.host - {a}), Err(ShadowSizeMismatch))
      case Failure(e) => (d, Err(e))
  }

  /** Resolves sources in order, stopping at the first failure. */
  function ReadAll(d: Device, srcs: seq<DevAddr>): (r: (Device, Result<seq<Bytes>>))
    ensures r.1.Ok? ==> |r.1.value| == |srcs|
    decreases |srcs|
  {
    if srcs == [] then (d, Ok([]))
    else
      var n := |srcs| - 1;
      var (d1, r1) := ReadAll(d, srcs[..n]);
      if r1.Err? then (d1, r1)
      else
        var (d2, r2) := Read(d1, srcs[n]);
        match r2
        case Err(e) => (d2, Err(e))
        case Ok(v) => (d2, Ok(r1.value + [v]))
  }

  /** Gives `a` a computed value; a result without a modulus forgets the recorded one. */
  function Bind(d: Device, a: DevAddr, v: Bytes, q: nat): Device {
    d.(bound := d.bound[a := v],
       modulus := if q != COPY_MODULUS then d.modulus[a := q] else d.modulus - {a})
  }

  /** Binds the first |vs| destinations in order. */
  function BindAll(d: Device, dsts: seq<DevAddr>, vs: seq<Bytes>, base: seq<nat>): Device
    requires |vs| <= |dsts| && |vs| <= |base|
    decreases |vs|
  {
    if vs == [] then d
    else
      var n := |vs| - 1;
      Bind(BindAll(d, dsts, vs[..n], base), dsts[n], vs[n], base[n])
  }

  /** Pass-through copy; the modulus is the caller's, else the one recorded for the source. */
  function CopyTo(d: Device, dst: DevAddr, src: DevAddr, q: nat): (Device, Status) {
    var (d1, r) := Read(d, src);
    match r
    case Err(e) => (d1, Failure(e))
    case Ok(v) =>
      var q1 := if q == COPY_MODULUS then Recorded(d1, src) else q;
      var d2 := if q1 != COPY_MODULUS then d1.(modulus := d1.modulus[src := q1]) else d1;
      (Bind(d2, dst, v, q1), Success)
  }

  /** Copies in order, stopping at the first failure. */
  function CopyAll(d: Device, dsts: seq<DevAddr>, srcs: seq<DevAddr>, base: seq<nat>): (Device, Status)
    requires |srcs| <= |dsts| && |srcs| <= |base|
    decreases |srcs|
  {
    if srcs == [] then (d, Success)
    else
      var n := |srcs| - 1;
      var (d1, s) := CopyAll(d, dsts, srcs[..n], base);
      if s.Failure? then (d1, s) else CopyTo(d1, dsts[n], srcs[n], base[n])
  }

  // ---- Uploads ----

  function Upload(d: Device, dst: DevAddr, data: Bytes): (Device, Status) {
    if dst !in d.heap.live then (d, Failure(UnknownAddress))
    else if |data| > d.heap.polyBytes then (d, Failure(AllocTooSmall))
    else (d.(host := WriteFront(d.host, dst, data, d.heap.polyBytes)), Success)
  }

  function UploadAll(d: Device, dsts: seq<DevAddr>, datas: seq<Bytes>): (Device, Status)
    requires |datas| <= |dsts|
    decreases |datas|
  {
    if datas == [] then (d, Success)
    else
      var n := |datas| - 1;
      var (d1, s) := UploadAll(d, dsts, datas[..n]);
      if s.Failure? then (d1, s) else Upload(d1, dsts[n], datas[n])
  }

  /** Makes the stored bytes of `a` its epoch value. The tag of `a` goes; groups stay. */
  function TagInput(d: Device, a: DevAddr): (Device, Status) {
    match ComponentsStatus(d.heap.live, d.host, d.heap.polyBytes, a, d.cfg.ringDim)
    case Failure(e) => (d, Failure(e))
    case Success => (d.(bound := d.bound[a := d.host[a]], tags := d.tags - {a}), Success)
  }

  function TagInputs(d: Device, addrs: seq<DevAddr>): (Device, Status)
    decreases |addrs|
  {
    if addrs == [] then (d, Success)
    else
      var n := |addrs| - 1;
      var (d1, s) := TagInputs(d, addrs[..n]);
      if s.Failure? then (d1, s) else TagInput(d1, addrs[n])
  }

  // ---- Groups ----

  predicate Claims(g: Group, a: DevAddr) {
    a in g.addrs
  }

  predicate Overlaps(g: Group, addrs: seq<DevAddr>) {
    exists a :: a in addrs && Claims(g, a)
  }

  /** The groups with no member among `addrs`, except that the one led by `keep` stays. */
  function WithoutClaims(groups: map<DevAddr, Group>, addrs: seq<DevAddr>, keep: set<DevAddr>): map<DevAddr, Group> {
    map l | l in groups && (l in keep || !Overlaps(groups[l], addrs)) :: groups[l]
  }

  /** Ends the lifetime of whatever `a` held. */
  function Invalidate(d: Device, a: DevAddr): Device {
    var groups := WithoutClaims(d.groups, [a], {});
    d.(bound := d.bound - {a}, tags := d.tags - {a}, modulus := d.modulus - {a},
       groups := groups, promoted := d.promoted * groups.Keys, log := d.log + [Invalidated(a)])
  }

  function InvalidateAll(d: Device, addrs: seq<DevAddr>): Device
    decreases |addrs|
  {
    if addrs == [] then d
    else
      var n := |addrs| - 1;
      var d1 := InvalidateAll(d, addrs[..n]);
      if addrs[n] == NULL then d1 else Invalidate(d1, addrs[n])
  }

  /** Latest write wins: the new group evicts every other group that shares an address with it,
      and replaces the one with the same leader, whose promotion it inherits. */
  function Register(d: Device, addrs: seq<DevAddr>, moduli: seq<nat>): Device
    requires addrs != []
  {
    var leader, g := addrs[0], Group(addrs, moduli);
    if leader in d.groups && d.groups[leader] == g then d.(log := d.log + [Registered(g)])
    else
      var groups := WithoutClaims(d.groups, addrs, {leader})[leader := g];
      d.(groups := groups, promoted := d.promoted * groups.Keys,
         tags := if leader in d.promoted then d.tags + ToSet(addrs) else d.tags,
         log := d.log + [Registered(g)])
  }

  /** Stores the residues of a multi-residue result; two or more form a group. */
  function StoreMrp(d: Device, dsts: seq<DevAddr>, vs: seq<Bytes>, base: seq<nat>): Device
    requires |vs| == |base| == |dsts|
  {
    var d1 := BindAll(d, dsts, vs, base);
    if |base| > 1 then Register(d1, dsts, base) else d1
  }

  /** The leaders of the groups that hold `a`. */
  function LeadersOf(groups: map<DevAddr, Group>, a: DevAddr): set<DevAddr> {
    set l | l in groups && Claims(groups[l], a)
  }

  function MembersOf(groups: map<DevAddr, Group>, leaders: set<DevAddr>): (s: set<DevAddr>)
    ensures forall a :: a in s <==> exists l :: l in leaders && l in groups && Claims(groups[l], a)
  {
    set l, a | l in leaders && l in groups && a in groups[l].addrs :: a
  }

  /** Tagging a residue of a group tags the whole group and marks it for export. */
  function TagOut(d: Device, a: DevAddr): (Device, Status) {
    if a !in d.bound then (d, Failure(SourceUnavailable))
    else
      var leaders := LeadersOf(d.groups, a);
      if leaders == {} then (d.(tags := d.tags + {a}), Success)
      else
        (d.(tags := d.tags + MembersOf(d.groups, leaders), promoted := d.promoted + leaders), Success)
  }

  // ---- Epoch end ----

  function EndEpoch(d: Device): Device {
    d.(bound := map[], modulus := map[], tags := {}, groups := map[], promoted := {}, log := [])
  }

  /** The stored bytes once the values of `done` have been read back. */
  function Exported(d: Device, done: set<DevAddr>): (host: map<DevAddr, Bytes>) {
    d.host + map a | a in done && a in d.bound :: Fit(d.bound[a], d.heap.polyBytes)
  }

  /** Whether an epoch end reads results back into the stored bytes. */
  predicate ReadsBack(env: BackendOutcome, replay: bool) {
    replay && env != StopFailed && env != HookFailed && env != ReplayFailed
  }

  /** The addresses whose results are read back and stored. */
  function StoredBack(env: BackendOutcome, tags: set<DevAddr>): set<DevAddr> {
    if env.Interrupted? then env.stored else tags
  }

  function FaultError(fault: ReadFault): Error {
    match fault
    case NoResult => BackendOutputMissing
    case Garbled => BackendOutputDecodeFailed
    case NotLive => UnknownAddress
  }

  function ReadStatus(env: BackendOutcome): Status {
    if env.Interrupted? then Failure(FaultError(env.fault)) else Success
  }

  /** Whether reading back can go as `env` says. It succeeds only if all that is tagged is allocated, and
      an address that is not allocated stops it only if there is one. */
  predicate CanReadBack(env: BackendOutcome, tags: set<DevAddr>, live: set<DevAddr>) {
    if env.Interrupted? then
      env.stored < tags && env.stored <= live && (env.fault == NotLive ==> !(tags <= live))
    else
      tags <= live
  }

  function Finalize(d: Device, env: BackendOutcome, replay: bool): (Device, Status) {
    if d.tags == {} && d.promoted == {} then (EndEpoch(d), Success)
    else if env == StopFailed then (EndEpoch(d), Failure(BackendReplayFailed))
    else if env == HookFailed then (EndEpoch(d), Failure(BridgeHookFailed))
    else if !replay then (EndEpoch(d), Success)
    else if env == ReplayFailed then (EndEpoch(d), Failure(BackendReplayFailed))
    else
      (EndEpoch(d.(host := Exported(d, StoredBack(env, d.tags)))), ReadStatus(env))
  }

  /** What an outside reader gets for a group: the value and modulus of each residue. */
  function GroupValue(d: Device, g: Group): seq<(Bytes, nat)>
    requires |g.addrs| == |g.moduli|
  {
    seq(|g.addrs|, i requires 0 <= i < |g.addrs| =>
      (if g.addrs[i] in d.bound then d.bound[g.addrs[i]] else [], g.moduli[i]))
  }

  // ---- Arithmetic ----

  function Results(sem: Semantics, op: OpCode, args: seq<Bytes>, base: seq<nat>): (vs: seq<Bytes>)
    ensures |vs| == |base|
  {
    seq(|base|, i requires 0 <= i < |base| => sem(op.(out := base[i]), args))
  }

  function BinaryOp(sem: Semantics, d: Device, name: string, dst: DevAddr, src1: DevAddr, src2: DevAddr,
                    modIdx: int): (Device, Status) {
    var q := Modulus(d.cfg, modIdx);
    if q == 0 then (d, Failure(InvalidArgument))
    else
      var (d1, r) := ReadAll(d, [src1, src2]);
      match r
      case Err(e) => (d1, Failure(e))
      case Ok(vs) => (Bind(d1, dst, sem(OpCode(name, [], [], [], q), vs), q), Success)
  }

  function UnaryOp(sem: Semantics, d: Device, name: string, imm: seq<nat>, dst: DevAddr, src: DevAddr,
                   modIdx: int): (Device, Status) {
    var q := Modulus(d.cfg, modIdx);
    if q == 0 then (d, Failure(InvalidArgument))
    else
      var (d1, r) := ReadAll(d, [src]);
      match r
      case Err(e) => (d1, Failure(e))
      case Ok(vs) => (Bind(d1, dst, sem(OpCode(name, imm, [], [], q), vs), q), Success)
  }

  /** A slot permutation carries no modulus of its own; the result keeps the source's. */
  function AutomorphOp(sem: Semantics, d: Device, name: string, index: nat, dst: DevAddr,
                       src: DevAddr): (Device, Status) {
    var (d1, r) := ReadAll(d, [src]);
    match r
    case Err(e) => (d1, Failure(e))
    case Ok(vs) =>
      (Bind(d1, dst, sem(OpCode(name, [index], [], [], COPY_MODULUS), vs), Recorded(d1, src)), Success)
  }

  /** Reads every residue of every source array, then stores every residue of the result. */
  function MrpOp(sem: Semantics, d: Device, op: OpCode, dsts: seq<DevAddr>, srcs: seq<DevAddr>,
                 dstBase: seq<nat>): (Device, Status)
    requires |dsts| == |dstBase|
  {
    var (d1, r) := ReadAll(d, srcs);
    match r
    case Err(e) => (d1, Failure(e))
    case Ok(vs) => (StoreMrp(d1, dsts, Results(sem, op, vs, dstBase), dstBase), Success)
  }

  // ---- Basis conversions ----

  function Sum(lens: seq<nat>): nat {
    if lens == [] then 0 else Sum(lens[..|lens| - 1]) + lens[|lens| - 1]
  }

  /** The primes of `base` not in `dropped`, in order. */
  function Without(base: seq<nat>, dropped: seq<nat>): (r: seq<nat>)
    ensures |r| <= |base|
  {
    if base == [] then []
    else
      var n := |base| - 1;
      Without(base[..n], dropped) + if base[n] in dropped then [] else [base[n]]
  }

  function ValidateModDown(srcBase: seq<nat>, rescaleBase: seq<nat>): Status {
    if srcBase == [] || rescaleBase == [] then Failure(InvalidArgument)
    else if |rescaleBase| >= |srcBase| then Failure(InvalidArgument)
    else if exists q :: q in rescaleBase && q !in srcBase then Failure(InvalidArgument)
    else Success
  }

  /** The digit lengths are added in 64-bit arithmetic; the flat list they cut up may be empty. */
  function ValidateModUp(srcBase: seq<nat>, digitBases: seq<nat>, digitLens: seq<nat>, pBase: seq<nat>): (s: Status)
    ensures s.Success? && Sum(digitLens) < TWO_64 ==> Sum(digitLens) == |digitBases|
  {
    if srcBase == [] || digitLens == [] || pBase == [] then Failure(InvalidArgument)
    else if Sum(digitLens) % TWO_64 != |digitBases| then Failure(InvalidArgument)
    else Success
  }

  /** The primes of digit i in the flat list of digit bases. */
  function Digit(digitBases: seq<nat>, digitLens: seq<nat>, i: nat): seq<nat>
    requires i < |digitLens| && Sum(digitLens) <= |digitBases|
  {
    SumPrefix(digitLens, i);
    digitBases[Sum(digitLens[..i])..Sum(digitLens[..i]) + digitLens[i]]
  }

  lemma {:induction false} SumPrefix(lens: seq<nat>, i: nat)
    requires i < |lens|
    ensures Sum(lens[..i]) + lens[i] == Sum(lens[..i + 1]) <= Sum(lens)
    decreases |lens|
  {
    var n := |lens| - 1;
    SumStep(lens, i);
    if i == n {
      assert lens[..i + 1] == lens;
    } else {
      SumPrefix(lens[..n], i);
      assert lens[..n][..i + 1] == lens[..i + 1];
    }
  }

  lemma SumStep(lens: seq<nat>, i: nat)
    requires i < |lens|
    ensures Sum(lens[..i + 1]) == Sum(lens[..i]) + lens[i]
  {
    assert lens[..i + 1][..i] == lens[..i];
  }

  /** Lifts the first `count` digits, each to source base plus extension base, and stores each in
      its own stretch of `dsts`. */
  function LiftDigits(sem: Semantics, d: Device, dsts: seq<DevAddr>, vs: seq<Bytes>, srcBase: seq<nat>,
                      digitBases: seq<nat>, digitLens: seq<nat>, pBase: seq<nat>, count: nat): Device
    requires count <= |digitLens| && Sum(digitLens) <= |digitBases|
    requires |dsts| == |digitLens| * |srcBase + pBase|
    decreases count
  {
    if count == 0 then d
    else
      var target := srcBase + pBase;
      var i := count - 1;
      var d1 := LiftDigits(sem, d, dsts, vs, srcBase, digitBases, digitLens, pBase, i);
      Stretch(i, |digitLens|, |target|);
      StoreMrp(d1, dsts[i * |target|..(i + 1) * |target|],
               Results(sem, OpCode("fast_base_convert", [], srcBase, Digit(digitBases, digitLens, i), 0), vs, target),
               target)
  }

  lemma Stretch(i: nat, n: nat, width: nat)
    requires i < n
    ensures 0 <= i * width <= (i + 1) * width <= n * width
    ensures (i + 1) * width - i * width == width
  {
  }

  // ---- The API ----

  function Step(sem: Semantics, d: Device, call: Call): (Device, Reply)
    requires Shaped(call)
  {
    match call
    case Malloc(size) =>
      var (h, r) := Allocate(d.heap, size);
      (d.(heap := h), match r case Ok(a) => Address(a) case Err(e) => Failed(e))
    case MallocMrp(count, size) =>
      if count > MAX_CIPHERTEXT_MODULI then (d, Failed(InvalidArgument))
      else
        var (h, r) := AllocateMany(d.heap, count, size);
        (d.(heap := h), match r case Ok(addrs) => Addresses(addrs) case Err(e) => Failed(e))
    case Free(p) =>
      var d1 := if p == NULL then d else Invalidate(d, p);
      var (h, s) := FreeMany(d1.heap, [p]);
      (d1.(heap := h, host := d1.host - ({p} - {NULL})), ReplyOf(s))
    case FreeMrp(ps) =>
      if |ps| > MAX_CIPHERTEXT_MODULI then (d, Failed(InvalidArgument))
      else
        var d1 := InvalidateAll(d, ps);
        var (h, s) := FreeMany(d1.heap, ps);
        (d1.(heap := h, host := d1.host - (ToSet(ps) - {NULL})), ReplyOf(s))
    case H2D(dst, data) =>
      if dst == NULL then (d, Failed(InvalidArgument))
      else
        var (d1, s) := Upload(d, dst, data);
        if s.Failure? then (d1, ReplyOf(s)) else var (d2, s2) := TagInput(d1, dst); (d2, ReplyOf(s2))
    case H2DMrp(dsts, datas) =>
      if dsts == [] then (d, Failed(InvalidArgument))
      else
        var (d1, s) := UploadAll(d, dsts, datas);
        if s.Failure? then (d1, ReplyOf(s)) else var (d2, s2) := TagInputs(d1, dsts); (d2, ReplyOf(s2))
    case D2H(src, count) =>
      if src == NULL then (d, Failed(InvalidArgument)) else (d, DataReply(ReadBack(d, src, count)))
    case D2HMrp(srcs, count) =>
      if srcs == [] then (d, Failed(InvalidArgument))
      else (d, DataMrpReply(ReadAllStored(d.heap.live, d.host, d.heap.polyBytes, srcs, count)))
    case D2D(dst, src, _) =>
      if dst == NULL || src == NULL then (d, Failed(InvalidArgument))
      else var (d1, s) := CopyTo(d, dst, src, COPY_MODULUS); (d1, ReplyOf(s))
    case D2DMrp(dsts, srcs, base) =>
      if base == [] then (d, Failed(InvalidArgument))
      else
        var (d1, s) := CopyAll(d, dsts, srcs, base);
        if s.Failure? then (d1, ReplyOf(s))
        else (if |base| > 1 then Register(d1, dsts, base) else d1, Done)
    case Memset(p, value, count) =>
      if p == NULL then (d, Failed(InvalidArgument))
      else
        var (d1, s) := Upload(d, p, Fill(value, count));
        if s.Failure? then (d1, ReplyOf(s)) else (Invalidate(d1, p), Done)
    case Binary(name, dst, src1, src2, modIdx) =>
      if dst == NULL || src1 == NULL || src2 == NULL then (d, Failed(InvalidArgument))
      else var (d1, s) := BinaryOp(sem, d, name, dst, src1, src2, modIdx); (d1, ReplyOf(s))
    case Unary(name, imm, dst, src, modIdx) =>
      if dst == NULL || src == NULL then (d, Failed(InvalidArgument))
      else var (d1, s) := UnaryOp(sem, d, name, imm, dst, src, modIdx); (d1, ReplyOf(s))
    case Automorph(name, index, dst, src) =>
      if dst == NULL || src == NULL then (d, Failed(InvalidArgument))
      else var (d1, s) := AutomorphOp(sem, d, name, index, dst, src); (d1, ReplyOf(s))
    case BinaryMrp(name, dsts, srcs1, srcs2, base) =>
      if base == [] then (d, Failed(InvalidArgument))
      else var (d1, s) := MrpOp(sem, d, OpCode(name, [], base, base, 0), dsts, srcs1 + srcs2, base); (d1, ReplyOf(s))
    case UnaryMrp(name, imm, dsts, srcs, base) =>
      if base == [] then (d, Failed(InvalidArgument))
      else var (d1, s) := MrpOp(sem, d, OpCode(name, imm, base, base, 0), dsts, srcs, base); (d1, ReplyOf(s))
    case BasisConvert(dsts, srcs, srcBase, dstBase) =>
      if srcBase == [] || dstBase == [] then (d, Failed(InvalidArgument))
      else
        var op := OpCode("fast_base_convert", [], srcBase, srcBase, 0);
        var (d1, s) := MrpOp(sem, d, op, dsts, srcs, dstBase); (d1, ReplyOf(s))
    case ModDown(dsts, srcs, srcBase, rescaleBase) =>
      var v := ValidateModDown(srcBase, rescaleBase);
      if v.Failure? then (d, ReplyOf(v))
      else
        var op := OpCode("rescale_fbc", [], srcBase, rescaleBase, 0);
        var (d1, s) := MrpOp(sem, d, op, dsts, srcs, Without(srcBase, rescaleBase)); (d1, ReplyOf(s))
    case ModUp(dsts, srcs, srcBase, digitBases, digitLens, pBase) =>
      var v := ValidateModUp(srcBase, digitBases, digitLens, pBase);
      if v.Failure? then (d, ReplyOf(v))
      else
        var (d1, r) := ReadAll(d, srcs);
        (match r
         case Err(e) => (d1, Failed(e))
         case Ok(vs) => (LiftDigits(sem, d1, dsts, vs, srcBase, digitBases, digitLens, pBase, |digitLens|), Done))
    case TagOutput(p) =>
      if p == NULL then (d, Failed(InvalidArgument))
      else var (d1, s) := TagOut(d, p); (d1, ReplyOf(s))
    case Flush(env) =>
      if env == FormatRejected then (d, Failed(UnsupportedDataFormat))
      else var (d1, s) := Finalize(d, env, true); (d1, ReplyOf(s))
    case WriteProgram(env) =>
      var (d1, s) := Finalize(d, env, false); (d1, ReplyOf(s))
    case SetRingDimension(n) =>
      if !IsPowerOfTwo(n) then (d, Failed(InvalidArgument))
      else if d.cfg.configured && d.cfg.ringDim != n then (d, Failed(NotConfigured))
      else (d.(cfg := d.cfg.(ringDim := n), heap := SetPolynomialSize(d.heap, PolynomialSize(n))), Done)
    case SetModulus(idx, q) =>
      var (c, s) := SettingsSetModulus(d.cfg, idx, q); (d.(cfg := c), ReplyOf(s))
    case ConfigureDevice =>
      if d.cfg.ringDim == 0 then (d, Failed(NotConfigured)) else (d.(cfg := d.cfg.(configured := true)), Done)
    case DeviceReset => (RESET, Done)
  }

  /** Read-back looks at stored bytes only. */
  function ReadBack(d: Device, a: DevAddr, count: nat): Result<Bytes> {
    ReadStored(d.heap.live, d.host, d.heap.polyBytes, a, count)
  }

  // ---- What a caller must respect ----

  /** The arrays of a call have the lengths its base promises. */
  predicate Shaped(call: Call) {
    match call
    case H2DMrp(dsts, datas) => |datas| == |dsts| && forall i, j :: 0 <= i < j < |datas| ==> |datas[i]| == |datas[j]|
    case D2DMrp(dsts, srcs, base) => |dsts| == |srcs| == |base|
    case BinaryMrp(_, dsts, srcs1, srcs2, base) => |dsts| == |srcs1| == |srcs2| == |base|
    case UnaryMrp(_, _, dsts, srcs, base) => |dsts| == |srcs| == |base|
    case BasisConvert(dsts, srcs, srcBase, dstBase) => |srcs| == |srcBase| && |dsts| == |dstBase|
    case ModDown(dsts, srcs, srcBase, rescaleBase) =>
      |srcs| == |srcBase| && |dsts| == |Without(srcBase, rescaleBase)|
    case ModUp(dsts, srcs, srcBase, _, digitLens, pBase) =>
      |srcs| == |srcBase| && |dsts| == |digitLens| * |srcBase + pBase| && Sum(digitLens) < TWO_64
    case SetRingDimension(n) => n < TWO_64
    case _ => true
  }

  /** The destinations of a call; a null single destination is refused. */
  function Destinations(call: Call): seq<DevAddr> {
    match call
    case D2D(dst, _, _) => if dst == NULL then [] else [dst]
    case D2DMrp(dsts, _, _) => dsts
    case Binary(_, dst, _, _, _) => if dst == NULL then [] else [dst]
    case Unary(_, _, dst, _, _) => if dst == NULL then [] else [dst]
    case Automorph(_, _, dst, _) => if dst == NULL then [] else [dst]
    case BinaryMrp(_, dsts, _, _, _) => dsts
    case UnaryMrp(_, _, dsts, _, _) => dsts
    case BasisConvert(dsts, _, _, _) => dsts
    case ModDown(dsts, _, _, _) => dsts
    case ModUp(dsts, _, _, _, _, _) => dsts
    case _ => []
  }

  /** What the library leaves to its caller: the arrays have their lengths, and the size of a polynomial
      changes only while nothing is allocated. A flush goes in a way that is possible. */
  predicate Lawful(d: Device, call: Call) {
    && Shaped(call)
    && (call.SetRingDimension? && PolynomialSize(call.n) != d.heap.polyBytes ==> d.heap.live == {})
    && (call.Flush? && call.env != FormatRejected && ReadsBack(call.env, true) ==>
          CanReadBack(call.env, d.tags, d.heap.live))
  }

  /** The calls after which an epoch's bindings, groups and names are gone. */
  predicate EndsEpoch(call: Call) {
    call.Flush? || call.WriteProgram? || call.DeviceReset?
  }

  /** The device and the replies after a list of calls. */
  function Run(sem: Semantics, d: Device, calls: seq<Call>): (Device, seq<Reply>)
    requires forall i :: 0 <= i < |calls| ==> Shaped(calls[i])
    decreases |calls|
  {
    if calls == [] then (d, [])
    else
      var n := |calls| - 1;
      var (d1, replies) := Run(sem, d, calls[..n]);
      var (d2, reply) := Step(sem, d1, calls[n]);
      (d2, replies + [reply])
  }

  ghost predicate LawfulRun(sem: Semantics, d: Device, calls: seq<Call>) {
    && (forall i :: 0 <= i < |calls| ==> Shaped(calls[i]))
    && forall i :: 0 <= i < |calls| ==> Lawful(Run(sem, d, calls[..i]).0, calls[i])
  }

  lemma LawfulPrefix(sem: Semantics, d: Device, calls: seq<Call>)
    requires LawfulRun(sem, d, calls) && calls != []
    ensures var n := |calls| - 1;
      LawfulRun(sem, d, calls[..n]) && Lawful(Run(sem, d, calls[..n]).0, calls[n])
  {
    var n := |calls| - 1;
    forall i | 0 <= i < n ensures Lawful(Run(sem, d, calls[..n][..i]).0, calls[..n][i]) {
      assert calls[..n][..i] == calls[..i];
    }
  }
}
