/**
 Recording refines computing at once. Abs reads a recorder's state as the device a client sees;
 each recorder operation moves Abs exactly as the device's operation of the same name.
 */
module RecorderLaws {
  import opened Types
  import opened Trace
  import opened HeapModel
  import opened Allocator
  import opened Configuration
  import opened DeviceModel
  import opened GroupIndex
  import opened Backend
  import R = RecorderModel
  import opened RecorderModel

  ghost function Vals(sem: Semantics, r: Recorder): (vs: seq<Bytes>)
    ensures |vs| == |r.trace|
  {
    Values(sem, r.trace)
  }

  /** The device behind a recorder: bound addresses stand for the value of their instruction. */
  ghost function Abs(sem: Semantics, r: Recorder): Device {
    Device(r.cfg, r.heap, r.shadow, Denoted(Vals(sem, r), r.binding), r.modulus, r.pending.Keys,
           GroupsOf(r.table), PromotedOf(r.table), r.log)
  }

  /** Bound addresses name recorded instructions; the live-in inputs are exactly those
      bound to an input instruction. */
  ghost predicate BindingOk(binding: map<DevAddr, Handle>, trace: seq<Instr>, inputs: set<DevAddr>) {
    && (forall a :: a in binding ==> binding[a] < |trace|)
    && inputs <= binding.Keys
    && forall a :: a in binding ==> (a in inputs <==> trace[binding[a]].Input?)
  }

  ghost predicate StoredOk(r: Recorder) {
    && r.heap.polyBytes % 8 == 0
    && r.shadow.Keys <= r.heap.live
    && forall a :: a in r.shadow ==> |r.shadow[a]| == r.heap.polyBytes
  }

  ghost predicate SameInput(tags: map<nat, Handle>, k: nat, l: nat) {
    k in tags && l in tags && tags[k] == tags[l]
  }

  ghost predicate HasName(tags: map<nat, Handle>, h: Handle) {
    exists k :: k in tags && tags[k] == h
  }

  /** Every recorded input has exactly one name, and nothing else has one. */
  ghost predicate TagsOk(tags: map<nat, Handle>, counter: nat, trace: seq<Instr>) {
    && (forall k :: k in tags ==> k < counter && tags[k] < |trace| && trace[tags[k]].Input?)
    && (forall h :: 0 <= h < |trace| && trace[h].Input? ==> HasName(tags, h))
    && forall k, l :: SameInput(tags, k, l) ==> k == l
  }

  /** Everything but the group table. */
  ghost predicate CoreOk(r: Recorder) {
    && StoredOk(r)
    && BindingOk(r.binding, r.trace, r.inputs)
    && r.pending.Keys <= r.binding.Keys
    && r.modulus.Keys <= r.binding.Keys
    && r.inNames.Keys <= r.binding.Keys
    && NamesOk(r.pending, r.outCount)
    && NamesOk(r.inNames, r.mrpInCount)
    && TagsOk(r.inputTags, r.inCount, r.trace)
    && (!r.recording ==> r.trace == [] && r.pending == map[])
    && (r.recording ==> r.initialized)
  }

  /** The group table: members and leaders are bound. */
  ghost predicate TableOk(table: Index, bound: set<DevAddr>) {
    && IndexOk(table)
    && (forall a, n :: Member(table.known, a, n) ==> a in bound)
    && table.names.Keys <= bound
  }

  ghost predicate RecorderOk(r: Recorder) {
    CoreOk(r) && TableOk(r.table, r.binding.Keys)
  }

  /** What survives any operation of a session that neither touches the table nor frees. */
  ghost predicate Grows(sem: Semantics, r: Recorder, r1: Recorder) {
    && Vals(sem, r) <= Vals(sem, r1)
    && r.binding.Keys <= r1.binding.Keys
    && r1.table == r.table && r1.heap == r.heap && r1.cfg == r.cfg && r1.recording == r.recording
    && NamesGrow(r, r1)
  }

  /** Every name in the second table is where it was in the first, or is new: not below the counter. */
  ghost predicate NewOrKept(names: map<DevAddr, nat>, counter: nat, names1: map<DevAddr, nat>) {
    forall a :: a in names1 ==> (a in names && names[a] == names1[a]) || names1[a] >= counter
  }

  /** Every input name keeps its instruction; further names are new. */
  ghost predicate TagsKept(tags: map<nat, Handle>, counter: nat, tags1: map<nat, Handle>) {
    && (forall k :: k in tags ==> k in tags1 && tags1[k] == tags[k])
    && forall k :: k in tags1 ==> k in tags || k >= counter
  }

  /** The first description of an input group stays. */
  ghost predicate DescriptionsKept(tags: map<nat, seq<(Handle, nat)>>, tags1: map<nat, seq<(Handle, nat)>>) {
    forall k :: k in tags ==> k in tags1 && tags1[k] == tags[k]
  }

  /** No generated name moves to another address, instruction or description, or comes back after it
      was dropped; no recorded instruction changes. */
  ghost predicate NamesGrow(r: Recorder, r1: Recorder) {
    && r.inCount <= r1.inCount && r.outCount <= r1.outCount && r.mrpInCount <= r1.mrpInCount
    && r.table.counter <= r1.table.counter
    && r.trace <= r1.trace && r1.written == r.written && r1.probes == r.probes
    && TagsKept(r.inputTags, r.inCount, r1.inputTags)
    && DescriptionsKept(r.mrpInputTags, r1.mrpInputTags)
    && NewOrKept(r.pending, r.outCount, r1.pending)
    && NewOrKept(r.inNames, r.mrpInCount, r1.inNames)
    && NewOrKept(r.table.names, r.table.counter, r1.table.names)
  }

  lemma Kept(names: map<DevAddr, nat>, counter: nat)
    ensures NewOrKept(names, counter, names)
  {
  }

  lemma Added(names: map<DevAddr, nat>, counter: nat, a: DevAddr)
    ensures NewOrKept(names, counter, names[a := counter])
  {
  }

  lemma NamesGrowRefl(r: Recorder)
    ensures NamesGrow(r, r)
  {
  }

  lemma NamesGrowTrans(r: Recorder, r1: Recorder, r2: Recorder)
    requires NamesGrow(r, r1) && NamesGrow(r1, r2)
    ensures NamesGrow(r, r2)
  {
  }

  /** A handle and a value agree, or fail alike. */
  ghost predicate Matches(vs: seq<Bytes>, h: Result<Handle>, v: Result<Bytes>) {
    && h.Ok? == v.Ok?
    && (h.Ok? ==> h.value < |vs| && vs[h.value] == v.value)
    && (h.Err? ==> h.error == v.error)
  }

  ghost predicate MatchesAll(vs: seq<Bytes>, hs: Result<seq<Handle>>, v: Result<seq<Bytes>>) {
    && hs.Ok? == v.Ok?
    && (hs.Ok? ==> |hs.value| == |v.value| && forall i :: 0 <= i < |hs.value| ==>
          hs.value[i] < |vs| && vs[hs.value[i]] == v.value[i])
    && (hs.Err? ==> hs.error == v.error)
  }

  // ---- Binding ----

  lemma EmitAbs(sem: Semantics, r: Recorder, i: Instr)
    requires forall a :: a in r.binding ==> r.binding[a] < |r.trace|
    ensures Vals(sem, Emit(r, i)) == Vals(sem, r) + [EvalInstr(sem, i, Vals(sem, r))]
    ensures Abs(sem, Emit(r, i)) == Abs(sem, r)
  {
    ValuesAppend(sem, r.trace, i);
    DenotedAppend(Vals(sem, r), EvalInstr(sem, i, Vals(sem, r)), r.binding);
  }

  lemma DropBindingOk(binding: map<DevAddr, Handle>, trace: seq<Instr>, inputs: set<DevAddr>, a: DevAddr)
    requires BindingOk(binding, trace, inputs)
    ensures BindingOk(binding - {a}, trace, inputs - {a})
  {
  }

  lemma BindInputRefines(sem: Semantics, r: Recorder, a: DevAddr, data: Bytes)
    requires CoreOk(r) && r.recording
    ensures var r1 := BindInput(r, a, data);
      && CoreOk(r1) && Grows(sem, r, r1)
      && Abs(sem, r1) == Abs(sem, r).(bound := Abs(sem, r).bound[a := data])
      && |r.trace| < |Vals(sem, r1)| && Vals(sem, r1)[|r.trace|] == data && a in r1.binding
  {
    hide NamesOk, NamesGrow, BindingOk, TagsOk;
    NewInputTag(r.inputTags, r.inCount, r.trace, data);
    HandlesInRange(r.binding, r.trace, r.inputs);
    BindNewest(r.binding, r.trace, r.inputs, a, data);
    BindInputNames(r, a, data);
    BindInputAbs(sem, r, a, data);
  }

  lemma NewInputTag(tags: map<nat, Handle>, counter: nat, trace: seq<Instr>, data: Bytes)
    requires TagsOk(tags, counter, trace)
    ensures TagsOk(tags[counter := |trace|], counter + 1, trace + [Input(data)])
    ensures forall k :: k in tags ==> k < counter
  {
    var tags1, trace1 := tags[counter := |trace|], trace + [Input(data)];
    forall h | 0 <= h < |trace1| && trace1[h].Input? ensures HasName(tags1, h) {
      if h == |trace| {
        assert counter in tags1 && tags1[counter] == h;
      } else {
        assert HasName(tags, h);
        var k :| k in tags && tags[k] == h;
        assert k in tags1 && tags1[k] == h;
      }
    }
    forall k, l | SameInput(tags1, k, l) ensures k == l {
      if k != counter && l != counter {
        assert SameInput(tags, k, l);
      }
    }
  }

  lemma BindNewest(binding: map<DevAddr, Handle>, trace: seq<Instr>, inputs: set<DevAddr>,
                   a: DevAddr, data: Bytes)
    requires BindingOk(binding, trace, inputs)
    ensures BindingOk(binding[a := |trace|], trace + [Input(data)], inputs + {a})
  {
  }

  lemma BindInputAbs(sem: Semantics, r: Recorder, a: DevAddr, data: Bytes)
    requires forall b :: b in r.binding ==> r.binding[b] < |r.trace|
    ensures var r1 := BindInput(r, a, data);
      && Abs(sem, r1) == Abs(sem, r).(bound := Abs(sem, r).bound[a := data])
      && Vals(sem, r) <= Vals(sem, r1) && Vals(sem, r1)[|r.trace|] == data
  {
    EmitAbs(sem, r, Input(data));
    DenotedBind(Vals(sem, Emit(r, Input(data))), r.binding, a, |r.trace|);
  }

  lemma HandlesInRange(binding: map<DevAddr, Handle>, trace: seq<Instr>, inputs: set<DevAddr>)
    requires BindingOk(binding, trace, inputs)
    ensures forall b :: b in binding ==> binding[b] < |trace|
  {
  }

  lemma BindInputNames(r: Recorder, a: DevAddr, data: Bytes)
    requires forall k :: k in r.inputTags ==> k < r.inCount
    ensures NamesGrow(r, BindInput(r, a, data))
  {
  }

  lemma GrowsTrans(sem: Semantics, r: Recorder, r1: Recorder, r2: Recorder)
    requires Grows(sem, r, r1) && Grows(sem, r1, r2)
    ensures Grows(sem, r, r2)
  {
    hide NamesGrow;
    NamesGrowTrans(r, r1, r2);
  }

  lemma GrowsRefl(sem: Semantics, r: Recorder)
    ensures Grows(sem, r, r)
  {
  }

  /** Agreement survives recording more. */
  lemma MatchesGrows(vs: seq<Bytes>, vs1: seq<Bytes>, hs: Result<seq<Handle>>, v: Result<seq<Bytes>>)
    requires MatchesAll(vs, hs, v) && vs <= vs1
    ensures MatchesAll(vs1, hs, v)
  {
  }

  lemma EvictShadow(sem: Semantics, r: Recorder, a: DevAddr)
    requires CoreOk(r)
    ensures var r0 := r.(shadow := r.shadow - {a});
      CoreOk(r0) && Grows(sem, r, r0) && Abs(sem, r0) == Abs(sem, r).(host := Abs(sem, r).host - {a})
  {
  }

  lemma BoundValue(sem: Semantics, r: Recorder, a: DevAddr)
    requires CoreOk(r) && a in r.binding
    ensures a in Abs(sem, r).bound
    ensures Matches(Vals(sem, r), Ok(r.binding[a]), Ok(Abs(sem, r).bound[a]))
  {
  }

  lemma AbsReads(sem: Semantics, r: Recorder, a: DevAddr)
    ensures var d := Abs(sem, r);
      d.heap == r.heap && d.host == r.shadow && d.cfg == r.cfg && (a in d.bound <==> a in r.binding)
  {
  }

  lemma LookupRefines(sem: Semantics, r: Recorder, a: DevAddr)
    requires CoreOk(r) && r.recording
    ensures var (r1, h) := Lookup(r, a); var (d, v) := Read(Abs(sem, r), a);
      && CoreOk(r1) && Grows(sem, r, r1) && Abs(sem, r1) == d && Matches(Vals(sem, r1), h, v)
      && (h.Ok? ==> a in r1.binding)
  {
    hide CoreOk, Grows, Abs, BindInput;
    GrowsRefl(sem, r);
    AbsReads(sem, r, a);
    if a in r.binding {
      BoundValue(sem, r, a);
    } else {
      var s := ComponentsStatus(r.heap.live, r.shadow, r.heap.polyBytes, a, r.cfg.ringDim);
      EvictShadow(sem, r, a);
      if s.Success? {
        var r0 := r.(shadow := r.shadow - {a});
        AbsReads(sem, r0, a);
        BindInputRefines(sem, r0, a, r.shadow[a]);
        GrowsTrans(sem, r, r0, BindInput(r0, a, r.shadow[a]));
      }
    }
  }

  lemma {:induction false} LookupAllRefines(sem: Semantics, r: Recorder, srcs: seq<DevAddr>)
    requires CoreOk(r) && r.recording
    ensures var (r1, hs) := LookupAll(r, srcs); var (d, vs) := ReadAll(Abs(sem, r), srcs);
      && CoreOk(r1) && Grows(sem, r, r1) && Abs(sem, r1) == d && MatchesAll(Vals(sem, r1), hs, vs)
      && (hs.Ok? ==> forall a :: a in srcs ==> a in r1.binding)
    decreases |srcs|
  {
    hide CoreOk, Abs, Lookup, Read, MatchesAll;
    if srcs == [] {
      GrowsRefl(sem, r);
      NothingMatches(Vals(sem, r));
    } else {
      var n := |srcs| - 1;
      assert srcs == srcs[..n] + [srcs[n]];
      LookupAllRefines(sem, r, srcs[..n]);
      var (r1, before) := LookupAll(r, srcs[..n]);
      var values := ReadAll(Abs(sem, r), srcs[..n]).1;
      MatchesShape(Vals(sem, r1), before, values);
      if before.Ok? {
        LookupRefines(sem, r1, srcs[n]);
        var (r2, h) := Lookup(r1, srcs[n]);
        GrowsTrans(sem, r, r1, r2);
        MatchesGrows(Vals(sem, r1), Vals(sem, r2), before, values);
        MatchesSnoc(Vals(sem, r2), before, values, h, Read(Abs(sem, r1), srcs[n]).1);
      }
    }
  }

  lemma NothingMatches(vs: seq<Bytes>)
    ensures MatchesAll(vs, Ok([]), Ok([]))
  {
  }

  lemma MatchesShape(vs: seq<Bytes>, hs: Result<seq<Handle>>, v: Result<seq<Bytes>>)
    requires MatchesAll(vs, hs, v)
    ensures hs.Ok? == v.Ok? && (hs.Ok? ==> |hs.value| == |v.value|) && (hs.Err? ==> hs.error == v.error)
  {
  }

  /** One more source resolved, or the failure that ends the list. */
  lemma MatchesSnoc(vs: seq<Bytes>, hs: Result<seq<Handle>>, v: Result<seq<Bytes>>, h: Result<Handle>, w: Result<Bytes>)
    requires MatchesAll(vs, hs, v) && hs.Ok? && v.Ok? && Matches(vs, h, w)
    ensures MatchesAll(vs, if h.Ok? then Ok(hs.value + [h.value]) else Err(h.error),
                       if w.Ok? then Ok(v.value + [w.value]) else Err(w.error))
  {
  }

  lemma StoreRefines(sem: Semantics, r: Recorder, a: DevAddr, h: Handle, q: nat)
    requires CoreOk(r) && r.recording
    requires h < |r.trace| && !r.trace[h].Input?
    ensures var r1 := Store(r, a, h, q);
      && CoreOk(r1) && Grows(sem, r, r1) && a in r1.binding
      && Abs(sem, r1) == Bind(Abs(sem, r), a, Vals(sem, r)[h], q)
  {
    DenotedBind(Vals(sem, r), r.binding, a, h);
  }

  lemma ArgsValue(vs: seq<Bytes>, hs: seq<Handle>, v: seq<Bytes>)
    requires MatchesAll(vs, Ok(hs), Ok(v))
    ensures AtAll(vs, hs) == v
  {
  }

  /** Recording an operation on known sources and storing it is computing it. */
  lemma ComputeRefines(sem: Semantics, r: Recorder, op: OpCode, hs: seq<Handle>, v: seq<Bytes>, a: DevAddr, q: nat)
    requires CoreOk(r) && r.recording
    requires MatchesAll(Vals(sem, r), Ok(hs), Ok(v))
    ensures var r1 := Store(Emit(r, Compute(op, hs)), a, |r.trace|, q);
      && CoreOk(r1) && Grows(sem, r, r1) && a in r1.binding
      && Abs(sem, r1) == Bind(Abs(sem, r), a, sem(op, v), q)
      && MatchesAll(Vals(sem, r1), Ok(hs), Ok(v))
  {
    var i := Compute(op, hs);
    EmitAbs(sem, r, i);
    ArgsValue(Vals(sem, r), hs, v);
    StoreRefines(sem, Emit(r, i), a, |r.trace|, q);
  }

  lemma {:induction false} StoreAllRefines(sem: Semantics, r: Recorder, dsts: seq<DevAddr>, op: OpCode,
                                          hs: seq<Handle>, v: seq<Bytes>, base: seq<nat>, n: nat)
    requires CoreOk(r) && r.recording && n <= |dsts| == |base|
    requires MatchesAll(Vals(sem, r), Ok(hs), Ok(v))
    ensures var r1 := StoreAll(r, dsts, Ops(op, base)[..n], hs, base);
      && CoreOk(r1) && Grows(sem, r, r1)
      && Abs(sem, r1) == BindAll(Abs(sem, r), dsts, Results(sem, op, v, base)[..n], base)
      && MatchesAll(Vals(sem, r1), Ok(hs), Ok(v))
      && forall i :: 0 <= i < n ==> dsts[i] in r1.binding
  {
    hide CoreOk, Abs, MatchesAll, Bind, Store, Emit;
    if n == 0 {
      GrowsRefl(sem, r);
    } else {
      StoreAllRefines(sem, r, dsts, op, hs, v, base, n - 1);
      assert Ops(op, base)[..n][..n - 1] == Ops(op, base)[..n - 1];
      assert Results(sem, op, v, base)[..n][..n - 1] == Results(sem, op, v, base)[..n - 1];
      var r1 := StoreAll(r, dsts, Ops(op, base)[..n - 1], hs, base);
      ComputeRefines(sem, r1, op.(out := base[n - 1]), hs, v, dsts[n - 1], base[n - 1]);
      GrowsTrans(sem, r, r1, StoreAll(r, dsts, Ops(op, base)[..n], hs, base));
    }
  }

  /** Noting the modulus of a bound address. */
  lemma NoteModulus(sem: Semantics, r: Recorder, a: DevAddr, q: nat)
    requires CoreOk(r) && a in r.binding
    ensures var r1 := r.(modulus := r.modulus[a := q]);
      CoreOk(r1) && Grows(sem, r, r1) && Abs(sem, r1) == Abs(sem, r).(modulus := Abs(sem, r).modulus[a := q])
  {
  }

  lemma EmitRefines(sem: Semantics, r: Recorder, i: Instr)
    requires CoreOk(r) && r.recording && !i.Input?
    ensures CoreOk(Emit(r, i)) && Grows(sem, r, Emit(r, i)) && Abs(sem, Emit(r, i)) == Abs(sem, r)
    ensures Vals(sem, Emit(r, i))[|r.trace|] == EvalInstr(sem, i, Vals(sem, r))
  {
    hide NamesOk, BindingOk, TagsOk;
    HandlesInRange(r.binding, r.trace, r.inputs);
    EmitAbs(sem, r, i);
    LongerTrace(r.binding, r.inputs, r.inputTags, r.inCount, r.trace, i);
  }

  lemma LongerTrace(binding: map<DevAddr, Handle>, inputs: set<DevAddr>, tags: map<nat, Handle>, counter: nat,
                    trace: seq<Instr>, i: Instr)
    requires BindingOk(binding, trace, inputs) && TagsOk(tags, counter, trace) && !i.Input?
    ensures BindingOk(binding, trace + [i], inputs) && TagsOk(tags, counter, trace + [i])
  {
    hide HasName;
  }

  /** A recorded copy of a known source, with its modulus noted on both ends. */
  lemma CopyKnown(sem: Semantics, r: Recorder, dst: DevAddr, src: DevAddr, h: Handle, q: nat)
    requires CoreOk(r) && r.recording && src in r.binding && h < |r.trace|
    ensures var r2 := Emit(r, Copy(h));
      var r3 := if q != COPY_MODULUS then r2.(modulus := r2.modulus[src := q]) else r2;
      var r4 := Store(r3, dst, |r.trace|, q);
      var d := Abs(sem, r);
      var d2 := if q != COPY_MODULUS then d.(modulus := d.modulus[src := q]) else d;
      CoreOk(r4) && Grows(sem, r, r4) && Abs(sem, r4) == Bind(d2, dst, Vals(sem, r)[h], q) && dst in r4.binding
  {
    hide CoreOk, Grows, Bind, Store, Abs;
    EmitRefines(sem, r, Copy(h));
    var r2 := Emit(r, Copy(h));
    GrowsKeeps(sem, r, r2);
    var r3 := if q != COPY_MODULUS then r2.(modulus := r2.modulus[src := q]) else r2;
    NoteModulus(sem, r2, src, q);
    GrowsRefl(sem, r2);
    GrowsTrans(sem, r, r2, r3);
    StoreRefines(sem, r3, dst, |r.trace|, q);
    GrowsTrans(sem, r, r3, Store(r3, dst, |r.trace|, q));
  }

  lemma CopyResultRefines(sem: Semantics, r: Recorder, dst: DevAddr, src: DevAddr, q: nat)
    requires CoreOk(r) && r.recording
    ensures var (r1, s) := CopyResult(r, dst, src, q);
      && CoreOk(r1) && Grows(sem, r, r1) && (Abs(sem, r1), s) == CopyTo(Abs(sem, r), dst, src, q)
      && (s.Success? ==> dst in r1.binding)
  {
    hide CoreOk, Grows, Bind, Store, Lookup, Read;
    LookupRefines(sem, r, src);
    var (r1, h) := Lookup(r, src);
    GrowsKeeps(sem, r, r1);
    if h.Ok? {
      var q1 := if q == COPY_MODULUS then RecordedModulus(r1, src) else q;
      CopyKnown(sem, r1, dst, src, h.value, q1);
      GrowsTrans(sem, r, r1, CopyResult(r, dst, src, q).0);
    }
  }

  lemma GrowsKeeps(sem: Semantics, r: Recorder, r1: Recorder)
    requires Grows(sem, r, r1)
    ensures r1.heap == r.heap && r1.recording == r.recording && r.binding.Keys <= r1.binding.Keys
  {
  }

  lemma {:induction false} CopyResultsRefines(sem: Semantics, r: Recorder, dsts: seq<DevAddr>, srcs: seq<DevAddr>,
                                             base: seq<nat>)
    requires CoreOk(r) && r.recording && |srcs| <= |dsts| && |srcs| <= |base|
    ensures var (r1, s) := CopyResults(r, dsts, srcs, base);
      && CoreOk(r1) && Grows(sem, r, r1) && (Abs(sem, r1), s) == CopyAll(Abs(sem, r), dsts, srcs, base)
      && (s.Success? ==> forall i :: 0 <= i < |srcs| ==> dsts[i] in r1.binding)
    decreases |srcs|
  {
    hide CoreOk, Abs, CopyResult, CopyTo;
    if srcs == [] {
    } else {
      var n := |srcs| - 1;
      CopyResultsRefines(sem, r, dsts, srcs[..n], base);
      var (r1, s) := CopyResults(r, dsts, srcs[..n], base);
      if s.Success? {
        CopyResultRefines(sem, r1, dsts[n], srcs[n], base[n]);
        GrowsTrans(sem, r, r1, CopyResult(r1, dsts[n], srcs[n], base[n]).0);
      }
    }
  }

  // ---- Uploads ----

  lemma CopyInRefines(sem: Semantics, r: Recorder, dst: DevAddr, data: Bytes)
    requires CoreOk(r)
    ensures var (r1, s) := CopyIn(r, dst, data);
      CoreOk(r1) && Grows(sem, r, r1) && (Abs(sem, r1), s) == Upload(Abs(sem, r), dst, data)
  {
    hide CoreOk, Grows, Abs, WriteFront;
    GrowsRefl(sem, r);
    AbsReads(sem, r, dst);
    if dst in r.heap.live && |data| <= r.heap.polyBytes {
      WrittenStored(r, dst, data);
      WithShadow(sem, r, WriteFront(r.shadow, dst, data, r.heap.polyBytes));
    }
  }

  lemma WrittenStored(r: Recorder, dst: DevAddr, data: Bytes)
    requires CoreOk(r) && dst in r.heap.live && |data| <= r.heap.polyBytes
    ensures StoredOk(r.(shadow := WriteFront(r.shadow, dst, data, r.heap.polyBytes)))
  {
    hide NamesOk, BindingOk, TagsOk;
  }

  lemma WithShadow(sem: Semantics, r: Recorder, shadow: map<DevAddr, Bytes>)
    requires CoreOk(r) && StoredOk(r.(shadow := shadow))
    ensures var r1 := r.(shadow := shadow);
      CoreOk(r1) && Grows(sem, r, r1) && Abs(sem, r1) == Abs(sem, r).(host := shadow)
  {
    hide NamesOk, BindingOk, TagsOk, StoredOk;
  }

  lemma {:induction false} CopyInAllRefines(sem: Semantics, r: Recorder, dsts: seq<DevAddr>, datas: seq<Bytes>)
    requires CoreOk(r) && |datas| <= |dsts|
    ensures var (r1, s) := CopyInAll(r, dsts, datas);
      CoreOk(r1) && Grows(sem, r, r1) && (Abs(sem, r1), s) == UploadAll(Abs(sem, r), dsts, datas)
    decreases |datas|
  {
    hide CoreOk, Abs, CopyIn, Upload;
    if datas == [] {
    } else {
      var n := |datas| - 1;
      CopyInAllRefines(sem, r, dsts, datas[..n]);
      var r1 := CopyInAll(r, dsts, datas[..n]).0;
      CopyInRefines(sem, r1, dsts[n], datas[n]);
      GrowsTrans(sem, r, r1, CopyIn(r1, dsts[n], datas[n]).0);
    }
  }

  lemma DropPending(sem: Semantics, r: Recorder, a: DevAddr)
    requires CoreOk(r)
    ensures var r1 := r.(pending := r.pending - {a});
      CoreOk(r1) && Grows(sem, r, r1) && Abs(sem, r1) == Abs(sem, r).(tags := Abs(sem, r).tags - {a})
  {
    hide NamesOk, BindingOk, TagsOk;
    NamesShrink(r.pending, r.outCount, a);
  }

  lemma TagH2DInputRefines(sem: Semantics, r: Recorder, a: DevAddr)
    requires CoreOk(r) && r.recording
    ensures var (r1, s) := TagH2DInput(r, a);
      CoreOk(r1) && Grows(sem, r, r1) && (Abs(sem, r1), s) == TagInput(Abs(sem, r), a)
  {
    hide CoreOk, Grows;
    GrowsRefl(sem, r);
    if ComponentsStatus(r.heap.live, r.shadow, r.heap.polyBytes, a, r.cfg.ringDim).Success? {
      BindInputRefines(sem, r, a, r.shadow[a]);
      var r1 := BindInput(r, a, r.shadow[a]);
      DropPending(sem, r1, a);
      GrowsTrans(sem, r, r1, r1.(pending := r1.pending - {a}));
    }
  }

  lemma {:induction false} TagH2DInputsRefines(sem: Semantics, r: Recorder, addrs: seq<DevAddr>)
    requires CoreOk(r) && r.recording
    ensures var (r1, s) := TagH2DInputs(r, addrs);
      CoreOk(r1) && Grows(sem, r, r1) && (Abs(sem, r1), s) == TagInputs(Abs(sem, r), addrs)
    decreases |addrs|
  {
    hide CoreOk, Abs, TagH2DInput, TagInput;
    if addrs == [] {
    } else {
      var n := |addrs| - 1;
      TagH2DInputsRefines(sem, r, addrs[..n]);
      var (r1, s) := TagH2DInputs(r, addrs[..n]);
      if s.Success? {
        TagH2DInputRefines(sem, r1, addrs[n]);
        GrowsTrans(sem, r, r1, TagH2DInput(r1, addrs[n]).0);
      }
    }
  }
}
