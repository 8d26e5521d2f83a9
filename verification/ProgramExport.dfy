/**
 The program that an epoch end writes, for replay in the process or elsewhere. Evaluating it gives,
 under one name for each tagged address and each promoted group and under no other, the values that
 the machine which computes at once has for them.
 */
module ProgramExport {
  import opened Types
  import opened Trace
  import opened HeapModel
  import opened Allocator
  import opened Configuration
  import opened DeviceModel
  import opened DeviceInvariant
  import opened GroupIndex
  import opened Backend
  import R = RecorderModel
  import opened RecorderLaws
  import opened RecorderTableLaws
  import opened Refinement

  type Memory = map<DevAddr, Bytes>

  // ---- What a written program must hold ----

  ghost predicate OneToOne(names: map<DevAddr, nat>) {
    forall a, b :: SameName(names, a, b) ==> a == b
  }

  /** Instruction h of the list computes v. */
  predicate Computes(vs: seq<Bytes>, h: Handle, v: Bytes) {
    h < |vs| && vs[h] == v
  }

  /** One output for each named address, and no other, with the value of the address. */
  ghost predicate OutputsWritten(vs: seq<Bytes>, outputs: map<nat, Handle>, names: map<DevAddr, nat>, m: Memory) {
    && OneToOne(names) && outputs.Keys == names.Values
    && forall a :: a in names ==> a in m && names[a] in outputs && Computes(vs, outputs[names[a]], m[a])
  }

  /** The residues of a group in order, each with its modulus. */
  predicate GroupWritten(vs: seq<Bytes>, residues: seq<(Handle, nat)>, g: Group, m: Memory) {
    && |residues| == |g.addrs| == |g.moduli|
    && forall i :: 0 <= i < |residues| ==>
         g.addrs[i] in m && Computes(vs, residues[i].0, m[g.addrs[i]]) && residues[i].1 == g.moduli[i]
  }

  /** One output group for each named leader, and no other. */
  ghost predicate GroupsWritten(vs: seq<Bytes>, outputs: map<nat, seq<(Handle, nat)>>, names: map<DevAddr, nat>,
                                groups: map<DevAddr, Group>, m: Memory) {
    && OneToOne(names) && outputs.Keys == names.Values
    && forall l :: l in names ==>
         l in groups && names[l] in outputs && GroupWritten(vs, outputs[names[l]], groups[l], m)
  }

  /** Every input of the list has one name, and nothing else has one. */
  ghost predicate InputsWritten(trace: seq<Instr>, inputs: map<nat, Handle>) {
    && (forall k :: k in inputs ==> inputs[k] < |trace| && trace[inputs[k]].Input?)
    && (forall h :: 0 <= h < |trace| && trace[h].Input? ==> HasName(inputs, h))
    && forall k, l :: SameInput(inputs, k, l) ==> k == l
  }

  /** `w` exports the tags and promotions of `d` under the given names. */
  ghost predicate Exports(sem: Semantics, d: Device, w: Program, names: map<DevAddr, nat>, groupNames: map<DevAddr, nat>) {
    && names.Keys == d.tags && groupNames.Keys == d.promoted
    && OutputsWritten(Values(sem, w.trace), w.outputs, names, Mem(d))
    && GroupsWritten(Values(sem, w.trace), w.outputGroups, groupNames, d.groups, Mem(d))
    && InputsWritten(w.trace, w.inputs)
  }

  // ---- A well-formed recorder writes it ----

  /** The names of the promoted groups by leader. */
  ghost function GroupNames(table: Index): map<DevAddr, nat> {
    map l | l in table.names && table.names[l] in table.pending :: table.names[l]
  }

  lemma OutputAt(pending: map<DevAddr, nat>, binding: map<DevAddr, Handle>, a: DevAddr)
    requires OneToOne(pending) && a in pending && a in binding
    ensures pending[a] in R.OutputsOf(pending, binding) && R.OutputsOf(pending, binding)[pending[a]] == binding[a]
  {
    var k := pending[a];
    assert k in pending.Values;
    var b := R.NamedBy(pending, k);
    assert SameName(pending, a, b);
  }

  lemma OutputKeys(pending: map<DevAddr, nat>, binding: map<DevAddr, Handle>)
    requires pending.Keys <= binding.Keys
    ensures R.OutputsOf(pending, binding).Keys == pending.Values
  {
    forall k | k in pending.Values ensures k in R.OutputsOf(pending, binding) {
      var a := R.NamedBy(pending, k);
      assert a in pending;
    }
  }

  lemma BoundInMem(sem: Semantics, r: R.Recorder, a: DevAddr)
    requires CoreOk(r) && a in r.binding
    ensures var d := Abs(sem, r); a in Mem(d) && Computes(Vals(sem, r), r.binding[a], Mem(d)[a])
  {
    hide StoredOk, NamesOk, TagsOk;
    BoundValue(sem, r, a);
  }

  lemma WritesOutputs(sem: Semantics, r: R.Recorder)
    requires RecorderOk(r)
    ensures OutputsWritten(Vals(sem, r), R.OutputsOf(r.pending, r.binding), r.pending, Mem(Abs(sem, r)))
  {
    hide TableOk, Abs, R.OutputsOf, StoredOk, BindingOk, TagsOk, Mem, Computes;
    OutputKeys(r.pending, r.binding);
    forall a | a in r.pending
      ensures a in Mem(Abs(sem, r)) && r.pending[a] in R.OutputsOf(r.pending, r.binding)
      ensures Computes(Vals(sem, r), R.OutputsOf(r.pending, r.binding)[r.pending[a]], Mem(Abs(sem, r))[a])
    {
      OutputAt(r.pending, r.binding, a);
      BoundInMem(sem, r, a);
    }
  }

  lemma GroupNamesFacts(table: Index, bound: set<DevAddr>)
    requires TableOk(table, bound)
    ensures OneToOne(GroupNames(table)) && GroupNames(table).Values == table.pending
    ensures GroupNames(table).Keys == PromotedOf(table)
  {
    forall a, b | SameName(GroupNames(table), a, b) ensures a == b {
      assert SameName(table.names, a, b);
    }
    forall n | n in table.pending ensures n in GroupNames(table).Values {
      var l := LeaderOf(table, n);
      assert l in GroupNames(table) && GroupNames(table)[l] == n;
    }
  }

  lemma WritesGroup(sem: Semantics, r: R.Recorder, l: DevAddr)
    requires RecorderOk(r) && l in GroupNames(r.table)
    ensures var n := r.table.names[l]; var d := Abs(sem, r);
      && l in d.groups && n in R.OutputGroupsOf(r.table, r.binding)
      && GroupWritten(Vals(sem, r), R.OutputGroupsOf(r.table, r.binding)[n], d.groups[l], Mem(d))
  {
    hide CoreOk, Mem, Computes;
    AbsFields(sem, r);
    AlwaysExportReady(r);
    GroupByName(r.table, l);
    var n := r.table.names[l];
    var g := r.table.known[n];
    assert R.OutputGroupsOf(r.table, r.binding)[n] == R.GroupPairs(r.binding, g);
    forall i | 0 <= i < |g.addrs|
      ensures g.addrs[i] in Mem(Abs(sem, r))
      ensures Computes(Vals(sem, r), R.GroupPairs(r.binding, g)[i].0, Mem(Abs(sem, r))[g.addrs[i]])
    {
      assert Member(r.table.known, g.addrs[i], n);
      BoundInMem(sem, r, g.addrs[i]);
    }
  }

  lemma WritesGroups(sem: Semantics, r: R.Recorder)
    requires RecorderOk(r)
    ensures GroupsWritten(Vals(sem, r), R.OutputGroupsOf(r.table, r.binding), GroupNames(r.table), Abs(sem, r).groups,
                          Mem(Abs(sem, r)))
  {
    hide CoreOk, IndexOk, Abs, Mem, GroupWritten, GroupNames;
    GroupNamesFacts(r.table, r.binding.Keys);
    AlwaysExportReady(r);
    forall l | l in GroupNames(r.table)
      ensures l in Abs(sem, r).groups && GroupNames(r.table)[l] in R.OutputGroupsOf(r.table, r.binding)
      ensures GroupWritten(Vals(sem, r), R.OutputGroupsOf(r.table, r.binding)[GroupNames(r.table)[l]],
                           Abs(sem, r).groups[l], Mem(Abs(sem, r)))
    {
      WritesGroup(sem, r, l);
      assert GroupNames(r.table)[l] == r.table.names[l] by {
        NamedAs(r.table, l);
      }
    }
  }

  lemma NamedAs(table: Index, l: DevAddr)
    requires l in GroupNames(table)
    ensures l in table.names && GroupNames(table)[l] == table.names[l]
  {
  }

  lemma WritesInputs(r: R.Recorder)
    requires CoreOk(r)
    ensures InputsWritten(r.trace, r.inputTags)
  {
    hide StoredOk, BindingOk, NamesOk;
  }

  lemma WritesAll(sem: Semantics, r: R.Recorder)
    requires RecorderOk(r)
    ensures Exports(sem, Abs(sem, r), R.WrittenProgram(r), r.pending, GroupNames(r.table))
  {
    hide CoreOk, IndexOk, Abs, Mem, OutputsWritten, GroupsWritten, InputsWritten, GroupNames, R.OutputsOf, R.OutputGroupsOf;
    AbsFields(sem, r);
    GroupNamesFacts(r.table, r.binding.Keys);
    WritesOutputs(sem, r);
    WritesGroups(sem, r);
    WritesInputs(r);
  }

  // ---- Epoch ends ----

  /** A call that ends an epoch with something to export and whose back end gets to write it. */
  predicate Writes(d: Device, call: Call) {
    && (call.WriteProgram? || (call.Flush? && call.env != FormatRejected))
    && (d.tags != {} || d.promoted != {}) && call.env != StopFailed
  }

  lemma FinalizeWrites(sem: Semantics, r: R.Recorder, env: BackendOutcome, replay: bool)
    ensures R.FinalizeLocked(sem, r, env, replay).0.written ==
      if r.recording && (r.pending != map[] || r.table.pending != {}) && env != StopFailed then R.WrittenProgram(r)
      else r.written
  {
    hide R.WrittenProgram, R.ReplayedShadow, R.ReplayedProbes;
  }

  /** Whether there is something to export, seen from the recorder. */
  lemma SomethingPending(sem: Semantics, r: R.Recorder)
    requires RecorderOk(r)
    ensures var d := Abs(sem, r);
      d.tags != {} || d.promoted != {} <==> r.recording && (r.pending != map[] || r.table.pending != {})
  {
    hide CoreOk, TableOk, Abs;
    AbsFields(sem, r);
    PromotedMatchesPending(r.table, r.binding.Keys) by {
      TableIsOk(r);
    }
    if !r.recording {
      IdleIsCleared(sem, r);
    }
  }

  lemma EndWrites(sem: Semantics, r: R.Recorder, call: Call)
    requires RecorderOk(r) && (call.WriteProgram? || call.Flush?)
    ensures var r1 := R.Act(sem, r, call).0;
      r1.written == if Writes(Abs(sem, r), call) then R.WrittenProgram(r) else r.written
  {
    hide RecorderOk, Abs, R.WrittenProgram, R.FinalizeLocked;
    SomethingPending(sem, r);
    FinalizeWrites(sem, r, call.env, call.Flush?);
  }

  lemma TableIsOk(r: R.Recorder)
    requires RecorderOk(r)
    ensures TableOk(r.table, r.binding.Keys)
  {
  }

  lemma StepWrites(sem: Semantics, r: R.Recorder, call: Call)
    requires RecorderOk(r) && Lawful(Abs(sem, r), call)
    ensures Shaped(call)
    ensures var d := Abs(sem, r); var (r1, reply) := R.Act(sem, r, call);
      && r1.written == (if Writes(d, call) then R.WrittenProgram(r) else r.written)
      && ((call.WriteProgram? || call.Flush?) && reply.Done? && (d.tags != {} || d.promoted != {}) ==> Writes(d, call))
  {
    hide RecorderOk, Abs, R.Act, Step, R.WrittenProgram, NamesGrow;
    ActRefines(sem, r, call);
    if call.WriteProgram? || call.Flush? {
      EndWrites(sem, r, call);
      DoneMeansStopped(sem, Abs(sem, r), call);
    } else if call.DeviceReset? {
      ResetKeepsWritten(sem, r);
    } else {
      NamesKeepWritten(r, R.Act(sem, r, call).0);
    }
  }

  /** Over every lawful program: an epoch end that has something to export and whose back end does not
      refuse to stop writes a program that exports every tagged address and every promoted group with the
      values of the plain memory, and nothing else; this is the program a flush replays, and all there is
      of hazeWriteProgram. No other call changes what is written. */
  lemma WrittenExactly(sem: Semantics, calls: seq<Call>, call: Call)
    requires LawfulRun(sem, RESET, calls) && Lawful(Run(sem, RESET, calls).0, call)
    ensures var d := Run(sem, RESET, calls).0; var r := R.ActAll(sem, FRESH, calls).0;
      var (r1, reply) := R.Act(sem, r, call);
      && (Writes(d, call) ==> Exports(sem, d, r1.written, r.pending, GroupNames(r.table)))
      && (!Writes(d, call) ==> r1.written == r.written)
      && ((call.WriteProgram? || call.Flush?) && reply.Done? && (d.tags != {} || d.promoted != {}) ==> Writes(d, call))
  {
    hide RecorderOk, Abs, R.Act, Step, Lawful, Exports, R.WrittenProgram, GroupNames, Writes;
    FreshRefines(sem);
    RunRefines(sem, FRESH, calls);
    var r := R.ActAll(sem, FRESH, calls).0;
    StepWrites(sem, r, call);
    WritesAll(sem, r);
  }

  lemma DoneMeansStopped(sem: Semantics, d: Device, call: Call)
    requires call.WriteProgram? || call.Flush?
    ensures Step(sem, d, call).1.Done? && (d.tags != {} || d.promoted != {}) ==> Writes(d, call)
  {
  }

  lemma ResetKeepsWritten(sem: Semantics, r: R.Recorder)
    ensures R.Act(sem, r, DeviceReset).0.written == r.written
  {
  }

  lemma NamesKeepWritten(r: R.Recorder, r1: R.Recorder)
    requires NamesGrow(r, r1)
    ensures r1.written == r.written
  {
  }

  // ---- Replay in the process ----

  /** What a replay gives for a group: the value and modulus of each member, in order. */
  predicate GroupResult(result: seq<(Bytes, nat)>, g: Group, m: Memory) {
    && |result| == |g.addrs| == |g.moduli|
    && forall i :: 0 <= i < |result| ==> g.addrs[i] in m && result[i] == (m[g.addrs[i]], g.moduli[i])
  }

  lemma ReplaysGroup(sem: Semantics, r: R.Recorder, l: DevAddr)
    requires RecorderOk(r) && l in GroupNames(r.table)
    ensures var n := r.table.names[l]; var d := Abs(sem, r);
      && l in d.groups && n in R.ReplayedProbes(sem, r)
      && GroupResult(R.ReplayedProbes(sem, r)[n], d.groups[l], Mem(d))
  {
    hide CoreOk, IndexOk, Abs, Mem;
    WritesGroup(sem, r, l);
    AlwaysExportReady(r);
    var n := r.table.names[l];
    var pairs := R.OutputGroupsOf(r.table, r.binding)[n];
    assert R.ReplayedProbes(sem, r)[n] == Residues(Vals(sem, r), pairs);
  }

  /** After a replayed flush the groups that were promoted, and no others, can be had by name. */
  lemma ReplayedGroups(sem: Semantics, r: R.Recorder)
    requires RecorderOk(r) && (Abs(sem, r).tags != {} || Abs(sem, r).promoted != {})
    ensures var d := Abs(sem, r); var r1 := R.Act(sem, r, Flush(Replayed)).0;
      && r1.probes.Keys == GroupNames(r.table).Values && GroupNames(r.table).Keys == d.promoted
      && forall l :: l in d.promoted ==>
           && l in d.groups && l in GroupNames(r.table) && GroupNames(r.table)[l] in r1.probes
           && GroupResult(r1.probes[GroupNames(r.table)[l]], d.groups[l], Mem(d))
  {
    hide RecorderOk, Abs, Mem, GroupNames, GroupResult, R.ReplayedProbes, R.ReplayedShadow, R.WrittenProgram;
    AbsFields(sem, r);
    SomethingPending(sem, r);
    TableIsOk(r);
    GroupNamesFacts(r.table, r.binding.Keys);
    ReplayedKeys(sem, r);
    FlushProbes(sem, r);
    forall l | l in GroupNames(r.table)
      ensures l in Abs(sem, r).groups && GroupNames(r.table)[l] in R.ReplayedProbes(sem, r)
      ensures GroupResult(R.ReplayedProbes(sem, r)[GroupNames(r.table)[l]], Abs(sem, r).groups[l], Mem(Abs(sem, r)))
    {
      NamedAs(r.table, l);
      ReplaysGroup(sem, r, l);
    }
  }

  lemma FlushProbes(sem: Semantics, r: R.Recorder)
    requires r.recording && (r.pending != map[] || r.table.pending != {})
    ensures R.Act(sem, r, Flush(Replayed)).0.probes == R.ReplayedProbes(sem, r)
  {
    hide R.ReplayedShadow, R.WrittenProgram;
    assert R.ReplayedProbes(sem, r.(written := R.WrittenProgram(r))) == R.ReplayedProbes(sem, r);
  }

  lemma ReplayedKeys(sem: Semantics, r: R.Recorder)
    requires RecorderOk(r)
    ensures R.ReplayedProbes(sem, r).Keys == r.table.pending
  {
    AlwaysExportReady(r);
  }

  // ---- Input groups ----

  /** `a` is bound to a recorded input. */
  predicate LiveIn(r: R.Recorder, a: DevAddr) {
    a in r.binding && r.binding[a] < |r.trace| && r.trace[r.binding[a]].Input?
  }

  lemma ReadKeepsMem(d: Device, a: DevAddr)
    requires Read(d, a).1.Ok?
    ensures a in Mem(d) && Read(d, a).1.value == Mem(d)[a] && Mem(Read(d, a).0) == Mem(d)
  {
  }

  lemma {:induction false} ReadAllValues(d: Device, srcs: seq<DevAddr>)
    requires ReadAll(d, srcs).1.Ok?
    ensures var (d1, r) := ReadAll(d, srcs);
      Mem(d1) == Mem(d) && forall i :: 0 <= i < |srcs| ==> srcs[i] in Mem(d) && r.value[i] == Mem(d)[srcs[i]]
    decreases |srcs|
  {
    hide Read, Mem;
    if srcs != [] {
      var n := |srcs| - 1;
      ReadAllValues(d, srcs[..n]);
      ReadKeepsMem(ReadAll(d, srcs[..n]).0, srcs[n]);
      forall i | 0 <= i < n ensures srcs[i] in Mem(d) && ReadAll(d, srcs[..n]).1.value[i] == Mem(d)[srcs[i]] {
        assert srcs[..n][i] == srcs[i];
      }
    }
  }

  lemma {:induction false} LookupDescribesNothing(r: R.Recorder, srcs: seq<DevAddr>)
    ensures var r1 := R.LookupAll(r, srcs).0; r1.mrpInputTags == r.mrpInputTags && r1.inNames == r.inNames
    decreases |srcs|
  {
    hide R.Lookup;
    if srcs != [] {
      var n := |srcs| - 1;
      LookupDescribesNothing(r, srcs[..n]);
      LookupOneDescribesNothing(R.LookupAll(r, srcs[..n]).0, srcs[n]);
    }
  }

  lemma LookupOneDescribesNothing(r: R.Recorder, a: DevAddr)
    ensures var r1 := R.Lookup(r, a).0; r1.mrpInputTags == r.mrpInputTags && r1.inNames == r.inNames
  {
    hide ComponentsStatus, R.BindInput;
    if a in r.shadow {
      BindDescribesNothing(r.(shadow := r.shadow - {a}), a, r.shadow[a]);
    }
  }

  lemma BindDescribesNothing(r: R.Recorder, a: DevAddr, data: Bytes)
    ensures var r1 := R.BindInput(r, a, data); r1.mrpInputTags == r.mrpInputTags && r1.inNames == r.inNames
  {
  }

  lemma InputsAreLiveIn(r: R.Recorder, a: DevAddr)
    requires CoreOk(r)
    ensures a in r.inputs <==> LiveIn(r, a)
  {
    hide StoredOk, NamesOk, TagsOk;
  }

  /** The description of `srcs` under name n: the instructions that compute its residues, in order, each
      with its modulus. */
  ghost predicate Described(sem: Semantics, r: R.Recorder, r1: R.Recorder, n: nat, srcs: seq<DevAddr>, base: seq<nat>)
    requires |srcs| == |base|
  {
    && n in r1.mrpInputTags
    && (n in r.mrpInputTags ==> r1.mrpInputTags == r.mrpInputTags)
    && (n !in r.mrpInputTags ==>
          && r1.mrpInputTags == r.mrpInputTags[n := r1.mrpInputTags[n]]
          && GroupWritten(Vals(sem, r1), r1.mrpInputTags[n], Group(srcs, base), Mem(Abs(sem, r))))
  }

  /** Resolving an array whose first residue is a recorded input describes it under that residue's name,
      unless the name has a description already; nothing else is described. */
  lemma InputGroupDescribed(sem: Semantics, r: R.Recorder, srcs: seq<DevAddr>, base: seq<nat>)
    requires CoreOk(r) && r.recording && |srcs| == |base|
    ensures var (r1, hs) := R.BuildMrp(r, srcs, base);
      if hs.Ok? && |srcs| > 1 && LiveIn(r1, srcs[0]) then
        srcs[0] in r1.inNames && Described(sem, r, r1, r1.inNames[srcs[0]], srcs, base)
      else r1.mrpInputTags == r.mrpInputTags
  {
    hide CoreOk, Abs, Grows, R.LookupAll, R.BuildMrp, R.Pairs, ReadAll, MatchesAll, GroupWritten, LiveIn, Mem;
    LookupAllRefines(sem, r, srcs);
    LookupDescribesNothing(r, srcs);
    BuildMrpRefines(sem, r, srcs, base);
    BuildShape(r, srcs, base);
    var (r0, hs) := R.LookupAll(r, srcs);
    var r1 := R.BuildMrp(r, srcs, base).0;
    if hs.Ok? && |srcs| > 1 {
      InputsAreLiveIn(r0, srcs[0]);
      SameLiveIn(r0, r1, srcs[0]);
      var v := ReadAll(Abs(sem, r), srcs).1;
      MatchesShape(Vals(sem, r1), hs, v);
      ReadAllValues(Abs(sem, r), srcs);
      PairsWritten(Vals(sem, r1), hs.value, v.value, srcs, base, Mem(Abs(sem, r)));
    }
  }

  lemma BuildShape(r: R.Recorder, srcs: seq<DevAddr>, base: seq<nat>)
    requires |srcs| == |base|
    ensures var (r0, hs) := R.LookupAll(r, srcs); var (r1, hs1) := R.BuildMrp(r, srcs, base);
      && hs1 == hs && r1.trace == r0.trace && r1.binding == r0.binding
      && if hs.Ok? && |srcs| > 1 && srcs[0] in r0.inputs then
           && srcs[0] in r1.inNames
           && r1.mrpInputTags ==
                if r1.inNames[srcs[0]] in r0.mrpInputTags then r0.mrpInputTags
                else r0.mrpInputTags[r1.inNames[srcs[0]] := R.Pairs(hs.value, base)]
         else r1.mrpInputTags == r0.mrpInputTags
  {
    hide R.LookupAll, R.Pairs;
  }

  lemma SameLiveIn(r: R.Recorder, r1: R.Recorder, a: DevAddr)
    requires r1.trace == r.trace && r1.binding == r.binding
    ensures LiveIn(r, a) <==> LiveIn(r1, a)
  {
  }

  lemma PairsWritten(vs: seq<Bytes>, hs: seq<Handle>, v: seq<Bytes>, srcs: seq<DevAddr>, base: seq<nat>, m: Memory)
    requires |hs| == |v| == |srcs| == |base| && MatchesAll(vs, Ok(hs), Ok(v))
    requires forall i :: 0 <= i < |srcs| ==> srcs[i] in m && v[i] == m[srcs[i]]
    ensures GroupWritten(vs, R.Pairs(hs, base), Group(srcs, base), m)
  {
  }
}
