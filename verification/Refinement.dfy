/**
 The main theorem of the recorder: in every lawful run, record and replay gives the client exactly
 the replies and the device of the machine that computes at once.
 */
module Refinement {
  import opened Types
  import opened Trace
  import opened HeapModel
  import opened Allocator
  import opened Configuration
  import opened DeviceModel
  import opened GroupIndex
  import opened Backend
  import R = RecorderModel
  import opened RecorderModel
  import opened RecorderLaws
  import opened RecorderTableLaws

  // ---- Sessions ----

  lemma OpenRefines(sem: Semantics, r: Recorder)
    requires RecorderOk(r)
    ensures RecorderOk(Open(r)) && Open(r).recording && Abs(sem, Open(r)) == Abs(sem, r) && NamesGrow(r, Open(r))
  {
  }

  /** An operation that grows the session leaves the table healthy. */
  lemma GrowsRecorderOk(sem: Semantics, r: Recorder, r1: Recorder)
    requires RecorderOk(r) && CoreOk(r1) && Grows(sem, r, r1)
    ensures RecorderOk(r1) && NamesGrow(r, r1)
  {
    hide CoreOk, IndexOk, NamesGrow;
  }

  // ---- Multi-residue operations ----

  lemma BuildMrpRefines(sem: Semantics, r: Recorder, srcs: seq<DevAddr>, base: seq<nat>)
    requires CoreOk(r) && r.recording && |srcs| == |base|
    ensures var (r1, hs) := BuildMrp(r, srcs, base); var (d, vs) := ReadAll(Abs(sem, r), srcs);
      && CoreOk(r1) && Grows(sem, r, r1) && Abs(sem, r1) == d && MatchesAll(Vals(sem, r1), hs, vs)
  {
    hide CoreOk, Abs, Grows, MatchesAll, LookupAll, ReadAll;
    LookupAllRefines(sem, r, srcs);
    var (r1, hs) := LookupAll(r, srcs);
    if hs.Ok? && |srcs| > 1 && srcs[0] in r1.inputs {
      var residues := Pairs(hs.value, base);
      assert srcs[0] in srcs;
      NameInputGroupRefines(sem, r1, srcs[0], residues);
      var (r2, name) := NameInputGroup(r1, srcs[0]);
      var r3 := if name in r2.mrpInputTags then r2 else r2.(mrpInputTags := r2.mrpInputTags[name := residues]);
      GrowsTrans(sem, r, r1, r3);
      GrowsVals(sem, r1, r3);
      MatchesGrows(Vals(sem, r1), Vals(sem, r3), hs, ReadAll(Abs(sem, r), srcs).1);
    }
  }

  lemma GrowsVals(sem: Semantics, r: Recorder, r1: Recorder)
    requires Grows(sem, r, r1)
    ensures Vals(sem, r) <= Vals(sem, r1)
  {
  }

  lemma StoreMrpRefines(sem: Semantics, r: Recorder, dsts: seq<DevAddr>, op: OpCode, hs: seq<Handle>, v: seq<Bytes>,
                        base: seq<nat>)
    requires RecorderOk(r) && r.recording && |dsts| == |base|
    requires MatchesAll(Vals(sem, r), Ok(hs), Ok(v))
    ensures var (r1, s) := StoreMrpLocked(r, dsts, op, hs, base);
      && s == Success && RecorderOk(r1) && r1.recording && r1.heap == r.heap && NamesGrow(r, r1)
      && Abs(sem, r1) == StoreMrp(Abs(sem, r), dsts, Results(sem, op, v, base), base)
      && MatchesAll(Vals(sem, r1), Ok(hs), Ok(v))
  {
    hide CoreOk, TableOk, Abs, MatchesAll, StoreAll, BindAll, GroupUp, Grows, NamesGrow;
    var n := |base|;
    StoreAllRefines(sem, r, dsts, op, hs, v, base, n);
    assert Ops(op, base)[..n] == Ops(op, base);
    assert Results(sem, op, v, base)[..n] == Results(sem, op, v, base);
    var r1 := StoreAll(r, dsts, Ops(op, base), hs, base);
    GrowsRecorderOk(sem, r, r1);
    GrowsKeeps(sem, r, r1);
    GroupUpRefines(sem, r1, dsts, base);
    assert Vals(sem, GroupUp(r1, dsts, base).0) == Vals(sem, r1);
    NamesGrowTrans(r, r1, GroupUp(r1, dsts, base).0);
  }

  lemma UnaryMrpRefines(sem: Semantics, r: Recorder, op: OpCode, dsts: seq<DevAddr>, srcs: seq<DevAddr>,
                        srcBase: seq<nat>, dstBase: seq<nat>)
    requires RecorderOk(r) && r.recording && |srcs| == |srcBase| && |dsts| == |dstBase|
    ensures var (r1, s) := R.UnaryMrp(r, op, dsts, srcs, srcBase, dstBase);
      RecorderOk(r1) && NamesGrow(r, r1) && (Abs(sem, r1), s) == MrpOp(sem, Abs(sem, r), op, dsts, srcs, dstBase)
  {
    hide CoreOk, TableOk, Abs, MatchesAll, BuildMrp, ReadAll, StoreMrpLocked, StoreMrp, Grows, NamesGrow;
    BuildMrpRefines(sem, r, srcs, srcBase);
    var (r1, hs) := BuildMrp(r, srcs, srcBase);
    GrowsRecorderOk(sem, r, r1);
    GrowsKeeps(sem, r, r1);
    var v := ReadAll(Abs(sem, r), srcs).1;
    MatchesShape(Vals(sem, r1), hs, v);
    if hs.Ok? {
      StoreMrpRefines(sem, r1, dsts, op, hs.value, v.value, dstBase);
      NamesGrowTrans(r, r1, StoreMrpLocked(r1, dsts, op, hs.value, dstBase).0);
    }
  }

  /** Reading two arrays in turn is reading their concatenation. */
  lemma {:induction false} ReadAllConcat(d: Device, s: seq<DevAddr>, t: seq<DevAddr>)
    ensures ReadAll(d, s + t) ==
      var (d1, r1) := ReadAll(d, s);
      match r1
      case Err(e) => (d1, Err(e))
      case Ok(vs) => (match ReadAll(d1, t) case (d2, Err(e)) => (d2, Err(e)) case (d2, Ok(ws)) => (d2, Ok(vs + ws)))
    decreases |t|
  {
    hide Read;
    if t == [] {
      assert s + t == s;
      var (_, r1) := ReadAll(d, s);
      assert r1.Ok? ==> r1.value + [] == r1.value;
    } else {
      var n := |t| - 1;
      assert (s + t)[..|s + t| - 1] == s + t[..n];
      ReadAllConcat(d, s, t[..n]);
      var (d1, r1) := ReadAll(d, s);
      if r1.Ok? {
        var (d2, r2) := ReadAll(d1, t[..n]);
        if r2.Ok? {
          var (_, r3) := Read(d2, t[n]);
          assert r3.Ok? ==> (r1.value + r2.value) + [r3.value] == r1.value + (r2.value + [r3.value]);
        }
      }
    }
  }

  lemma MatchesConcat(vs: seq<Bytes>, h1: seq<Handle>, v1: seq<Bytes>, h2: seq<Handle>, v2: seq<Bytes>)
    requires MatchesAll(vs, Ok(h1), Ok(v1)) && MatchesAll(vs, Ok(h2), Ok(v2))
    ensures MatchesAll(vs, Ok(h1 + h2), Ok(v1 + v2))
  {
  }

  lemma BinaryMrpRefines(sem: Semantics, r: Recorder, op: OpCode, dsts: seq<DevAddr>, srcs1: seq<DevAddr>,
                         srcs2: seq<DevAddr>, base: seq<nat>)
    requires RecorderOk(r) && r.recording && |dsts| == |srcs1| == |srcs2| == |base|
    ensures var (r1, s) := R.BinaryMrp(r, op, dsts, srcs1, srcs2, base);
      RecorderOk(r1) && NamesGrow(r, r1) && (Abs(sem, r1), s) == MrpOp(sem, Abs(sem, r), op, dsts, srcs1 + srcs2, base)
  {
    hide CoreOk, TableOk, Abs, MatchesAll, BuildMrp, ReadAll, StoreMrpLocked, StoreMrp, Grows, NamesGrow;
    ReadAllConcat(Abs(sem, r), srcs1, srcs2);
    BuildMrpRefines(sem, r, srcs1, base);
    var (r1, h1) := BuildMrp(r, srcs1, base);
    GrowsRecorderOk(sem, r, r1);
    GrowsKeeps(sem, r, r1);
    var v1 := ReadAll(Abs(sem, r), srcs1).1;
    MatchesShape(Vals(sem, r1), h1, v1);
    if h1.Ok? {
      BuildMrpRefines(sem, r1, srcs2, base);
      var (r2, h2) := BuildMrp(r1, srcs2, base);
      GrowsRecorderOk(sem, r1, r2);
      GrowsKeeps(sem, r1, r2);
      NamesGrowTrans(r, r1, r2);
      var v2 := ReadAll(Abs(sem, r1), srcs2).1;
      MatchesShape(Vals(sem, r2), h2, v2);
      if h2.Ok? {
        GrowsVals(sem, r1, r2);
        MatchesGrows(Vals(sem, r1), Vals(sem, r2), h1, v1);
        MatchesConcat(Vals(sem, r2), h1.value, v1.value, h2.value, v2.value);
        StoreMrpRefines(sem, r2, dsts, op, h1.value + h2.value, v1.value + v2.value, base);
        NamesGrowTrans(r, r2, StoreMrpLocked(r2, dsts, op, h1.value + h2.value, base).0);
      }
    }
  }

  lemma {:induction false} LiftRefines(sem: Semantics, r: Recorder, dsts: seq<DevAddr>, hs: seq<Handle>, v: seq<Bytes>,
                                       srcBase: seq<nat>, digitBases: seq<nat>, digitLens: seq<nat>, pBase: seq<nat>,
                                       count: nat)
    requires count <= |digitLens| && Sum(digitLens) <= |digitBases|
    requires |dsts| == |digitLens| * |srcBase + pBase|
    requires RecorderOk(r) && r.recording && MatchesAll(Vals(sem, r), Ok(hs), Ok(v))
    ensures var (r1, s) := LiftAll(r, dsts, hs, srcBase, digitBases, digitLens, pBase, count);
      && s == Success && RecorderOk(r1) && r1.recording && r1.heap == r.heap && NamesGrow(r, r1)
      && Abs(sem, r1) == LiftDigits(sem, Abs(sem, r), dsts, v, srcBase, digitBases, digitLens, pBase, count)
      && MatchesAll(Vals(sem, r1), Ok(hs), Ok(v))
    decreases count
  {
    hide RecorderOk, Abs, MatchesAll, StoreMrpLocked, StoreMrp, NamesGrow;
    if count == 0 {
      NamesGrowRefl(r);
    } else {
      var i := count - 1;
      LiftRefines(sem, r, dsts, hs, v, srcBase, digitBases, digitLens, pBase, i);
      var r1 := LiftAll(r, dsts, hs, srcBase, digitBases, digitLens, pBase, i).0;
      var target := srcBase + pBase;
      Stretch(i, |digitLens|, |target|);
      StoreMrpRefines(sem, r1, dsts[i * |target|..(i + 1) * |target|],
                      OpCode("fast_base_convert", [], srcBase, Digit(digitBases, digitLens, i), 0), hs, v, target);
      NamesGrowTrans(r, r1, LiftAll(r, dsts, hs, srcBase, digitBases, digitLens, pBase, count).0);
    }
  }

  lemma ModUpRefines(sem: Semantics, r: Recorder, dsts: seq<DevAddr>, srcs: seq<DevAddr>, srcBase: seq<nat>,
                     digitBases: seq<nat>, digitLens: seq<nat>, pBase: seq<nat>)
    requires Sum(digitLens) <= |digitBases| && |srcs| == |srcBase|
    requires |dsts| == |digitLens| * |srcBase + pBase|
    requires RecorderOk(r) && r.recording
    ensures var (r1, s) := ModUpLocked(r, dsts, srcs, srcBase, digitBases, digitLens, pBase);
      var (d1, vs) := ReadAll(Abs(sem, r), srcs);
      && RecorderOk(r1) && NamesGrow(r, r1)
      && (Abs(sem, r1), s) == match vs
           case Err(e) => (d1, Failure(e))
           case Ok(v) => (LiftDigits(sem, d1, dsts, v, srcBase, digitBases, digitLens, pBase, |digitLens|), Success)
  {
    hide CoreOk, TableOk, Abs, MatchesAll, BuildMrp, ReadAll, LiftAll, LiftDigits, Grows, NamesGrow;
    BuildMrpRefines(sem, r, srcs, srcBase);
    var (r1, hs) := BuildMrp(r, srcs, srcBase);
    GrowsRecorderOk(sem, r, r1);
    GrowsKeeps(sem, r, r1);
    var v := ReadAll(Abs(sem, r), srcs).1;
    MatchesShape(Vals(sem, r1), hs, v);
    if hs.Ok? {
      LiftRefines(sem, r1, dsts, hs.value, v.value, srcBase, digitBases, digitLens, pBase, |digitLens|);
      NamesGrowTrans(r, r1, LiftAll(r1, dsts, hs.value, srcBase, digitBases, digitLens, pBase, |digitLens|).0);
    }
  }

  // ---- Single-residue operations ----

  lemma StoreOneRefines(sem: Semantics, r: Recorder, srcs: seq<DevAddr>, op: OpCode, dst: DevAddr, q: nat)
    requires RecorderOk(r) && r.recording
    ensures var (r1, hs) := LookupAll(r, srcs);
      var (d1, vs) := ReadAll(Abs(sem, r), srcs);
      && RecorderOk(r1) && NamesGrow(r, r1) && Abs(sem, r1) == d1 && hs.Ok? == vs.Ok? && (hs.Err? ==> hs.error == vs.error)
      && (hs.Ok? ==>
            var r2 := Store(Emit(r1, Compute(op, hs.value)), dst, |r1.trace|, q);
            RecorderOk(r2) && NamesGrow(r, r2) && Abs(sem, r2) == Bind(d1, dst, sem(op, vs.value), q))
  {
    hide CoreOk, TableOk, Abs, MatchesAll, Grows, LookupAll, ReadAll, Bind, Store, Emit, NamesGrow;
    LookupAllRefines(sem, r, srcs);
    var (r1, hs) := LookupAll(r, srcs);
    GrowsRecorderOk(sem, r, r1);
    GrowsKeeps(sem, r, r1);
    var vs := ReadAll(Abs(sem, r), srcs).1;
    MatchesShape(Vals(sem, r1), hs, vs);
    if hs.Ok? {
      ComputeRefines(sem, r1, op, hs.value, vs.value, dst, q);
      GrowsRecorderOk(sem, r1, Store(Emit(r1, Compute(op, hs.value)), dst, |r1.trace|, q));
      NamesGrowTrans(r, r1, Store(Emit(r1, Compute(op, hs.value)), dst, |r1.trace|, q));
    }
  }

  // ---- Epoch end ----

  /** No reachable state can make an export fail. */
  lemma AlwaysExportReady(r: Recorder)
    requires RecorderOk(r)
    ensures ExportReady(r)
  {
    forall n | n in r.table.pending ensures |r.table.known[n].addrs| == |r.table.known[n].moduli| {
      assert NamedAfterLeader(r.table, n);
    }
  }

  lemma EmptyTable()
    ensures TableOk(NO_GROUPS, {}) && GroupsOf(NO_GROUPS) == map[] && PromotedOf(NO_GROUPS) == {}
  {
  }

  lemma ClearRefines(sem: Semantics, r: Recorder)
    requires RecorderOk(r)
    ensures RecorderOk(ClearState(r)) && Abs(sem, ClearState(r)) == EndEpoch(Abs(sem, r))
  {
    hide IndexOk;
    EmptyTable();
    assert Denoted(Vals(sem, ClearState(r)), map[]) == map[];
  }

  lemma LeaderIsMember(table: Index, n: nat)
    requires IndexOk(table) && n in table.known
    ensures exists a :: Member(table.known, a, n)
  {
    assert NamedAfterLeader(table, n);
    assert Member(table.known, table.known[n].addrs[0], n);
  }

  lemma NothingBoundNoGroups(table: Index)
    requires TableOk(table, {})
    ensures table.known == map[] && table.names == map[] && table.pending == {}
  {
    forall n ensures n !in table.known {
      if n in table.known {
        LeaderIsMember(table, n);
      }
    }
  }

  lemma NotRecordingNothingBound(r: Recorder)
    requires CoreOk(r) && !r.recording
    ensures r.binding == map[] && r.pending == map[] && r.modulus == map[]
  {
  }

  /** Outside a recording the device has nothing that an epoch end could take. */
  lemma IdleIsCleared(sem: Semantics, r: Recorder)
    requires RecorderOk(r) && !r.recording
    ensures Abs(sem, r).(log := []) == EndEpoch(Abs(sem, r))
    ensures Abs(sem, r).tags == {} && Abs(sem, r).promoted == {}
  {
    hide CoreOk, IndexOk;
    NotRecordingNothingBound(r);
    NothingBoundNoGroups(r.table);
    assert Denoted(Vals(sem, r), r.binding) == map[];
  }

  lemma ReplayedIsExported(sem: Semantics, r: Recorder, done: set<DevAddr>)
    requires CoreOk(r)
    ensures ReplayedShadow(sem, r, done) == Exported(Abs(sem, r), done)
    ensures Abs(sem, r.(shadow := ReplayedShadow(sem, r, done))) == Abs(sem, r).(host := Exported(Abs(sem, r), done))
  {
    ReplayedSame(sem, r, done);
    hide CoreOk, ReplayedShadow, Exported;
  }

  lemma ReplayedSame(sem: Semantics, r: Recorder, done: set<DevAddr>)
    requires CoreOk(r)
    ensures ReplayedShadow(sem, r, done) == Exported(Abs(sem, r), done)
  {
    SameReadBack(Vals(sem, r), r.binding, done, r.heap.polyBytes);
    hide Fit, At, Denoted, GroupsOf, PromotedOf;
  }

  /** The values read back, found by handle or by address. */
  lemma SameReadBack(vs: seq<Bytes>, binding: map<DevAddr, Handle>, done: set<DevAddr>, n: nat)
    requires forall a :: a in binding ==> binding[a] < |vs|
    ensures (map a | a in done && a in binding :: Fit(At(vs, binding[a]), n)) ==
      map a | a in done && a in Denoted(vs, binding) :: Fit(Denoted(vs, binding)[a], n)
  {
  }

  lemma ReplayedStoredOk(sem: Semantics, r: Recorder, done: set<DevAddr>)
    requires CoreOk(r) && done <= r.heap.live
    ensures CoreOk(r.(shadow := ReplayedShadow(sem, r, done)))
  {
    hide NamesOk, BindingOk, TagsOk, Fit;
  }

  lemma FinalizeReadyRefines(sem: Semantics, r: Recorder, env: BackendOutcome, replay: bool)
    requires RecorderOk(r) && ExportReady(r) && (ReadsBack(env, replay) ==> CanReadBack(env, r.pending.Keys, r.heap.live))
    ensures var (r1, s) := FinalizeLocked(sem, r, env, replay);
      RecorderOk(r1) && (Abs(sem, r1), s) == Finalize(Abs(sem, r), env, replay)
  {
    hide CoreOk, TableOk, Abs, GroupsOf, WrittenProgram, Materialize, ClearState, EndEpoch, Exported;
    AbsFields(sem, r);
    WithLog(sem, r, []);
    if !r.recording {
      IdleIsCleared(sem, r);
    } else {
      PromotedMatchesPending(r.table, r.binding.Keys);
      ClearRefines(sem, r);
      WithWritten(sem, r, WrittenProgram(r));
      if env != StopFailed {
        MaterializeRefines(sem, r.(written := WrittenProgram(r)), env, replay);
      }
    }
  }

  lemma MaterializeRefines(sem: Semantics, r: Recorder, env: BackendOutcome, replay: bool)
    requires RecorderOk(r) && env != StopFailed
    requires ReadsBack(env, replay) ==> CanReadBack(env, r.pending.Keys, r.heap.live)
    ensures var (r1, s) := Materialize(sem, r, env, replay); var d := Abs(sem, r);
      && RecorderOk(r1)
      && (Abs(sem, r1), s) ==
           if env == HookFailed then (EndEpoch(d), Failure(BridgeHookFailed))
           else if !replay then (EndEpoch(d), Success)
           else if env == ReplayFailed then (EndEpoch(d), Failure(BackendReplayFailed))
           else (EndEpoch(d.(host := Exported(d, StoredBack(env, d.tags)))), ReadStatus(env))
  {
    hide CoreOk, TableOk, Abs, GroupsOf, ReplayedShadow, ReplayedProbes, ClearState, EndEpoch, Exported;
    AbsFields(sem, r);
    ClearRefines(sem, r);
    if ReadsBack(env, replay) {
      var done := StoredBack(env, r.pending.Keys);
      ReplayedIsExported(sem, r, done);
      ReplayedStoredOk(sem, r, done);
      var r1 := r.(shadow := ReplayedShadow(sem, r, done));
      WithProbes(sem, r1, ReplayedProbes(sem, r));
      ClearRefines(sem, r1.(probes := ReplayedProbes(sem, r)));
    }
  }

  lemma WithWritten(sem: Semantics, r: Recorder, written: Program)
    requires CoreOk(r)
    ensures CoreOk(r.(written := written)) && Abs(sem, r.(written := written)) == Abs(sem, r)
  {
  }

  lemma WithProbes(sem: Semantics, r: Recorder, probes: map<nat, seq<(Bytes, nat)>>)
    requires CoreOk(r)
    ensures CoreOk(r.(probes := probes)) && Abs(sem, r.(probes := probes)) == Abs(sem, r)
  {
  }

  lemma PromotedMatchesPending(table: Index, bound: set<DevAddr>)
    requires TableOk(table, bound)
    ensures PromotedOf(table) == {} <==> table.pending == {}
  {
    if table.pending != {} {
      var n :| n in table.pending;
      var l := LeaderOf(table, n);
      assert l in PromotedOf(table);
    }
  }

  /** Every promoted group is exported under the name recorded for its leader, with the value and
      modulus of each of its members. */
  lemma ProbesAreGroupValues(sem: Semantics, r: Recorder, l: DevAddr)
    requires RecorderOk(r) && ExportReady(r) && l in Abs(sem, r).promoted
    ensures var d := Abs(sem, r);
      && l in d.groups && |d.groups[l].addrs| == |d.groups[l].moduli|
      && r.table.names[l] in ReplayedProbes(sem, r)
      && ReplayedProbes(sem, r)[r.table.names[l]] == GroupValue(d, d.groups[l])
  {
    var n := r.table.names[l];
    assert n in r.table.pending;
    var g := r.table.known[n];
    forall i | 0 <= i < |g.addrs| ensures g.addrs[i] in r.binding {
      assert Member(r.table.known, g.addrs[i], n);
    }
    assert ReplayedProbes(sem, r)[n] == GroupValue(Abs(sem, r), g);
  }

  // ---- Allocation ----

  lemma WithHeap(sem: Semantics, r: Recorder, h: Heap)
    requires RecorderOk(r) && r.heap.live <= h.live && h.polyBytes == r.heap.polyBytes
    ensures RecorderOk(r.(heap := h)) && Abs(sem, r.(heap := h)) == Abs(sem, r).(heap := h)
    ensures NamesGrow(r, r.(heap := h))
  {
    hide IndexOk, NamesOk, TagsOk;
  }

  lemma {:induction false} GrabKeepsSize(h: Heap, count: nat, taken: seq<DevAddr>)
    ensures Grab(h, count, taken).0.polyBytes == h.polyBytes
    decreases count
  {
    if count > 0 {
      var (h1, a) := AllocateOne(h);
      match a {
        case Ok(v) => GrabKeepsSize(h1, count - 1, taken + [v]);
        case Err(_) => FreeAllKeepsSize(h1, taken);
      }
    }
  }

  lemma {:induction false} FreeAllKeepsSize(h: Heap, addrs: seq<DevAddr>)
    ensures FreeAll(h, addrs).polyBytes == h.polyBytes
    decreases |addrs|
  {
    if addrs != [] {
      FreeAllKeepsSize(FreeOne(h, addrs[0]).0, addrs[1..]);
    }
  }

  lemma {:induction false} FreeManyKeepsSize(h: Heap, addrs: seq<DevAddr>)
    ensures FreeMany(h, addrs).0.polyBytes == h.polyBytes
    decreases |addrs|
  {
    if addrs != [] {
      FreeManyKeepsSize(if addrs[0] == NULL then h else FreeOne(h, addrs[0]).0, addrs[1..]);
    }
  }

  lemma FreedRefines(sem: Semantics, r: Recorder, ps: seq<DevAddr>)
    requires RecorderOk(r)
    ensures var h := FreeMany(r.heap, ps).0;
      var r1 := r.(heap := h, shadow := r.shadow - (ToSet(ps) - {NULL}));
      && RecorderOk(r1) && NamesGrow(r, r1)
      && Abs(sem, r1) == Abs(sem, r).(heap := h, host := Abs(sem, r).host - (ToSet(ps) - {NULL}))
  {
    hide IndexOk, NamesOk, TagsOk, BadEntry;
    FreeManyExact(r.heap, ps);
    FreeManyKeepsSize(r.heap, ps);
  }

  // ---- Configuration ----

  lemma ResizedRefines(sem: Semantics, r: Recorder, n: nat)
    requires RecorderOk(r) && (PolynomialSize(n) != r.heap.polyBytes ==> r.heap.live == {})
    ensures var h := SetPolynomialSize(r.heap, PolynomialSize(n));
      var r1 := r.(cfg := r.cfg.(ringDim := n), heap := h);
      RecorderOk(r1) && NamesGrow(r, r1) && Abs(sem, r1) == Abs(sem, r).(cfg := r.cfg.(ringDim := n), heap := h)
  {
    hide IndexOk, NamesOk, PolynomialSize;
    if PolynomialSize(n) != r.heap.polyBytes {
      assert r.shadow == map[];
    }
  }

  lemma WithCfg(sem: Semantics, r: Recorder, c: Settings)
    requires RecorderOk(r)
    ensures RecorderOk(r.(cfg := c)) && Abs(sem, r.(cfg := c)) == Abs(sem, r).(cfg := c) && NamesGrow(r, r.(cfg := c))
  {
    hide IndexOk, NamesOk, BindingOk, TagsOk;
  }

  lemma ResetRefines(sem: Semantics, r: Recorder)
    requires RecorderOk(r)
    ensures var r1 := ClearState(r).(heap := EMPTY, shadow := map[], cfg := UNSET, initialized := false);
      RecorderOk(r1) && Abs(sem, r1) == RESET
  {
    hide IndexOk;
    EmptyTable();
    assert Denoted(Vals(sem, ClearState(r)), map[]) == map[];
  }

  // ---- One call ----

  lemma MemoryCallRefines(sem: Semantics, r: Recorder, call: Call)
    requires RecorderOk(r) && ExportReady(r) && Lawful(Abs(sem, r), call)
    requires call.Malloc? || call.MallocMrp? || call.Free? || call.FreeMrp?
    ensures var (r1, reply) := Act(sem, r, call);
      && RecorderOk(r1) && (Abs(sem, r1), reply) == Step(sem, Abs(sem, r), call)
      && (EndsEpoch(call) || NamesGrow(r, r1))
  {
    hide RecorderOk, Abs, ExportReady, FreeMany, AllocateMany, InvalidateAddr, InvalidateAddrs, Invalidate, InvalidateAll,
      NamesGrow;
    AbsFields(sem, r);
    NamesGrowRefl(r);
    match call {
      case Malloc(size) =>
        WithHeap(sem, r, Allocate(r.heap, size).0);
      case MallocMrp(count, size) =>
        AllocatedGrows(r.heap, count, size);
        WithHeap(sem, r, AllocateMany(r.heap, count, size).0);
      case Free(p) =>
        assert ToSet([p]) == {p};
        if p == NULL {
          FreedRefines(sem, r, [p]);
        } else {
          InvalidateRefines(sem, r, p);
          AbsFields(sem, InvalidateAddr(r, p));
          FreedRefines(sem, InvalidateAddr(r, p), [p]);
          NamesGrowTrans(r, InvalidateAddr(r, p), Act(sem, r, call).0);
        }
      case FreeMrp(ps) =>
        InvalidateAllRefines(sem, r, ps);
        AbsFields(sem, InvalidateAddrs(r, ps));
        FreedRefines(sem, InvalidateAddrs(r, ps), ps);
        if |ps| <= MAX_CIPHERTEXT_MODULI {
          NamesGrowTrans(r, InvalidateAddrs(r, ps), Act(sem, r, call).0);
        }
      case _ =>
    }
  }

  lemma AllocatedGrows(h: Heap, count: nat, size: nat)
    ensures h.live <= AllocateMany(h, count, size).0.live && AllocateMany(h, count, size).0.polyBytes == h.polyBytes
  {
    AllocateManyAllOrNothing(h, count, size);
    GrabKeepsSize(h, count, []);
  }

  lemma TransferCallRefines(sem: Semantics, r: Recorder, call: Call)
    requires RecorderOk(r) && ExportReady(r) && Lawful(Abs(sem, r), call)
    requires call.H2D? || call.H2DMrp? || call.D2H? || call.D2HMrp? || call.Memset?
    ensures var (r1, reply) := Act(sem, r, call);
      && RecorderOk(r1) && (Abs(sem, r1), reply) == Step(sem, Abs(sem, r), call)
      && (EndsEpoch(call) || NamesGrow(r, r1))
  {
    hide CoreOk, TableOk, Abs, ExportReady, CopyIn, Upload, CopyInAll, UploadAll, TagH2DInput, TagInput, TagH2DInputs,
      TagInputs, InvalidateAddr, Invalidate, Grows, NamesGrow;
    AbsFields(sem, r);
    NamesGrowRefl(r);
    match call {
      case H2D(dst, data) =>
        CopyInRefines(sem, r, dst, data);
        var r1 := CopyIn(r, dst, data).0;
        GrowsRecorderOk(sem, r, r1);
        OpenRefines(sem, r1);
        TagH2DInputRefines(sem, Open(r1), dst);
        GrowsRecorderOk(sem, Open(r1), TagH2DInput(Open(r1), dst).0);
        NamesGrowTrans(r, r1, Open(r1));
        NamesGrowTrans(r, Open(r1), TagH2DInput(Open(r1), dst).0);
      case H2DMrp(dsts, datas) =>
        CopyInAllRefines(sem, r, dsts, datas);
        var r1 := CopyInAll(r, dsts, datas).0;
        GrowsRecorderOk(sem, r, r1);
        OpenRefines(sem, r1);
        TagH2DInputsRefines(sem, Open(r1), dsts);
        GrowsRecorderOk(sem, Open(r1), TagH2DInputs(Open(r1), dsts).0);
        NamesGrowTrans(r, r1, Open(r1));
        NamesGrowTrans(r, Open(r1), TagH2DInputs(Open(r1), dsts).0);
      case D2H(src, count) =>
      case D2HMrp(srcs, count) =>
      case Memset(p, value, count) =>
        CopyInRefines(sem, r, p, Fill(value, count));
        var r1 := CopyIn(r, p, Fill(value, count)).0;
        GrowsRecorderOk(sem, r, r1);
        InvalidateRefines(sem, r1, p);
        NamesGrowTrans(r, r1, InvalidateAddr(r1, p));
      case _ =>
    }
  }

  lemma CopyCallRefines(sem: Semantics, r: Recorder, call: Call)
    requires RecorderOk(r) && Lawful(Abs(sem, r), call) && (call.D2D? || call.D2DMrp?)
    ensures var (r1, reply) := Act(sem, r, call);
      && RecorderOk(r1) && (Abs(sem, r1), reply) == Step(sem, Abs(sem, r), call)
      && (EndsEpoch(call) || NamesGrow(r, r1))
  {
    hide CoreOk, TableOk, Abs, CopyResult, CopyTo, CopyResults, CopyAll, GroupUp, Register, Grows, NamesGrow;
    AbsFields(sem, r);
    NamesGrowRefl(r);
    OpenRefines(sem, r);
    match call {
      case D2D(dst, src, _) =>
        if dst != NULL {
          assert dst in Destinations(call);
          CopyResultRefines(sem, Open(r), dst, src, COPY_MODULUS);
          GrowsRecorderOk(sem, Open(r), CopyResult(Open(r), dst, src, COPY_MODULUS).0);
          NamesGrowTrans(r, Open(r), CopyResult(Open(r), dst, src, COPY_MODULUS).0);
        }
      case D2DMrp(dsts, srcs, base) =>
        CopyResultsRefines(sem, Open(r), dsts, srcs, base);
        var (r1, s) := CopyResults(Open(r), dsts, srcs, base);
        GrowsRecorderOk(sem, Open(r), r1);
        NamesGrowTrans(r, Open(r), r1);
        if s.Success? {
          GroupUpRefines(sem, r1, dsts, base);
          NamesGrowTrans(r, r1, GroupUp(r1, dsts, base).0);
        }
      case _ =>
    }
  }

  lemma ComputeCallRefines(sem: Semantics, r: Recorder, call: Call)
    requires RecorderOk(r) && ExportReady(r) && Lawful(Abs(sem, r), call)
    requires call.Binary? || call.Unary? || call.Automorph?
    ensures var (r1, reply) := Act(sem, r, call);
      && RecorderOk(r1) && (Abs(sem, r1), reply) == Step(sem, Abs(sem, r), call)
      && (EndsEpoch(call) || NamesGrow(r, r1))
  {
    hide RecorderOk, Abs, ExportReady, LookupAll, ReadAll, Store, Emit, Bind, NamesGrow;
    AbsFields(sem, r);
    OpenRefines(sem, r);
    NamesGrowRefl(r);
    var r1 := Act(sem, r, call).0;
    if NamesGrow(Open(r), r1) {
      NamesGrowTrans(r, Open(r), r1);
    }
    match call {
      case Binary(name, dst, src1, src2, modIdx) =>
        if dst != NULL {
          assert dst in Destinations(call);
          var q := Modulus(r.cfg, modIdx);
          StoreOneRefines(sem, Open(r), [src1, src2], OpCode(name, [], [], [], q), dst, q);
        }
      case Unary(name, imm, dst, src, modIdx) =>
        if dst != NULL {
          assert dst in Destinations(call);
          var q := Modulus(r.cfg, modIdx);
          StoreOneRefines(sem, Open(r), [src], OpCode(name, imm, [], [], q), dst, q);
        }
      case Automorph(name, index, dst, src) =>
        if dst != NULL {
          assert dst in Destinations(call);
          var looked := LookupAll(Open(r), [src]).0;
          var q := RecordedModulus(looked, src);
          StoreOneRefines(sem, Open(r), [src], OpCode(name, [index], [], [], COPY_MODULUS), dst, q);
          AbsFields(sem, looked);
          assert Recorded(Abs(sem, looked), src) == q;
        }
      case _ =>
    }
  }

  lemma MrpCallRefines(sem: Semantics, r: Recorder, call: Call)
    requires RecorderOk(r) && ExportReady(r) && Lawful(Abs(sem, r), call)
    requires call.BinaryMrp? || call.UnaryMrp? || call.BasisConvert? || call.ModDown? || call.ModUp?
    ensures var (r1, reply) := Act(sem, r, call);
      && RecorderOk(r1) && (Abs(sem, r1), reply) == Step(sem, Abs(sem, r), call)
      && (EndsEpoch(call) || NamesGrow(r, r1))
  {
    hide RecorderOk, Abs, ExportReady, R.UnaryMrp, R.BinaryMrp, ModUpLocked, MrpOp, LiftDigits, ReadAll, NamesGrow;
    AbsFields(sem, r);
    OpenRefines(sem, r);
    NamesGrowRefl(r);
    var r1 := Act(sem, r, call).0;
    if NamesGrow(Open(r), r1) {
      NamesGrowTrans(r, Open(r), r1);
    }
    match call {
      case BinaryMrp(name, dsts, srcs1, srcs2, base) =>
        BinaryMrpRefines(sem, Open(r), OpCode(name, [], base, base, 0), dsts, srcs1, srcs2, base);
      case UnaryMrp(name, imm, dsts, srcs, base) =>
        UnaryMrpRefines(sem, Open(r), OpCode(name, imm, base, base, 0), dsts, srcs, base, base);
      case BasisConvert(dsts, srcs, srcBase, dstBase) =>
        UnaryMrpRefines(sem, Open(r), OpCode("fast_base_convert", [], srcBase, srcBase, 0), dsts, srcs, srcBase, dstBase);
      case ModDown(dsts, srcs, srcBase, rescaleBase) =>
        UnaryMrpRefines(sem, Open(r), OpCode("rescale_fbc", [], srcBase, rescaleBase, 0), dsts, srcs, srcBase,
                        Without(srcBase, rescaleBase));
      case ModUp(dsts, srcs, srcBase, digitBases, digitLens, pBase) =>
        if ValidateModUp(srcBase, digitBases, digitLens, pBase).Success? {
          ModUpRefines(sem, Open(r), dsts, srcs, srcBase, digitBases, digitLens, pBase);
        }
      case _ =>
    }
  }

  lemma ControlCallRefines(sem: Semantics, r: Recorder, call: Call)
    requires RecorderOk(r) && ExportReady(r) && Lawful(Abs(sem, r), call)
    requires call.TagOutput? || call.WriteProgram? || call.DeviceReset?
    ensures var (r1, reply) := Act(sem, r, call);
      && RecorderOk(r1) && (Abs(sem, r1), reply) == Step(sem, Abs(sem, r), call)
      && (EndsEpoch(call) || NamesGrow(r, r1))
  {
    hide RecorderOk, Abs, ExportReady, TagOutputLocked, TagOut, FinalizeLocked, Finalize, ClearState, NamesGrow;
    NamesGrowRefl(r);
    match call {
      case TagOutput(p) => TagOutputRefines(sem, r, p);
      case WriteProgram(env) => FinalizeReadyRefines(sem, r, env, false);
      case DeviceReset => ResetRefines(sem, r);
      case _ =>
    }
  }

  lemma FlushRefines(sem: Semantics, r: Recorder, env: BackendOutcome)
    requires RecorderOk(r) && ExportReady(r) && Lawful(Abs(sem, r), Flush(env))
    ensures var (r1, reply) := Act(sem, r, Flush(env));
      RecorderOk(r1) && (Abs(sem, r1), reply) == Step(sem, Abs(sem, r), Flush(env))
  {
    hide RecorderOk, Abs, ExportReady, FinalizeLocked, Finalize;
    AbsFields(sem, r);
    if env != FormatRejected {
      FinalizeReadyRefines(sem, r, env, true);
    }
  }

  lemma SettingsCallRefines(sem: Semantics, r: Recorder, call: Call)
    requires RecorderOk(r) && Lawful(Abs(sem, r), call)
    requires call.SetRingDimension? || call.SetModulus? || call.ConfigureDevice?
    ensures var (r1, reply) := Act(sem, r, call);
      && RecorderOk(r1) && (Abs(sem, r1), reply) == Step(sem, Abs(sem, r), call)
      && (EndsEpoch(call) || NamesGrow(r, r1))
  {
    hide RecorderOk, Abs, NamesGrow, SettingsSetModulus, IsPowerOfTwo, SetPolynomialSize, PolynomialSize;
    AbsFields(sem, r);
    NamesGrowRefl(r);
    match call {
      case SetRingDimension(n) => ResizedRefines(sem, r, n);
      case SetModulus(idx, q) => WithCfg(sem, r, SettingsSetModulus(r.cfg, idx, q).0);
      case ConfigureDevice => WithCfg(sem, r, r.cfg.(configured := true));
      case _ =>
    }
  }

  /** One call of the recorder is one call of the machine that computes at once. */
  lemma ActRefines(sem: Semantics, r: Recorder, call: Call)
    requires RecorderOk(r) && Lawful(Abs(sem, r), call)
    ensures ExportReady(r)
    ensures var (r1, reply) := Act(sem, r, call);
      && RecorderOk(r1) && (Abs(sem, r1), reply) == Step(sem, Abs(sem, r), call)
      && (EndsEpoch(call) || NamesGrow(r, r1))
  {
    AlwaysExportReady(r);
    ActReadyRefines(sem, r, call);
  }

  lemma ActReadyRefines(sem: Semantics, r: Recorder, call: Call)
    requires RecorderOk(r) && ExportReady(r) && Lawful(Abs(sem, r), call)
    ensures var (r1, reply) := Act(sem, r, call);
      && RecorderOk(r1) && (Abs(sem, r1), reply) == Step(sem, Abs(sem, r), call)
      && (EndsEpoch(call) || NamesGrow(r, r1))
  {
    hide RecorderOk, Abs, ExportReady, Act, Step, Lawful, NamesGrow;
    match call {
      case Malloc(_) => MemoryCallRefines(sem, r, call);
      case MallocMrp(_, _) => MemoryCallRefines(sem, r, call);
      case Free(_) => MemoryCallRefines(sem, r, call);
      case FreeMrp(_) => MemoryCallRefines(sem, r, call);
      case H2D(_, _) => TransferCallRefines(sem, r, call);
      case H2DMrp(_, _) => TransferCallRefines(sem, r, call);
      case D2H(_, _) => TransferCallRefines(sem, r, call);
      case D2HMrp(_, _) => TransferCallRefines(sem, r, call);
      case D2D(_, _, _) => CopyCallRefines(sem, r, call);
      case D2DMrp(_, _, _) => CopyCallRefines(sem, r, call);
      case Memset(_, _, _) => TransferCallRefines(sem, r, call);
      case Binary(_, _, _, _, _) => ComputeCallRefines(sem, r, call);
      case Unary(_, _, _, _, _) => ComputeCallRefines(sem, r, call);
      case Automorph(_, _, _, _) => ComputeCallRefines(sem, r, call);
      case BinaryMrp(_, _, _, _, _) => MrpCallRefines(sem, r, call);
      case UnaryMrp(_, _, _, _, _) => MrpCallRefines(sem, r, call);
      case BasisConvert(_, _, _, _) => MrpCallRefines(sem, r, call);
      case ModDown(_, _, _, _) => MrpCallRefines(sem, r, call);
      case ModUp(_, _, _, _, _, _) => MrpCallRefines(sem, r, call);
      case SetRingDimension(_) => SettingsCallRefines(sem, r, call);
      case SetModulus(_, _) => SettingsCallRefines(sem, r, call);
      case ConfigureDevice => SettingsCallRefines(sem, r, call);
      case Flush(env) => FlushRefines(sem, r, env);
      case _ => ControlCallRefines(sem, r, call);
    }
  }

  // ---- Whole runs ----

  const FRESH := Recorder(UNSET, EMPTY, map[], [], map[], {}, map[], map[], NO_GROUPS, map[], map[], map[], 0, 0, 0,
                          false, false, NOTHING_WRITTEN, map[], [])

  lemma FreshRefines(sem: Semantics)
    ensures RecorderOk(FRESH) && Abs(sem, FRESH) == RESET
  {
    EmptyTable();
    assert Denoted(Vals(sem, FRESH), map[]) == map[];
  }

  /** Record and replay refines computing at once: over every lawful run the replies, bytes read back
      and errors included, are the same, and so is the device at the end. */
  lemma {:induction false} RunRefines(sem: Semantics, r: Recorder, calls: seq<Call>)
    requires RecorderOk(r) && LawfulRun(sem, Abs(sem, r), calls)
    ensures var (r1, replies) := ActAll(sem, r, calls);
      RecorderOk(r1) && (Abs(sem, r1), replies) == Run(sem, Abs(sem, r), calls)
    decreases |calls|
  {
    hide RecorderOk, Abs, Act, Step, Lawful;
    if calls == [] {
    } else {
      var n := |calls| - 1;
      LawfulPrefix(sem, Abs(sem, r), calls);
      RunRefines(sem, r, calls[..n]);
      ActRefines(sem, ActAll(sem, r, calls[..n]).0, calls[n]);
    }
  }

  /** At every point of every lawful program: whatever is tagged or promoted can be exported, no address
      is in two groups, forward and reverse maps agree, and each group bears its leader's name. */
  lemma ReachableCanExport(sem: Semantics, calls: seq<Call>)
    requires LawfulRun(sem, RESET, calls)
    ensures var r := ActAll(sem, FRESH, calls).0;
      && ExportReady(r)
      && (forall a, n, m :: Member(r.table.known, a, n) && Member(r.table.known, a, m) ==> n == m)
      && (forall a, n :: OwnedBy(r.table.owners, a, n) <==> Member(r.table.known, a, n))
      && (forall n {:trigger NamedAfterLeader(r.table, n)} :: n in r.table.known ==> NamedAfterLeader(r.table, n))
  {
    hide CoreOk, Abs, ExportReady;
    FreshRefines(sem);
    RunRefines(sem, FRESH, calls);
    AlwaysExportReady(ActAll(sem, FRESH, calls).0);
  }

  /** Within an epoch the generated names only grow. */
  lemma {:induction false} RunNames(sem: Semantics, r: Recorder, calls: seq<Call>)
    requires RecorderOk(r) && LawfulRun(sem, Abs(sem, r), calls)
    requires forall i :: 0 <= i < |calls| ==> !EndsEpoch(calls[i])
    ensures NamesGrow(r, ActAll(sem, r, calls).0)
    decreases |calls|
  {
    hide RecorderOk, Abs, Act, Step, Lawful, NamesGrow;
    if calls == [] {
      NamesGrowRefl(r);
    } else {
      var n := |calls| - 1;
      LawfulPrefix(sem, Abs(sem, r), calls);
      RunNames(sem, r, calls[..n]);
      RunRefines(sem, r, calls[..n]);
      var r1 := ActAll(sem, r, calls[..n]).0;
      ActRefines(sem, r1, calls[n]);
      NamesGrowTrans(r, r1, ActAll(sem, r, calls).0);
    }
  }

  /** No output name is reused within an epoch: if one is in use before and after, it names the same
      address both times, and did so at every point in between. */
  lemma OutputNamesNeverReused(sem: Semantics, r: Recorder, before: seq<Call>, after: seq<Call>, a: DevAddr, b: DevAddr)
    requires RecorderOk(r) && LawfulRun(sem, Abs(sem, r), before)
    requires var r1 := ActAll(sem, r, before).0;
      RecorderOk(r1) && LawfulRun(sem, Abs(sem, r1), after)
    requires forall i :: 0 <= i < |before| ==> !EndsEpoch(before[i])
    requires forall i :: 0 <= i < |after| ==> !EndsEpoch(after[i])
    requires var r1 := ActAll(sem, r, before).0; var r2 := ActAll(sem, r1, after).0;
      a in r.pending && b in r2.pending && r.pending[a] == r2.pending[b]
    ensures a == b
    ensures var r1 := ActAll(sem, r, before).0; a in r1.pending && r1.pending[a] == r.pending[a]
  {
    var r1 := ActAll(sem, r, before).0;
    var r2 := ActAll(sem, r1, after).0;
    RunNames(sem, r, before);
    RunNames(sem, r1, after);
    NameStays(r.pending, r.outCount, r1.pending, r1.outCount, r2.pending, a, b);
  }

  /** The same for the names of output groups and their leaders. */
  lemma GroupNamesNeverReused(sem: Semantics, r: Recorder, before: seq<Call>, after: seq<Call>, a: DevAddr, b: DevAddr)
    requires RecorderOk(r) && LawfulRun(sem, Abs(sem, r), before)
    requires var r1 := ActAll(sem, r, before).0;
      RecorderOk(r1) && LawfulRun(sem, Abs(sem, r1), after)
    requires forall i :: 0 <= i < |before| ==> !EndsEpoch(before[i])
    requires forall i :: 0 <= i < |after| ==> !EndsEpoch(after[i])
    requires var r1 := ActAll(sem, r, before).0; var r2 := ActAll(sem, r1, after).0;
      a in r.table.names && b in r2.table.names && r.table.names[a] == r2.table.names[b]
    ensures a == b
    ensures var r1 := ActAll(sem, r, before).0; a in r1.table.names && r1.table.names[a] == r.table.names[a]
  {
    var r1 := ActAll(sem, r, before).0;
    var r2 := ActAll(sem, r1, after).0;
    RunNames(sem, r, before);
    RunNames(sem, r1, after);
    NameStays(r.table.names, r.table.counter, r1.table.names, r1.table.counter, r2.table.names, a, b);
  }

  /** And for the names of input groups. */
  lemma InputGroupNamesNeverReused(sem: Semantics, r: Recorder, before: seq<Call>, after: seq<Call>, a: DevAddr, b: DevAddr)
    requires RecorderOk(r) && LawfulRun(sem, Abs(sem, r), before)
    requires var r1 := ActAll(sem, r, before).0;
      RecorderOk(r1) && LawfulRun(sem, Abs(sem, r1), after)
    requires forall i :: 0 <= i < |before| ==> !EndsEpoch(before[i])
    requires forall i :: 0 <= i < |after| ==> !EndsEpoch(after[i])
    requires var r1 := ActAll(sem, r, before).0; var r2 := ActAll(sem, r1, after).0;
      a in r.inNames && b in r2.inNames && r.inNames[a] == r2.inNames[b]
    ensures a == b
    ensures var r1 := ActAll(sem, r, before).0; a in r1.inNames && r1.inNames[a] == r.inNames[a]
  {
    var r1 := ActAll(sem, r, before).0;
    var r2 := ActAll(sem, r1, after).0;
    RunNames(sem, r, before);
    RunNames(sem, r1, after);
    NameStays(r.inNames, r.mrpInCount, r1.inNames, r1.mrpInCount, r2.inNames, a, b);
  }

  /** Within an epoch an input name stands for one recorded input for good, and an input group keeps its
      first description. */
  lemma InputNamesKept(sem: Semantics, r: Recorder, calls: seq<Call>, k: nat)
    requires RecorderOk(r) && LawfulRun(sem, Abs(sem, r), calls)
    requires forall i :: 0 <= i < |calls| ==> !EndsEpoch(calls[i])
    ensures var r1 := ActAll(sem, r, calls).0;
      && (k in r.inputTags ==>
            var h := r.inputTags[k];
            k in r1.inputTags && r1.inputTags[k] == h && h < |r.trace| <= |r1.trace| &&
            r.trace[h].Input? && r1.trace[h] == r.trace[h])
      && (k in r.mrpInputTags ==> k in r1.mrpInputTags && r1.mrpInputTags[k] == r.mrpInputTags[k])
  {
    hide IndexOk, StoredOk, BindingOk, NamesOk, ActAll, NewOrKept;
    RunNames(sem, r, calls);
  }

  lemma NameStays(names: map<DevAddr, nat>, c: nat, names1: map<DevAddr, nat>, c1: nat, names2: map<DevAddr, nat>,
                  a: DevAddr, b: DevAddr)
    requires NamesOk(names, c) && NewOrKept(names, c, names1) && c <= c1 && NewOrKept(names1, c1, names2)
    requires a in names && b in names2 && names[a] == names2[b]
    ensures a == b && a in names1 && names1[a] == names[a]
  {
    assert SameName(names, a, b);
  }
}
