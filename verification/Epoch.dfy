/**
 The recorder as the program keeps it: maps, sets and counters updated in place, one method per
 operation of the epoch state. Each method is proved to compute the function of module
 RecorderModel that has its name.
 */
module Epoch {
  import opened Types
  import opened Trace
  import opened HeapModel
  import opened Allocator
  import opened Configuration
  import opened DeviceModel
  import opened GroupIndex
  import opened Backend
  import R = RecorderModel
  import opened RecorderModel

  // ---- The reverse map, one address at a time ----

  lemma NonEmptySets(ix: Index)
    requires IndexOk(ix)
    ensures forall a :: a in ix.owners ==> ix.owners[a] != {}
  {
  }

  lemma SoleOwner(ix: Index, a: DevAddr)
    requires IndexOk(ix) && a in ix.owners
    ensures ix.owners[a] == {AnyOwner(ix, a)} && AnyOwner(ix, a) in ix.known
  {
    assert OwnedBy(ix.owners, a, AnyOwner(ix, a));
    assert Member(ix.known, a, AnyOwner(ix, a));
    OneOwner(ix, a, AnyOwner(ix, a));
  }

  lemma SoleConflict(ix: Index, a: DevAddr, name: nat)
    requires IndexOk(ix)
    ensures Contested(ix.owners, a, name) <==> a in ix.owners && AnyOwner(ix, a) != name
    ensures Contested(ix.owners, a, name) ==> OtherOwner(ix.owners, a, name) == AnyOwner(ix, a)
  {
    if a in ix.owners {
      SoleOwner(ix, a);
      if AnyOwner(ix, a) != name {
        assert OwnedBy(ix.owners, a, AnyOwner(ix, a));
      }
    }
  }

  /** Erasing the entry of one member first does not change what evicting its group leaves. */
  lemma EvictWithoutEntry(ix: Index, a: DevAddr)
    requires IndexOk(ix) && a in ix.owners
    ensures var n := AnyOwner(ix, a); Evicted(ix.(owners := ix.owners - {a}), n) == Evicted(ix, n)
    ensures forall b :: b in ix.owners - {a} ==> (ix.owners - {a})[b] != {}
  {
    SoleOwner(ix, a);
    NonEmptySets(ix);
    var n := AnyOwner(ix, a);
    assert OwnedBy(ix.owners, a, n);
    assert Member(ix.known, a, n);
    ScrubWithout(ix.owners, ToSet(ix.known[n].addrs), n, a);
  }

  lemma ScrubWithout(owners: map<DevAddr, set<nat>>, members: set<DevAddr>, n: nat, a: DevAddr)
    requires a in owners && a in members && owners[a] == {n}
    ensures Scrub(owners - {a}, members, n) == Scrub(owners, members, n)
  {
    assert owners[a] - {n} == {};
  }

  lemma DroppedIsReleased(ix: Index, a: DevAddr)
    ensures Dropped(ix, a) == Released(ix, a).(names := ix.names - {a})
    ensures Released(ix, a).names == ix.names
  {
  }

  class EpochState {
    const alloc: DeviceAllocator
    const config: Config
    const backend: CompilerBackend

    var polyMap: map<DevAddr, Handle>
    var pendingOutputs: map<DevAddr, nat>
    var inputAddrs: set<DevAddr>
    var addrModulus: map<DevAddr, nat>
    var knownMrpGroups: map<nat, Group>
    var mrpInNames: map<DevAddr, nat>
    var mrpOutNames: map<DevAddr, nat>
    var mrpInNameCounter: nat
    var mrpOutNameCounter: nat
    var pendingMrpGroups: set<nat>
    var addrToMrpGroups: map<DevAddr, set<nat>>
    var mrpInputTaggedNames: set<nat>
    var inputCounter: nat
    var outputCounter: nat
    var recording: bool
    ghost var log: seq<GroupEvent>

    ghost function Table(): Index
      reads this
    {
      Index(knownMrpGroups, addrToMrpGroups, pendingMrpGroups, mrpOutNames, mrpOutNameCounter)
    }

    ghost function View(): Recorder
      reads this, alloc, config, backend
    {
      Recorder(config.View(), alloc.View(), alloc.shadow, backend.trace, polyMap, inputAddrs, addrModulus,
               pendingOutputs, Table(), mrpInNames, backend.inputs, backend.mrpInputs, inputCounter, outputCounter,
               mrpInNameCounter, backend.initialized, recording, backend.written, backend.probes, log)
    }

    /** What holds between calls apart from the meaning of the tables (see RecorderLaws.RecorderOk). */
    ghost predicate Valid()
      reads this, alloc, backend
    {
      && alloc.Valid()
      && mrpInputTaggedNames == backend.mrpInputs.Keys
      && backend.outputs == map[] && backend.mrpOutputs == map[]
    }

    constructor (alloc: DeviceAllocator, config: Config, backend: CompilerBackend)
      requires alloc.Valid() && backend.Empty()
      ensures this.alloc == alloc && this.config == config && this.backend == backend
      ensures Valid()
      ensures View() == R.ClearState(View()).(heap := alloc.View(), shadow := alloc.shadow, cfg := config.View())
    {
      this.alloc, this.config, this.backend := alloc, config, backend;
      polyMap, pendingOutputs, inputAddrs, addrModulus := map[], map[], {}, map[];
      knownMrpGroups, mrpInNames, mrpOutNames := map[], map[], map[];
      mrpInNameCounter, mrpOutNameCounter := 0, 0;
      pendingMrpGroups, addrToMrpGroups, mrpInputTaggedNames := {}, map[], {};
      inputCounter, outputCounter, recording := 0, 0, false;
      log := [];
    }

    // ---- Sessions ----

    /** Brings up the back end, then enters recording. */
    method OpenSession()
      requires Valid()
      modifies this`recording, backend`initialized
      ensures Valid() && View() == Open(old(View())) && backend.initialized
    {
      backend.EnsureInitialized();
      if backend.initialized && !recording {
        recording := true;
      }
    }

    // ---- Values ----

    method BindInput(addr: DevAddr, data: Bytes) returns (h: Handle)
      requires Valid()
      modifies this`polyMap, this`inputAddrs, this`inputCounter, backend`trace, backend`inputs
      ensures Valid() && View() == R.BindInput(old(View()), addr, data) && h == |old(backend.trace)|
    {
      h := RecordInput(data);
      polyMap := polyMap[addr := h];
      inputAddrs := inputAddrs + {addr};
    }

    /** Records an input instruction under the next input name. */
    method RecordInput(data: Bytes) returns (h: Handle)
      requires Valid()
      modifies this`inputCounter, backend`trace, backend`inputs
      ensures Valid() && h == |old(backend.trace)|
      ensures var r := old(View());
        View() == r.(trace := r.trace + [Input(data)], inputTags := r.inputTags[r.inCount := h], inCount := r.inCount + 1)
    {
      h := backend.Emit(Input(data));
      backend.TagInput(inputCounter, h);
      inputCounter := inputCounter + 1;
    }

    /** The handle of `addr`. On first use its stored bytes move into a new input instruction. */
    method LookupOrCreate(addr: DevAddr) returns (r: Result<Handle>)
      requires Valid()
      modifies this`polyMap, this`inputAddrs, this`inputCounter
      modifies alloc`shadow, backend`trace, backend`inputs
      ensures Valid() && (View(), r) == Lookup(old(View()), addr)
    {
      if addr in polyMap {
        return Ok(polyMap[addr]);
      }
      var components := alloc.ExtractPolynomialComponents(addr, config.ringDim);
      if components.Err? {
        if components.error == NoData {
          return Err(SourceUnavailable);
        }
        return Err(components.error);
      }
      var h := BindInput(addr, components.value);
      return Ok(h);
    }

    method StoreComputeResult(addr: DevAddr, h: Handle, modulus: nat)
      requires Valid()
      modifies this`polyMap, this`inputAddrs, this`addrModulus
      ensures Valid() && View() == Store(old(View()), addr, h, modulus)
    {
      polyMap := polyMap[addr := h];
      inputAddrs := inputAddrs - {addr};
      if modulus != COPY_MODULUS {
        addrModulus := addrModulus[addr := modulus];
      } else {
        addrModulus := addrModulus - {addr};
      }
    }

    method GetRecordedModulus(addr: DevAddr) returns (q: nat)
      ensures q == RecordedModulus(View(), addr)
    {
      return if addr in addrModulus then addrModulus[addr] else COPY_MODULUS;
    }

    method CopyResult(dst: DevAddr, src: DevAddr, modulus: nat) returns (s: Status)
      requires Valid()
      modifies this`polyMap, this`inputAddrs, this`inputCounter, this`addrModulus
      modifies alloc`shadow, backend`trace, backend`inputs
      ensures Valid() && (View(), s) == R.CopyResult(old(View()), dst, src, modulus)
    {
      var p := LookupOrCreate(src);
      if p.Err? {
        return Failure(p.error);
      }
      var q := modulus;
      if q == COPY_MODULUS {
        q := GetRecordedModulus(src);
      }
      var copy := backend.Emit(Copy(p.value));
      if q != COPY_MODULUS {
        addrModulus := addrModulus[src := q];
      }
      StoreComputeResult(dst, copy, q);
      return Success;
    }

    /** Tags the stored bytes of `addr` as an input, leaving them in place. */
    method TagH2DInput(addr: DevAddr) returns (s: Status)
      requires Valid()
      modifies this`polyMap, this`inputAddrs, this`inputCounter, this`pendingOutputs
      modifies backend`trace, backend`inputs
      ensures Valid() && (View(), s) == R.TagH2DInput(old(View()), addr)
    {
      if config.ringDim == 0 {
        return Failure(NotConfigured);
      }
      var components := alloc.ReadPolynomialComponents(addr, config.ringDim);
      if components.Err? {
        return Failure(components.error);
      }
      var _ := BindInput(addr, components.value);
      pendingOutputs := pendingOutputs - {addr};
      return Success;
    }

    // ---- Groups ----

    /** Drops one group wholesale. Bindings and per-address tags of its members stay. */
    method EvictMrpGroup(name: nat)
      requires forall a :: a in addrToMrpGroups ==> addrToMrpGroups[a] != {}
      modifies this`knownMrpGroups, this`addrToMrpGroups, this`pendingMrpGroups
      ensures Table() == Evicted(old(Table()), name)
    {
      if name !in knownMrpGroups {
        return;
      }
      var addrs := knownMrpGroups[name].addrs;
      ScrubAddrs(addrs, name);
      knownMrpGroups := knownMrpGroups - {name};
      pendingMrpGroups := pendingMrpGroups - {name};
    }

    /** Takes `name` out of the reverse entries of `addrs`, erasing entries that become empty. */
    method ScrubAddrs(addrs: seq<DevAddr>, name: nat)
      requires forall a :: a in addrToMrpGroups ==> addrToMrpGroups[a] != {}
      modifies this`addrToMrpGroups
      ensures addrToMrpGroups == Scrub(old(addrToMrpGroups), ToSet(addrs), name)
    {
      ScrubNone(addrToMrpGroups, name);
      for i := 0 to |addrs|
        invariant addrToMrpGroups == Scrub(old(addrToMrpGroups), ToSet(addrs[..i]), name)
      {
        ghost var before := addrToMrpGroups;
        var a := addrs[i];
        if a in addrToMrpGroups {
          addrToMrpGroups := addrToMrpGroups[a := addrToMrpGroups[a] - {name}];
          if addrToMrpGroups[a] == {} {
            addrToMrpGroups := addrToMrpGroups - {a};
          }
        }
        assert addrToMrpGroups == Scrub(before, {a}, name);
        ScrubStep(old(addrToMrpGroups), addrs, i, name);
      }
      assert addrs[..|addrs|] == addrs;
    }

    /** Drops every group that names `addr`. */
    method EvictGroupsOf(addr: DevAddr)
      requires IndexOk(Table())
      modifies this`knownMrpGroups, this`addrToMrpGroups, this`pendingMrpGroups
      ensures Table() == Released(old(Table()), addr)
    {
      hide IndexOk, Evicted;
      if addr in addrToMrpGroups {
        SoleOwner(Table(), addr);
        EvictWithoutEntry(Table(), addr);
        ghost var owner := AnyOwner(Table(), addr);
        var groupNames := addrToMrpGroups[addr];
        addrToMrpGroups := addrToMrpGroups - {addr};
        while groupNames != {}
          invariant groupNames == {owner} || groupNames == {}
          invariant groupNames == {owner} ==> Table() == old(Table()).(owners := old(addrToMrpGroups) - {addr})
          invariant groupNames == {} ==> Table() == Evicted(old(Table()), owner)
          decreases groupNames
        {
          var name :| name in groupNames;
          groupNames := groupNames - {name};
          EvictMrpGroup(name);
        }
      }
    }

    /** Drops every binding of `addr` and every group that names it. */
    method Invalidate(addr: DevAddr)
      requires Valid() && IndexOk(Table())
      modifies this
      ensures Valid() && View() == InvalidateAddr(old(View()), addr)
    {
      hide IndexOk, Released, Dropped, View;
      DroppedIsReleased(old(View()).table, addr);
      ReleaseAddr(addr);
      DropEntries(addr);
      assert View() == InvalidateAddr(old(View()), addr);
    }

    method ReleaseAddr(addr: DevAddr)
      requires Valid() && IndexOk(Table())
      modifies this`knownMrpGroups, this`addrToMrpGroups, this`pendingMrpGroups
      ensures Valid() && View() == old(View()).(table := Released(old(View()).table, addr))
    {
      hide IndexOk, Released;
      EvictGroupsOf(addr);
    }

    /** Drops every entry keyed by `addr` and notes it. */
    method DropEntries(addr: DevAddr)
      requires Valid()
      modifies this
      ensures Valid()
      ensures var r := old(View());
        View() == r.(binding := r.binding - {addr}, pending := r.pending - {addr}, modulus := r.modulus - {addr},
                     inputs := r.inputs - {addr}, inNames := r.inNames - {addr},
                     table := r.table.(names := r.table.names - {addr}), log := r.log + [Invalidated(addr)])
    {
      ForgetAddr(addr);
      log := log + [Invalidated(addr)];
    }

    method ForgetAddr(addr: DevAddr)
      modifies this`polyMap, this`pendingOutputs, this`addrModulus, this`inputAddrs, this`mrpInNames, this`mrpOutNames
      ensures polyMap == old(polyMap) - {addr} && pendingOutputs == old(pendingOutputs) - {addr}
      ensures addrModulus == old(addrModulus) - {addr} && inputAddrs == old(inputAddrs) - {addr}
      ensures mrpInNames == old(mrpInNames) - {addr} && mrpOutNames == old(mrpOutNames) - {addr}
    {
      polyMap := polyMap - {addr};
      pendingOutputs := pendingOutputs - {addr};
      addrModulus := addrModulus - {addr};
      inputAddrs := inputAddrs - {addr};
      mrpInNames := mrpInNames - {addr};
      mrpOutNames := mrpOutNames - {addr};
    }

    /** The stable counter name of the group led by `leading`. */
    method MrpGroupName(output: bool, leading: DevAddr) returns (name: nat)
      requires Valid()
      modifies this`mrpInNames, this`mrpOutNames, this`mrpInNameCounter, this`mrpOutNameCounter
      ensures Valid()
      ensures (View(), name) ==
        if output then NameOutputGroup(old(View()), leading) else NameInputGroup(old(View()), leading)
    {
      var names := if output then mrpOutNames else mrpInNames;
      if leading in names {
        return names[leading];
      }
      if output {
        name := mrpOutNameCounter;
        mrpOutNameCounter := mrpOutNameCounter + 1;
        mrpOutNames := mrpOutNames[leading := name];
      } else {
        name := mrpInNameCounter;
        mrpInNameCounter := mrpInNameCounter + 1;
        mrpInNames := mrpInNames[leading := name];
      }
    }

    method TagMrpInputIfNew(name: nat, residues: seq<(Handle, nat)>)
      requires Valid()
      modifies this`mrpInputTaggedNames, backend`mrpInputs
      ensures Valid()
      ensures View() == if name in old(backend.mrpInputs) then old(View())
        else old(View()).(mrpInputTags := old(backend.mrpInputs)[name := residues])
    {
      if name !in mrpInputTaggedNames {
        mrpInputTaggedNames := mrpInputTaggedNames + {name};
        backend.TagMrpInput(name, residues);
      }
    }

    /** Gives every address without an output name the next one. */
    method NameOutputs(addrs: seq<DevAddr>)
      requires Valid()
      modifies this`pendingOutputs, this`outputCounter
      ensures Valid() && View() == TagOutputs(old(View()), addrs)
    {
      for i := 0 to |addrs|
        invariant (pendingOutputs, outputCounter) == R.NameOutputs(old(pendingOutputs), old(outputCounter), addrs, i)
      {
        if addrs[i] !in pendingOutputs {
          pendingOutputs := pendingOutputs[addrs[i] := outputCounter];
          outputCounter := outputCounter + 1;
        }
      }
    }

    /** Evicts every other group that claims one of `addrs`. */
    method EvictConflicts(addrs: seq<DevAddr>, name: nat)
      requires IndexOk(Table())
      modifies this`knownMrpGroups, this`addrToMrpGroups, this`pendingMrpGroups
      ensures Table() == EvictOthers(old(Table()), addrs, |addrs|, name)
      ensures IndexOk(Table())
    {
      hide IndexOk, Evicted;
      for i := 0 to |addrs|
        invariant Table() == EvictOthers(old(Table()), addrs, i, name)
        invariant IndexOk(Table())
      {
        SoleConflict(Table(), addrs[i], name);
        if addrs[i] in addrToMrpGroups {
          SoleOwner(Table(), addrs[i]);
          NonEmptySets(Table());
          ghost var before := Table();
          ghost var owner := AnyOwner(Table(), addrs[i]);
          EvictedOk(before, owner);
          var conflicting := addrToMrpGroups[addrs[i]];
          while conflicting != {}
            invariant conflicting == {owner} || conflicting == {}
            invariant conflicting == {owner} ==> Table() == before
            invariant conflicting == {} ==> Table() == if owner != name then Evicted(before, owner) else before
            decreases conflicting
          {
            var other :| other in conflicting;
            conflicting := conflicting - {other};
            if other != name {
              EvictMrpGroup(other);
            }
          }
        }
      }
    }

    /** Registers a group under `name`; the latest write wins. */
    method RegisterMrpOutputGroup(addrs: seq<DevAddr>, moduli: seq<nat>, name: nat) returns (s: Status)
      requires Valid() && IndexOk(Table())
      modifies this
      ensures Valid() && (View(), s) == RegisterGroup(old(View()), addrs, moduli, name)
    {
      hide IndexOk, EvictOthers, Installed, R.NameOutputs;
      if |addrs| != |moduli| {
        return Failure(MrpGroupAddrModuliMismatch);
      }
      if name in knownMrpGroups && knownMrpGroups[name].addrs == addrs && knownMrpGroups[name].moduli == moduli {
        log := log + [Registered(Group(addrs, moduli))];
        return Success;
      }
      MakeRoom(Group(addrs, moduli), name);
      InstallAndTag(addrs, moduli, name);
      return Success;
    }

    /** Notes a registration and evicts every other group that it conflicts with. */
    method MakeRoom(g: Group, name: nat)
      requires Valid() && IndexOk(Table())
      modifies this`log, this`knownMrpGroups, this`addrToMrpGroups, this`pendingMrpGroups
      ensures Valid() && forall a :: a in addrToMrpGroups ==> addrToMrpGroups[a] != {}
      ensures View() == old(View()).(log := old(log) + [Registered(g)],
                                     table := EvictOthers(old(Table()), g.addrs, |g.addrs|, name))
    {
      hide IndexOk, EvictOthers;
      log := log + [Registered(g)];
      EvictConflicts(g.addrs, name);
      NonEmptySets(Table());
    }

    /** Installs the group; if it replaces a promoted one, its members are tagged. */
    method InstallAndTag(addrs: seq<DevAddr>, moduli: seq<nat>, name: nat)
      requires Valid() && forall a :: a in addrToMrpGroups ==> addrToMrpGroups[a] != {}
      modifies this`knownMrpGroups, this`addrToMrpGroups, this`pendingOutputs, this`outputCounter
      ensures Valid()
      ensures var r1 := old(View()).(table := Installed(old(Table()), name, Group(addrs, moduli)));
        View() == if name in old(knownMrpGroups) && name in old(pendingMrpGroups) then TagOutputs(r1, addrs) else r1
    {
      hide Installed, R.NameOutputs;
      if name in knownMrpGroups {
        InstallGroup(addrs, moduli, name);
        if name in pendingMrpGroups {
          NameOutputs(addrs);
        }
        return;
      }
      InstallGroup(addrs, moduli, name);
    }

    /** Gives `name` the group of `addrs`, in place of the one it had. */
    method InstallGroup(addrs: seq<DevAddr>, moduli: seq<nat>, name: nat)
      requires forall a :: a in addrToMrpGroups ==> addrToMrpGroups[a] != {}
      modifies this`knownMrpGroups, this`addrToMrpGroups
      ensures Table() == Installed(old(Table()), name, Group(addrs, moduli))
    {
      ScrubNone(addrToMrpGroups, name);
      if name in knownMrpGroups {
        ScrubAddrs(knownMrpGroups[name].addrs, name);
      }
      knownMrpGroups := knownMrpGroups[name := Group(addrs, moduli)];
      AddOwners(addrs, name);
    }

    method AddOwners(addrs: seq<DevAddr>, name: nat)
      modifies this`addrToMrpGroups
      ensures addrToMrpGroups == AddOwner(old(addrToMrpGroups), ToSet(addrs), name)
    {
      AddOwnerNone(addrToMrpGroups, name);
      for i := 0 to |addrs|
        invariant addrToMrpGroups == AddOwner(old(addrToMrpGroups), ToSet(addrs[..i]), name)
      {
        var a := addrs[i];
        ghost var before := addrToMrpGroups;
        addrToMrpGroups := addrToMrpGroups[a := (if a in addrToMrpGroups then addrToMrpGroups[a] else {}) + {name}];
        AddOwnerOne(before, a, name);
        AddOwnerStep(old(addrToMrpGroups), addrs, i, name);
      }
      assert addrs[..|addrs|] == addrs;
    }

    /** Declares `addr` an output; a residue of a group tags and promotes the whole group. */
    method TagOutputLocked(addr: DevAddr) returns (s: Status)
      requires Valid() && IndexOk(Table())
      modifies this`pendingOutputs, this`outputCounter, this`pendingMrpGroups
      ensures Valid() && (View(), s) == R.TagOutputLocked(old(View()), addr)
    {
      hide IndexOk, R.NameOutputs;
      if addr !in polyMap {
        return Failure(SourceUnavailable);
      }
      if addr in addrToMrpGroups {
        SoleOwner(Table(), addr);
        ghost var owner := AnyOwner(Table(), addr);
        // The set holds exactly one name.
        assert addrToMrpGroups[addr] == {owner};
        var groupNames := addrToMrpGroups[addr];
        while groupNames != {}
          invariant groupNames == {owner} || groupNames == {}
          invariant Valid()
          invariant groupNames == {owner} ==> View() == old(View())
          invariant groupNames == {} ==> (View(), Success) == R.TagOutputLocked(old(View()), addr)
          decreases groupNames
        {
          var name :| name in groupNames;
          groupNames := groupNames - {name};
          if name in knownMrpGroups {
            NameOutputs(knownMrpGroups[name].addrs);
            pendingMrpGroups := pendingMrpGroups + {name};
          }
        }
        return Success;
      }
      NameOutputs([addr]);
      return Success;
    }

    // ---- Epoch end ----

    /** Names every output to the back end. In a state that is ready this cannot fail. */
    method TagPendingOutputs() returns (s: Status)
      requires Valid() && ExportReady(View())
      modifies backend`outputs, backend`mrpOutputs
      ensures s == Success && Tagged()
    {
      var todo := pendingOutputs.Keys;
      while todo != {}
        invariant todo <= pendingOutputs.Keys
        invariant OutputsNamed(backend.outputs, pendingOutputs, polyMap, pendingOutputs.Keys - todo)
        invariant backend.outputs.Keys <= pendingOutputs.Values
        invariant backend.mrpOutputs == map[]
        decreases todo
      {
        var a :| a in todo;
        todo := todo - {a};
        if a !in polyMap {
          return Failure(MissingPolyMapBinding);
        }
        forall b | b in pendingOutputs && b != a ensures pendingOutputs[b] != pendingOutputs[a] {
          assert !SameName(pendingOutputs, a, b);
        }
        backend.TagOutput(pendingOutputs[a], polyMap[a]);
      }
      s := TagPendingGroups();
      NamedExactly(backend.outputs, pendingOutputs, polyMap);
      GroupsNamedExactly(backend.mrpOutputs, polyMap, Table());
    }

    /** Everything pending is named to the back end, and nothing else is. */
    ghost predicate Tagged()
      reads this, backend
    {
      && OutputsNamed(backend.outputs, pendingOutputs, polyMap, pendingOutputs.Keys)
      && GroupsNamed(backend.mrpOutputs, polyMap, knownMrpGroups, pendingMrpGroups)
      && backend.outputs == OutputsOf(pendingOutputs, polyMap)
      && backend.mrpOutputs == OutputGroupsOf(Table(), polyMap)
    }

    method TagPendingGroups() returns (s: Status)
      requires backend.mrpOutputs == map[]
      requires pendingMrpGroups <= knownMrpGroups.Keys
      requires forall n :: n in pendingMrpGroups ==> |knownMrpGroups[n].addrs| == |knownMrpGroups[n].moduli|
      requires forall a, n :: n in pendingMrpGroups && Member(knownMrpGroups, a, n) ==> a in polyMap
      modifies backend`mrpOutputs
      ensures s == Success
      ensures GroupsNamed(backend.mrpOutputs, polyMap, knownMrpGroups, pendingMrpGroups)
    {
      var names := pendingMrpGroups;
      while names != {}
        invariant names <= pendingMrpGroups
        invariant GroupsNamed(backend.mrpOutputs, polyMap, knownMrpGroups, pendingMrpGroups - names)
        decreases names
      {
        var name :| name in names;
        if name !in knownMrpGroups {
          return Failure(MissingPolyMapBinding);
        }
        var g := knownMrpGroups[name];
        var pairs := [];
        for i := 0 to |g.addrs|
          invariant pairs == GroupPairs(polyMap, g)[..i]
        {
          assert Member(knownMrpGroups, g.addrs[i], name);
          if g.addrs[i] !in polyMap {
            return Failure(MissingPolyMapBinding);
          }
          pairs := pairs + [(polyMap[g.addrs[i]], g.moduli[i])];
        }
        backend.TagMrpOutput(name, pairs);
        ghost var done := pendingMrpGroups - names;
        names := names - {name};
        assert pendingMrpGroups - names == done + {name};
      }
      return Success;
    }

    method ClearState()
      requires alloc.Valid()
      modifies this, backend`trace, backend`inputs, backend`mrpInputs, backend`outputs, backend`mrpOutputs
      ensures Valid() && View() == R.ClearState(old(View()))
    {
      ClearGroups();
      ClearBindings();
      backend.ClearCaptured();
      assert Table() == NO_GROUPS;
    }

    method ClearBindings()
      modifies this`polyMap, this`pendingOutputs, this`addrModulus, this`inputAddrs, this`recording, this`inputCounter,
        this`outputCounter, this`log
      ensures polyMap == map[] && pendingOutputs == map[] && addrModulus == map[] && inputAddrs == {}
      ensures !recording && inputCounter == 0 && outputCounter == 0 && log == []
    {
      polyMap, pendingOutputs, addrModulus, inputAddrs := map[], map[], map[], {};
      recording := false;
      inputCounter, outputCounter := 0, 0;
      log := [];
    }

    method ClearGroups()
      modifies this`knownMrpGroups, this`pendingMrpGroups, this`addrToMrpGroups, this`mrpInputTaggedNames,
        this`mrpInNames, this`mrpOutNames, this`mrpInNameCounter, this`mrpOutNameCounter
      ensures Table() == NO_GROUPS && mrpInputTaggedNames == {} && mrpInNames == map[] && mrpInNameCounter == 0
    {
      knownMrpGroups, pendingMrpGroups, addrToMrpGroups := map[], {}, map[];
      mrpInputTaggedNames, mrpInNames, mrpOutNames := {}, map[], map[];
      mrpInNameCounter, mrpOutNameCounter := 0, 0;
    }

    /** Reads the named outputs back and stores their bytes, up to the first that fails. The order of the
        walk is the environment's. */
    method PopulateShadows(env: BackendOutcome) returns (s: Status)
      requires alloc.Valid() && CanReadBack(env, pendingOutputs.Keys, alloc.allocSet)
      requires ResultsReady(env)
      modifies alloc`shadow
      ensures alloc.Valid() && s == ReadStatus(env)
      ensures alloc.shadow ==
        Stored(old(alloc.shadow), backend.Vals(), polyMap, StoredBack(env, pendingOutputs.Keys), alloc.polyBytes)
    {
      hide Stored, Fit, At, ResultsReady;
      NothingStored(alloc.shadow, backend.Vals(), polyMap, alloc.polyBytes);
      var todo := pendingOutputs.Keys;
      assert pendingOutputs.Keys - todo == {};
      while todo != {}
        invariant todo <= pendingOutputs.Keys && alloc.Valid()
        invariant env.Interrupted? ==> pendingOutputs.Keys - todo <= env.stored
        invariant alloc.shadow ==
          Stored(old(alloc.shadow), backend.Vals(), polyMap, pendingOutputs.Keys - todo, alloc.polyBytes)
        decreases todo
      {
        SomeNext(env, pendingOutputs.Keys, alloc.allocSet, todo);
        var a :| a in todo && Next(env, alloc.allocSet, todo, a);
        ghost var done := pendingOutputs.Keys - todo;
        todo := todo - {a};
        ResultAt(env, a);
        s := StoreResult(a);
        if s.Failure? {
          assert done == env.stored;
          return s;
        }
        assert pendingOutputs.Keys - todo == done + {a};
        StoredStep(old(alloc.shadow), backend.Vals(), polyMap, done, a, alloc.polyBytes);
      }
      assert pendingOutputs.Keys - todo == pendingOutputs.Keys;
      return Success;
    }

    /** The back end has the results that `env` lets it have. */
    ghost predicate ResultsReady(env: BackendOutcome)
      reads this, backend
    {
      && pendingOutputs.Keys <= polyMap.Keys
      && OutputsNamed(backend.outputs, pendingOutputs, polyMap, pendingOutputs.Keys)
      && backend.results ==
           (map n | n in backend.outputs && (n !in LostNames(pendingOutputs, env) || !Missing(env)) ::
              At(backend.Vals(), backend.outputs[n]))
      && backend.garbled == (if Undecodable(env) then LostNames(pendingOutputs, env) else {})
      && (forall a, b :: SameName(pendingOutputs, a, b) ==> a == b)
    }

    lemma ResultAt(env: BackendOutcome, a: DevAddr)
      requires ResultsReady(env) && a in pendingOutputs
      ensures a in polyMap
      ensures var n := pendingOutputs[a]; var lost := env.Interrupted? && a !in env.stored;
        && (n in backend.results <==> !(lost && Missing(env)))
        && (n in backend.results ==> backend.results[n] == At(backend.Vals(), polyMap[a]))
        && (n in backend.garbled <==> lost && Undecodable(env))
    {
      NamedAt(backend.outputs, pendingOutputs, polyMap, a);
      LostAt(pendingOutputs, env, a);
    }

    method StoreResult(a: DevAddr) returns (s: Status)
      requires alloc.Valid() && a in pendingOutputs
      modifies alloc`shadow
      ensures alloc.Valid()
      ensures s ==
        if pendingOutputs[a] !in backend.results then Failure(BackendOutputMissing)
        else if pendingOutputs[a] in backend.garbled then Failure(BackendOutputDecodeFailed)
        else if a !in alloc.allocSet then Failure(UnknownAddress)
        else Success
      ensures alloc.shadow ==
        if s.Success? then old(alloc.shadow)[a := Fit(backend.results[pendingOutputs[a]], alloc.polyBytes)]
        else old(alloc.shadow)
    {
      var name := pendingOutputs[a];
      if name !in backend.results {
        return Failure(BackendOutputMissing);
      }
      if name in backend.garbled {
        return Failure(BackendOutputDecodeFailed);
      }
      s := alloc.UpdateShadow(a, backend.results[name]);
    }

    /** Writes the program, then replays it and stores the results if asked to. */
    method DoMaterialize(env: BackendOutcome, runReplay: bool) returns (s: Status)
      requires alloc.Valid() && ExportReady(View()) && recording && Tagged()
      requires ReadsBack(env, runReplay) ==> CanReadBack(env, pendingOutputs.Keys, alloc.allocSet)
      modifies this, alloc`shadow, backend`trace, backend`inputs, backend`mrpInputs, backend`outputs,
        backend`mrpOutputs, backend`results, backend`garbled, backend`written, backend`probes
      ensures Valid()
      ensures (View(), s) ==
        if env == StopFailed then (R.ClearState(old(View())), Failure(BackendReplayFailed))
        else Materialize(backend.sem, old(View()).(written := WrittenProgram(old(View()))), env, runReplay)
    {
      hide View, ExportReady, Tagged, Materialize, WrittenProgram;
      var stopOk := WriteProject(env);
      if !stopOk {
        ClearState();
        return Failure(BackendReplayFailed);
      }
      s := AfterStop(env, runReplay);
    }

    method WriteProject(env: BackendOutcome) returns (ok: bool)
      requires ExportReady(View()) && Tagged()
      modifies backend`written
      ensures ok <==> env != StopFailed
      ensures View() == if ok then old(View()).(written := WrittenProgram(old(View()))) else old(View())
      ensures ExportReady(View()) && Tagged()
    {
      hide ExportReady, OutputsOf, OutputGroupsOf, OutputsNamed, GroupsNamed;
      ok := backend.StopEpoch(env);
      ReadyWhatever(old(View()), backend.written);
    }

    method AfterStop(env: BackendOutcome, runReplay: bool) returns (s: Status)
      requires alloc.Valid() && ExportReady(View()) && Tagged() && env != StopFailed
      requires ReadsBack(env, runReplay) ==> CanReadBack(env, pendingOutputs.Keys, alloc.allocSet)
      modifies this, alloc`shadow, backend`trace, backend`inputs, backend`mrpInputs, backend`outputs,
        backend`mrpOutputs, backend`results, backend`garbled, backend`probes
      ensures Valid() && (View(), s) == Materialize(backend.sem, old(View()), env, runReplay)
    {
      hide ReplayedShadow, ReplayedProbes, OutputsNamed, GroupsNamed, OutputsOf, OutputGroupsOf, View;
      ViewFields();
      var hookFailed := backend.TakeHookHadError(env);
      if hookFailed {
        ClearState();
        return Failure(BridgeHookFailed);
      }
      if !runReplay {
        ClearState();
        return Success;
      }
      s := ReplayAndStore(env);
      ClearState();
    }

    lemma ViewFields()
      ensures View().pending == pendingOutputs && View().binding == polyMap && View().table == Table()
    {
    }

    /** Dispatches replay and stores the results. */
    method ReplayAndStore(env: BackendOutcome) returns (s: Status)
      requires alloc.Valid() && ExportReady(View())
      requires env != ReplayFailed ==> CanReadBack(env, pendingOutputs.Keys, alloc.allocSet)
      requires OutputsNamed(backend.outputs, pendingOutputs, polyMap, pendingOutputs.Keys)
      requires GroupsNamed(backend.mrpOutputs, polyMap, knownMrpGroups, pendingMrpGroups)
      modifies alloc`shadow, backend`results, backend`garbled, backend`probes
      ensures alloc.Valid()
      ensures s ==
        if env == ReplayFailed then Failure(BackendReplayFailed)
        else ReadStatus(env)
      ensures View() ==
        if env == ReplayFailed then old(View())
        else old(View()).(shadow := ReplayedShadow(backend.sem, old(View()), StoredBack(env, pendingOutputs.Keys)),
                          probes := ReplayedProbes(backend.sem, old(View())))
    {
      hide View, ResultsReady;
      var replayOk := Dispatch(env);
      if !replayOk {
        return Failure(BackendReplayFailed);
      }
      s := ReadResults(env);
    }

    method Dispatch(env: BackendOutcome) returns (ok: bool)
      requires ExportReady(View())
      requires OutputsNamed(backend.outputs, pendingOutputs, polyMap, pendingOutputs.Keys)
      requires GroupsNamed(backend.mrpOutputs, polyMap, knownMrpGroups, pendingMrpGroups)
      modifies backend`results, backend`garbled, backend`probes
      ensures ok <==> env != ReplayFailed
      ensures View() == if ok then old(View()).(probes := ReplayedProbes(backend.sem, old(View()))) else old(View())
      ensures ok ==> ResultsReady(env)
    {
      hide IndexOk, OutputsNamed, LostNames, GroupPairs, Residues;
      ok := backend.Replay(env, LostNames(pendingOutputs, env));
      if ok {
        ProbesNamed(backend.Vals(), backend.mrpOutputs, polyMap, knownMrpGroups, pendingMrpGroups);
      }
    }

    method ReadResults(env: BackendOutcome) returns (s: Status)
      requires alloc.Valid() && CanReadBack(env, pendingOutputs.Keys, alloc.allocSet)
      requires ResultsReady(env)
      modifies alloc`shadow
      ensures alloc.Valid() && s == ReadStatus(env)
      ensures View() == old(View()).(
        shadow := ReplayedShadow(backend.sem, old(View()), StoredBack(env, pendingOutputs.Keys)))
    {
      hide ResultsReady;
      s := PopulateShadows(env);
    }

    /** Ends the epoch: exports what is tagged, or nothing when nothing is. */
    method Finalize(env: BackendOutcome, runReplay: bool) returns (s: Status)
      requires Valid() && ExportReady(View())
      requires ReadsBack(env, runReplay) ==> CanReadBack(env, pendingOutputs.Keys, alloc.allocSet)
      modifies this, alloc`shadow, backend`trace, backend`inputs, backend`mrpInputs, backend`outputs,
        backend`mrpOutputs, backend`results, backend`garbled, backend`written, backend`probes
      ensures Valid() && (View(), s) == FinalizeLocked(backend.sem, old(View()), env, runReplay)
    {
      hide ExportReady, Materialize, WrittenProgram, Tagged;
      if !recording {
        log := [];
        return Success;
      }
      if pendingOutputs == map[] && pendingMrpGroups == {} {
        ClearState();
        return Success;
      }
      s := TagPendingOutputs();
      if s.Failure? {
        return s;
      }
      s := DoMaterialize(env, runReplay);
    }
  }

  /** The addresses in `done` are named to the back end, each name once. */
  ghost predicate OutputsNamed(outputs: map<nat, Handle>, pending: map<DevAddr, nat>, binding: map<DevAddr, Handle>,
                               done: set<DevAddr>)
    requires done <= pending.Keys
  {
    forall a :: a in done ==> a in binding && pending[a] in outputs && outputs[pending[a]] == binding[a]
  }

  ghost predicate GroupsNamed(outputs: map<nat, seq<(Handle, nat)>>, binding: map<DevAddr, Handle>,
                              known: map<nat, Group>, done: set<nat>) {
    && done <= known.Keys
    && (forall n :: n in done ==> |known[n].addrs| == |known[n].moduli|)
    && outputs.Keys == done
    && forall n :: n in done ==> outputs[n] == GroupPairs(binding, known[n])
  }

  lemma NamedExactly(outputs: map<nat, Handle>, pending: map<DevAddr, nat>, binding: map<DevAddr, Handle>)
    requires OutputsNamed(outputs, pending, binding, pending.Keys) && outputs.Keys <= pending.Values
    requires forall a, b :: SameName(pending, a, b) ==> a == b
    ensures outputs == OutputsOf(pending, binding)
  {
    forall k | k in pending.Values
      ensures k in outputs && NamedBy(pending, k) in binding && outputs[k] == binding[NamedBy(pending, k)]
    {
      var a := NamedBy(pending, k);
      assert a in pending && pending[a] == k;
    }
  }

  lemma GroupsNamedExactly(outputs: map<nat, seq<(Handle, nat)>>, binding: map<DevAddr, Handle>, table: Index)
    requires GroupsNamed(outputs, binding, table.known, table.pending)
    ensures outputs == OutputGroupsOf(table, binding)
  {
  }

  /** What was written before does not matter to an export. */
  lemma ReadyWhatever(r: Recorder, written: Program)
    requires ExportReady(r)
    ensures ExportReady(r.(written := written))
  {
  }

  lemma ProbesNamed(vs: seq<Bytes>, outputs: map<nat, seq<(Handle, nat)>>, binding: map<DevAddr, Handle>,
                    known: map<nat, Group>, pending: set<nat>)
    requires GroupsNamed(outputs, binding, known, pending)
    ensures (map n | n in outputs :: Residues(vs, outputs[n])) ==
      map n | n in pending && n in known && |known[n].addrs| == |known[n].moduli| ::
        Residues(vs, GroupPairs(binding, known[n]))
  {
  }

  /** The stored bytes once the values of the addresses in `done` have been read back. */
  ghost function Stored(shadow: map<DevAddr, Bytes>, vs: seq<Bytes>, binding: map<DevAddr, Handle>,
                        done: set<DevAddr>, n: nat): map<DevAddr, Bytes> {
    shadow + map a | a in done && a in binding :: Fit(At(vs, binding[a]), n)
  }

  lemma NothingStored(shadow: map<DevAddr, Bytes>, vs: seq<Bytes>, binding: map<DevAddr, Handle>, n: nat)
    ensures Stored(shadow, vs, binding, {}, n) == shadow
  {
  }

  lemma NamedAt(outputs: map<nat, Handle>, pending: map<DevAddr, nat>, binding: map<DevAddr, Handle>, a: DevAddr)
    requires OutputsNamed(outputs, pending, binding, pending.Keys) && a in pending
    ensures a in binding && pending[a] in outputs && outputs[pending[a]] == binding[a]
  {
  }

  /** The names of the outputs whose results an interrupted read-back does not get to store. */
  function LostNames(pending: map<DevAddr, nat>, env: BackendOutcome): set<nat> {
    set a | a in pending && env.Interrupted? && a !in env.stored :: pending[a]
  }

  lemma LostAt(pending: map<DevAddr, nat>, env: BackendOutcome, a: DevAddr)
    requires a in pending && forall b, c :: SameName(pending, b, c) ==> b == c
    ensures pending[a] in LostNames(pending, env) <==> env.Interrupted? && a !in env.stored
  {
    if pending[a] in LostNames(pending, env) {
      var b :| b in pending && env.Interrupted? && b !in env.stored && pending[b] == pending[a];
      assert SameName(pending, b, a);
    }
  }

  /** In an interrupted walk the addresses that are stored come first, then one that fails. */
  predicate Next(env: BackendOutcome, live: set<DevAddr>, todo: set<DevAddr>, a: DevAddr) {
    env.Interrupted? ==>
      if todo * env.stored != {} then a in env.stored
      else env.fault == NotLive ==> a !in live
  }

  lemma SomeNext(env: BackendOutcome, tags: set<DevAddr>, live: set<DevAddr>, todo: set<DevAddr>)
    requires CanReadBack(env, tags, live) && todo != {} && todo <= tags
    requires env.Interrupted? ==> tags - todo <= env.stored
    ensures exists a :: a in todo && Next(env, live, todo, a)
  {
    var a :| a in todo;
    if env.Interrupted? {
      if todo * env.stored != {} {
        var b :| b in todo * env.stored;
        assert b in todo && Next(env, live, todo, b);
      } else if env.fault == NotLive {
        var b :| b in tags && b !in live;
        assert b in todo && Next(env, live, todo, b);
      } else {
        assert Next(env, live, todo, a);
      }
    } else {
      assert Next(env, live, todo, a);
    }
  }

  lemma StoredStep(shadow: map<DevAddr, Bytes>, vs: seq<Bytes>, binding: map<DevAddr, Handle>, done: set<DevAddr>,
                   a: DevAddr, n: nat)
    requires a in binding
    ensures Stored(shadow, vs, binding, done, n)[a := Fit(At(vs, binding[a]), n)] ==
      Stored(shadow, vs, binding, done + {a}, n)
  {
  }

  lemma AddOwnerOne(owners: map<DevAddr, set<nat>>, a: DevAddr, name: nat)
    ensures owners[a := (if a in owners then owners[a] else {}) + {name}] == AddOwner(owners, {a}, name)
  {
    var one, two := owners[a := (if a in owners then owners[a] else {}) + {name}], AddOwner(owners, {a}, name);
    forall b | b in one ensures one[b] == two[b] {}
  }
}
