/** The recorder's group table, names and output tags refine the device's groups, promotions and tags. */
module RecorderTableLaws {
  import opened Types
  import opened Trace
  import opened HeapModel
  import opened Configuration
  import opened DeviceModel
  import opened GroupIndex
  import opened RecorderModel
  import opened RecorderLaws

  /** What a registration keeps besides the device it shows. */
  ghost predicate SameSession(r: Recorder, r1: Recorder) {
    && r1.binding == r.binding && r1.heap == r.heap && r1.recording == r.recording && r1.trace == r.trace
    && NamesGrow(r, r1)
  }

  lemma SameSessionTrans(r: Recorder, r1: Recorder, r2: Recorder)
    requires SameSession(r, r1) && SameSession(r1, r2)
    ensures SameSession(r, r2)
  {
    hide NamesGrow;
    NamesGrowTrans(r, r1, r2);
  }

  // ---- Output tags ----

  lemma {:induction false} NameOutputsOk(pending: map<DevAddr, nat>, count: nat, addrs: seq<DevAddr>, n: nat)
    requires NamesOk(pending, count) && n <= |addrs|
    ensures var (p, c) := NameOutputs(pending, count, addrs, n);
      && NamesOk(p, c) && count <= c
      && p.Keys == pending.Keys + ToSet(addrs[..n])
      && NewOrKept(pending, count, p)
      && (forall a :: a in pending ==> p[a] == pending[a])
  {
    if n == 0 {
      assert pending.Keys + ToSet(addrs[..0]) == pending.Keys;
    } else {
      NameOutputsOk(pending, count, addrs, n - 1);
      var (p0, c0) := NameOutputs(pending, count, addrs, n - 1);
      var (p, c) := NameOutputs(pending, count, addrs, n);
      assert ToSet(addrs[..n]) == ToSet(addrs[..n - 1]) + {addrs[n - 1]};
      forall a, b | SameName(p, a, b) ensures a == b {
        assert a in p0 && b in p0 ==> SameName(p0, a, b);
      }
    }
  }

  lemma TagOutputsRefines(sem: Semantics, r: Recorder, addrs: seq<DevAddr>)
    requires CoreOk(r) && forall a :: a in addrs ==> a in r.binding
    ensures var r1 := TagOutputs(r, addrs);
      && CoreOk(r1) && Abs(sem, r1) == Abs(sem, r).(tags := Abs(sem, r).tags + ToSet(addrs))
      && SameSession(r, r1)
  {
    NameOutputsOk(r.pending, r.outCount, addrs, |addrs|);
    assert addrs[..|addrs|] == addrs;
    var r1 := TagOutputs(r, addrs);
    assert r.recording || addrs == [] by {
      if addrs != [] {
        assert addrs[0] in r.binding;
      }
    }
  }

  /** With the table changed alone, everything else of the device stays. */
  lemma WithTable(sem: Semantics, r: Recorder, table: Index)
    requires CoreOk(r)
    ensures var r1 := r.(table := table);
      CoreOk(r1) && Abs(sem, r1) == Abs(sem, r).(groups := GroupsOf(table), promoted := PromotedOf(table))
  {
  }

  lemma AbsFields(sem: Semantics, r: Recorder)
    ensures var d := Abs(sem, r);
      && d.groups == GroupsOf(r.table) && d.promoted == PromotedOf(r.table)
      && d.tags == r.pending.Keys && d.log == r.log && d.bound.Keys == r.binding.Keys
      && d.cfg == r.cfg && d.heap == r.heap && d.host == r.shadow && d.modulus == r.modulus
  {
  }

  lemma WithLog(sem: Semantics, r: Recorder, log: seq<GroupEvent>)
    requires CoreOk(r)
    ensures CoreOk(r.(log := log)) && Abs(sem, r.(log := log)) == Abs(sem, r).(log := log)
  {
  }

  // ---- Invalidation ----

  lemma DropBinding(sem: Semantics, r: Recorder, a: DevAddr)
    requires CoreOk(r)
    ensures var r1 := r.(binding := r.binding - {a}, pending := r.pending - {a}, modulus := r.modulus - {a},
                         inputs := r.inputs - {a}, inNames := r.inNames - {a});
      var d := Abs(sem, r);
      CoreOk(r1) && Abs(sem, r1) == d.(bound := d.bound - {a}, tags := d.tags - {a}, modulus := d.modulus - {a})
  {
    hide NamesOk, BindingOk, TagsOk;
    NamesShrink(r.pending, r.outCount, a);
    NamesShrink(r.inNames, r.mrpInCount, a);
    DropBindingOk(r.binding, r.trace, r.inputs, a);
    DenotedDrop(Vals(sem, r), r.binding, a);
  }

  lemma DroppedTable(table: Index, bound: set<DevAddr>, a: DevAddr)
    requires TableOk(table, bound)
    ensures TableOk(Dropped(table, a), bound - {a})
  {
    DroppedOk(table, a);
    DroppedFacts(table, a);
    forall b, n | Member(Dropped(table, a).known, b, n) ensures b in bound - {a} {
      assert Member(table.known, b, n);
    }
  }

  lemma DroppedNames(r: Recorder, a: DevAddr)
    ensures NamesGrow(r, InvalidateAddr(r, a))
  {
  }

  lemma InvalidateRefines(sem: Semantics, r: Recorder, a: DevAddr)
    requires RecorderOk(r)
    ensures var r1 := InvalidateAddr(r, a);
      && RecorderOk(r1) && Abs(sem, r1) == Invalidate(Abs(sem, r), a)
      && r1.binding == r.binding - {a} && r1.heap == r.heap && r1.shadow == r.shadow && r1.cfg == r.cfg
      && NamesGrow(r, r1)
  {
    DroppedNames(r, a);
    hide CoreOk, IndexOk, Dropped, WithoutClaims;
    DroppedTable(r.table, r.binding.Keys, a);
    DroppedView(r.table, a);
    DropBinding(sem, r, a);
    var r1 := r.(binding := r.binding - {a}, pending := r.pending - {a}, modulus := r.modulus - {a},
                 inputs := r.inputs - {a}, inNames := r.inNames - {a});
    WithTable(sem, r1, Dropped(r.table, a));
    WithLog(sem, r1.(table := Dropped(r.table, a)), r.log + [Invalidated(a)]);
  }

  lemma {:induction false} InvalidateAllRefines(sem: Semantics, r: Recorder, addrs: seq<DevAddr>)
    requires RecorderOk(r)
    ensures var r1 := InvalidateAddrs(r, addrs);
      && RecorderOk(r1) && Abs(sem, r1) == InvalidateAll(Abs(sem, r), addrs)
      && r1.binding.Keys == r.binding.Keys - (ToSet(addrs) - {NULL})
      && r1.heap == r.heap && r1.shadow == r.shadow && r1.cfg == r.cfg
      && NamesGrow(r, r1)
    decreases |addrs|
  {
    hide RecorderOk, Abs, InvalidateAddr, Invalidate;
    if addrs == [] {
    } else {
      var n := |addrs| - 1;
      assert addrs == addrs[..n] + [addrs[n]];
      ToSetSnoc(addrs[..n], addrs[n]);
      InvalidateAllRefines(sem, r, addrs[..n]);
      if addrs[n] != NULL {
        InvalidateRefines(sem, InvalidateAddrs(r, addrs[..n]), addrs[n]);
        NamesGrowTrans(r, InvalidateAddrs(r, addrs[..n]), InvalidateAddrs(r, addrs));
      }
    }
  }

  // ---- Names ----

  /** A new name is the name of no known group. */
  lemma FreshName(table: Index, a: DevAddr)
    requires IndexOk(table) && a !in table.names
    ensures IndexOk(table.(names := table.names[a := table.counter], counter := table.counter + 1))
    ensures forall n :: n in table.known ==> n < table.counter
    ensures table.pending <= table.known.Keys
  {
    var t := table.(names := table.names[a := table.counter], counter := table.counter + 1);
    forall n | n in table.known ensures NamedAfterLeader(t, n) && n < table.counter {
      assert NamedAfterLeader(table, n);
    }
    NamesExtend(table.names, table.counter, a);
  }

  lemma FreshNameGroups(names: map<DevAddr, nat>, known: map<nat, Group>, pending: set<nat>, a: DevAddr, k: nat)
    requires a !in names && k !in known && k !in pending
    ensures GroupsBy(names[a := k], known) == GroupsBy(names, known)
    ensures PromotedBy(names[a := k], pending) == PromotedBy(names, pending)
  {
  }

  lemma NamedOutputNames(r: Recorder, a: DevAddr)
    ensures NamesGrow(r, NameOutputGroup(r, a).0)
  {
    hide NewOrKept;
    Kept(r.pending, r.outCount);
    Kept(r.inNames, r.mrpInCount);
    Kept(r.table.names, r.table.counter);
    Added(r.table.names, r.table.counter, a);
  }

  lemma NameOutputGroupRefines(sem: Semantics, r: Recorder, a: DevAddr)
    requires RecorderOk(r) && a in r.binding
    ensures var (r1, name) := NameOutputGroup(r, a);
      && RecorderOk(r1) && Abs(sem, r1) == Abs(sem, r)
      && a in r1.table.names && r1.table.names[a] == name
      && SameSession(r, r1)
  {
    hide CoreOk, IndexOk, Abs, NamesGrow;
    NamedOutputNames(r, a);
    if a !in r.table.names {
      FreshName(r.table, a);
      FreshNameGroups(r.table.names, r.table.known, r.table.pending, a, r.table.counter);
      WithTable(sem, r, NameOutputGroup(r, a).0.table);
      AbsFields(sem, r);
    }
  }

  lemma NameInputGroupRefines(sem: Semantics, r: Recorder, a: DevAddr, residues: seq<(Handle, nat)>)
    requires CoreOk(r) && a in r.binding
    ensures var (r1, name) := NameInputGroup(r, a);
      && CoreOk(r1) && Grows(sem, r, r1) && Abs(sem, r1) == Abs(sem, r)
      && (name !in r1.mrpInputTags ==>
            var r2 := r1.(mrpInputTags := r1.mrpInputTags[name := residues]);
            CoreOk(r2) && Grows(sem, r, r2) && Abs(sem, r2) == Abs(sem, r))
  {
    hide CoreOk, Grows, Abs, NameInputGroup;
    NewInputName(sem, r, a);
    var (r1, name) := NameInputGroup(r, a);
    if name !in r1.mrpInputTags {
      Describe(sem, r1, name, residues);
      GrowsTrans(sem, r, r1, r1.(mrpInputTags := r1.mrpInputTags[name := residues]));
    }
  }

  lemma NewInputName(sem: Semantics, r: Recorder, a: DevAddr)
    requires CoreOk(r) && a in r.binding
    ensures var r1 := NameInputGroup(r, a).0; CoreOk(r1) && Grows(sem, r, r1) && Abs(sem, r1) == Abs(sem, r)
  {
    hide BindingOk, NamesOk, TagsOk;
    if a !in r.inNames {
      NamesExtend(r.inNames, r.mrpInCount, a);
    }
  }

  lemma Describe(sem: Semantics, r: Recorder, name: nat, residues: seq<(Handle, nat)>)
    requires CoreOk(r) && name !in r.mrpInputTags
    ensures var r1 := r.(mrpInputTags := r.mrpInputTags[name := residues]);
      CoreOk(r1) && Grows(sem, r, r1) && Abs(sem, r1) == Abs(sem, r)
  {
    hide BindingOk, NamesOk, TagsOk;
  }

  // ---- Registration ----

  /** The group a leader names, looked up either way. */
  lemma GroupByName(table: Index, leader: DevAddr)
    requires leader in table.names
    ensures leader in GroupsOf(table) <==> table.names[leader] in table.known
    ensures leader in GroupsOf(table) ==> GroupsOf(table)[leader] == table.known[table.names[leader]]
    ensures leader in PromotedOf(table) <==> table.names[leader] in table.pending
  {
  }

  lemma InstalledTable(table: Index, bound: set<DevAddr>, g: Group, name: nat)
    requires TableOk(table, bound)
    requires |g.addrs| == |g.moduli| && g.addrs != []
    requires g.addrs[0] in table.names && table.names[g.addrs[0]] == name
    requires forall a :: a in g.addrs ==> a in bound
    ensures var cleared := EvictOthers(table, g.addrs, |g.addrs|, name);
      && TableOk(Installed(cleared, name, g), bound)
      && GroupsOf(Installed(cleared, name, g)) ==
           WithoutClaims(GroupsOf(table), g.addrs, {g.addrs[0]})[g.addrs[0] := g]
      && PromotedOf(Installed(cleared, name, g)) ==
           PromotedOf(table) * GroupsOf(Installed(cleared, name, g)).Keys
      && (name in cleared.known && name in cleared.pending <==> name in table.pending)
      && Installed(cleared, name, g).names == table.names && Installed(cleared, name, g).counter == table.counter
  {
    EvictOthersClears(table, g.addrs, |g.addrs|, name);
    assert g.addrs[..|g.addrs|] == g.addrs;
    var cleared := EvictOthers(table, g.addrs, |g.addrs|, name);
    InstalledMembers(table, cleared, bound, g, name);
    RegisteredView(table, cleared, name, g);
    RegisteredPromotion(table, cleared, name, g);
  }

  lemma InstalledMembers(table: Index, cleared: Index, bound: set<DevAddr>, g: Group, name: nat)
    requires TableOk(table, bound) && Cleared(table, cleared, g.addrs, name)
    requires |g.addrs| == |g.moduli| && g.addrs != []
    requires g.addrs[0] in table.names && table.names[g.addrs[0]] == name
    requires forall a :: a in g.addrs ==> a in bound
    ensures TableOk(Installed(cleared, name, g), bound)
  {
    InstalledOk(cleared, name, g);
    var t := Installed(cleared, name, g);
    forall a, n | Member(t.known, a, n) ensures a in bound {
      if n != name {
        assert Member(table.known, a, n);
      }
    }
  }

  lemma RegisterAgain(sem: Semantics, r: Recorder, addrs: seq<DevAddr>, moduli: seq<nat>, name: nat)
    requires RecorderOk(r) && |addrs| == |moduli| && addrs != []
    requires addrs[0] in r.table.names && r.table.names[addrs[0]] == name
    requires name in r.table.known && r.table.known[name] == Group(addrs, moduli)
    ensures var (r1, s) := RegisterGroup(r, addrs, moduli, name);
      && s == Success && RecorderOk(r1) && SameSession(r, r1)
      && Abs(sem, r1) == Register(Abs(sem, r), addrs, moduli)
  {
    hide CoreOk, TableOk, Abs, WithoutClaims, GroupsOf, PromotedOf;
    GroupByName(r.table, addrs[0]);
    AbsFields(sem, r);
    WithLog(sem, r, r.log + [Registered(Group(addrs, moduli))]);
  }

  lemma RegisterNew(sem: Semantics, r: Recorder, addrs: seq<DevAddr>, moduli: seq<nat>, name: nat)
    requires RecorderOk(r) && |addrs| == |moduli| && addrs != []
    requires addrs[0] in r.table.names && r.table.names[addrs[0]] == name
    requires forall a :: a in addrs ==> a in r.binding
    requires !(name in r.table.known && r.table.known[name] == Group(addrs, moduli))
    ensures var (r1, s) := RegisterGroup(r, addrs, moduli, name);
      && s == Success && RecorderOk(r1) && SameSession(r, r1)
      && Abs(sem, r1) == Register(Abs(sem, r), addrs, moduli)
  {
    hide CoreOk, TableOk, Installed, EvictOthers, WithoutClaims, GroupsOf, PromotedOf, Abs, TagOutputs, SameSession;
    var g := Group(addrs, moduli);
    GroupByName(r.table, addrs[0]);
    AbsFields(sem, r);
    var log := r.log + [Registered(g)];
    WithLog(sem, r, log);
    InstalledTable(r.table, r.binding.Keys, g, name);
    var table := Installed(EvictOthers(r.table, addrs, |addrs|, name), name, g);
    WithTable(sem, r.(log := log), table);
    var r1 := r.(log := log, table := table);
    SameNames(r, r1);
    TagOutputsRefines(sem, r1, addrs);
    TagOutputsKeeps(r1, addrs);
    SameSessionTrans(r, r1, TagOutputs(r1, addrs));
  }

  lemma SameNames(r: Recorder, r1: Recorder)
    requires r1 == r.(log := r1.log, table := r1.table)
    requires r1.table.names == r.table.names && r1.table.counter == r.table.counter
    ensures SameSession(r, r1)
  {
  }

  lemma RegisterRefines(sem: Semantics, r: Recorder, addrs: seq<DevAddr>, moduli: seq<nat>, name: nat)
    requires RecorderOk(r) && |addrs| == |moduli| && addrs != []
    requires addrs[0] in r.table.names && r.table.names[addrs[0]] == name
    requires forall a :: a in addrs ==> a in r.binding
    ensures var (r1, s) := RegisterGroup(r, addrs, moduli, name);
      && s == Success && RecorderOk(r1) && SameSession(r, r1)
      && Abs(sem, r1) == Register(Abs(sem, r), addrs, moduli)
  {
    hide RecorderOk, Abs, Register, RegisterGroup;
    if name in r.table.known && r.table.known[name] == Group(addrs, moduli) {
      RegisterAgain(sem, r, addrs, moduli, name);
    } else {
      RegisterNew(sem, r, addrs, moduli, name);
    }
  }

  lemma TagOutputsKeeps(r: Recorder, addrs: seq<DevAddr>)
    ensures var r1 := TagOutputs(r, addrs);
      r1 == r.(pending := r1.pending, outCount := r1.outCount)
  {
  }

  lemma GroupUpRefines(sem: Semantics, r: Recorder, addrs: seq<DevAddr>, base: seq<nat>)
    requires RecorderOk(r) && |addrs| == |base| && forall a :: a in addrs ==> a in r.binding
    ensures var (r1, s) := GroupUp(r, addrs, base);
      && s == Success && RecorderOk(r1)
      && Abs(sem, r1) == (if |base| > 1 then Register(Abs(sem, r), addrs, base) else Abs(sem, r))
      && SameSession(r, r1)
  {
    hide RecorderOk, Abs, RegisterGroup, Register;
    if |addrs| > 1 {
      assert addrs[0] in addrs;
      NameOutputGroupRefines(sem, r, addrs[0]);
      var (r1, name) := NameOutputGroup(r, addrs[0]);
      RegisterRefines(sem, r1, addrs, base, name);
      SameSessionTrans(r, r1, RegisterGroup(r1, addrs, base, name).0);
    }
  }

  // ---- Tagging ----

  lemma OwnerView(table: Index, a: DevAddr)
    requires IndexOk(table)
    ensures a in table.owners ==> AnyOwner(table, a) in table.known && Claims(table.known[AnyOwner(table, a)], a)
    ensures a !in table.owners ==> forall l :: l in GroupsOf(table) ==> !Claims(GroupsOf(table)[l], a)
  {
    if a in table.owners {
      assert OwnedBy(table.owners, a, AnyOwner(table, a));
      assert Member(table.known, a, AnyOwner(table, a));
    } else {
      forall l | l in GroupsOf(table) ensures !Claims(GroupsOf(table)[l], a) {
        assert OwnedBy(table.owners, a, table.names[l]) <==> Member(table.known, a, table.names[l]);
      }
    }
  }

  /** An address claimed by a known group has that group's leader as its only leader. */
  lemma OneLeader(table: Index, a: DevAddr, n: nat) returns (leader: DevAddr)
    requires IndexOk(table) && Member(table.known, a, n)
    ensures leader in GroupsOf(table) && GroupsOf(table)[leader] == table.known[n]
    ensures leader in table.names && table.names[leader] == n
    ensures LeadersOf(GroupsOf(table), a) == {leader}
  {
    leader := LeaderOf(table, n);
    forall l | l in GroupsOf(table) && Claims(GroupsOf(table)[l], a) ensures l == leader {
      assert Member(table.known, a, table.names[l]);
      assert SameName(table.names, l, leader);
    }
  }

  lemma PromoteTable(table: Index, bound: set<DevAddr>, n: nat, leader: DevAddr)
    requires TableOk(table, bound) && n in table.known && leader in table.names && table.names[leader] == n
    ensures var t := table.(pending := table.pending + {n});
      TableOk(t, bound) && GroupsOf(t) == GroupsOf(table) && PromotedOf(t) == PromotedOf(table) + {leader}
  {
    var t := table.(pending := table.pending + {n});
    forall k | k in t.known ensures NamedAfterLeader(t, k) {
      assert NamedAfterLeader(table, k);
    }
    forall l | l in table.names && table.names[l] == n ensures l == leader {
      assert SameName(table.names, l, leader);
    }
  }

  lemma TagGroupRefines(sem: Semantics, r: Recorder, a: DevAddr, n: nat)
    requires RecorderOk(r) && a in r.binding && Member(r.table.known, a, n)
    ensures var r1 := TagOutputs(r, r.table.known[n].addrs).(table := r.table.(pending := r.table.pending + {n}));
      RecorderOk(r1) && (Abs(sem, r1), Success) == TagOut(Abs(sem, r), a) && SameSession(r, r1)
  {
    hide CoreOk, IndexOk, GroupsOf, PromotedOf, Abs, TagOutputs;
    AbsFields(sem, r);
    var leader := OneLeader(r.table, a, n);
    var addrs := r.table.known[n].addrs;
    forall b | b in addrs ensures b in r.binding {
      assert Member(r.table.known, b, n);
    }
    TagOutputsRefines(sem, r, addrs);
    TagOutputsKeeps(r, addrs);
    PromoteTable(r.table, r.binding.Keys, n, leader);
    WithTable(sem, TagOutputs(r, addrs), r.table.(pending := r.table.pending + {n}));
    assert MembersOf(GroupsOf(r.table), {leader}) == ToSet(addrs);
  }

  lemma TagAloneRefines(sem: Semantics, r: Recorder, a: DevAddr)
    requires RecorderOk(r) && a in r.binding && forall l :: l in GroupsOf(r.table) ==> !Claims(GroupsOf(r.table)[l], a)
    ensures var r1 := TagOutputs(r, [a]);
      RecorderOk(r1) && (Abs(sem, r1), Success) == TagOut(Abs(sem, r), a) && SameSession(r, r1)
  {
    hide CoreOk, IndexOk, GroupsOf, PromotedOf, Abs, TagOutputs;
    AbsFields(sem, r);
    TagOutputsRefines(sem, r, [a]);
    TagOutputsKeeps(r, [a]);
    assert ToSet([a]) == {a};
    assert LeadersOf(GroupsOf(r.table), a) == {};
  }

  lemma TagOutputRefines(sem: Semantics, r: Recorder, a: DevAddr)
    requires RecorderOk(r)
    ensures var (r1, s) := TagOutputLocked(r, a);
      && RecorderOk(r1) && (Abs(sem, r1), s) == TagOut(Abs(sem, r), a)
      && SameSession(r, r1)
  {
    hide CoreOk, IndexOk, AnyOwner, GroupsOf, PromotedOf, Abs, TagOutputs, TagOut;
    if a !in r.binding {
      TagUnbound(sem, r, a);
    } else {
      OwnerView(r.table, a);
      if a in r.table.owners {
        var n := AnyOwner(r.table, a);
        TagGroupRefines(sem, r, a, n);
        TagOutputsKeeps(r, r.table.known[n].addrs);
      } else {
        TagAloneRefines(sem, r, a);
        TagOutputsKeeps(r, [a]);
      }
    }
  }

  lemma TagUnbound(sem: Semantics, r: Recorder, a: DevAddr)
    requires a !in r.binding
    ensures TagOut(Abs(sem, r), a) == (Abs(sem, r), Failure(SourceUnavailable))
  {
    AbsFields(sem, r);
  }
}
