/**
 The doubly indexed table of multi-residue output groups: name to group, address to names, the
 promoted names and the names given to leading addresses. These are laws about the table as a
 value; Epoch.dfy updates it field by field.
 */
module GroupIndex {
  import opened Types
  import opened DeviceModel

  datatype Index = Index(
    known: map<nat, Group>, owners: map<DevAddr, set<nat>>, pending: set<nat>,
    names: map<DevAddr, nat>, counter: nat)

  predicate OwnedBy(owners: map<DevAddr, set<nat>>, a: DevAddr, n: nat) {
    a in owners && n in owners[a]
  }

  predicate Member(known: map<nat, Group>, a: DevAddr, n: nat) {
    n in known && Claims(known[n], a)
  }

  predicate SameName(names: map<DevAddr, nat>, a: DevAddr, b: DevAddr) {
    a in names && b in names && names[a] == names[b]
  }

  /** The names in a table differ from each other and are below the counter. */
  ghost predicate NamesOk(names: map<DevAddr, nat>, counter: nat) {
    && (forall a, b :: SameName(names, a, b) ==> a == b)
    && forall a :: a in names ==> names[a] < counter
  }

  lemma NamesExtend(names: map<DevAddr, nat>, counter: nat, a: DevAddr)
    requires NamesOk(names, counter) && a !in names
    ensures NamesOk(names[a := counter], counter + 1)
  {
    var more := names[a := counter];
    forall x, y | SameName(more, x, y) ensures x == y {
      if x != a && y != a {
        assert SameName(names, x, y);
      }
    }
  }

  lemma NamesShrink(names: map<DevAddr, nat>, counter: nat, a: DevAddr)
    requires NamesOk(names, counter)
    ensures NamesOk(names - {a}, counter)
  {
    forall x, y | SameName(names - {a}, x, y) ensures x == y {
      assert SameName(names, x, y);
    }
  }

  /** Forward and reverse maps are inverse, an address is in at most one group, promoted names are
      known, and each group bears the name recorded for its first member. */
  ghost predicate IndexOk(ix: Index) {
    && (forall n {:trigger NamedAfterLeader(ix, n)} :: n in ix.known ==> NamedAfterLeader(ix, n))
    && (forall a, n :: OwnedBy(ix.owners, a, n) <==> Member(ix.known, a, n))
    && (forall a :: a in ix.owners ==> ix.owners[a] != {})
    && (forall a, n, m :: Member(ix.known, a, n) && Member(ix.known, a, m) ==> n == m)
    && ix.pending <= ix.known.Keys
    && NamesOk(ix.names, ix.counter)
  }

  ghost predicate NamedAfterLeader(ix: Index, n: nat)
    requires n in ix.known
  {
    var g := ix.known[n];
    |g.addrs| == |g.moduli| && g.addrs != [] && g.addrs[0] in ix.names && ix.names[g.addrs[0]] == n
  }

  /** The groups by leading address, names forgotten. */
  ghost function GroupsOf(ix: Index): map<DevAddr, Group> {
    GroupsBy(ix.names, ix.known)
  }

  ghost function GroupsBy(names: map<DevAddr, nat>, known: map<nat, Group>): map<DevAddr, Group> {
    map l | l in names && names[l] in known :: known[names[l]]
  }

  ghost function PromotedOf(ix: Index): set<DevAddr> {
    PromotedBy(ix.names, ix.pending)
  }

  ghost function PromotedBy(names: map<DevAddr, nat>, pending: set<nat>): set<DevAddr> {
    set l | l in names && names[l] in pending
  }

  lemma PromotedShrinks(names: map<DevAddr, nat>, pending: set<nat>, known: map<nat, Group>, kept: map<nat, Group>)
    requires pending <= known.Keys
    ensures PromotedBy(names, pending * kept.Keys) == PromotedBy(names, pending) * GroupsBy(names, kept).Keys
  {
  }

  // ---- Eviction ----

  /** The reverse map after taking `name` away from the addresses in `members`. */
  function Scrub(owners: map<DevAddr, set<nat>>, members: set<DevAddr>, name: nat): map<DevAddr, set<nat>> {
    map a | a in owners && !(a in members && owners[a] - {name} == {}) ::
      if a in members then owners[a] - {name} else owners[a]
  }

  ghost function Evicted(ix: Index, name: nat): Index {
    if name !in ix.known then ix
    else ix.(known := ix.known - {name},
             owners := Scrub(ix.owners, ToSet(ix.known[name].addrs), name),
             pending := ix.pending - {name})
  }

  lemma ScrubStep(owners: map<DevAddr, set<nat>>, addrs: seq<DevAddr>, i: nat, name: nat)
    requires i < |addrs|
    requires forall a :: a in owners ==> owners[a] != {}
    ensures Scrub(Scrub(owners, ToSet(addrs[..i]), name), {addrs[i]}, name) ==
      Scrub(owners, ToSet(addrs[..i + 1]), name)
  {
    var x, y := ToSet(addrs[..i]), ToSet(addrs[..i + 1]);
    assert y == x + {addrs[i]};
    var one, two := Scrub(Scrub(owners, x, name), {addrs[i]}, name), Scrub(owners, y, name);
    forall a | a in owners ensures a in one <==> a in two {
      assert owners[a] - {name} - {name} == owners[a] - {name};
    }
    forall a | a in one && a in two ensures one[a] == two[a] {
      assert owners[a] - {name} - {name} == owners[a] - {name};
    }
  }

  lemma ScrubNone(owners: map<DevAddr, set<nat>>, name: nat)
    ensures Scrub(owners, {}, name) == owners
  {
  }

  lemma EvictedOk(ix: Index, name: nat)
    requires IndexOk(ix)
    ensures IndexOk(Evicted(ix, name))
  {
    if name in ix.known {
      var ix' := Evicted(ix, name);
      forall n | n in ix'.known ensures NamedAfterLeader(ix', n) {
        assert NamedAfterLeader(ix, n);
      }
      forall a, n ensures OwnedBy(ix'.owners, a, n) <==> Member(ix'.known, a, n) {
        assert OwnedBy(ix.owners, a, n) <==> Member(ix.known, a, n);
        assert OwnedBy(ix.owners, a, name) <==> Member(ix.known, a, name);
      }
      forall a, n, m | Member(ix'.known, a, n) && Member(ix'.known, a, m) ensures n == m {
        assert Member(ix.known, a, n) && Member(ix.known, a, m);
      }
    }
  }

  /** At most one group holds an address, so the sets in the reverse map are singletons. */
  lemma OneOwner(ix: Index, a: DevAddr, n: nat)
    requires IndexOk(ix) && OwnedBy(ix.owners, a, n)
    ensures ix.owners[a] == {n}
  {
    forall m | m in ix.owners[a] ensures m == n {
      assert OwnedBy(ix.owners, a, m);
      assert Member(ix.known, a, m) && Member(ix.known, a, n);
    }
  }

  /** The table without the groups, other than `name`, that claim one of `addrs`. */
  ghost predicate Cleared(ix: Index, ix': Index, addrs: seq<DevAddr>, name: nat) {
    && IndexOk(ix')
    && ix'.names == ix.names && ix'.counter == ix.counter
    && ix'.known == (map n | n in ix.known && (n == name || !Overlaps(ix.known[n], addrs)) :: ix.known[n])
    && ix'.pending == ix.pending * ix'.known.Keys
  }

  lemma ClearedNone(ix: Index, name: nat)
    requires IndexOk(ix)
    ensures Cleared(ix, ix, [], name)
  {
    forall n | n in ix.known ensures !Overlaps(ix.known[n], []) {}
  }

  /** Evicting the other owner of the next address clears that address too. */
  lemma ClearedStep(ix: Index, ix1: Index, addrs: seq<DevAddr>, i: nat, name: nat, other: nat)
    requires i < |addrs| && Cleared(ix, ix1, addrs[..i], name)
    requires OwnedBy(ix1.owners, addrs[i], other) && other != name
    ensures Cleared(ix, Evicted(ix1, other), addrs[..i + 1], name)
  {
    EvictedOk(ix1, other);
    assert Member(ix1.known, addrs[i], other);
    var ix2 := Evicted(ix1, other);
    forall n | n in ix.known
      ensures n in ix2.known <==> n == name || !Overlaps(ix.known[n], addrs[..i + 1])
    {
      OverlapsSnoc(ix.known[n], addrs, i);
      if n in ix1.known && Claims(ix.known[n], addrs[i]) {
        assert Member(ix1.known, addrs[i], n);
      }
    }
  }

  lemma ClearedSkip(ix: Index, ix1: Index, addrs: seq<DevAddr>, i: nat, name: nat)
    requires i < |addrs| && Cleared(ix, ix1, addrs[..i], name)
    requires forall n :: OwnedBy(ix1.owners, addrs[i], n) ==> n == name
    ensures Cleared(ix, ix1, addrs[..i + 1], name)
  {
    forall n | n in ix.known
      ensures n in ix1.known <==> n == name || !Overlaps(ix.known[n], addrs[..i + 1])
    {
      OverlapsSnoc(ix.known[n], addrs, i);
      if n in ix1.known && Claims(ix.known[n], addrs[i]) {
        assert Member(ix1.known, addrs[i], n);
        assert OwnedBy(ix1.owners, addrs[i], n);
      }
    }
  }

  lemma OverlapsSnoc(g: Group, addrs: seq<DevAddr>, i: nat)
    requires i < |addrs|
    ensures Overlaps(g, addrs[..i + 1]) <==> Overlaps(g, addrs[..i]) || Claims(g, addrs[i])
  {
    assert addrs[..i + 1] == addrs[..i] + [addrs[i]];
    if Overlaps(g, addrs[..i]) {
      var a :| a in addrs[..i] && Claims(g, a);
      assert a in addrs[..i + 1];
    }
    if Claims(g, addrs[i]) {
      assert addrs[i] in addrs[..i + 1];
    }
  }

  /** Evicts, address by address, whatever other group holds the first n addresses. */
  ghost function EvictOthers(ix: Index, addrs: seq<DevAddr>, n: nat, name: nat): Index
    requires n <= |addrs|
  {
    if n == 0 then ix
    else
      var ix1 := EvictOthers(ix, addrs, n - 1, name);
      if Contested(ix1.owners, addrs[n - 1], name) then Evicted(ix1, OtherOwner(ix1.owners, addrs[n - 1], name)) else ix1
  }

  ghost predicate Contested(owners: map<DevAddr, set<nat>>, a: DevAddr, name: nat) {
    exists n :: OwnedBy(owners, a, n) && n != name
  }

  ghost function OtherOwner(owners: map<DevAddr, set<nat>>, a: DevAddr, name: nat): nat
    requires Contested(owners, a, name)
  {
    var n :| OwnedBy(owners, a, n) && n != name; n
  }

  lemma {:induction false} EvictOthersClears(ix: Index, addrs: seq<DevAddr>, n: nat, name: nat)
    requires IndexOk(ix) && n <= |addrs|
    ensures Cleared(ix, EvictOthers(ix, addrs, n, name), addrs[..n], name)
  {
    if n == 0 {
      ClearedNone(ix, name);
    } else {
      EvictOthersClears(ix, addrs, n - 1, name);
      var ix1 := EvictOthers(ix, addrs, n - 1, name);
      if Contested(ix1.owners, addrs[n - 1], name) {
        ClearedStep(ix, ix1, addrs, n - 1, name, OtherOwner(ix1.owners, addrs[n - 1], name));
      } else {
        ClearedSkip(ix, ix1, addrs, n - 1, name);
      }
    }
  }

  // ---- Installation ----

  /** The reverse map after adding `name` to the addresses in `members`. */
  function AddOwner(owners: map<DevAddr, set<nat>>, members: set<DevAddr>, name: nat): map<DevAddr, set<nat>> {
    map a | a in owners.Keys + members ::
      (if a in owners then owners[a] else {}) + (if a in members then {name} else {})
  }

  lemma AddOwnerStep(owners: map<DevAddr, set<nat>>, addrs: seq<DevAddr>, i: nat, name: nat)
    requires i < |addrs|
    ensures AddOwner(AddOwner(owners, ToSet(addrs[..i]), name), {addrs[i]}, name) ==
      AddOwner(owners, ToSet(addrs[..i + 1]), name)
  {
    var x, y := ToSet(addrs[..i]), ToSet(addrs[..i + 1]);
    assert y == x + {addrs[i]};
    var one, two := AddOwner(AddOwner(owners, x, name), {addrs[i]}, name), AddOwner(owners, y, name);
    forall a | a in one ensures one[a] == two[a] {}
  }

  lemma AddOwnerNone(owners: map<DevAddr, set<nat>>, name: nat)
    ensures AddOwner(owners, {}, name) == owners
  {
    forall a | a in owners ensures AddOwner(owners, {}, name)[a] == owners[a] {}
  }

  /** The table after `name` is given the group g, from a table in which no other group claims one
      of its addresses. */
  ghost function Installed(ix: Index, name: nat, g: Group): Index {
    var members := if name in ix.known then ToSet(ix.known[name].addrs) else {};
    ix.(known := ix.known[name := g],
        owners := AddOwner(Scrub(ix.owners, members, name), ToSet(g.addrs), name))
  }

  lemma InstalledOk(ix: Index, name: nat, g: Group)
    requires IndexOk(ix)
    requires |g.addrs| == |g.moduli| && g.addrs != []
    requires g.addrs[0] in ix.names && ix.names[g.addrs[0]] == name
    requires forall n :: n in ix.known && n != name ==> !Overlaps(ix.known[n], g.addrs)
    ensures IndexOk(Installed(ix, name, g))
  {
    var ix' := Installed(ix, name, g);
    forall n | n in ix'.known ensures NamedAfterLeader(ix', n) {
      assert n == name || NamedAfterLeader(ix, n);
    }
    forall a, n ensures OwnedBy(ix'.owners, a, n) <==> Member(ix'.known, a, n) {
      assert OwnedBy(ix.owners, a, n) <==> Member(ix.known, a, n);
      assert OwnedBy(ix.owners, a, name) <==> Member(ix.known, a, name);
    }
    forall a, n, m | Member(ix'.known, a, n) && Member(ix'.known, a, m) ensures n == m {
      if n != name && m != name {
        assert Member(ix.known, a, n) && Member(ix.known, a, m);
      }
    }
  }

  // ---- The table as the device sees it ----

  lemma LeaderOf(ix: Index, n: nat) returns (l: DevAddr)
    requires IndexOk(ix) && n in ix.known
    ensures ix.known[n].addrs != [] && l == ix.known[n].addrs[0] && l in ix.names && ix.names[l] == n
    ensures l in GroupsOf(ix) && GroupsOf(ix)[l] == ix.known[n]
  {
    assert NamedAfterLeader(ix, n);
    l := ix.known[n].addrs[0];
  }

  lemma OnlyLeaderBears(ix: Index, l: DevAddr, leader: DevAddr)
    requires IndexOk(ix) && l in ix.names && leader in ix.names && l != leader
    ensures ix.names[l] != ix.names[leader]
  {
    assert !SameName(ix.names, l, leader);
  }

  lemma OnlyLeader(ix: Index, leader: DevAddr)
    requires IndexOk(ix) && leader in ix.names
    ensures forall l :: l in ix.names && l != leader ==> ix.names[l] != ix.names[leader]
  {
    forall l | l in ix.names && l != leader ensures ix.names[l] != ix.names[leader] {
      OnlyLeaderBears(ix, l, leader);
    }
  }

  /** Clearing the conflicts and installing g is Register on the device's groups. */
  lemma RegisteredView(ix: Index, ix1: Index, name: nat, g: Group)
    requires IndexOk(ix) && g.addrs != []
    requires g.addrs[0] in ix.names && ix.names[g.addrs[0]] == name
    requires Cleared(ix, ix1, g.addrs, name)
    ensures GroupsOf(Installed(ix1, name, g)) ==
      WithoutClaims(GroupsOf(ix), g.addrs, {g.addrs[0]})[g.addrs[0] := g]
  {
    OnlyLeader(ix, g.addrs[0]);
    InstalledGroups(ix.names, ix.known, name, g);
    assert ix1.known == (map n | n in ix.known && (n == name || !Overlaps(ix.known[n], g.addrs)) :: ix.known[n]);
  }

  lemma RegisteredPromotion(ix: Index, ix1: Index, name: nat, g: Group)
    requires IndexOk(ix) && Cleared(ix, ix1, g.addrs, name)
    ensures PromotedOf(Installed(ix1, name, g)) == PromotedOf(ix) * GroupsOf(Installed(ix1, name, g)).Keys
  {
    var kept := ix1.known[name := g];
    assert ix1.pending == ix.pending * kept.Keys;
    PromotedShrinks(ix.names, ix.pending, ix.known, kept);
  }

  lemma InstalledGroups(names: map<DevAddr, nat>, known: map<nat, Group>, name: nat, g: Group)
    requires g.addrs != [] && g.addrs[0] in names && names[g.addrs[0]] == name
    requires forall l :: l in names && l != g.addrs[0] ==> names[l] != name
    ensures var cleared := map n | n in known && (n == name || !Overlaps(known[n], g.addrs)) :: known[n];
      GroupsBy(names, cleared[name := g]) ==
      WithoutClaims(GroupsBy(names, known), g.addrs, {g.addrs[0]})[g.addrs[0] := g]
  {
  }

  /** Evicting the group that holds `a` and forgetting the name of `a` is Invalidate. */
  ghost function Dropped(ix: Index, a: DevAddr): Index {
    var ix1 := if a in ix.owners then Evicted(ix, AnyOwner(ix, a)) else ix;
    ix1.(names := ix1.names - {a})
  }

  ghost function AnyOwner(ix: Index, a: DevAddr): nat
    requires a in ix.owners
  {
    if ix.owners[a] == {} then 0 else var n :| n in ix.owners[a]; n
  }

  /** The table once the group holding `a` is gone, but with the name of `a` still recorded. */
  ghost function Released(ix: Index, a: DevAddr): Index {
    if a in ix.owners then Evicted(ix, AnyOwner(ix, a)) else ix
  }

  lemma ReleasedOk(ix: Index, a: DevAddr)
    requires IndexOk(ix)
    ensures IndexOk(Released(ix, a))
    ensures forall n :: n in Released(ix, a).known <==> n in ix.known && !Claims(ix.known[n], a)
    ensures forall n :: n in Released(ix, a).known ==> Released(ix, a).known[n] == ix.known[n]
    ensures Released(ix, a).pending == ix.pending * Released(ix, a).known.Keys
  {
    if a in ix.owners {
      var other := AnyOwner(ix, a);
      assert OwnedBy(ix.owners, a, other);
      assert Member(ix.known, a, other);
      EvictedOk(ix, other);
      forall n | n in ix.known && Claims(ix.known[n], a) ensures n == other {
        assert Member(ix.known, a, n);
      }
    } else {
      forall n | n in ix.known ensures !Claims(ix.known[n], a) {
        assert OwnedBy(ix.owners, a, n) <==> Member(ix.known, a, n);
      }
    }
  }

  lemma ForgetName(ix: Index, a: DevAddr)
    requires IndexOk(ix) && forall n :: n in ix.known ==> !Claims(ix.known[n], a)
    ensures IndexOk(ix.(names := ix.names - {a}))
    ensures a in ix.names ==> ix.names[a] !in ix.known
  {
    var ix' := ix.(names := ix.names - {a});
    forall n | n in ix.known ensures NamedAfterLeader(ix', n) && ix.known[n].addrs[0] != a {
      assert NamedAfterLeader(ix, n);
      assert Claims(ix.known[n], ix.known[n].addrs[0]);
    }
    NamesShrink(ix.names, ix.counter, a);
    if a in ix.names && ix.names[a] in ix.known {
      var k := LeaderOf(ix, ix.names[a]);
      OnlyLeaderBears(ix, a, k);
    }
  }

  lemma DroppedOk(ix: Index, a: DevAddr)
    requires IndexOk(ix)
    ensures IndexOk(Dropped(ix, a))
  {
    ReleasedOk(ix, a);
    ForgetName(Released(ix, a), a);
  }

  /** On the device's groups that is the group part of Invalidate. */
  lemma DroppedView(ix: Index, a: DevAddr)
    requires IndexOk(ix)
    ensures GroupsOf(Dropped(ix, a)) == WithoutClaims(GroupsOf(ix), [a], {})
    ensures PromotedOf(Dropped(ix, a)) == PromotedOf(ix) * GroupsOf(Dropped(ix, a)).Keys
  {
    var ix1 := Released(ix, a);
    DroppedFacts(ix, a);
    DroppedGroups(ix.names, ix.known, ix1.known, a);
    PromotedShrinks(ix.names - {a}, ix.pending, ix.known, ix1.known);
    DroppedPromoted(ix.names, ix.pending, ix1.known, a);
  }

  lemma DroppedFacts(ix: Index, a: DevAddr)
    requires IndexOk(ix)
    ensures var ix1 := Released(ix, a);
      && (forall n :: n in ix1.known <==> n in ix.known && !Claims(ix.known[n], a))
      && (forall n :: n in ix1.known ==> ix1.known[n] == ix.known[n])
      && ix1.pending == ix.pending * ix1.known.Keys
      && (a in ix.names ==> ix.names[a] !in ix1.known)
      && Dropped(ix, a) == ix1.(names := ix.names - {a})
      && ix.pending <= ix.known.Keys
  {
    ReleasedOk(ix, a);
    ForgetName(Released(ix, a), a);
  }

  lemma DroppedPromoted(names: map<DevAddr, nat>, pending: set<nat>, kept: map<nat, Group>, a: DevAddr)
    requires a in names ==> names[a] !in kept
    ensures PromotedBy(names - {a}, pending) * GroupsBy(names - {a}, kept).Keys ==
      PromotedBy(names, pending) * GroupsBy(names - {a}, kept).Keys
  {
  }

  lemma DroppedGroups(names: map<DevAddr, nat>, known: map<nat, Group>, kept: map<nat, Group>, a: DevAddr)
    requires forall n :: n in kept <==> n in known && !Claims(known[n], a)
    requires forall n :: n in kept ==> kept[n] == known[n]
    requires a in names ==> names[a] !in kept
    ensures GroupsBy(names - {a}, kept) == WithoutClaims(GroupsBy(names, known), [a], {})
  {
    forall n | n in known ensures Overlaps(known[n], [a]) <==> Claims(known[n], a) {
      assert Claims(known[n], a) ==> a in [a];
    }
  }
}
