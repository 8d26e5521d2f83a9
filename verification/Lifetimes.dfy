/** Tags, promotions and groups over single calls and whole runs. */
module Lifetimes {
  import opened Types
  import opened Trace
  import opened HeapModel
  import opened Allocator
  import opened Configuration
  import opened DeviceModel
  import opened DeviceInvariant
  import opened GroupHistory
  import opened GroupIndex
  import R = RecorderModel
  import opened RecorderLaws
  import opened Refinement

  // ---- Groups are the history ----

  lemma {:induction false} FollowHistory(d: Device, es: seq<GroupEvent>)
    requires forall e :: e in es && e.Registered? ==> e.g.addrs != []
    requires Apart(d.groups) && HistoryOk(d.groups, d.log)
    ensures var d1 := Follow(d, es); Apart(d1.groups) && HistoryOk(d1.groups, d1.log) && d1.log == d.log + es
    decreases |es|
  {
    hide Apart, HistoryOk, Register, Invalidate;
    if es == [] {
      assert d.log + es == d.log;
    } else {
      var n := |es| - 1;
      FollowHistory(d, es[..n]);
      var d1 := Follow(d, es[..n]);
      assert es == es[..n] + [es[n]];
      ConcatAssociative(d.log, es[..n], [es[n]]);
      match es[n] {
        case Registered(g) =>
          RegisterApart(d1, g.addrs, g.moduli);
          RegisterHistory(d1, g.addrs, g.moduli);
          RegisterLogs(d1, g);
        case Invalidated(a) =>
          InvalidateApart(d1, a);
          InvalidateHistory(d1, a);
          InvalidateLogs(d1, a);
      }
    }
  }

  lemma RegisterLogs(d: Device, g: Group)
    requires g.addrs != []
    ensures Register(d, g.addrs, g.moduli).log == d.log + [Registered(g)]
  {
  }

  lemma InvalidateLogs(d: Device, a: DevAddr)
    ensures Invalidate(d, a).log == d.log + [Invalidated(a)]
  {
  }

  lemma {:induction false} TagInputsGroups(d: Device, addrs: seq<DevAddr>)
    ensures var d1 := TagInputs(d, addrs).0;
      && d1.groups == d.groups && d1.promoted == d.promoted && d1.log == d.log
      && d1.tags <= d.tags && d.tags - ToSet(addrs) <= d1.tags
    decreases |addrs|
  {
    if addrs != [] {
      var n := |addrs| - 1;
      TagInputsGroups(d, addrs[..n]);
      assert addrs == addrs[..n] + [addrs[n]];
    }
  }

  lemma {:induction false} UploadAllGroups(d: Device, dsts: seq<DevAddr>, datas: seq<Bytes>)
    requires |datas| <= |dsts|
    ensures SameGroups(UploadAll(d, dsts, datas).0, d)
    decreases |datas|
  {
    if datas != [] {
      UploadAllGroups(d, dsts, datas[..|datas| - 1]);
    }
  }

  function Uploaded(call: Call): (s: set<DevAddr>) {
    match call
    case H2D(dst, _) => {dst}
    case H2DMrp(dsts, _) => ToSet(dsts)
    case _ => {}
  }

  /** An upload takes the tags of the uploaded addresses and leaves groups and promotions alone. */
  lemma UploadGroupsKept(sem: Semantics, d: Device, call: Call)
    requires Shaped(call) && IsUpload(call)
    ensures var (d1, reply) := Step(sem, d, call);
      && d1.groups == d.groups && d1.promoted == d.promoted && d1.log == d.log
      && d1.tags <= d.tags && d.tags - Uploaded(call) <= d1.tags
      && (call.H2D? && reply.Done? ==> d1.tags == d.tags - {call.dst})
  {
    hide Upload, UploadAll, TagInputs;
    match call {
      case H2D(dst, data) => UploadGroups(d, dst, data);
      case H2DMrp(dsts, datas) =>
        UploadAllGroups(d, dsts, datas);
        TagInputsGroups(UploadAll(d, dsts, datas).0, dsts);
      case _ =>
    }
  }

  /** Whether a call really ended the epoch: a flush refused for its data format does not. */
  predicate Ended(call: Call, reply: Reply) {
    EndsEpoch(call) && reply != Failed(UnsupportedDataFormat)
  }

  lemma EndedGroups(sem: Semantics, d: Device, call: Call)
    requires EndsEpoch(call)
    ensures var (d1, reply) := Step(sem, d, call);
      if Ended(call, reply) then d1.groups == map[] && d1.log == [] && d1.tags == {} && d1.promoted == {} else d1 == d
  {
  }

  lemma TagOutGroups(sem: Semantics, d: Device, call: Call)
    requires call.TagOutput?
    ensures var d1 := Step(sem, d, call).0;
      d1.groups == d.groups && d1.log == d.log && d.tags <= d1.tags && d.promoted <= d1.promoted
  {
  }

  /** The history that a list of calls and their replies tells, after `before`. */
  function Told(before: seq<GroupEvent>, calls: seq<Call>, replies: seq<Reply>): seq<GroupEvent>
    requires |calls| == |replies| && forall i :: 0 <= i < |calls| ==> Shaped(calls[i])
    decreases |calls|
  {
    if calls == [] then before
    else
      var n := |calls| - 1;
      if Ended(calls[n], replies[n]) then []
      else Told(before, calls[..n], replies[..n]) + Events(calls[n], replies[n])
  }

  lemma StepHistory(sem: Semantics, d: Device, call: Call)
    requires Shaped(call) && Apart(d.groups) && HistoryOk(d.groups, d.log)
    ensures var (d1, reply) := Step(sem, d, call);
      && Apart(d1.groups) && HistoryOk(d1.groups, d1.log)
      && d1.log == if Ended(call, reply) then [] else d.log + Events(call, reply)
  {
    hide Step, Events, Apart, HistoryOk, Follow;
    var (d1, reply) := Step(sem, d, call);
    if EndsEpoch(call) {
      EndedGroups(sem, d, call);
      NoHistory();
      NoEvents(d.log, call, reply);
    } else if call.TagOutput? {
      TagOutGroups(sem, d, call);
      NoEvents(d.log, call, reply);
    } else if IsUpload(call) {
      UploadGroupsKept(sem, d, call);
      NoEvents(d.log, call, reply);
    } else {
      StepFollows(sem, d, call);
      FollowHistory(d, Events(call, reply));
    }
  }

  lemma NoHistory()
    ensures Apart(map[]) && HistoryOk(map[], [])
  {
  }

  lemma NoEvents(log: seq<GroupEvent>, call: Call, reply: Reply)
    requires Shaped(call) && (EndsEpoch(call) || call.TagOutput? || IsUpload(call))
    ensures log + Events(call, reply) == log
  {
  }

  lemma {:induction false} RunHistory(sem: Semantics, d: Device, calls: seq<Call>)
    requires forall i :: 0 <= i < |calls| ==> Shaped(calls[i])
    requires Apart(d.groups) && HistoryOk(d.groups, d.log)
    ensures var (d1, replies) := Run(sem, d, calls);
      && |replies| == |calls| && Apart(d1.groups) && HistoryOk(d1.groups, d1.log)
      && d1.log == Told(d.log, calls, replies)
    decreases |calls|
  {
    hide Step, Events, Apart, HistoryOk;
    if calls == [] {
    } else {
      var n := |calls| - 1;
      RunHistory(sem, d, calls[..n]);
      StepHistory(sem, Run(sem, d, calls[..n]).0, calls[n]);
      var replies := Run(sem, d, calls).1;
      assert replies[..n] == Run(sem, d, calls[..n]).1;
    }
  }

  /** At every point of every lawful program the recorder's table of known groups is exactly the
      surviving registrations of the history that the calls and replies of the epoch tell. */
  lemma KnownGroupsAreHistory(sem: Semantics, calls: seq<Call>, g: Group)
    requires LawfulRun(sem, RESET, calls)
    ensures var (r, replies) := R.ActAll(sem, FRESH, calls);
      && |replies| == |calls|
      && ((exists n :: n in r.table.known && r.table.known[n] == g) <==> Survives(Told([], calls, replies), g))
  {
    hide RecorderOk, Survives, Told, GroupsOf, Apart, HistoryOk;
    FreshRefines(sem);
    RunRefines(sem, FRESH, calls);
    NoHistory();
    RunHistory(sem, RESET, calls);
    var r := R.ActAll(sem, FRESH, calls).0;
    KnownIsHeld(r.table, g) by {
      TableIndexOk(r);
    }
    HistoryAt(Run(sem, RESET, calls).0.groups, Run(sem, RESET, calls).0.log, g);
  }

  lemma TableIndexOk(r: R.Recorder)
    requires RecorderOk(r)
    ensures IndexOk(r.table)
  {
  }

  lemma HistoryAt(groups: map<DevAddr, Group>, log: seq<GroupEvent>, g: Group)
    requires HistoryOk(groups, log)
    ensures Held(groups, g) <==> Survives(log, g)
  {
  }

  lemma KnownIsHeld(table: Index, g: Group)
    requires IndexOk(table)
    ensures (exists n :: n in table.known && table.known[n] == g) <==> Held(GroupsOf(table), g)
  {
    hide IndexOk;
    if n :| n in table.known && table.known[n] == g {
      var l := LeaderOf(table, n);
    }
  }

  // ---- Tags ----

  /** The calls that can take the tag of `a`. */
  predicate Untags(call: Call, a: DevAddr) {
    match call
    case H2D(dst, _) => a == dst
    case H2DMrp(dsts, _) => a in dsts
    case Memset(p, _, _) => a == p
    case Free(p) => a == p
    case FreeMrp(ps) => a in ps
    case _ => EndsEpoch(call)
  }

  lemma {:induction false} FollowKeepsTag(d: Device, es: seq<GroupEvent>, a: DevAddr)
    requires forall e :: e in es && e.Registered? ==> e.g.addrs != []
    requires a in d.tags && Invalidated(a) !in es
    ensures a in Follow(d, es).tags
    decreases |es|
  {
    hide Apply;
    if es != [] {
      var n := |es| - 1;
      assert es == es[..n] + [es[n]];
      FollowKeepsTag(d, es[..n], a);
      ApplyKeepsTag(Follow(d, es[..n]), es[n], a);
    }
  }

  lemma ApplyKeepsTag(d: Device, e: GroupEvent, a: DevAddr)
    requires (e.Registered? ==> e.g.addrs != []) && a in d.tags && e != Invalidated(a)
    ensures a in Apply(d, e).tags
  {
    hide WithoutClaims;
  }

  lemma {:induction false} InvalidationsNamed(ps: seq<DevAddr>, a: DevAddr)
    requires Invalidated(a) in Invalidations(ps)
    ensures a in ps
    decreases |ps|
  {
    if ps != [] {
      var n := |ps| - 1;
      assert ps == ps[..n] + [ps[n]];
      if Invalidated(a) in Invalidations(ps[..n]) {
        InvalidationsNamed(ps[..n], a);
      }
    }
  }

  lemma EventsUntag(call: Call, reply: Reply, a: DevAddr)
    requires Shaped(call) && Invalidated(a) in Events(call, reply)
    ensures Untags(call, a)
  {
    if call.FreeMrp? {
      InvalidationsNamed(call.ps, a);
    }
  }

  lemma StepKeepsTag(sem: Semantics, d: Device, call: Call, a: DevAddr)
    requires Shaped(call) && a in d.tags && !Untags(call, a)
    ensures a in Step(sem, d, call).0.tags
  {
    hide Step, Events, Follow;
    if call.TagOutput? {
      TagOutGroups(sem, d, call);
    } else if IsUpload(call) {
      UploadGroupsKept(sem, d, call);
    } else {
      StepFollows(sem, d, call);
      if Invalidated(a) in Events(call, Step(sem, d, call).1) {
        EventsUntag(call, Step(sem, d, call).1, a);
      }
      FollowKeepsTag(d, Events(call, Step(sem, d, call).1), a);
    }
  }

  /** A tag lasts until the address is uploaded, filled or freed, or the epoch ends; no computation,
      copy, registration, replacement or eviction takes it. */
  lemma {:induction false} TagLifetime(sem: Semantics, d: Device, calls: seq<Call>, a: DevAddr)
    requires forall i :: 0 <= i < |calls| ==> Shaped(calls[i]) && !Untags(calls[i], a)
    requires a in d.tags
    ensures a in Run(sem, d, calls).0.tags
    decreases |calls|
  {
    hide Step, Untags;
    if calls == [] {
    } else {
      TagLifetime(sem, d, calls[..|calls| - 1], a);
      StepKeepsTag(sem, Run(sem, d, calls[..|calls| - 1]).0, calls[|calls| - 1], a);
    }
  }

  /** Some event registers a group that holds `a` under a leader that is promoted at that point. */
  ghost predicate TaggedByEvent(d: Device, es: seq<GroupEvent>, a: DevAddr)
    requires forall e :: e in es && e.Registered? ==> e.g.addrs != []
  {
    exists k :: 0 <= k < |es| && es[k].Registered? && a in es[k].g.addrs && es[k].g.addrs[0] in Follow(d, es[..k]).promoted
  }

  lemma ApplyGainsTag(d: Device, e: GroupEvent, a: DevAddr)
    requires (e.Registered? ==> e.g.addrs != []) && a in Apply(d, e).tags && a !in d.tags
    ensures e.Registered? && a in e.g.addrs && e.g.addrs[0] in d.promoted
  {
    hide WithoutClaims;
  }

  lemma {:induction false} FollowGainsTag(d: Device, es: seq<GroupEvent>, a: DevAddr)
    requires forall e :: e in es && e.Registered? ==> e.g.addrs != []
    requires a in Follow(d, es).tags && a !in d.tags
    ensures TaggedByEvent(d, es, a)
    decreases |es|
  {
    hide Apply;
    if es == [] {
      FollowNone(d);
      assert false;
    } else {
      var n := |es| - 1;
      assert Follow(d, es) == Apply(Follow(d, es[..n]), es[n]);
      if a in Follow(d, es[..n]).tags {
        FollowGainsTag(d, es[..n], a);
        var k :| 0 <= k < n && es[..n][k].Registered? && a in es[..n][k].g.addrs &&
          es[..n][k].g.addrs[0] in Follow(d, es[..n][..k]).promoted;
        assert es[..n][k] == es[k] && es[..n][..k] == es[..k];
      } else {
        ApplyGainsTag(Follow(d, es[..n]), es[n], a);
        assert es[n] in es && es[..n] == es[..n];
      }
    }
  }

  /** Outside hazeTagOutput an address is tagged only as a member of a group that replaces a promoted one. */
  lemma TagsGained(sem: Semantics, d: Device, call: Call, a: DevAddr)
    requires Shaped(call) && !call.TagOutput? && a in Step(sem, d, call).0.tags && a !in d.tags
    ensures TaggedByEvent(d, Events(call, Step(sem, d, call).1), a)
  {
    hide Step, Events, Follow;
    if EndsEpoch(call) {
      EndedGroups(sem, d, call);
    } else if IsUpload(call) {
      UploadGroupsKept(sem, d, call);
    } else {
      StepFollows(sem, d, call);
      FollowGainsTag(d, Events(call, Step(sem, d, call).1), a);
    }
  }

  /** Tagging succeeds exactly on an address with an epoch value. It tags that address, or, if a
      group holds it, all of the group, and promotes that group. */
  lemma TagOutExact(d: Device, a: DevAddr, g: Group)
    requires DeviceOk(d)
    ensures TagOut(d, a).1.Success? <==> a in d.bound
    ensures a in d.bound && Held(d.groups, g) && Claims(g, a) ==>
      TagOut(d, a).0 == d.(tags := d.tags + ToSet(g.addrs), promoted := d.promoted + {g.addrs[0]})
    ensures a in d.bound && (forall l :: l in d.groups ==> !Claims(d.groups[l], a)) ==>
      TagOut(d, a).0 == d.(tags := d.tags + {a})
  {
    if Held(d.groups, g) && Claims(g, a) {
      OneLeader(d, a, g);
    }
  }

  lemma OneLeader(d: Device, a: DevAddr, g: Group)
    requires DeviceOk(d) && Held(d.groups, g) && Claims(g, a)
    ensures LeadersOf(d.groups, a) == {g.addrs[0]}
    ensures MembersOf(d.groups, {g.addrs[0]}) == ToSet(g.addrs)
  {
    hide MemoryOk;
    forall l | l in LeadersOf(d.groups, a) ensures l == g.addrs[0] {
      assert ClaimedBy(d.groups, a, l) && ClaimedBy(d.groups, a, g.addrs[0]);
    }
    assert g.addrs[0] in LeadersOf(d.groups, a);
  }

  // ---- Promotions ----

  /** A promotion lives while a group with that leader does, and a replaced group's members are
      tagged in its place. */
  ghost predicate PromotionKept(d: Device, d1: Device) {
    && d1.promoted <= d.promoted * d1.groups.Keys
    && forall l :: l in d1.promoted && l in d.groups && l in d1.groups ==>
         d1.groups[l] == d.groups[l] || ToSet(d1.groups[l].addrs) <= d1.tags
  }

  lemma ApplyPromotion(d: Device, e: GroupEvent)
    requires (e.Registered? ==> e.g.addrs != []) && d.promoted <= d.groups.Keys
    ensures var d1 := Apply(d, e);
      && d1.promoted == d.promoted * d1.groups.Keys
      && PromotionKept(d, d1)
      && forall l :: l in d1.groups && l in d.groups && d1.groups[l] == d.groups[l] ==>
           d.tags * ToSet(d.groups[l].addrs) <= d1.tags
  {
    if e.Invalidated? {
      forall l | l in Apply(d, e).groups ensures e.a !in d.groups[l].addrs {
        OverlapsOne(d.groups[l], e.a);
      }
    }
  }

  /** `l` is promoted and leads a group before and after each of the events. */
  ghost predicate PromotedThroughout(d: Device, es: seq<GroupEvent>, l: DevAddr)
    requires forall e :: e in es && e.Registered? ==> e.g.addrs != []
  {
    l in d.promoted && forall k :: 0 <= k <= |es| ==> l in Follow(d, es[..k]).groups
  }

  lemma ThroughoutSnoc(d: Device, es: seq<GroupEvent>, l: DevAddr)
    requires forall e :: e in es && e.Registered? ==> e.g.addrs != []
    requires es != []
    ensures PromotedThroughout(d, es, l) <==>
      PromotedThroughout(d, es[..|es| - 1], l) && l in Follow(d, es).groups
  {
    hide Follow;
    var n := |es| - 1;
    assert es[..|es|] == es;
    assert forall k :: 0 <= k <= n ==> es[..n][..k] == es[..k];
    if PromotedThroughout(d, es[..n], l) && l in Follow(d, es).groups {
      forall k | 0 <= k <= |es| ensures l in Follow(d, es[..k]).groups {
        if k <= n {
          assert es[..n][..k] == es[..k];
        }
      }
    }
    if PromotedThroughout(d, es, l) {
      forall k | 0 <= k <= n ensures l in Follow(d, es[..n][..k]).groups {
        assert es[..n][..k] == es[..k];
      }
    }
  }

  lemma {:induction false} FollowPromotion(d: Device, es: seq<GroupEvent>)
    requires forall e :: e in es && e.Registered? ==> e.g.addrs != []
    requires d.promoted <= d.groups.Keys
    ensures PromotionKept(d, Follow(d, es))
    ensures forall l :: l in Follow(d, es).promoted <==> PromotedThroughout(d, es, l)
    decreases |es|
  {
    hide Apply;
    if es == [] {
      assert forall k :: 0 <= k <= |es| ==> es[..k] == es;
      FollowNone(d);
    } else {
      var n := |es| - 1;
      FollowPromotion(d, es[..n]);
      var d1 := Follow(d, es[..n]);
      ApplyPromotion(d1, es[n]);
      assert Follow(d, es) == Apply(d1, es[n]);
      forall l ensures l in Follow(d, es).promoted <==> PromotedThroughout(d, es, l) {
        ThroughoutSnoc(d, es, l);
      }
    }
  }

  /** Outside tagging and the end of an epoch, promotions only follow their groups: a call keeps exactly
      those whose leader leads a group after each of its events. */
  lemma PromotionLifetime(sem: Semantics, d: Device, call: Call)
    requires Shaped(call) && !EndsEpoch(call) && !call.TagOutput? && d.promoted <= d.groups.Keys
    ensures var (d1, reply) := Step(sem, d, call);
      && PromotionKept(d, d1)
      && (forall l :: l in d1.promoted <==> PromotedThroughout(d, Events(call, reply), l))
      && (|Events(call, reply)| <= 1 ==> d1.promoted == d.promoted * d1.groups.Keys)
  {
    hide Step, Events, Follow, Apply;
    var (d1, reply) := Step(sem, d, call);
    if IsUpload(call) {
      UploadGroupsKept(sem, d, call);
      NoEvents([], call, reply);
      assert Events(call, reply) == [];
      FollowPromotion(d, []);
      FollowNone(d);
    } else {
      StepFollows(sem, d, call);
      var es := Events(call, reply);
      FollowPromotion(d, es);
      if |es| == 1 {
        assert es == [es[0]];
        FollowOne(d, es[0]);
        ApplyPromotion(d, es[0]);
      } else if |es| == 0 {
        FollowNone(d);
      }
    }
  }

  /** Uploading to a residue of a promoted group leaves the group promoted but the residue untagged,
      and recording the same result again does not tag it. */
  lemma UploadUntagsForGood(sem: Semantics, d: Device, a: DevAddr, data: Bytes, g: Group, name: string,
                            imm: seq<nat>, srcs: seq<DevAddr>)
    requires Held(d.groups, g) && Claims(g, a) && g.addrs[0] in d.promoted
    requires |srcs| == |g.moduli| == |g.addrs|
    requires Step(sem, d, H2D(a, data)).1.Done?
    ensures var d1 := Step(sem, d, H2D(a, data)).0;
      var d2 := Step(sem, d1, UnaryMrp(name, imm, g.addrs, srcs, g.moduli)).0;
      && a !in d1.tags && g.addrs[0] in d1.promoted
      && a !in d2.tags && g.addrs[0] in d2.promoted && Held(d2.groups, g)
  {
    hide Step, Follow;
    var d1 := Step(sem, d, H2D(a, data)).0;
    UploadGroupsKept(sem, d, H2D(a, data));
    var call := UnaryMrp(name, imm, g.addrs, srcs, g.moduli);
    var reply := Step(sem, d1, call).1;
    StepFollows(sem, d1, call);
    if Events(call, reply) == [] {
      FollowNone(d1);
    } else {
      FollowOne(d1, Registered(g));
    }
  }
}
