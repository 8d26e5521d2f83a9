/**
 How tags, promotions and groups live and die. The groups of a device are exactly what its history
 of registrations and invalidations leaves, and the history is determined by calls and replies.
 */
module GroupHistory {
  import opened Types
  import opened Trace
  import opened HeapModel
  import opened Allocator
  import opened Configuration
  import opened DeviceModel
  import opened DeviceInvariant

  // ---- The history specification ----

  /** A later event that names one of the addresses of g. */
  predicate Touches(e: GroupEvent, g: Group) {
    match e
    case Registered(h) => Overlaps(g, h.addrs)
    case Invalidated(a) => Claims(g, a)
  }

  /** Some registration of g, none of whose addresses any later event touched. */
  ghost predicate Survives(log: seq<GroupEvent>, g: Group) {
    exists i :: 0 <= i < |log| && log[i] == Registered(g) && Untouched(log, i, g)
  }

  ghost predicate Untouched(log: seq<GroupEvent>, i: nat, g: Group) {
    forall j :: i < j < |log| ==> !Touches(log[j], g)
  }

  predicate Held(groups: map<DevAddr, Group>, g: Group) {
    g.addrs != [] && g.addrs[0] in groups && groups[g.addrs[0]] == g
  }

  /** The groups are exactly the surviving registrations. */
  ghost predicate HistoryOk(groups: map<DevAddr, Group>, log: seq<GroupEvent>) {
    forall g :: Held(groups, g) <==> Survives(log, g)
  }

  lemma SurvivesSnoc(log: seq<GroupEvent>, e: GroupEvent, g: Group)
    ensures Survives(log + [e], g) <==> e == Registered(g) || (Survives(log, g) && !Touches(e, g))
  {
    var more := log + [e];
    if e == Registered(g) {
      assert Untouched(more, |log|, g);
      assert more[|log|] == Registered(g);
    }
    if Survives(log, g) && !Touches(e, g) {
      var i :| 0 <= i < |log| && log[i] == Registered(g) && Untouched(log, i, g);
      forall j | i < j < |more| ensures !Touches(more[j], g) {
        assert j < |log| ==> more[j] == log[j];
      }
      assert more[i] == Registered(g) && Untouched(more, i, g);
    }
    if Survives(more, g) && e != Registered(g) {
      var i :| 0 <= i < |more| && more[i] == Registered(g) && Untouched(more, i, g);
      assert i < |log|;
      forall j | i < j < |log| ensures !Touches(log[j], g) {
        assert more[j] == log[j];
      }
      assert log[i] == Registered(g) && Untouched(log, i, g);
      assert !Touches(more[|log|], g);
    }
  }

  lemma InvalidateHistory(d: Device, a: DevAddr)
    requires Apart(d.groups) && HistoryOk(d.groups, d.log)
    ensures HistoryOk(Invalidate(d, a).groups, Invalidate(d, a).log)
  {
    hide Survives;
    var d1 := Invalidate(d, a);
    forall g ensures Held(d1.groups, g) <==> Survives(d1.log, g) {
      SurvivesSnoc(d.log, Invalidated(a), g);
      OverlapsOne(g, a);
    }
  }

  lemma OverlapsOne(g: Group, a: DevAddr)
    ensures Overlaps(g, [a]) <==> Claims(g, a)
  {
    assert Claims(g, a) ==> a in [a];
  }

  lemma OneGroup(d: Device, g: Group, h: Group, a: DevAddr)
    requires Apart(d.groups)
    requires Held(d.groups, g) && Held(d.groups, h) && Claims(g, a) && Claims(h, a)
    ensures g == h
  {
    assert ClaimedBy(d.groups, a, g.addrs[0]) && ClaimedBy(d.groups, a, h.addrs[0]);
  }

  lemma RegisterHistory(d: Device, addrs: seq<DevAddr>, moduli: seq<nat>)
    requires Apart(d.groups) && HistoryOk(d.groups, d.log)
    requires addrs != []
    ensures HistoryOk(Register(d, addrs, moduli).groups, Register(d, addrs, moduli).log)
  {
    hide Survives;
    var d1, h := Register(d, addrs, moduli), Group(addrs, moduli);
    forall g ensures Held(d1.groups, g) <==> Survives(d1.log, g) {
      SurvivesSnoc(d.log, Registered(h), g);
      if g != h && g.addrs != [] {
        if g.addrs[0] == addrs[0] {
          OverlapsAt(g, addrs, addrs[0]);
        } else if Held(d.groups, g) && Held(d.groups, h) && Overlaps(g, addrs) {
          var a :| a in addrs && Claims(g, a);
          OneGroup(d, g, h, a);
        }
      }
    }
  }

  // ---- Events of a call ----

  predicate SameGroups(d: Device, d1: Device) {
    d.tags == d1.tags && d.groups == d1.groups && d.promoted == d1.promoted && d.log == d1.log
  }

  function Apply(d: Device, e: GroupEvent): Device
    requires e.Registered? ==> e.g.addrs != []
  {
    match e
    case Registered(g) => Register(d, g.addrs, g.moduli)
    case Invalidated(a) => Invalidate(d, a)
  }

  function Follow(d: Device, events: seq<GroupEvent>): Device
    requires forall e :: e in events && e.Registered? ==> e.g.addrs != []
    decreases |events|
  {
    if events == [] then d
    else
      var n := |events| - 1;
      Apply(Follow(d, events[..n]), events[n])
  }

  function Invalidations(ps: seq<DevAddr>): (es: seq<GroupEvent>)
    ensures forall e :: e in es ==> e.Invalidated?
  {
    if ps == [] then []
    else
      var n := |ps| - 1;
      Invalidations(ps[..n]) + if ps[n] == NULL then [] else [Invalidated(ps[n])]
  }

  function Registration(addrs: seq<DevAddr>, base: seq<nat>): (es: seq<GroupEvent>)
    requires |addrs| == |base|
    ensures forall e :: e in es ==> e.Registered? && e.g.addrs != []
  {
    if |base| > 1 then [Registered(Group(addrs, base))] else []
  }

  function LiftEvents(dsts: seq<DevAddr>, target: seq<nat>, digits: nat, count: nat): (es: seq<GroupEvent>)
    requires count <= digits && |dsts| == digits * |target|
    ensures forall e :: e in es ==> e.Registered? && e.g.addrs != []
  {
    if count == 0 then []
    else
      Stretch(count - 1, digits, |target|);
      LiftEvents(dsts, target, digits, count - 1) +
      Registration(dsts[(count - 1) * |target|..count * |target|], target)
  }

  /** What a call adds to the history, told by its arguments and its reply. */
  function Events(call: Call, reply: Reply): (es: seq<GroupEvent>)
    requires Shaped(call)
    ensures forall e :: e in es && e.Registered? ==> e.g.addrs != []
  {
    match call
    case Free(p) => if p == NULL then [] else [Invalidated(p)]
    case FreeMrp(ps) => if |ps| > MAX_CIPHERTEXT_MODULI then [] else Invalidations(ps)
    case Memset(p, _, _) => if reply.Done? then [Invalidated(p)] else []
    case D2DMrp(dsts, _, base) => if reply.Done? then Registration(dsts, base) else []
    case BinaryMrp(_, dsts, _, _, base) => if reply.Done? then Registration(dsts, base) else []
    case UnaryMrp(_, _, dsts, _, base) => if reply.Done? then Registration(dsts, base) else []
    case BasisConvert(dsts, _, _, dstBase) => if reply.Done? then Registration(dsts, dstBase) else []
    case ModDown(dsts, _, srcBase, rescaleBase) =>
      if reply.Done? then Registration(dsts, Without(srcBase, rescaleBase)) else []
    case ModUp(dsts, _, srcBase, _, digitLens, pBase) =>
      if reply.Done? then LiftEvents(dsts, srcBase + pBase, |digitLens|, |digitLens|) else []
    case _ => []
  }

  lemma FollowNone(d: Device)
    ensures Follow(d, []) == d
  {
  }

  lemma FollowOne(d: Device, e: GroupEvent)
    requires e.Registered? ==> e.g.addrs != []
    ensures Follow(d, [e]) == Apply(d, e)
  {
    assert [e][..0] == [];
    FollowNone(d);
  }

  lemma FollowSnoc(d: Device, es: seq<GroupEvent>, e: GroupEvent)
    requires forall x :: x in es + [e] && x.Registered? ==> x.g.addrs != []
    ensures forall x :: x in es && x.Registered? ==> x.g.addrs != []
    ensures e.Registered? ==> e.g.addrs != []
    ensures Follow(d, es + [e]) == Follow(Follow(d, es), [e])
  {
    assert forall x :: x in es ==> x in es + [e];
    assert e in es + [e];
    assert (es + [e])[..|es|] == es;
    FollowOne(Follow(d, es), e);
  }

  /** The group part of an event depends on the group part of the device only. */
  lemma FollowCongruent(d: Device, d1: Device, e: GroupEvent)
    requires SameGroups(d, d1) && (e.Registered? ==> e.g.addrs != [])
    ensures SameGroups(Follow(d, [e]), Follow(d1, [e]))
  {
    hide Follow, Register, Invalidate;
    FollowOne(d, e);
    FollowOne(d1, e);
    match e {
      case Registered(g) => RegisterCongruent(d, d1, g.addrs, g.moduli);
      case Invalidated(a) => InvalidateCongruent(d, d1, a);
    }
  }

  lemma RegisterCongruent(d: Device, d1: Device, addrs: seq<DevAddr>, moduli: seq<nat>)
    requires SameGroups(d, d1) && addrs != []
    ensures SameGroups(Register(d, addrs, moduli), Register(d1, addrs, moduli))
  {
    hide WithoutClaims, ToSet;
  }

  lemma InvalidateCongruent(d: Device, d1: Device, a: DevAddr)
    requires SameGroups(d, d1)
    ensures SameGroups(Invalidate(d, a), Invalidate(d1, a))
  {
    hide WithoutClaims;
  }

  lemma StoreFollows(d: Device, dsts: seq<DevAddr>, vs: seq<Bytes>, base: seq<nat>)
    requires |vs| == |base| == |dsts|
    ensures SameGroups(StoreMrp(d, dsts, vs, base), Follow(d, Registration(dsts, base)))
  {
    hide Register, Follow;
    BindAllGroups(d, dsts, vs, base);
    FollowNone(d);
    if |base| > 1 {
      var e := Registered(Group(dsts, base));
      var d1 := BindAll(d, dsts, vs, base);
      FollowCongruent(d1, d, e);
      FollowOne(d1, e);
    }
  }

  lemma {:induction false} BindAllGroups(d: Device, dsts: seq<DevAddr>, vs: seq<Bytes>, base: seq<nat>)
    requires |vs| <= |dsts| && |vs| <= |base|
    ensures SameGroups(BindAll(d, dsts, vs, base), d)
    decreases |vs|
  {
    if vs != [] {
      BindAllGroups(d, dsts, vs[..|vs| - 1], base);
    }
  }

  lemma {:induction false} LiftFollows(sem: Semantics, d: Device, dsts: seq<DevAddr>, vs: seq<Bytes>, srcBase: seq<nat>,
                                       digitBases: seq<nat>, digitLens: seq<nat>, pBase: seq<nat>, count: nat)
    requires count <= |digitLens| && Sum(digitLens) <= |digitBases|
    requires |dsts| == |digitLens| * |srcBase + pBase|
    ensures SameGroups(LiftDigits(sem, d, dsts, vs, srcBase, digitBases, digitLens, pBase, count),
                       Follow(d, LiftEvents(dsts, srcBase + pBase, |digitLens|, count)))
    decreases count
  {
    hide StoreMrp, Follow, Registration, Digit, Results, SameGroups;
    if count == 0 {
      FollowNone(d);
      SameGroupsRefl(d);
    } else {
      var target := srcBase + pBase;
      var i := count - 1;
      LiftFollows(sem, d, dsts, vs, srcBase, digitBases, digitLens, pBase, i);
      Stretch(i, |digitLens|, |target|);
      var d1 := LiftDigits(sem, d, dsts, vs, srcBase, digitBases, digitLens, pBase, i);
      var results :=
        Results(sem, OpCode("fast_base_convert", [], srcBase, Digit(digitBases, digitLens, i), 0), vs, target);
      StoreMoreFollows(d, d1, LiftEvents(dsts, target, |digitLens|, i), dsts[i * |target|..(i + 1) * |target|], results,
                       target);
    }
  }

  lemma SameGroupsRefl(d: Device)
    ensures SameGroups(d, d)
  {
  }

  lemma StoreMoreFollows(d: Device, d1: Device, es: seq<GroupEvent>, dsts: seq<DevAddr>, vs: seq<Bytes>, base: seq<nat>)
    requires |vs| == |base| == |dsts|
    requires forall e :: e in es && e.Registered? ==> e.g.addrs != []
    requires SameGroups(d1, Follow(d, es))
    ensures SameGroups(StoreMrp(d1, dsts, vs, base), Follow(d, es + Registration(dsts, base)))
  {
    hide StoreMrp, Follow;
    StoreFollows(d1, dsts, vs, base);
    if |base| > 1 {
      var e := Registered(Group(dsts, base));
      FollowCongruent(d1, Follow(d, es), e);
      FollowSnoc(d, es, e);
    } else {
      assert es + Registration(dsts, base) == es;
      FollowNone(d1);
    }
  }

  lemma {:induction false} InvalidateAllFollows(d: Device, ps: seq<DevAddr>)
    ensures InvalidateAll(d, ps) == Follow(d, Invalidations(ps))
    decreases |ps|
  {
    hide Follow, Invalidate;
    if ps == [] {
      FollowNone(d);
    } else {
      var n := |ps| - 1;
      InvalidateAllFollows(d, ps[..n]);
      if ps[n] == NULL {
        assert Invalidations(ps[..n]) + [] == Invalidations(ps[..n]);
      } else {
        FollowSnoc(d, Invalidations(ps[..n]), Invalidated(ps[n]));
        FollowOne(InvalidateAll(d, ps[..n]), Invalidated(ps[n]));
      }
    }
  }

  lemma {:induction false} ReadAllGroups(d: Device, srcs: seq<DevAddr>)
    ensures SameGroups(ReadAll(d, srcs).0, d)
    decreases |srcs|
  {
    if srcs != [] {
      ReadAllGroups(d, srcs[..|srcs| - 1]);
    }
  }

  lemma {:induction false} CopyAllGroups(d: Device, dsts: seq<DevAddr>, srcs: seq<DevAddr>, base: seq<nat>)
    requires |srcs| <= |dsts| && |srcs| <= |base|
    ensures SameGroups(CopyAll(d, dsts, srcs, base).0, d)
    decreases |srcs|
  {
    if srcs != [] {
      CopyAllGroups(d, dsts, srcs[..|srcs| - 1], base);
    }
  }

  lemma MrpFollows(sem: Semantics, d: Device, op: OpCode, dsts: seq<DevAddr>, srcs: seq<DevAddr>, base: seq<nat>)
    requires |dsts| == |base|
    ensures var (d1, s) := MrpOp(sem, d, op, dsts, srcs, base);
      SameGroups(d1, Follow(d, if s.Success? then Registration(dsts, base) else []))
  {
    hide ReadAll, StoreMrp, Follow, Registration;
    ReadAllGroups(d, srcs);
    FollowNone(d);
    var (d1, r) := ReadAll(d, srcs);
    if r.Ok? {
      var vs := Results(sem, op, r.value, base);
      FollowNone(d);
      assert [] + Registration(dsts, base) == Registration(dsts, base);
      StoreMoreFollows(d, d1, [], dsts, vs, base);
    }
  }

  lemma MrpCallFollows(sem: Semantics, d: Device, call: Call)
    requires Shaped(call)
    requires call.BinaryMrp? || call.UnaryMrp? || call.BasisConvert? || call.ModDown? || call.ModUp?
    ensures SameGroups(Step(sem, d, call).0, Follow(d, Events(call, Step(sem, d, call).1)))
  {
    hide MrpOp, Follow, LiftDigits, ReadAll, ValidateModDown, Without, Registration, SameGroups;
    FollowNone(d);
    SameGroupsRefl(d);
    match call {
      case BinaryMrp(name, dsts, srcs1, srcs2, base) =>
        MrpFollows(sem, d, OpCode(name, [], base, base, 0), dsts, srcs1 + srcs2, base);
      case UnaryMrp(name, imm, dsts, srcs, base) =>
        MrpFollows(sem, d, OpCode(name, imm, base, base, 0), dsts, srcs, base);
      case BasisConvert(dsts, srcs, srcBase, dstBase) =>
        MrpFollows(sem, d, OpCode("fast_base_convert", [], srcBase, srcBase, 0), dsts, srcs, dstBase);
      case ModDown(dsts, srcs, srcBase, rescaleBase) =>
        MrpFollows(sem, d, OpCode("rescale_fbc", [], srcBase, rescaleBase, 0), dsts, srcs, Without(srcBase, rescaleBase));
      case ModUp(dsts, srcs, srcBase, digitBases, digitLens, pBase) =>
        if ValidateModUp(srcBase, digitBases, digitLens, pBase).Success? {
          ReadAllGroups(d, srcs);
          var (d1, r) := ReadAll(d, srcs);
          if r.Ok? {
            LiftFollows(sem, d1, dsts, r.value, srcBase, digitBases, digitLens, pBase, |digitLens|);
            FollowAllCongruent(d1, d, LiftEvents(dsts, srcBase + pBase, |digitLens|, |digitLens|));
            SameGroupsTrans(Step(sem, d, call).0,
                            Follow(d1, LiftEvents(dsts, srcBase + pBase, |digitLens|, |digitLens|)),
                            Follow(d, LiftEvents(dsts, srcBase + pBase, |digitLens|, |digitLens|)));
          }
        }
      case _ =>
    }
  }

  lemma SameGroupsTrans(d: Device, d1: Device, d2: Device)
    requires SameGroups(d, d1) && SameGroups(d1, d2)
    ensures SameGroups(d, d2)
  {
  }

  lemma {:induction false} FollowAllCongruent(d: Device, d1: Device, es: seq<GroupEvent>)
    requires SameGroups(d, d1) && forall e :: e in es && e.Registered? ==> e.g.addrs != []
    ensures SameGroups(Follow(d, es), Follow(d1, es))
    decreases |es|
  {
    if es == [] {
      FollowNone(d);
      FollowNone(d1);
    } else {
      hide Follow;
      var n := |es| - 1;
      assert es == es[..n] + [es[n]];
      FollowAllCongruent(d, d1, es[..n]);
      FollowSnoc(d, es[..n], es[n]);
      FollowSnoc(d1, es[..n], es[n]);
      FollowCongruent(Follow(d, es[..n]), Follow(d1, es[..n]), es[n]);
    }
  }

  predicate IsUpload(call: Call) {
    call.H2D? || call.H2DMrp?
  }

  predicate IsQuiet(call: Call) {
    !EndsEpoch(call) && !IsUpload(call) && !call.TagOutput? &&
    !(call.BinaryMrp? || call.UnaryMrp? || call.BasisConvert? || call.ModDown? || call.ModUp?) &&
    !(call.Free? || call.FreeMrp? || call.Memset? || call.D2DMrp?)
  }

  lemma QuietCall(sem: Semantics, d: Device, call: Call)
    requires Shaped(call) && IsQuiet(call)
    ensures SameGroups(Step(sem, d, call).0, d)
  {
    hide ReadAll, FreeMany, AllocateMany, AllocateOne, IsPowerOfTwo, SetPolynomialSize, CopyTo;
    match call {
      case Binary(_, _, src1, src2, _) => ReadAllGroups(d, [src1, src2]);
      case Unary(_, _, _, src, _) => ReadAllGroups(d, [src]);
      case Automorph(_, _, _, src) => ReadAllGroups(d, [src]);
      case D2D(dst, src, _) => CopyGroups(d, dst, src, COPY_MODULUS);
      case _ =>
    }
  }

  lemma CopyGroups(d: Device, dst: DevAddr, src: DevAddr, q: nat)
    ensures SameGroups(CopyTo(d, dst, src, q).0, d)
  {
  }

  lemma OtherCallFollows(sem: Semantics, d: Device, call: Call)
    requires Shaped(call) && IsQuiet(call)
    ensures SameGroups(Step(sem, d, call).0, Follow(d, Events(call, Step(sem, d, call).1)))
  {
    hide Follow, Step;
    QuietCall(sem, d, call);
    FollowNone(d);
  }

  lemma ReleaseCallFollows(sem: Semantics, d: Device, call: Call)
    requires Shaped(call) && (call.Free? || call.FreeMrp? || call.Memset? || call.D2DMrp?)
    ensures SameGroups(Step(sem, d, call).0, Follow(d, Events(call, Step(sem, d, call).1)))
  {
    hide Follow, Invalidate, InvalidateAll, FreeMany, Upload, CopyAll, Fill, Register;
    FollowNone(d);
    match call {
      case Free(p) => FollowOne(d, Invalidated(p));
      case FreeMrp(ps) => InvalidateAllFollows(d, ps);
      case Memset(p, value, count) =>
        UploadGroups(d, p, Fill(value, count));
        FollowCongruent(Upload(d, p, Fill(value, count)).0, d, Invalidated(p));
        FollowOne(Upload(d, p, Fill(value, count)).0, Invalidated(p));
      case D2DMrp(dsts, srcs, base) =>
        CopyAllGroups(d, dsts, srcs, base);
        if |base| > 1 {
          var d1, e := CopyAll(d, dsts, srcs, base).0, Registered(Group(dsts, base));
          FollowCongruent(d1, d, e);
          FollowOne(d1, e);
        }
      case _ =>
    }
  }

  lemma UploadGroups(d: Device, dst: DevAddr, data: Bytes)
    ensures SameGroups(Upload(d, dst, data).0, d)
  {
  }

  /** Apart from uploads, tagging and the end of an epoch, a call changes tags, groups and promotions
      only through the events its arguments and reply tell. */
  lemma StepFollows(sem: Semantics, d: Device, call: Call)
    requires Shaped(call) && !EndsEpoch(call) && !IsUpload(call) && !call.TagOutput?
    ensures SameGroups(Step(sem, d, call).0, Follow(d, Events(call, Step(sem, d, call).1)))
  {
    hide Step, Follow, Events, SameGroups;
    if call.BinaryMrp? || call.UnaryMrp? || call.BasisConvert? || call.ModDown? || call.ModUp? {
      MrpCallFollows(sem, d, call);
    } else if call.Free? || call.FreeMrp? || call.Memset? || call.D2DMrp? {
      ReleaseCallFollows(sem, d, call);
    } else {
      OtherCallFollows(sem, d, call);
    }
  }
}
