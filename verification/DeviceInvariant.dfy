/** What every reachable device satisfies, and that every call keeps it. */
module DeviceInvariant {
  import opened Types
  import opened Trace
  import opened HeapModel
  import opened Allocator
  import opened Configuration
  import opened DeviceModel

  /** Stored addresses are live, stored bytes are one polynomial long, and a polynomial is exactly the
      configured number of limbs. A computed value may belong to an address that is not live. */
  ghost predicate MemoryOk(d: Device) {
    && HeapOk(d.heap)
    && d.host.Keys <= d.heap.live
    && (forall a :: a in d.host ==> |d.host[a]| == d.heap.polyBytes)
    && (d.heap.polyBytes == 0 || d.heap.polyBytes == 8 * d.cfg.ringDim)
  }

  ghost predicate ClaimedBy(groups: map<DevAddr, Group>, a: DevAddr, l: DevAddr) {
    l in groups && Claims(groups[l], a)
  }

  predicate LedBy(g: Group, l: DevAddr) {
    g.addrs != [] && g.addrs[0] == l
  }

  /** Groups are kept under their leader and never share an address. */
  ghost predicate Apart(groups: map<DevAddr, Group>) {
    && (forall l :: l in groups ==> LedBy(groups[l], l))
    && forall a, l, m :: ClaimedBy(groups, a, l) && ClaimedBy(groups, a, m) ==> l == m
  }

  ghost predicate MembersBound(g: Group, bound: set<DevAddr>) {
    |g.addrs| == |g.moduli| && forall a :: Claims(g, a) ==> a in bound
  }

  /** Tagged addresses and group members have epoch values; only existing groups are promoted. */
  ghost predicate ClaimsOk(tags: set<DevAddr>, groups: map<DevAddr, Group>, promoted: set<DevAddr>, bound: set<DevAddr>) {
    && tags <= bound
    && Apart(groups)
    && (forall l :: l in groups ==> MembersBound(groups[l], bound))
    && promoted <= groups.Keys
  }

  ghost predicate DeviceOk(d: Device) {
    MemoryOk(d) && ClaimsOk(d.tags, d.groups, d.promoted, d.bound.Keys)
  }

  // ---- Claims ----

  lemma ClaimsGrow(tags: set<DevAddr>, tags1: set<DevAddr>, groups: map<DevAddr, Group>, promoted: set<DevAddr>,
                   bound: set<DevAddr>, bound1: set<DevAddr>)
    requires ClaimsOk(tags, groups, promoted, bound) && bound <= bound1 && tags1 <= tags
    ensures ClaimsOk(tags1, groups, promoted, bound1)
  {
    forall l | l in groups ensures MembersBound(groups[l], bound1) {
      assert MembersBound(groups[l], bound);
    }
  }

  lemma ClaimsOfNone(bound: set<DevAddr>)
    ensures ClaimsOk({}, map[], {}, bound)
  {
  }

  lemma InvalidateApart(d: Device, a: DevAddr)
    requires Apart(d.groups)
    ensures Apart(Invalidate(d, a).groups)
  {
    var d1 := Invalidate(d, a);
    forall x: DevAddr, l: DevAddr, m: DevAddr | ClaimedBy(d1.groups, x, l) && ClaimedBy(d1.groups, x, m) ensures l == m {
      assert ClaimedBy(d.groups, x, l) && ClaimedBy(d.groups, x, m);
    }
  }

  lemma InvalidateClaims(d: Device, a: DevAddr)
    requires ClaimsOk(d.tags, d.groups, d.promoted, d.bound.Keys)
    ensures var d1 := Invalidate(d, a); ClaimsOk(d1.tags, d1.groups, d1.promoted, d1.bound.Keys)
  {
    hide Apart;
    InvalidateApart(d, a);
    var d1 := Invalidate(d, a);
    forall l | l in d1.groups ensures MembersBound(d1.groups[l], d1.bound.Keys) {
      assert MembersBound(d.groups[l], d.bound.Keys);
      assert a in [a];
    }
  }

  lemma OverlapsAt(g: Group, addrs: seq<DevAddr>, a: DevAddr)
    requires a in addrs && Claims(g, a)
    ensures Overlaps(g, addrs)
  {
  }

  lemma RegisterApart(d: Device, addrs: seq<DevAddr>, moduli: seq<nat>)
    requires Apart(d.groups) && addrs != []
    ensures Apart(Register(d, addrs, moduli).groups)
  {
    var d1 := Register(d, addrs, moduli);
    if addrs[0] in d.groups && d.groups[addrs[0]] == Group(addrs, moduli) {
      assert d1.groups == d.groups;
    } else {
      forall x: DevAddr, l: DevAddr, m: DevAddr | ClaimedBy(d1.groups, x, l) && ClaimedBy(d1.groups, x, m) ensures l == m {
        if l != addrs[0] && m != addrs[0] {
          assert ClaimedBy(d.groups, x, l) && ClaimedBy(d.groups, x, m);
        } else if l != m {
          OverlapsAt(d.groups[if l == addrs[0] then m else l], addrs, x);
        }
      }
    }
  }

  lemma RegisterClaims(d: Device, addrs: seq<DevAddr>, moduli: seq<nat>)
    requires ClaimsOk(d.tags, d.groups, d.promoted, d.bound.Keys)
    requires addrs != [] && |addrs| == |moduli| && forall a :: a in addrs ==> a in d.bound
    ensures var d1 := Register(d, addrs, moduli); ClaimsOk(d1.tags, d1.groups, d1.promoted, d1.bound.Keys)
  {
    hide Apart;
    RegisterApart(d, addrs, moduli);
    var d1 := Register(d, addrs, moduli);
    forall l | l in d1.groups ensures MembersBound(d1.groups[l], d1.bound.Keys) {
      if l != addrs[0] {
        assert MembersBound(d.groups[l], d.bound.Keys);
      }
    }
  }

  lemma TagOutClaims(d: Device, a: DevAddr)
    requires ClaimsOk(d.tags, d.groups, d.promoted, d.bound.Keys)
    ensures var d1 := TagOut(d, a).0; ClaimsOk(d1.tags, d1.groups, d1.promoted, d1.bound.Keys)
  {
    var leaders := LeadersOf(d.groups, a);
    forall x | x in MembersOf(d.groups, leaders) ensures x in d.bound {
      var l :| l in leaders && l in d.groups && Claims(d.groups[l], x);
      assert MembersBound(d.groups[l], d.bound.Keys);
    }
  }

  // ---- Memory ----

  /** What reading and binding leave alone. */
  ghost predicate SameClaims(d: Device, d1: Device) {
    && d1.cfg == d.cfg && d1.heap == d.heap && d1.tags == d.tags && d1.groups == d.groups
    && d1.promoted == d.promoted && d1.log == d.log && d.bound.Keys <= d1.bound.Keys
  }

  lemma SameClaimsOk(d: Device, d1: Device)
    requires DeviceOk(d) && SameClaims(d, d1) && MemoryOk(d1)
    ensures DeviceOk(d1)
  {
    hide MemoryOk;
    ClaimsGrow(d.tags, d.tags, d.groups, d.promoted, d.bound.Keys, d1.bound.Keys);
  }

  lemma PolyBytesPositive(h: Heap, a: DevAddr)
    requires HeapOk(h) && a in h.live
    ensures h.polyBytes > 0
  {
    assert |h.live| != 0;
  }

  /** Reading succeeds exactly on addresses that have a value, returns it, and moves no value. */
  lemma ReadExact(d: Device, a: DevAddr)
    requires MemoryOk(d)
    ensures var (d1, r) := Read(d, a);
      && MemoryOk(d1) && SameClaims(d, d1) && Mem(d1) == Mem(d) && d1.host.Keys <= d.host.Keys
      && (r.Ok? <==> a in Mem(d))
      && (r.Ok? ==> r.value == Mem(d)[a] && a in d1.bound)
      && (r.Err? ==> d1 == d)
  {
    hide HeapOk;
    if a !in d.bound && a in d.host {
      PolyBytesPositive(d.heap, a);
    }
  }

  lemma {:induction false} ReadAllExact(d: Device, srcs: seq<DevAddr>)
    requires MemoryOk(d)
    ensures var (d1, r) := ReadAll(d, srcs);
      && MemoryOk(d1) && SameClaims(d, d1) && Mem(d1) == Mem(d) && d1.host.Keys <= d.host.Keys
      && (r.Ok? <==> forall a :: a in srcs ==> a in Mem(d))
      && (r.Ok? ==> forall i :: 0 <= i < |srcs| ==> srcs[i] in Mem(d) && r.value[i] == Mem(d)[srcs[i]])
    decreases |srcs|
  {
    hide MemoryOk, Mem, Read;
    if srcs != [] {
      var n := |srcs| - 1;
      ReadAllExact(d, srcs[..n]);
      ReadExact(ReadAll(d, srcs[..n]).0, srcs[n]);
      assert srcs == srcs[..n] + [srcs[n]];
    }
  }

  lemma BindOk(d: Device, a: DevAddr, v: Bytes, q: nat)
    requires MemoryOk(d)
    ensures var d1 := Bind(d, a, v, q);
      MemoryOk(d1) && SameClaims(d, d1) && Mem(d1) == Mem(d)[a := v] && d1.host == d.host && a in d1.bound
  {
    hide HeapOk;
  }

  /** Assigns the first |vs| destinations in order. */
  function Assign(m: map<DevAddr, Bytes>, dsts: seq<DevAddr>, vs: seq<Bytes>): map<DevAddr, Bytes>
    requires |vs| <= |dsts|
    decreases |vs|
  {
    if vs == [] then m else var n := |vs| - 1; Assign(m, dsts, vs[..n])[dsts[n] := vs[n]]
  }

  lemma {:induction false} BindAllOk(d: Device, dsts: seq<DevAddr>, vs: seq<Bytes>, base: seq<nat>)
    requires MemoryOk(d) && |vs| <= |dsts| && |vs| <= |base|
    ensures var d1 := BindAll(d, dsts, vs, base);
      MemoryOk(d1) && SameClaims(d, d1) && Mem(d1) == Assign(Mem(d), dsts, vs) && d1.host == d.host &&
      forall i :: 0 <= i < |vs| ==> dsts[i] in d1.bound
    decreases |vs|
  {
    hide MemoryOk, Mem, Bind;
    if vs != [] {
      var n := |vs| - 1;
      BindAllOk(d, dsts, vs[..n], base);
      BindOk(BindAll(d, dsts, vs[..n], base), dsts[n], vs[n], base[n]);
    }
  }

  lemma StoreMrpOk(d: Device, dsts: seq<DevAddr>, vs: seq<Bytes>, base: seq<nat>)
    requires DeviceOk(d) && |vs| == |base| == |dsts|
    ensures var d1 := StoreMrp(d, dsts, vs, base);
      DeviceOk(d1) && Mem(d1) == Assign(Mem(d), dsts, vs) && d1.heap == d.heap && d1.cfg == d.cfg &&
      d1.host == d.host && d.bound.Keys <= d1.bound.Keys
  {
    hide MemoryOk, ClaimsOk, Mem, Register, BindAll;
    BindAllOk(d, dsts, vs, base);
    var d1 := BindAll(d, dsts, vs, base);
    SameClaimsOk(d, d1);
    if |base| > 1 {
      assert forall a :: a in dsts ==> a in d1.bound;
      RegisterClaims(d1, dsts, base);
      RegisterMemory(d1, dsts, base);
    }
  }

  lemma RegisterMemory(d: Device, addrs: seq<DevAddr>, moduli: seq<nat>)
    requires addrs != []
    ensures var d1 := Register(d, addrs, moduli);
      d1.cfg == d.cfg && d1.heap == d.heap && d1.host == d.host && d1.bound == d.bound &&
      Mem(d1) == Mem(d) && (MemoryOk(d) ==> MemoryOk(d1))
  {
    hide HeapOk;
  }

  /** A pass-through copy gives the destination the source's value, or changes no value. */
  lemma CopyToOk(d: Device, dst: DevAddr, src: DevAddr, q: nat)
    requires MemoryOk(d)
    ensures var (d1, s) := CopyTo(d, dst, src, q);
      && MemoryOk(d1) && SameClaims(d, d1) && d1.host.Keys <= d.host.Keys
      && (s.Success? <==> src in Mem(d))
      && Mem(d1) == (if src in Mem(d) then Mem(d)[dst := Mem(d)[src]] else Mem(d))
      && (s.Success? ==> dst in d1.bound)
  {
    hide Read, HeapOk;
    ReadExact(d, src);
    var (d1, r) := Read(d, src);
    if r.Ok? {
      var q1 := if q == COPY_MODULUS then Recorded(d1, src) else q;
      var d2 := if q1 != COPY_MODULUS then d1.(modulus := d1.modulus[src := q1]) else d1;
      BindOk(d2, dst, r.value, q1);
      assert Mem(d2) == Mem(d1);
    }
  }

  /** Copies in order; stops at the first source without a value. */
  function CopySeq(m: map<DevAddr, Bytes>, dsts: seq<DevAddr>, srcs: seq<DevAddr>): (map<DevAddr, Bytes>, bool)
    requires |srcs| <= |dsts|
    decreases |srcs|
  {
    if srcs == [] then (m, true)
    else
      var n := |srcs| - 1;
      var (m1, ok) := CopySeq(m, dsts, srcs[..n]);
      if ok && srcs[n] in m1 then (m1[dsts[n] := m1[srcs[n]]], true) else (m1, false)
  }

  lemma {:induction false} CopyAllOk(d: Device, dsts: seq<DevAddr>, srcs: seq<DevAddr>, base: seq<nat>)
    requires MemoryOk(d) && |srcs| <= |dsts| && |srcs| <= |base|
    ensures var (d1, s) := CopyAll(d, dsts, srcs, base);
      && MemoryOk(d1) && SameClaims(d, d1) && d1.host.Keys <= d.host.Keys
      && (Mem(d1), s.Success?) == CopySeq(Mem(d), dsts, srcs)
      && (s.Success? ==> forall i :: 0 <= i < |srcs| ==> dsts[i] in d1.bound)
    decreases |srcs|
  {
    hide MemoryOk, Mem, CopyTo;
    if srcs != [] {
      var n := |srcs| - 1;
      CopyAllOk(d, dsts, srcs[..n], base);
      CopyToOk(CopyAll(d, dsts, srcs[..n], base).0, dsts[n], srcs[n], base[n]);
    }
  }

  lemma UploadOk(d: Device, dst: DevAddr, data: Bytes)
    requires MemoryOk(d)
    ensures var (d1, s) := Upload(d, dst, data);
      && MemoryOk(d1) && SameClaims(d, d1) && d1.bound == d.bound
      && (s.Success? <==> dst in d.heap.live && |data| <= d.heap.polyBytes)
      && (s.Success? ==> dst in d1.host && d1.host.Keys == d.host.Keys + {dst} && data <= d1.host[dst])
      && (forall a :: a != dst ==> (a in d1.host <==> a in d.host) && (a in d.host ==> d1.host[a] == d.host[a]))
  {
    hide HeapOk;
  }

  lemma {:induction false} UploadAllOk(d: Device, dsts: seq<DevAddr>, datas: seq<Bytes>)
    requires MemoryOk(d) && |datas| <= |dsts|
    ensures var (d1, s) := UploadAll(d, dsts, datas);
      && MemoryOk(d1) && SameClaims(d, d1) && d1.bound == d.bound
      && (s.Success? ==> forall i :: 0 <= i < |datas| ==> dsts[i] in d1.host)
    decreases |datas|
  {
    hide MemoryOk, Upload;
    if datas != [] {
      var n := |datas| - 1;
      UploadAllOk(d, dsts, datas[..n]);
      UploadOk(UploadAll(d, dsts, datas[..n]).0, dsts[n], datas[n]);
    }
  }

  lemma TagInputOk(d: Device, a: DevAddr)
    requires DeviceOk(d)
    ensures var (d1, s) := TagInput(d, a);
      && DeviceOk(d1) && d1.heap == d.heap && d1.cfg == d.cfg && d1.host == d.host
      && (s.Success? <==> a in d.host)
      && d1.bound == (if s.Success? then d.bound[a := d.host[a]] else d.bound)
  {
    hide HeapOk, ClaimsOk;
    if a in d.host {
      PolyBytesPositive(d.heap, a);
      assert d.bound[a := d.host[a]].Keys == d.bound.Keys + {a};
    }
    ClaimsGrow(d.tags, d.tags, d.groups, d.promoted, d.bound.Keys, d.bound.Keys + {a});
    ClaimsGrow(d.tags, d.tags - {a}, d.groups, d.promoted, d.bound.Keys, d.bound.Keys + {a});
  }

  lemma {:induction false} TagInputsOk(d: Device, addrs: seq<DevAddr>)
    requires DeviceOk(d)
    ensures var (d1, s) := TagInputs(d, addrs);
      && DeviceOk(d1) && d1.heap == d.heap && d1.cfg == d.cfg && d1.host == d.host
      && ((forall a :: a in addrs ==> a in d.host) ==> s.Success?)
    decreases |addrs|
  {
    hide DeviceOk, TagInput;
    if addrs != [] {
      var n := |addrs| - 1;
      TagInputsOk(d, addrs[..n]);
      TagInputOk(TagInputs(d, addrs[..n]).0, addrs[n]);
    }
  }

  lemma InvalidateOk(d: Device, a: DevAddr)
    requires DeviceOk(d)
    ensures var d1 := Invalidate(d, a);
      && DeviceOk(d1) && d1.heap == d.heap && d1.cfg == d.cfg && d1.host == d.host && d1.bound == d.bound - {a}
  {
    hide HeapOk, ClaimsOk;
    InvalidateClaims(d, a);
  }

  lemma {:induction false} InvalidateAllOk(d: Device, addrs: seq<DevAddr>)
    requires DeviceOk(d)
    ensures var d1 := InvalidateAll(d, addrs);
      && DeviceOk(d1) && d1.heap == d.heap && d1.cfg == d.cfg && d1.host == d.host
      && d1.bound == d.bound - (ToSet(addrs) - {NULL})
    decreases |addrs|
  {
    hide DeviceOk, Invalidate;
    if addrs == [] {
      assert d.bound - (ToSet(addrs) - {NULL}) == d.bound;
    } else {
      var n := |addrs| - 1;
      InvalidateAllOk(d, addrs[..n]);
      InvalidateOk(InvalidateAll(d, addrs[..n]), addrs[n]);
      assert addrs == addrs[..n] + [addrs[n]];
      assert ToSet(addrs) == ToSet(addrs[..n]) + {addrs[n]};
      DropMore(d.bound, ToSet(addrs[..n]) - {NULL}, addrs[n]);
      if addrs[n] == NULL {
        assert ToSet(addrs) - {NULL} == ToSet(addrs[..n]) - {NULL};
      } else {
        assert ToSet(addrs) - {NULL} == ToSet(addrs[..n]) - {NULL} + {addrs[n]};
      }
    }
  }

  lemma DropMore(m: map<DevAddr, Bytes>, s: set<DevAddr>, a: DevAddr)
    ensures m - s - {a} == m - (s + {a})
  {
  }

  lemma FreedOk(d: Device, ps: seq<DevAddr>)
    requires DeviceOk(d)
    ensures DeviceOk(d.(heap := FreeMany(d.heap, ps).0, host := d.host - (ToSet(ps) - {NULL})))
  {
    hide HeapOk, ClaimsOk, FreeMany;
    FreeManyExact(d.heap, ps);
    FreeManySafe(d.heap, ps);
  }

  lemma {:induction false} LiftDigitsOk(sem: Semantics, d: Device, dsts: seq<DevAddr>, vs: seq<Bytes>, srcBase: seq<nat>,
                                        digitBases: seq<nat>, digitLens: seq<nat>, pBase: seq<nat>, count: nat)
    requires count <= |digitLens| && Sum(digitLens) <= |digitBases| && |dsts| == |digitLens| * |srcBase + pBase|
    requires DeviceOk(d)
    ensures var d1 := LiftDigits(sem, d, dsts, vs, srcBase, digitBases, digitLens, pBase, count);
      && DeviceOk(d1) && d1.heap == d.heap && d1.cfg == d.cfg && d1.host == d.host && d.bound.Keys <= d1.bound.Keys
      && count * |srcBase + pBase| <= |dsts|
      && Mem(d1) == Assign(Mem(d), dsts, Lifted(sem, vs, srcBase, digitBases, digitLens, pBase, count))
    decreases count
  {
    hide DeviceOk, Mem, StoreMrp, Assign, Results, Digit;
    var w := |srcBase + pBase|;
    if count == 0 {
      AssignNone(Mem(d), dsts);
    } else {
      var target := srcBase + pBase;
      var i := count - 1;
      LiftDigitsOk(sem, d, dsts, vs, srcBase, digitBases, digitLens, pBase, i);
      var d1 := LiftDigits(sem, d, dsts, vs, srcBase, digitBases, digitLens, pBase, i);
      Stretch(i, |digitLens|, w);
      var op := OpCode("fast_base_convert", [], srcBase, Digit(digitBases, digitLens, i), 0);
      var before := Lifted(sem, vs, srcBase, digitBases, digitLens, pBase, i);
      StoreStretchOk(d, d1, dsts, before, Results(sem, op, vs, target), target, i * w, (i + 1) * w);
    }
  }

  /** Storing one more stretch of destinations assigns one more stretch of values. */
  lemma StoreStretchOk(d: Device, d1: Device, dsts: seq<DevAddr>, before: seq<Bytes>, results: seq<Bytes>,
                       target: seq<nat>, lo: nat, hi: nat)
    requires lo == |before| && hi == lo + |results| <= |dsts| && |results| == |target|
    requires DeviceOk(d1) && Mem(d1) == Assign(Mem(d), dsts, before)
    ensures var d2 := StoreMrp(d1, dsts[lo..hi], results, target);
      && DeviceOk(d2) && d2.heap == d1.heap && d2.cfg == d1.cfg && d2.host == d1.host
      && d1.bound.Keys <= d2.bound.Keys
      && Mem(d2) == Assign(Mem(d), dsts, before + results)
  {
    hide DeviceOk, Mem, StoreMrp, Assign;
    StoreMrpOk(d1, dsts[lo..hi], results, target);
    AssignConcat(Mem(d), dsts, before, results);
  }

  /** The residues of the first `count` lifted digits, digit after digit. */
  function Lifted(sem: Semantics, vs: seq<Bytes>, srcBase: seq<nat>, digitBases: seq<nat>, digitLens: seq<nat>,
                  pBase: seq<nat>, count: nat): (r: seq<Bytes>)
    requires count <= |digitLens| && Sum(digitLens) <= |digitBases|
    ensures |r| == count * |srcBase + pBase|
  {
    if count == 0 then []
    else
      Lifted(sem, vs, srcBase, digitBases, digitLens, pBase, count - 1) +
      Results(sem, OpCode("fast_base_convert", [], srcBase, Digit(digitBases, digitLens, count - 1), 0), vs,
              srcBase + pBase)
  }

  lemma AssignNone(m: map<DevAddr, Bytes>, dsts: seq<DevAddr>)
    ensures Assign(m, dsts, []) == m
  {
  }

  lemma {:induction false} AssignConcat(m: map<DevAddr, Bytes>, dsts: seq<DevAddr>, vs: seq<Bytes>, ws: seq<Bytes>)
    requires |vs| + |ws| <= |dsts|
    ensures Assign(m, dsts, vs + ws) == Assign(Assign(m, dsts, vs), dsts[|vs|..|vs| + |ws|], ws)
    decreases |ws|
  {
    if ws == [] {
      assert vs + ws == vs;
    } else {
      var n := |ws| - 1;
      AssignConcat(m, dsts, vs, ws[..n]);
      assert (vs + ws)[..|vs| + n] == vs + ws[..n];
      var tail := dsts[|vs|..|vs| + |ws|];
      AssignPrefix(Assign(m, dsts, vs), dsts[|vs|..|vs| + n], tail, ws[..n]);
    }
  }

  lemma {:induction false} AssignPrefix(m: map<DevAddr, Bytes>, dsts: seq<DevAddr>, more: seq<DevAddr>, vs: seq<Bytes>)
    requires |vs| <= |dsts| && dsts <= more
    ensures Assign(m, dsts, vs) == Assign(m, more, vs)
    decreases |vs|
  {
    if vs != [] {
      AssignPrefix(m, dsts, more, vs[..|vs| - 1]);
    }
  }

  // ---- Calls ----

  lemma ResetOk()
    ensures DeviceOk(RESET)
  {
    ClaimsOfNone({});
    assert |EMPTY.live| == 0;
  }

  lemma MemoryCallOk(sem: Semantics, d: Device, call: Call)
    requires DeviceOk(d) && Lawful(d, call)
    requires call.Malloc? || call.MallocMrp? || call.Free? || call.FreeMrp? || call.SetRingDimension?
    ensures DeviceOk(Step(sem, d, call).0)
  {
    hide HeapOk, ClaimsOk, FreeMany, AllocateMany, AllocateOne, Invalidate, InvalidateAll, IsPowerOfTwo, PolynomialSize,
      SetPolynomialSize;
    match call {
      case Malloc(size) =>
        if d.heap.polyBytes > 0 {
          AllocateOneSafe(d.heap);
        }
      case MallocMrp(count, size) =>
        AllocateManySafe(d.heap, count, size);
        assert DeviceOk(d.(heap := AllocateMany(d.heap, count, size).0));
      case Free(p) =>
        if p != NULL {
          InvalidateOk(d, p);
        }
        assert ToSet([p]) == {p};
        FreedOk(if p == NULL then d else Invalidate(d, p), [p]);
      case FreeMrp(ps) =>
        InvalidateAllOk(d, ps);
        FreedOk(InvalidateAll(d, ps), ps);
      case SetRingDimension(n) =>
        if IsPowerOfTwo(n) {
          SetPolynomialSizeSafe(d.heap, PolynomialSize(n));
          PolynomialSizeExactOrZero(n);
          ResizedFields(d.heap, PolynomialSize(n));
        }
      case _ =>
    }
  }

  lemma ResizedFields(h: Heap, bytes: nat)
    ensures SetPolynomialSize(h, bytes).live <= h.live && SetPolynomialSize(h, bytes).polyBytes == bytes
    ensures h.polyBytes == bytes ==> SetPolynomialSize(h, bytes) == h
  {
  }

  lemma TransferCallOk(sem: Semantics, d: Device, call: Call)
    requires DeviceOk(d) && Lawful(d, call)
    requires call.H2D? || call.H2DMrp? || call.D2D? || call.D2DMrp? || call.Memset?
    ensures DeviceOk(Step(sem, d, call).0)
  {
    hide MemoryOk, ClaimsOk, Upload, UploadAll, TagInput, TagInputs, CopyTo, CopyAll, Register, Invalidate, Fill;
    match call {
      case H2D(dst, data) =>
        UploadOk(d, dst, data);
        SameClaimsOk(d, Upload(d, dst, data).0);
        TagInputOk(Upload(d, dst, data).0, dst);
      case H2DMrp(dsts, datas) =>
        UploadAllOk(d, dsts, datas);
        SameClaimsOk(d, UploadAll(d, dsts, datas).0);
        TagInputsOk(UploadAll(d, dsts, datas).0, dsts);
      case D2D(dst, src, _) =>
        if dst != NULL {
          assert dst in Destinations(call);
          CopyToOk(d, dst, src, COPY_MODULUS);
          SameClaimsOk(d, CopyTo(d, dst, src, COPY_MODULUS).0);
        }
      case D2DMrp(dsts, srcs, base) =>
        CopyAllOk(d, dsts, srcs, base);
        var (d1, s) := CopyAll(d, dsts, srcs, base);
        SameClaimsOk(d, d1);
        if s.Success? && |base| > 1 {
          RegisterClaims(d1, dsts, base);
          RegisterMemory(d1, dsts, base);
        }
      case Memset(p, value, count) =>
        UploadOk(d, p, Fill(value, count));
        var d1 := Upload(d, p, Fill(value, count)).0;
        SameClaimsOk(d, d1);
        InvalidateOk(d1, p);
      case _ =>
    }
  }

  lemma ComputeOneOk(d: Device, srcs: seq<DevAddr>, dst: DevAddr, v: Bytes, q: nat)
    requires DeviceOk(d)
    ensures DeviceOk(ReadAll(d, srcs).0)
    ensures DeviceOk(Bind(ReadAll(d, srcs).0, dst, v, q))
  {
    hide MemoryOk, ClaimsOk, ReadAll, Bind;
    ReadAllExact(d, srcs);
    var d1 := ReadAll(d, srcs).0;
    SameClaimsOk(d, d1);
    BindOk(d1, dst, v, q);
    SameClaimsOk(d1, Bind(d1, dst, v, q));
  }

  lemma ComputeCallOk(sem: Semantics, d: Device, call: Call)
    requires DeviceOk(d) && Lawful(d, call)
    requires call.Binary? || call.Unary? || call.Automorph?
    ensures DeviceOk(Step(sem, d, call).0)
  {
    hide DeviceOk, ReadAll, Bind;
    match call {
      case Binary(name, dst, src1, src2, modIdx) =>
        if dst != NULL {
          assert dst in Destinations(call);
          var q := Modulus(d.cfg, modIdx);
          var r := ReadAll(d, [src1, src2]).1;
          ComputeOneOk(d, [src1, src2], dst, sem(OpCode(name, [], [], [], q), if r.Ok? then r.value else []), q);
        }
      case Unary(name, imm, dst, src, modIdx) =>
        if dst != NULL {
          assert dst in Destinations(call);
          var q := Modulus(d.cfg, modIdx);
          var r := ReadAll(d, [src]).1;
          ComputeOneOk(d, [src], dst, sem(OpCode(name, imm, [], [], q), if r.Ok? then r.value else []), q);
        }
      case Automorph(name, index, dst, src) =>
        if dst != NULL {
          assert dst in Destinations(call);
          var (d1, r) := ReadAll(d, [src]);
          ComputeOneOk(d, [src], dst, sem(OpCode(name, [index], [], [], COPY_MODULUS), if r.Ok? then r.value else []),
                       Recorded(d1, src));
        }
      case _ =>
    }
  }

  lemma MrpOpOk(sem: Semantics, d: Device, op: OpCode, dsts: seq<DevAddr>, srcs: seq<DevAddr>, base: seq<nat>)
    requires DeviceOk(d) && |dsts| == |base|
    ensures DeviceOk(MrpOp(sem, d, op, dsts, srcs, base).0)
  {
    hide MemoryOk, ClaimsOk, ReadAll, StoreMrp;
    ReadAllExact(d, srcs);
    var (d1, r) := ReadAll(d, srcs);
    SameClaimsOk(d, d1);
    if r.Ok? {
      StoreMrpOk(d1, dsts, Results(sem, op, r.value, base), base);
    }
  }

  lemma MrpCallOk(sem: Semantics, d: Device, call: Call)
    requires DeviceOk(d) && Lawful(d, call)
    requires call.BinaryMrp? || call.UnaryMrp? || call.BasisConvert? || call.ModDown? || call.ModUp?
    ensures DeviceOk(Step(sem, d, call).0)
  {
    hide MemoryOk, ClaimsOk, MrpOp, LiftDigits, ReadAll;
    match call {
      case BinaryMrp(name, dsts, srcs1, srcs2, base) =>
        MrpOpOk(sem, d, OpCode(name, [], base, base, 0), dsts, srcs1 + srcs2, base);
      case UnaryMrp(name, imm, dsts, srcs, base) =>
        MrpOpOk(sem, d, OpCode(name, imm, base, base, 0), dsts, srcs, base);
      case BasisConvert(dsts, srcs, srcBase, dstBase) =>
        MrpOpOk(sem, d, OpCode("fast_base_convert", [], srcBase, srcBase, 0), dsts, srcs, dstBase);
      case ModDown(dsts, srcs, srcBase, rescaleBase) =>
        MrpOpOk(sem, d, OpCode("rescale_fbc", [], srcBase, rescaleBase, 0), dsts, srcs, Without(srcBase, rescaleBase));
      case ModUp(dsts, srcs, srcBase, digitBases, digitLens, pBase) =>
        if ValidateModUp(srcBase, digitBases, digitLens, pBase).Success? {
          ReadAllExact(d, srcs);
          var (d1, r) := ReadAll(d, srcs);
          SameClaimsOk(d, d1);
          if r.Ok? {
            LiftDigitsOk(sem, d1, dsts, r.value, srcBase, digitBases, digitLens, pBase, |digitLens|);
          }
        }
      case _ =>
    }
  }

  lemma FinalizeOk(d: Device, env: BackendOutcome, replay: bool)
    requires DeviceOk(d) && (ReadsBack(env, replay) ==> CanReadBack(env, d.tags, d.heap.live))
    ensures DeviceOk(Finalize(d, env, replay).0)
  {
    hide HeapOk, ClaimsOk;
    ClaimsOfNone({});
    assert EndEpoch(d).bound.Keys == {};
  }

  /** Every lawful call keeps the device well formed. */
  lemma StepOk(sem: Semantics, d: Device, call: Call)
    requires DeviceOk(d) && Lawful(d, call)
    ensures DeviceOk(Step(sem, d, call).0)
  {
    hide DeviceOk, Step, Lawful;
    match call {
      case Malloc(_) => MemoryCallOk(sem, d, call);
      case MallocMrp(_, _) => MemoryCallOk(sem, d, call);
      case Free(_) => MemoryCallOk(sem, d, call);
      case FreeMrp(_) => MemoryCallOk(sem, d, call);
      case SetRingDimension(_) => MemoryCallOk(sem, d, call);
      case H2D(_, _) => TransferCallOk(sem, d, call);
      case H2DMrp(_, _) => TransferCallOk(sem, d, call);
      case D2D(_, _, _) => TransferCallOk(sem, d, call);
      case D2DMrp(_, _, _) => TransferCallOk(sem, d, call);
      case Memset(_, _, _) => TransferCallOk(sem, d, call);
      case Binary(_, _, _, _, _) => ComputeCallOk(sem, d, call);
      case Unary(_, _, _, _, _) => ComputeCallOk(sem, d, call);
      case Automorph(_, _, _, _) => ComputeCallOk(sem, d, call);
      case BinaryMrp(_, _, _, _, _) => MrpCallOk(sem, d, call);
      case UnaryMrp(_, _, _, _, _) => MrpCallOk(sem, d, call);
      case BasisConvert(_, _, _, _) => MrpCallOk(sem, d, call);
      case ModDown(_, _, _, _) => MrpCallOk(sem, d, call);
      case ModUp(_, _, _, _, _, _) => MrpCallOk(sem, d, call);
      case _ => ControlCallOk(sem, d, call);
    }
  }

  lemma ControlCallOk(sem: Semantics, d: Device, call: Call)
    requires DeviceOk(d) && Lawful(d, call)
    requires call.D2H? || call.D2HMrp? || call.TagOutput? || call.Flush? || call.WriteProgram? || call.SetModulus? ||
             call.ConfigureDevice? || call.DeviceReset?
    ensures DeviceOk(Step(sem, d, call).0)
  {
    hide HeapOk, ClaimsOk, Finalize, TagOut;
    match call {
      case TagOutput(p) =>
        TagOutClaims(d, p);
        TagOutMemory(d, p);
      case Flush(env) =>
        if env != FormatRejected {
          FinalizeOk(d, env, true);
        }
      case WriteProgram(env) => FinalizeOk(d, env, false);
      case DeviceReset => ResetOk();
      case _ =>
    }
  }

  lemma TagOutMemory(d: Device, a: DevAddr)
    ensures var d1 := TagOut(d, a).0;
      d1.heap == d.heap && d1.host == d.host && d1.bound == d.bound && d1.cfg == d.cfg
  {
  }

  /** Every device a lawful program reaches from start-up is well formed. */
  lemma {:induction false} RunOk(sem: Semantics, d: Device, calls: seq<Call>)
    requires DeviceOk(d) && LawfulRun(sem, d, calls)
    ensures DeviceOk(Run(sem, d, calls).0)
    decreases |calls|
  {
    hide DeviceOk, Step, Lawful;
    if calls == [] {
    } else {
      LawfulPrefix(sem, d, calls);
      RunOk(sem, d, calls[..|calls| - 1]);
      StepOk(sem, Run(sem, d, calls[..|calls| - 1]).0, calls[|calls| - 1]);
    }
  }

  /** The recycled-address check never fires on a reachable device, and a batch gives distinct, new,
      non-null addresses with nothing stored. A new address has no value unless a computation bound it
      before it was allocated. */
  lemma AllocationSafe(sem: Semantics, d: Device, call: Call)
    requires DeviceOk(d) && (call.Malloc? || call.MallocMrp?)
    ensures var (d1, reply) := Step(sem, d, call);
      && reply != Failed(PoolMapDesync)
      && (reply.Address? ==>
            && reply.a !in d.heap.live && reply.a != NULL && reply.a !in d.host && reply.a !in d1.host
            && (reply.a in Mem(d) <==> reply.a in d.bound))
      && (reply.Addresses? ==>
            && Distinct(reply.addrs)
            && forall a :: a in reply.addrs ==>
                 a !in d.heap.live && a != NULL && a !in d.host && a !in d1.host && (a in Mem(d) <==> a in d.bound))
  {
    hide HeapOk, ClaimsOk, AllocateMany, AllocateOne;
    match call {
      case Malloc(size) =>
        if d.heap.polyBytes > 0 {
          AllocateOneSafe(d.heap);
        }
      case MallocMrp(count, size) =>
        AllocateManySafe(d.heap, count, size);
        AllocateManyError(d.heap, count, size);
      case _ =>
    }
  }

  lemma AllocateManyError(h: Heap, count: nat, bytes: nat)
    requires HeapOk(h)
    ensures AllocateMany(h, count, bytes).1 != Err(PoolMapDesync)
  {
    hide HeapOk;
    AllocateManySafe(h, count, bytes);
  }

  // ---- The frozen configuration ----

  predicate Configures(call: Call) {
    call.SetRingDimension? || call.SetModulus? || call.ConfigureDevice? || call.DeviceReset?
  }

  lemma MrpKeepsSettings(sem: Semantics, d: Device, op: OpCode, dsts: seq<DevAddr>, srcs: seq<DevAddr>, base: seq<nat>)
    requires DeviceOk(d) && |dsts| == |base|
    ensures MrpOp(sem, d, op, dsts, srcs, base).0.cfg == d.cfg
  {
    hide MemoryOk, ClaimsOk, ReadAll, StoreMrp;
    ReadAllExact(d, srcs);
    var (d1, r) := ReadAll(d, srcs);
    SameClaimsOk(d, d1);
    if r.Ok? {
      StoreMrpOk(d1, dsts, Results(sem, op, r.value, base), base);
    }
  }

  lemma MrpCallKeepsSettings(sem: Semantics, d: Device, call: Call)
    requires DeviceOk(d) && Lawful(d, call)
    requires call.BinaryMrp? || call.UnaryMrp? || call.BasisConvert? || call.ModDown? || call.ModUp?
    ensures Step(sem, d, call).0.cfg == d.cfg
  {
    hide MemoryOk, ClaimsOk, MrpOp, LiftDigits, ReadAll, ValidateModDown, Without;
    match call {
      case BinaryMrp(name, dsts, srcs1, srcs2, base) =>
        MrpKeepsSettings(sem, d, OpCode(name, [], base, base, 0), dsts, srcs1 + srcs2, base);
      case UnaryMrp(name, imm, dsts, srcs, base) =>
        MrpKeepsSettings(sem, d, OpCode(name, imm, base, base, 0), dsts, srcs, base);
      case BasisConvert(dsts, srcs, srcBase, dstBase) =>
        MrpKeepsSettings(sem, d, OpCode("fast_base_convert", [], srcBase, srcBase, 0), dsts, srcs, dstBase);
      case ModDown(dsts, srcs, srcBase, rescaleBase) =>
        MrpKeepsSettings(sem, d, OpCode("rescale_fbc", [], srcBase, rescaleBase, 0), dsts, srcs,
                         Without(srcBase, rescaleBase));
      case ModUp(dsts, srcs, srcBase, digitBases, digitLens, pBase) =>
        if ValidateModUp(srcBase, digitBases, digitLens, pBase).Success? {
          ReadAllExact(d, srcs);
          var (d1, r) := ReadAll(d, srcs);
          SameClaimsOk(d, d1);
          if r.Ok? {
            LiftDigitsOk(sem, d1, dsts, r.value, srcBase, digitBases, digitLens, pBase, |digitLens|);
          }
        }
      case _ =>
    }
  }

  lemma TransferCallKeepsSettings(sem: Semantics, d: Device, call: Call)
    requires DeviceOk(d) && Lawful(d, call)
    requires call.H2D? || call.H2DMrp? || call.D2D? || call.D2DMrp? || call.Memset? || call.FreeMrp?
    ensures Step(sem, d, call).0.cfg == d.cfg
  {
    hide MemoryOk, ClaimsOk, Upload, UploadAll, TagInput, TagInputs, CopyTo, CopyAll, Register, Invalidate,
      InvalidateAll, Fill, FreeMany;
    match call {
      case H2D(dst, data) =>
        UploadOk(d, dst, data);
        SameClaimsOk(d, Upload(d, dst, data).0);
        TagInputOk(Upload(d, dst, data).0, dst);
      case H2DMrp(dsts, datas) =>
        UploadAllOk(d, dsts, datas);
        SameClaimsOk(d, UploadAll(d, dsts, datas).0);
        TagInputsOk(UploadAll(d, dsts, datas).0, dsts);
      case D2D(dst, src, _) =>
        if dst != NULL {
          assert dst in Destinations(call);
          CopyToOk(d, dst, src, COPY_MODULUS);
        }
      case D2DMrp(dsts, srcs, base) =>
        CopyAllOk(d, dsts, srcs, base);
        if |base| > 1 {
          RegisterMemory(CopyAll(d, dsts, srcs, base).0, dsts, base);
        }
      case Memset(p, value, count) =>
        UploadOk(d, p, Fill(value, count));
        SameClaimsOk(d, Upload(d, p, Fill(value, count)).0);
        InvalidateOk(Upload(d, p, Fill(value, count)).0, p);
      case FreeMrp(ps) => InvalidateAllOk(d, ps);
      case _ =>
    }
  }

  lemma OtherCallKeepsSettings(sem: Semantics, d: Device, call: Call)
    requires DeviceOk(d) && Lawful(d, call) && !Configures(call)
    requires !(call.BinaryMrp? || call.UnaryMrp? || call.BasisConvert? || call.ModDown? || call.ModUp?)
    requires !(call.H2D? || call.H2DMrp? || call.D2D? || call.D2DMrp? || call.Memset? || call.FreeMrp?)
    ensures Step(sem, d, call).0.cfg == d.cfg
  {
    hide DeviceOk, ReadAll, FreeMany, AllocateMany, AllocateOne;
    match call {
      case Binary(_, _, src1, src2, _) => ReadsKeepSettings(d, [src1, src2]);
      case Unary(_, _, _, src, _) => ReadsKeepSettings(d, [src]);
      case Automorph(_, _, _, src) => ReadsKeepSettings(d, [src]);
      case _ =>
    }
  }

  lemma ReadsKeepSettings(d: Device, srcs: seq<DevAddr>)
    requires DeviceOk(d)
    ensures ReadAll(d, srcs).0.cfg == d.cfg
  {
    hide MemoryOk, ClaimsOk, ReadAll;
    ReadAllExact(d, srcs);
  }

  /** Once configured, only a reset changes the ring dimension or the modulus table. */
  lemma StepFrozen(sem: Semantics, d: Device, call: Call)
    requires DeviceOk(d) && Lawful(d, call) && d.cfg.configured && !call.DeviceReset?
    ensures Step(sem, d, call).0.cfg == d.cfg
  {
    hide DeviceOk, Lawful;
    if Configures(call) {
      hide IsPowerOfTwo, SetPolynomialSize;
    } else {
      hide Step;
      if call.BinaryMrp? || call.UnaryMrp? || call.BasisConvert? || call.ModDown? || call.ModUp? {
        MrpCallKeepsSettings(sem, d, call);
      } else if call.H2D? || call.H2DMrp? || call.D2D? || call.D2DMrp? || call.Memset? || call.FreeMrp? {
        TransferCallKeepsSettings(sem, d, call);
      } else {
        OtherCallKeepsSettings(sem, d, call);
      }
    }
  }

  lemma {:induction false} RunFrozen(sem: Semantics, d: Device, calls: seq<Call>)
    requires DeviceOk(d) && LawfulRun(sem, d, calls) && d.cfg.configured
    requires forall i :: 0 <= i < |calls| ==> !calls[i].DeviceReset?
    ensures Run(sem, d, calls).0.cfg == d.cfg
    decreases |calls|
  {
    hide DeviceOk, Step, Lawful;
    if calls == [] {
    } else {
      var n := |calls| - 1;
      LawfulPrefix(sem, d, calls);
      RunOk(sem, d, calls[..n]);
      RunFrozen(sem, d, calls[..n]);
      StepFrozen(sem, Run(sem, d, calls[..n]).0, calls[n]);
    }
  }
}
