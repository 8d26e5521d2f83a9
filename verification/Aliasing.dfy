/** What overlapping destination and source arrays do to multi-residue calls. */
module Aliasing {
  import opened Types
  import opened Trace
  import opened HeapModel
  import opened Allocator
  import opened Configuration
  import opened DeviceModel
  import opened DeviceInvariant
  import opened EagerMemory
  import opened ComputeCalls

  lemma {:induction false} AssignOver(host: Memory, bound: Memory, dsts: seq<DevAddr>, vs: seq<Bytes>)
    requires |vs| <= |dsts|
    ensures host + Assign(bound, dsts, vs) == Assign(host + bound, dsts, vs)
    decreases |vs|
  {
    if vs != [] {
      AssignOver(host, bound, dsts, vs[..|vs| - 1]);
    }
  }

  /** A compute call that succeeds is simultaneous assignment, however its distinct destinations overlap
      its sources: every result is made from the values before the call. */
  lemma ComputeIsSimultaneous(sem: Semantics, d: Device, call: Call)
    requires DeviceOk(d) && Shaped(call) && IsCompute(call) && Distinct(Destinations(call))
    requires Step(sem, d, call).1.Done?
    ensures Accepted(call) && Known(Mem(d), SourcesOf(call))
    ensures var m1 := Mem(Step(sem, d, call).0); var dsts := Destinations(call);
      && m1.Keys == Mem(d).Keys + ToSet(dsts)
      && (forall a :: a in Mem(d) && a !in dsts ==> m1[a] == Mem(d)[a])
      && forall i :: 0 <= i < |dsts| ==>
           m1[dsts[i]] == sem(OpAt(d.cfg, call, i), Fetch(Mem(d), SourcesOf(call)))
  {
    hide DeviceOk, Step, ReadAll, Assign, Known, OpAt, Distinct, Fetch;
    ComputeExact(sem, d, call);
    ReadFetches(d, SourcesOf(call));
    var (d1, r) := ReadAll(d, SourcesOf(call));
    var dsts := Destinations(call);
    var vs := ResultsOf(sem, d.cfg, call, r.value);
    AssignOver(d1.host, d1.bound, dsts, vs);
    assert dsts[..|vs|] == dsts;
    AssignKeys(Mem(d), dsts, vs);
    AssignDistinct(Mem(d), dsts, vs);
    assert Mem(Step(sem, d, call).0) == Assign(Mem(d), dsts, vs);
  }

  /** No destination is a later source, unless that step copied the same source. */
  predicate NoLaterSource(dsts: seq<DevAddr>, srcs: seq<DevAddr>)
    requires |srcs| <= |dsts|
  {
    forall i, j :: 0 <= i < j < |srcs| ==> dsts[i] == srcs[j] ==> srcs[i] == srcs[j]
  }

  lemma CopyStep(m: Memory, dsts: seq<DevAddr>, srcs: seq<DevAddr>)
    requires 0 < |srcs| <= |dsts|
    requires var n := |srcs| - 1; var (m1, ok) := CopySeq(m, dsts, srcs[..n]); ok && srcs[n] in m1
    ensures var n := |srcs| - 1; var m1 := CopySeq(m, dsts, srcs[..n]).0;
      CopySeq(m, dsts, srcs) == (m1[dsts[n] := m1[srcs[n]]], true)
  {
  }

  lemma KnownPrefix(m: Memory, srcs: seq<DevAddr>, n: nat)
    requires Known(m, srcs) && n < |srcs|
    ensures Known(m, srcs[..n]) && srcs[n] in m
    ensures Fetch(m, srcs)[..n] == Fetch(m, srcs[..n]) && Fetch(m, srcs)[n] == m[srcs[n]]
  {
    assert srcs[n] in srcs;
    forall a | a in srcs[..n] ensures a in m {
      assert a in srcs;
    }
  }

  /** What the last step reads still is what its source held at first. */
  lemma LastSource(m: Memory, dsts: seq<DevAddr>, srcs: seq<DevAddr>, n: nat)
    requires n + 1 == |srcs| <= |dsts| && Distinct(dsts) && Known(m, srcs) && NoLaterSource(dsts, srcs)
    requires Known(m, srcs[..n])
    ensures var m1 := Assign(m, dsts, Fetch(m, srcs[..n])); srcs[n] in m1 && m1[srcs[n]] == m[srcs[n]]
  {
    hide Assign, Known;
    var vs := Fetch(m, srcs[..n]);
    KnownPrefix(m, srcs, n);
    AssignKeys(m, dsts, vs);
    if srcs[n] in dsts[..n] {
      var i :| 0 <= i < n && dsts[..n][i] == srcs[n];
      AssignDistinct(m, dsts, vs);
      assert srcs[i] == srcs[n];
    }
  }

  lemma NoLaterPrefix(dsts: seq<DevAddr>, srcs: seq<DevAddr>, n: nat)
    requires n <= |srcs| <= |dsts| && NoLaterSource(dsts, srcs)
    ensures NoLaterSource(dsts, srcs[..n])
  {
  }

  lemma {:induction false} SequentialIsSimultaneous(m: Memory, dsts: seq<DevAddr>, srcs: seq<DevAddr>)
    requires |srcs| <= |dsts| && Distinct(dsts) && Known(m, srcs) && NoLaterSource(dsts, srcs)
    ensures CopySeq(m, dsts, srcs) == (Assign(m, dsts, Fetch(m, srcs)), true)
    decreases |srcs|
  {
    hide Known, NoLaterSource, Distinct;
    if srcs != [] {
      var n := |srcs| - 1;
      KnownPrefix(m, srcs, n);
      NoLaterPrefix(dsts, srcs, n);
      SequentialIsSimultaneous(m, dsts, srcs[..n]);
      LastSource(m, dsts, srcs, n);
      CopyStep(m, dsts, srcs);
    }
  }

  /** Later steps leave an address alone that they do not name. */
  lemma {:induction false} LaterStepsKeep(m: Memory, dsts: seq<DevAddr>, srcs: seq<DevAddr>, k: nat, a: DevAddr)
    requires k <= |srcs| <= |dsts| && a !in dsts[k..|srcs|]
    requires CopySeq(m, dsts, srcs).1 && a in CopySeq(m, dsts, srcs[..k]).0
    ensures a in CopySeq(m, dsts, srcs).0 && CopySeq(m, dsts, srcs).0[a] == CopySeq(m, dsts, srcs[..k]).0[a]
    decreases |srcs|
  {
    if k == |srcs| {
      assert srcs[..k] == srcs;
    } else {
      var n := |srcs| - 1;
      assert srcs[..n][..k] == srcs[..k];
      assert dsts[k..|srcs|] == dsts[k..n] + [dsts[n]];
      LaterStepsKeep(m, dsts, srcs[..n], k, a);
    }
  }

  /** Every value is n bytes long, as all values of one device are. */
  predicate Sized(m: Memory, n: nat) {
    forall a :: a in m ==> |m[a]| == n
  }

  lemma {:induction false} KnownCopies(m: Memory, dsts: seq<DevAddr>, srcs: seq<DevAddr>)
    requires |srcs| <= |dsts| && Known(m, srcs)
    ensures CopySeq(m, dsts, srcs).1 && m.Keys <= CopySeq(m, dsts, srcs).0.Keys
    decreases |srcs|
  {
    if srcs != [] {
      KnownPrefix(m, srcs, |srcs| - 1);
      KnownCopies(m, dsts, srcs[..|srcs| - 1]);
    }
  }

  /** If a destination is a later source, the two sources hold different values, and nothing went wrong
      before, then the copies leave something else than the simultaneous assignment. */
  lemma ConflictShows(m: Memory, dsts: seq<DevAddr>, srcs: seq<DevAddr>, i: nat, j: nat)
    requires |srcs| == |dsts| && Distinct(dsts) && i < j < |srcs| && dsts[i] == srcs[j]
    requires NoLaterSource(dsts, srcs[..j])
    requires Known(m, srcs) && srcs[i] in m && srcs[j] in m && m[srcs[i]] != m[srcs[j]]
    ensures CopySeq(m, dsts, srcs).0 != Assign(m, dsts, Fetch(m, srcs))
  {
    hide CopySeq, Assign, Known, NoLaterSource, Distinct, Fetch;
    KnownCopies(m, dsts, srcs);
    KnownPrefix(m, srcs, j);
    SequentialIsSimultaneous(m, dsts, srcs[..j]);
    AssignedAt(m, dsts, srcs[..j], i);
    var m1 := Assign(m, dsts, Fetch(m, srcs[..j]));
    assert srcs[..j + 1][..j] == srcs[..j];
    CopyStep(m, dsts, srcs[..j + 1]);
    assert CopySeq(m, dsts, srcs[..j + 1]).0 == m1[dsts[j] := m[srcs[i]]];
    NotLater(dsts, srcs, j);
    LaterStepsKeep(m, dsts, srcs, j + 1, dsts[j]);
    AssignedAt(m, dsts, srcs, j);
  }

  /** A polynomial of zeros, or the one that differs from it in the first byte. */
  function Sample(one: bool, n: nat): (v: Bytes)
    requires n > 0
    ensures |v| == n && v[0] == if one then 1 else 0
  {
    [if one then 1 else 0] + Zeros(n - 1)
  }

  /** Contents for the addresses of `addrs` in which `x` holds one sample and the others the other. */
  function Marked(addrs: seq<DevAddr>, x: DevAddr, n: nat): (vs: seq<Bytes>)
    requires n > 0
    ensures |vs| == |addrs| && forall i :: 0 <= i < |vs| ==> vs[i] == Sample(addrs[i] == x, n)
  {
    seq(|addrs|, i requires 0 <= i < |addrs| => Sample(addrs[i] == x, n))
  }

  /** Assigning contents that depend on the address alone gives each address its contents. */
  lemma {:induction false} MarkedAt(m: Memory, addrs: seq<DevAddr>, x: DevAddr, n: nat)
    requires n > 0
    ensures var m1 := Assign(m, addrs, Marked(addrs, x, n));
      forall a :: a in addrs ==> a in m1 && m1[a] == Sample(a == x, n)
    decreases |addrs|
  {
    if addrs != [] {
      var k := |addrs| - 1;
      assert addrs == addrs[..k] + [addrs[k]];
      assert Marked(addrs, x, n)[..k] == Marked(addrs[..k], x, n);
      MarkedAt(m, addrs[..k], x, n);
      AssignPrefix(m, addrs[..k], addrs, Marked(addrs[..k], x, n));
    }
  }

  lemma AssignedAt(m: Memory, dsts: seq<DevAddr>, srcs: seq<DevAddr>, i: nat)
    requires i < |srcs| <= |dsts| && Distinct(dsts) && Known(m, srcs)
    ensures srcs[i] in m && dsts[i] in Assign(m, dsts, Fetch(m, srcs))
    ensures Assign(m, dsts, Fetch(m, srcs))[dsts[i]] == m[srcs[i]]
  {
    hide Assign;
    assert srcs[i] in srcs;
    AssignDistinct(m, dsts, Fetch(m, srcs));
  }

  lemma NotLater(dsts: seq<DevAddr>, srcs: seq<DevAddr>, j: nat)
    requires j < |srcs| == |dsts| && Distinct(dsts)
    ensures dsts[j] !in dsts[j + 1..|srcs|]
  {
  }

  lemma FirstConflict(dsts: seq<DevAddr>, srcs: seq<DevAddr>) returns (i: nat, j: nat)
    requires |srcs| <= |dsts| && !NoLaterSource(dsts, srcs)
    ensures i < j < |srcs| && dsts[i] == srcs[j] && srcs[i] != srcs[j] && NoLaterSource(dsts, srcs[..j])
    decreases |srcs|
  {
    var n := |srcs| - 1;
    if NoLaterSource(dsts, srcs[..n]) {
      i, j :| 0 <= i < j < |srcs| && dsts[i] == srcs[j] && srcs[i] != srcs[j];
      assert j == n;
    } else {
      i, j := FirstConflict(dsts, srcs[..n]);
      assert srcs[..n][..j] == srcs[..j];
    }
  }

  /** A multi-residue device-to-device copy goes residue by residue. Between polynomials of any one
      size it is a simultaneous assignment, whatever they hold, exactly when no destination is a later,
      different source. */
  lemma CopyIsSimultaneousExactly(dsts: seq<DevAddr>, srcs: seq<DevAddr>, n: nat)
    requires |srcs| == |dsts| && Distinct(dsts) && n > 0
    ensures NoLaterSource(dsts, srcs) <==>
      (forall m: Memory :: Known(m, srcs) && Sized(m, n) ==>
         CopySeq(m, dsts, srcs) == (Assign(m, dsts, Fetch(m, srcs)), true))
  {
    if NoLaterSource(dsts, srcs) {
      forall m: Memory | Known(m, srcs) && Sized(m, n)
        ensures CopySeq(m, dsts, srcs) == (Assign(m, dsts, Fetch(m, srcs)), true)
      {
        SequentialIsSimultaneous(m, dsts, srcs);
      }
    } else {
      var i, j := FirstConflict(dsts, srcs);
      var m: Memory := map a | a in ToSet(srcs) :: Sample(a == srcs[i], n);
      assert Known(m, srcs) && Sized(m, n);
      ConflictShows(m, dsts, srcs, i, j);
    }
  }

  /** The same of the device: whatever the memory, if no destination is a later, different source. */
  lemma DeviceCopy(sem: Semantics, d: Device, dsts: seq<DevAddr>, srcs: seq<DevAddr>, base: seq<nat>)
    requires DeviceOk(d) && Lawful(d, D2DMrp(dsts, srcs, base)) && Distinct(dsts)
    requires Known(Mem(d), srcs) && NoLaterSource(dsts, srcs)
    ensures Mem(Step(sem, d, D2DMrp(dsts, srcs, base)).0) == Assign(Mem(d), dsts, Fetch(Mem(d), srcs))
  {
    hide DeviceOk, Step, Mem;
    TransferCallEffect(sem, d, D2DMrp(dsts, srcs, base));
    SequentialIsSimultaneous(Mem(d), dsts, srcs);
  }

  /** The device once its sources have been uploaded in one call. */
  function Uploaded(sem: Semantics, d: Device, srcs: seq<DevAddr>, datas: seq<Bytes>): Device
    requires Shaped(H2DMrp(srcs, datas))
  {
    Step(sem, d, H2DMrp(srcs, datas)).0
  }

  /** Polynomials for all of `srcs`. */
  predicate Contents(d: Device, srcs: seq<DevAddr>, datas: seq<Bytes>) {
    |datas| == |srcs| && forall i :: 0 <= i < |datas| ==> |datas[i]| == d.heap.polyBytes
  }

  lemma UploadedOk(sem: Semantics, d: Device, srcs: seq<DevAddr>, datas: seq<Bytes>)
    requires DeviceOk(d) && srcs != [] && (forall a :: a in srcs ==> a in d.heap.live) && Contents(d, srcs, datas)
    ensures Shaped(H2DMrp(srcs, datas)) && DeviceOk(Uploaded(sem, d, srcs, datas))
    ensures Mem(Uploaded(sem, d, srcs, datas)) == Assign(Mem(d), srcs, datas)
    ensures Known(Mem(Uploaded(sem, d, srcs, datas)), srcs)
  {
    hide DeviceOk, Step, Mem, Assign;
    StepOk(sem, d, H2DMrp(srcs, datas));
    TransferCallEffect(sem, d, H2DMrp(srcs, datas));
    assert srcs[..|datas|] == srcs;
    AssignKeys(Mem(d), srcs, datas);
  }

  /** From any device, whatever was uploaded to the sources before: the multi-residue copy is the
      simultaneous assignment for all uploads exactly when no destination is a later, different source. */
  lemma DeviceCopyExactly(sem: Semantics, d: Device, dsts: seq<DevAddr>, srcs: seq<DevAddr>, base: seq<nat>)
    requires DeviceOk(d) && Shaped(D2DMrp(dsts, srcs, base)) && base != [] && Distinct(dsts)
    requires forall a :: a in srcs ==> a in d.heap.live
    ensures NoLaterSource(dsts, srcs) <==>
      forall datas :: Contents(d, srcs, datas) ==>
        Shaped(H2DMrp(srcs, datas)) && var d1 := Uploaded(sem, d, srcs, datas);
        Known(Mem(d1), srcs) &&
        Mem(Step(sem, d1, D2DMrp(dsts, srcs, base)).0) == Assign(Mem(d1), dsts, Fetch(Mem(d1), srcs))
  {
    hide DeviceOk, Step, Mem, Assign, Known, Fetch, Uploaded, Contents, NoLaterSource, CopySeq;
    if NoLaterSource(dsts, srcs) {
      forall datas | Contents(d, srcs, datas)
        ensures Shaped(H2DMrp(srcs, datas)) && var d1 := Uploaded(sem, d, srcs, datas);
          Known(Mem(d1), srcs) &&
          Mem(Step(sem, d1, D2DMrp(dsts, srcs, base)).0) == Assign(Mem(d1), dsts, Fetch(Mem(d1), srcs))
      {
        UploadedOk(sem, d, srcs, datas);
        DeviceCopy(sem, Uploaded(sem, d, srcs, datas), dsts, srcs, base);
      }
    } else {
      var datas := ConflictingContents(sem, d, dsts, srcs, base);
    }
  }

  /** Contents on which a copy with a later, different source goes wrong. */
  lemma ConflictingContents(sem: Semantics, d: Device, dsts: seq<DevAddr>, srcs: seq<DevAddr>, base: seq<nat>)
    returns (datas: seq<Bytes>)
    requires DeviceOk(d) && Shaped(D2DMrp(dsts, srcs, base)) && base != [] && Distinct(dsts)
    requires (forall a :: a in srcs ==> a in d.heap.live) && !NoLaterSource(dsts, srcs)
    ensures Contents(d, srcs, datas) && Shaped(H2DMrp(srcs, datas))
    ensures var d1 := Uploaded(sem, d, srcs, datas);
      Known(Mem(d1), srcs) &&
      Mem(Step(sem, d1, D2DMrp(dsts, srcs, base)).0) != Assign(Mem(d1), dsts, Fetch(Mem(d1), srcs))
  {
    hide DeviceOk, Step, Mem, Assign, Fetch, Uploaded, NoLaterSource, CopySeq;
    var i, j := FirstConflict(dsts, srcs);
    var n := d.heap.polyBytes;
    assert n > 0 by {
      assert srcs[i] in srcs;
      SizePositive(d, srcs[i]);
    }
    datas := Marked(srcs, srcs[i], n);
    UploadedOk(sem, d, srcs, datas);
    var d1 := Uploaded(sem, d, srcs, datas);
    MarkedAt(Mem(d), srcs, srcs[i], n);
    assert srcs[i] in srcs && srcs[j] in srcs;
    assert Mem(d1)[srcs[i]] == Sample(true, n) && Mem(d1)[srcs[j]] == Sample(false, n);
    TransferCallEffect(sem, d1, D2DMrp(dsts, srcs, base));
    ConflictShows(Mem(d1), dsts, srcs, i, j);
  }

  lemma SizePositive(d: Device, a: DevAddr)
    requires DeviceOk(d) && a in d.heap.live
    ensures d.heap.polyBytes > 0
  {
    PolyBytesPositive(d.heap, a);
  }
}
