/**
 What each call answers, and what comes back of what was sent: the contents of uploads and fills as a
 later download returns them, residue by residue for arrays, and the exact error of every refusal.
 */
module Replies {
  import opened Types
  import opened Trace
  import opened HeapModel
  import opened Allocator
  import opened Configuration
  import opened DeviceModel
  import opened DeviceInvariant
  import opened EagerMemory
  import opened ComputeCalls
  import opened Freshness
  import R = RecorderModel
  import opened RecorderLaws
  import opened Refinement

  // ---- Downloads ----

  /** A download answers the first stored bytes of a live address, or the exact error. */
  lemma ReadReplies(sem: Semantics, d: Device, a: DevAddr, count: nat)
    requires DeviceOk(d)
    ensures Step(sem, d, D2H(a, count)) == (d,
      if a == NULL then Failed(InvalidArgument)
      else if a !in d.heap.live then Failed(UnknownAddress)
      else if count > d.heap.polyBytes then Failed(AllocTooSmall)
      else if a !in d.host then Failed(OutputNotFlushed)
      else Data(d.host[a][..count]))
  {
    hide HeapOk, ClaimsOk;
  }

  /** What the i-th download of an array answers; null is just an address that is not live. */
  function Single(sem: Semantics, d: Device, a: DevAddr, count: nat): Reply {
    if a == NULL then Failed(UnknownAddress) else Step(sem, d, D2H(a, count)).1
  }

  lemma SingleIsRead(sem: Semantics, d: Device, a: DevAddr, count: nat)
    requires DeviceOk(d)
    ensures Single(sem, d, a, count) == DataReply(ReadBack(d, a, count))
  {
    hide MemoryOk, ClaimsOk;
    if a == NULL {
      NullNotLive(d);
    }
  }

  lemma NullNotLive(d: Device)
    requires DeviceOk(d)
    ensures NULL !in d.heap.live
  {
    if NULL in d.heap.live {
      LiveNotNull(d.heap, NULL);
      assert false;
    }
  }

  /** Entry k is the first of `srcs` that cannot be read back, for error e. */
  predicate FirstUnread(d: Device, srcs: seq<DevAddr>, count: nat, k: nat, e: Error) {
    && k < |srcs| && ReadBack(d, srcs[k], count) == Err(e)
    && forall i :: 0 <= i < k ==> ReadBack(d, srcs[i], count).Ok?
  }

  lemma {:induction false} ReadAllStoredExact(d: Device, srcs: seq<DevAddr>, count: nat)
    ensures var r := ReadAllStored(d.heap.live, d.host, d.heap.polyBytes, srcs, count);
      && (r.Ok? <==> forall i :: 0 <= i < |srcs| ==> ReadBack(d, srcs[i], count).Ok?)
      && (r.Ok? ==> |r.value| == |srcs| && forall i :: 0 <= i < |srcs| ==> ReadBack(d, srcs[i], count) == Ok(r.value[i]))
      && (r.Err? ==> exists k :: FirstUnread(d, srcs, count, k, r.error))
    decreases |srcs|
  {
    hide Allocator.ReadStored;
    if srcs != [] {
      var n := |srcs| - 1;
      ReadAllStoredExact(d, srcs[..n], count);
      var r := ReadAllStored(d.heap.live, d.host, d.heap.polyBytes, srcs, count);
      var before := ReadAllStored(d.heap.live, d.host, d.heap.polyBytes, srcs[..n], count);
      if before.Err? {
        var k :| FirstUnread(d, srcs[..n], count, k, before.error);
        forall i | 0 <= i < k ensures ReadBack(d, srcs[i], count).Ok? {
          assert srcs[..n][i] == srcs[i];
        }
        assert FirstUnread(d, srcs, count, k, r.error);
      } else {
        forall i | 0 <= i < n ensures ReadBack(d, srcs[i], count) == Ok(before.value[i]) {
          assert srcs[..n][i] == srcs[i];
        }
        if r.Err? {
          assert FirstUnread(d, srcs, count, n, r.error);
        }
      }
    }
  }

  /** The residues are what the single downloads answer, in order. */
  predicate ReadInOrder(sem: Semantics, d: Device, srcs: seq<DevAddr>, count: nat, residues: seq<Bytes>) {
    |residues| == |srcs| && forall i :: 0 <= i < |srcs| ==> Single(sem, d, srcs[i], count) == Data(residues[i])
  }

  /** The answer of the k-th single download, the first that fails. */
  predicate FirstFailure(sem: Semantics, d: Device, srcs: seq<DevAddr>, count: nat, k: nat, reply: Reply) {
    && k < |srcs| && Single(sem, d, srcs[k], count) == reply
    && forall i :: 0 <= i < k ==> Single(sem, d, srcs[i], count).Data?
  }

  /** An array download is its single downloads in order: it succeeds exactly if they all do, with their
      bytes residue by residue, and otherwise answers the error of the first that fails. */
  lemma ArrayReadReplies(sem: Semantics, d: Device, srcs: seq<DevAddr>, count: nat)
    requires DeviceOk(d) && srcs != []
    ensures var (d1, reply) := Step(sem, d, D2HMrp(srcs, count));
      && d1 == d && (reply.DataMrp? || reply.Failed?)
      && (reply.DataMrp? <==> forall i :: 0 <= i < |srcs| ==> Single(sem, d, srcs[i], count).Data?)
      && (reply.DataMrp? ==> ReadInOrder(sem, d, srcs, count, reply.residues))
      && (reply.Failed? ==> exists k :: FirstFailure(sem, d, srcs, count, k, reply))
  {
    hide DeviceOk, Single, ReadAllStored, ReadBack;
    forall i | 0 <= i < |srcs| ensures Single(sem, d, srcs[i], count) == DataReply(ReadBack(d, srcs[i], count)) {
      SingleIsRead(sem, d, srcs[i], count);
    }
    ReadAllStoredExact(d, srcs, count);
    var r := ReadAllStored(d.heap.live, d.host, d.heap.polyBytes, srcs, count);
    if r.Err? {
      var k :| FirstUnread(d, srcs, count, k, r.error);
      assert FirstFailure(sem, d, srcs, count, k, Failed(r.error));
    }
  }

  /** Record, tag, flush, download an array: the library returns the value of every residue, in order. */
  lemma ArrayEndToEnd(sem: Semantics, calls: seq<Call>, srcs: seq<DevAddr>, count: nat)
    requires LawfulRun(sem, RESET, calls) && Lawful(Run(sem, RESET, calls).0, Flush(Replayed))
    requires var d := Run(sem, RESET, calls).0;
      srcs != [] && count <= d.heap.polyBytes && forall a :: a in srcs ==> a in d.tags
    ensures var d := Run(sem, RESET, calls).0;
      var flushed := R.Act(sem, R.ActAll(sem, FRESH, calls).0, Flush(Replayed)).0;
      var reply := R.Act(sem, flushed, D2HMrp(srcs, count)).1;
      && reply.DataMrp? && |reply.residues| == |srcs|
      && forall i :: 0 <= i < |srcs| ==>
           srcs[i] in Mem(d) && reply.residues[i] == Fit(Mem(d)[srcs[i]], d.heap.polyBytes)[..count]
  {
    hide RecorderOk, Abs, R.Act, Step, DeviceOk, Lawful, Mem, Single;
    FreshRefines(sem);
    ResetOk();
    RunRefines(sem, FRESH, calls);
    RunOk(sem, RESET, calls);
    var r := R.ActAll(sem, FRESH, calls).0;
    var d := Run(sem, RESET, calls).0;
    ActRefines(sem, r, Flush(Replayed));
    StepOk(sem, d, Flush(Replayed));
    var flushed := R.Act(sem, r, Flush(Replayed)).0;
    var d1 := Step(sem, d, Flush(Replayed)).0;
    ArrayReadLawful(d1, srcs, count);
    ActRefines(sem, flushed, D2HMrp(srcs, count));
    FlushStoresLive(d);
    forall i | 0 <= i < |srcs|
      ensures srcs[i] in Mem(d) && Single(sem, d1, srcs[i], count) == Data(Fit(Mem(d)[srcs[i]], d.heap.polyBytes)[..count])
    {
      assert srcs[i] in srcs;
      ReadAfterFlush(sem, d, srcs[i], count);
      SingleOfTagged(sem, d, d1, srcs[i], count);
    }
    ArrayReadReplies(sem, d1, srcs, count);
  }

  lemma ArrayReadLawful(d: Device, srcs: seq<DevAddr>, count: nat)
    ensures Lawful(d, D2HMrp(srcs, count))
  {
  }

  lemma SingleOfTagged(sem: Semantics, d: Device, d1: Device, a: DevAddr, count: nat)
    requires DeviceOk(d) && a in d.heap.live
    ensures Single(sem, d1, a, count) == Step(sem, d1, D2H(a, count)).1
  {
    LiveNotNull(d.heap, a);
  }

  // ---- Uploads and fills ----

  /** The byte stored at position i of `a`, or zero if nothing is stored. */
  function Before(d: Device, a: DevAddr, i: nat): byte {
    if a in d.host && i < |d.host[a]| then d.host[a][i] else 0
  }

  /** What an address holds after n bytes were written to its front: those, then what was stored, or
      zeros if nothing was. */
  ghost predicate FrontWritten(d: Device, a: DevAddr, front: Bytes, bytes: Bytes) {
    && |bytes| == d.heap.polyBytes && front <= bytes
    && forall i :: |front| <= i < |bytes| ==> bytes[i] == Before(d, a, i)
  }

  lemma UploadWrites(d: Device, a: DevAddr, data: Bytes)
    requires DeviceOk(d) && Upload(d, a, data).1.Success?
    ensures var d1 := Upload(d, a, data).0;
      && d1 == d.(host := d1.host) && d1.host.Keys == d.host.Keys + {a} && FrontWritten(d, a, data, d1.host[a])
      && forall b :: b in d.host && b != a ==> d1.host[b] == d.host[b]
  {
    hide HeapOk, ClaimsOk, WriteFront;
    WriteFrontExact(d.host, a, data, d.heap.polyBytes);
    var bytes := WriteFront(d.host, a, data, d.heap.polyBytes)[a];
    assert data <= bytes by {
      assert forall i :: 0 <= i < |data| ==> bytes[i] == data[i];
    }
  }

  /** A download of the whole polynomial at `a`. */
  function Whole(sem: Semantics, d: Device, a: DevAddr): Reply {
    Step(sem, d, D2H(a, d.heap.polyBytes)).1
  }

  /** `a` can be read back whole, and every other address reads back as before. */
  ghost predicate OnlyNowReads(sem: Semantics, d: Device, d1: Device, a: DevAddr) {
    && Whole(sem, d1, a).Data?
    && forall b, n :: b != a ==> Step(sem, d1, D2H(b, n)).1 == Step(sem, d, D2H(b, n)).1
  }

  /** The first `count` bytes are the low eight bits of `value`, the rest what was stored, or zeros. */
  ghost predicate FrontFilled(d: Device, a: DevAddr, value: int, count: nat, bytes: Bytes) {
    && |bytes| == d.heap.polyBytes && count <= |bytes|
    && (forall i :: 0 <= i < count ==> bytes[i] as int == value % 256)
    && forall i :: count <= i < |bytes| ==> bytes[i] == Before(d, a, i)
  }

  /** An upload is refused exactly for a null or unknown destination or for too many bytes; after it the
      address reads back the data, then what was stored before or zeros, and has that as its value; no
      other address changes. */
  lemma UploadReadsBack(sem: Semantics, d: Device, a: DevAddr, data: Bytes)
    requires DeviceOk(d)
    ensures var (d1, reply) := Step(sem, d, H2D(a, data));
      && reply == (if a == NULL then Failed(InvalidArgument)
                   else if a !in d.heap.live then Failed(UnknownAddress)
                   else if |data| > d.heap.polyBytes then Failed(AllocTooSmall)
                   else Done)
      && (reply.Failed? ==> d1 == d)
      && (reply.Done? ==>
            && OnlyNowReads(sem, d, d1, a)
            && FrontWritten(d, a, data, Whole(sem, d1, a).bytes) && Mem(d1) == Mem(d)[a := Whole(sem, d1, a).bytes])
  {
    hide MemoryOk, ClaimsOk, Upload, TagInput;
    UploadOk(d, a, data);
    var d0 := Upload(d, a, data).0;
    SameClaimsOk(d, d0);
    TagInputOk(d0, a);
    if a != NULL {
      UploadStatus(d, a, data);
      if a in d.heap.live && |data| <= d.heap.polyBytes {
        UploadWrites(d, a, data);
        var d1 := Step(sem, d, H2D(a, data)).0;
        assert d1.host == d0.host && d1.heap == d.heap;
        SameReads(sem, d, d1, a);
        assert d1.host[a][..d.heap.polyBytes] == d1.host[a];
      }
    }
  }

  lemma UploadStatus(d: Device, a: DevAddr, data: Bytes)
    ensures Upload(d, a, data).1 ==
      if a !in d.heap.live then Failure(UnknownAddress)
      else if |data| > d.heap.polyBytes then Failure(AllocTooSmall)
      else Success
    ensures Upload(d, a, data).1.Failure? ==> Upload(d, a, data).0 == d
  {
  }

  /** Downloads see stored bytes only. */
  lemma SameReads(sem: Semantics, d: Device, d1: Device, a: DevAddr)
    requires d1.heap == d.heap && forall b :: b != a ==>
      (b in d1.host <==> b in d.host) && (b in d.host ==> d1.host[b] == d.host[b])
    ensures forall b, n :: b != a ==> Step(sem, d1, D2H(b, n)).1 == Step(sem, d, D2H(b, n)).1
  {
  }

  /** `count` bytes, each the low eight bits of `value`. */
  ghost predicate Repeats(value: int, count: nat, bytes: Bytes) {
    |bytes| == count && forall i :: 0 <= i < count ==> bytes[i] as int == value % 256
  }

  lemma FillRepeats(value: int, count: nat)
    ensures Repeats(value, count, Fill(value, count))
  {
  }

  /** A fill is refused like an upload; after it the first bytes of the address read back the low eight
      bits of the value, the others what was stored before or zeros; no other address changes, and the
      epoch has no value for the address any more but these bytes. */
  lemma FillReadsBack(sem: Semantics, d: Device, a: DevAddr, value: int, count: nat)
    requires DeviceOk(d)
    ensures var (d1, reply) := Step(sem, d, Memset(a, value, count));
      && reply == (if a == NULL then Failed(InvalidArgument)
                   else if a !in d.heap.live then Failed(UnknownAddress)
                   else if count > d.heap.polyBytes then Failed(AllocTooSmall)
                   else Done)
      && (reply.Failed? ==> d1 == d)
      && (reply.Done? ==>
            && OnlyNowReads(sem, d, d1, a)
            && FrontFilled(d, a, value, count, Whole(sem, d1, a).bytes)
            && Mem(d1) == Mem(d)[a := Whole(sem, d1, a).bytes] && a !in d1.bound)
  {
    hide MemoryOk, ClaimsOk, Upload, Invalidate, Fill;
    var data := Fill(value, count);
    FillRepeats(value, count);
    UploadOk(d, a, data);
    var d0 := Upload(d, a, data).0;
    SameClaimsOk(d, d0);
    InvalidateOk(d0, a);
    if a != NULL {
      UploadStatus(d, a, data);
      if a in d.heap.live && count <= d.heap.polyBytes {
        UploadWrites(d, a, data);
        var d1 := Step(sem, d, Memset(a, value, count)).0;
        assert d1.host == d0.host && d1.heap == d.heap;
        SameReads(sem, d, d1, a);
        assert d1.host[a][..d.heap.polyBytes] == d1.host[a];
      }
    }
  }

  // ---- Array uploads ----

  /** Entry k of an array upload is refused for error e. */
  predicate UploadRefused(d: Device, dsts: seq<DevAddr>, datas: seq<Bytes>, k: nat, e: Error) {
    && k < |dsts| == |datas|
    && ((dsts[k] !in d.heap.live && e == UnknownAddress) ||
        (dsts[k] in d.heap.live && |datas[k]| > d.heap.polyBytes && e == AllocTooSmall))
  }

  predicate UploadFits(d: Device, dsts: seq<DevAddr>, datas: seq<Bytes>, k: nat)
    requires k < |dsts| == |datas|
  {
    dsts[k] in d.heap.live && |datas[k]| <= d.heap.polyBytes
  }

  /** The first entry that is refused, for error e. */
  predicate FirstRefused(d: Device, dsts: seq<DevAddr>, datas: seq<Bytes>, k: nat, e: Error) {
    && UploadRefused(d, dsts, datas, k, e)
    && forall i :: 0 <= i < k ==> UploadFits(d, dsts, datas, i)
  }

  lemma {:induction false} UploadAllExact(d: Device, dsts: seq<DevAddr>, datas: seq<Bytes>, n: nat)
    requires DeviceOk(d) && n <= |datas| == |dsts|
    ensures var (d1, s) := UploadAll(d, dsts, datas[..n]);
      && d1 == d.(host := d1.host)
      && (s.Success? <==> forall i :: 0 <= i < n ==> UploadFits(d, dsts, datas, i))
      && (s.Failure? ==> exists k: nat ::
            k < n && FirstRefused(d, dsts, datas, k, s.error) && d1 == UploadAll(d, dsts, datas[..k]).0)
    decreases n
  {
    hide DeviceOk, Upload;
    if n == 0 {
      assert datas[..0] == [];
    } else {
      UploadAllExact(d, dsts, datas, n - 1);
      assert datas[..n][..n - 1] == datas[..n - 1];
      var (d0, s0) := UploadAll(d, dsts, datas[..n - 1]);
      if s0.Success? {
        UploadStatus(d0, dsts[n - 1], datas[n - 1]);
        UploadKeeps(d0, dsts[n - 1], datas[n - 1]);
        var s := UploadAll(d, dsts, datas[..n]).1;
        assert s.Success? <==> UploadFits(d, dsts, datas, n - 1);
        if s.Failure? {
          assert FirstRefused(d, dsts, datas, n - 1, s.error);
        }
      } else {
        var k: nat :| k < n - 1 && FirstRefused(d, dsts, datas, k, s0.error) && d0 == UploadAll(d, dsts, datas[..k]).0;
        assert !UploadFits(d, dsts, datas, k);
      }
    }
  }

  lemma UploadKeeps(d: Device, a: DevAddr, data: Bytes)
    ensures var d1 := Upload(d, a, data).0; d1 == d.(host := d1.host)
  {
    hide WriteFront;
  }

  /** What the first n uploads of an array leave, if its addresses are distinct. */
  ghost predicate FrontsWritten(d: Device, d1: Device, dsts: seq<DevAddr>, datas: seq<Bytes>, n: nat)
    requires n <= |datas| == |dsts|
  {
    && d1 == d.(host := d1.host)
    && (forall i :: 0 <= i < n ==> dsts[i] in d1.host && FrontWritten(d, dsts[i], datas[i], d1.host[dsts[i]]))
    && forall b :: b !in dsts[..n] ==>
         (b in d1.host <==> b in d.host) && (b in d.host ==> d1.host[b] == d.host[b])
  }

  /** To distinct addresses each upload of an array is written as if it were the only one. */
  lemma {:induction false} UploadAllWrites(d: Device, dsts: seq<DevAddr>, datas: seq<Bytes>, n: nat)
    requires DeviceOk(d) && n <= |datas| == |dsts| && Distinct(dsts)
    requires forall i :: 0 <= i < n ==> UploadFits(d, dsts, datas, i)
    ensures var d1 := UploadAll(d, dsts, datas[..n]).0; DeviceOk(d1) && FrontsWritten(d, d1, dsts, datas, n)
    decreases n
  {
    hide DeviceOk, Upload, FrontsWritten, UploadFits, Distinct;
    if n == 0 {
      assert datas[..0] == [];
      NoFronts(d, dsts, datas);
    } else {
      UploadAllWrites(d, dsts, datas, n - 1);
      UploadAllExact(d, dsts, datas, n - 1);
      assert datas[..n][..n - 1] == datas[..n - 1];
      var d0 := UploadAll(d, dsts, datas[..n - 1]).0;
      UploadStaysOk(d0, dsts[n - 1], datas[n - 1]);
      assert UploadFits(d, dsts, datas, n - 1);
      OneMoreFront(d, d0, dsts, datas, n - 1);
    }
  }

  lemma NoFronts(d: Device, dsts: seq<DevAddr>, datas: seq<Bytes>)
    requires |datas| == |dsts|
    ensures FrontsWritten(d, d, dsts, datas, 0)
  {
  }

  lemma OneMoreFront(d: Device, d0: Device, dsts: seq<DevAddr>, datas: seq<Bytes>, k: nat)
    requires DeviceOk(d0) && k < |datas| == |dsts| && Distinct(dsts) && FrontsWritten(d, d0, dsts, datas, k)
    requires UploadFits(d, dsts, datas, k)
    ensures FrontsWritten(d, Upload(d0, dsts[k], datas[k]).0, dsts, datas, k + 1)
  {
    hide DeviceOk, Upload, FrontWritten, Distinct;
    var a := dsts[k];
    UploadStatus(d0, a, datas[k]);
    UploadWrites(d0, a, datas[k]);
    NotBefore(dsts, k);
    var d1 := Upload(d0, a, datas[k]).0;
    SameFront(d, d0, a, datas[k], d1.host[a]);
    assert dsts[..k + 1] == dsts[..k] + [a];
    forall i | 0 <= i < k ensures dsts[i] != a {
      assert dsts[i] in dsts[..k];
    }
  }

  lemma NotBefore(dsts: seq<DevAddr>, k: nat)
    requires k < |dsts| && Distinct(dsts)
    ensures dsts[k] !in dsts[..k]
  {
  }

  lemma UploadStaysOk(d: Device, a: DevAddr, data: Bytes)
    requires DeviceOk(d)
    ensures DeviceOk(Upload(d, a, data).0)
  {
    hide MemoryOk, ClaimsOk, Upload;
    UploadOk(d, a, data);
    SameClaimsOk(d, Upload(d, a, data).0);
  }

  lemma SameFront(d: Device, d1: Device, a: DevAddr, data: Bytes, bytes: Bytes)
    requires FrontWritten(d1, a, data, bytes) && d1.heap == d.heap
    requires (a in d1.host <==> a in d.host) && (a in d.host ==> d1.host[a] == d.host[a])
    ensures FrontWritten(d, a, data, bytes)
  {
  }

  /** Entry k is the first that is refused; those before it are written. */
  ghost predicate StoppedAt(d: Device, d1: Device, dsts: seq<DevAddr>, datas: seq<Bytes>, k: nat, e: Error) {
    && k < |dsts| == |datas| && FirstRefused(d, dsts, datas, k, e)
    && (Distinct(dsts) ==> FrontsWritten(d, d1, dsts, datas, k))
  }

  /** An array upload succeeds exactly if every entry would, and otherwise answers the error of the first
      that would not, with the entries before it written all the same. After a success each of its distinct
      addresses holds its own data in front and has that as its value. */
  lemma ArrayUploadReplies(sem: Semantics, d: Device, dsts: seq<DevAddr>, datas: seq<Bytes>)
    requires DeviceOk(d) && Shaped(H2DMrp(dsts, datas))
    ensures var (d1, reply) := Step(sem, d, H2DMrp(dsts, datas));
      && (reply.Done? || reply.Failed?)
      && (dsts == [] ==> reply == Failed(InvalidArgument) && d1 == d)
      && (dsts != [] ==> (reply.Done? <==> forall i :: 0 <= i < |dsts| ==> UploadFits(d, dsts, datas, i)))
      && (dsts != [] && reply.Failed? ==> exists k: nat :: StoppedAt(d, d1, dsts, datas, k, reply.error))
      && (reply.Done? && Distinct(dsts) ==>
            forall i :: 0 <= i < |dsts| ==>
              && dsts[i] in d1.host && FrontWritten(d, dsts[i], datas[i], d1.host[dsts[i]])
              && dsts[i] in Mem(d1) && Mem(d1)[dsts[i]] == d1.host[dsts[i]])
  {
    hide MemoryOk, ClaimsOk, UploadAll, TagInputs, FrontWritten, UploadFits, FirstRefused, FrontsWritten;
    assert datas[..|datas|] == datas;
    UploadAllExact(d, dsts, datas, |datas|);
    UploadAllOk(d, dsts, datas);
    var (d0, s) := UploadAll(d, dsts, datas);
    SameClaimsOk(d, d0);
    if s.Success? {
      TaggedInputs(d0, dsts);
      if Distinct(dsts) {
        UploadAllWrites(d, dsts, datas, |datas|);
        FrontsThere(d, d0, dsts, datas);
      }
    } else {
      var k: nat :| k < |datas| && FirstRefused(d, dsts, datas, k, s.error) && d0 == UploadAll(d, dsts, datas[..k]).0;
      FitsBefore(d, dsts, datas, k, s.error);
      if Distinct(dsts) {
        UploadAllWrites(d, dsts, datas, k);
      }
      assert StoppedAt(d, d0, dsts, datas, k, s.error);
    }
  }

  lemma FrontsThere(d: Device, d1: Device, dsts: seq<DevAddr>, datas: seq<Bytes>)
    requires |datas| == |dsts| && FrontsWritten(d, d1, dsts, datas, |dsts|)
    ensures forall i :: 0 <= i < |dsts| ==> dsts[i] in d1.host && FrontWritten(d, dsts[i], datas[i], d1.host[dsts[i]])
  {
  }

  lemma FitsBefore(d: Device, dsts: seq<DevAddr>, datas: seq<Bytes>, k: nat, e: Error)
    requires FirstRefused(d, dsts, datas, k, e)
    ensures k < |dsts| == |datas| && forall i :: 0 <= i < k ==> UploadFits(d, dsts, datas, i)
  {
  }

  // ---- Computations ----

  /** The error for a source that has no value. */
  function SourceError(d: Device, a: DevAddr): Error {
    if d.cfg.ringDim == 0 then NotConfigured else if a !in d.heap.live then UnknownAddress else SourceUnavailable
  }

  /** The first of `srcs` without a value gives error e. */
  predicate FirstMissing(d: Device, srcs: seq<DevAddr>, k: nat, e: Error) {
    && k < |srcs| && srcs[k] !in Mem(d) && e == SourceError(d, srcs[k])
    && forall i :: 0 <= i < k ==> srcs[i] in Mem(d)
  }

  lemma ReadError(d: Device, a: DevAddr)
    requires DeviceOk(d) && a !in Mem(d)
    ensures Read(d, a) == (d, Err(SourceError(d, a)))
  {
    hide HeapOk, ClaimsOk;
    if a in d.heap.live {
      PolyBytesPositive(d.heap, a);
    }
  }

  lemma {:induction false} ReadAllReplies(d: Device, srcs: seq<DevAddr>)
    requires DeviceOk(d)
    ensures var r := ReadAll(d, srcs).1;
      && (r.Ok? <==> Known(Mem(d), srcs))
      && (r.Err? ==> exists k :: FirstMissing(d, srcs, k, r.error))
    decreases |srcs|
  {
    hide DeviceOk, Mem, Read;
    ReadFetches(d, srcs);
    if srcs != [] {
      var n := |srcs| - 1;
      ReadAllReplies(d, srcs[..n]);
      ReadFetches(d, srcs[..n]);
      var (d1, before) := ReadAll(d, srcs[..n]);
      var r := ReadAll(d, srcs).1;
      if before.Err? {
        var k :| FirstMissing(d, srcs[..n], k, before.error);
        forall i | 0 <= i < k ensures srcs[i] in Mem(d) {
          assert srcs[..n][i] == srcs[i];
        }
        assert FirstMissing(d, srcs, k, r.error);
      } else if r.Err? {
        if srcs[n] in Mem(d) {
          ReadKnown(d1, srcs[n]);
        } else {
          ReadError(d1, srcs[n]);
        }
        forall i | 0 <= i < n ensures srcs[i] in Mem(d) {
          assert srcs[..n][i] == srcs[i];
        }
        assert FirstMissing(d, srcs, n, r.error);
      }
    }
  }

  lemma ReadKnown(d: Device, a: DevAddr)
    requires DeviceOk(d) && a in Mem(d)
    ensures Read(d, a).1.Ok?
  {
    hide MemoryOk, ClaimsOk;
    ReadExact(d, a);
  }

  /** Whether a call has a modulus in the table. */
  predicate InTable(d: Device, modIdx: int) {
    0 <= modIdx < |d.cfg.moduli| && d.cfg.moduli[modIdx] != 0
  }

  /** What a compute call accepts before it looks at values: no null address and a modulus in the table;
      non-empty bases; to rescale, a rescale base that is a shorter part of the source base; to lift
      digits, lengths that add up to the flat list. */
  predicate GoodArguments(d: Device, call: Call)
    requires IsCompute(call)
  {
    match call
    case Binary(_, dst, src1, src2, modIdx) => dst != NULL && src1 != NULL && src2 != NULL && InTable(d, modIdx)
    case Unary(_, _, dst, src, modIdx) => dst != NULL && src != NULL && InTable(d, modIdx)
    case Automorph(_, _, dst, src) => dst != NULL && src != NULL
    case BinaryMrp(_, _, _, _, base) => base != []
    case UnaryMrp(_, _, _, _, base) => base != []
    case BasisConvert(_, _, srcBase, dstBase) => srcBase != [] && dstBase != []
    case ModDown(_, _, srcBase, rescaleBase) =>
      srcBase != [] && rescaleBase != [] && |rescaleBase| < |srcBase| && forall q :: q in rescaleBase ==> q in srcBase
    case ModUp(_, _, srcBase, digitBases, digitLens, pBase) =>
      srcBase != [] && digitLens != [] && pBase != [] && Sum(digitLens) == |digitBases|
  }

  /** The answers of compute calls that read `srcs`. */
  ghost predicate AnswersOnValues(d: Device, srcs: seq<DevAddr>, reply: Reply) {
    && (reply.Done? <==> Known(Mem(d), srcs))
    && (!reply.Done? ==> reply.Failed? && exists k :: FirstMissing(d, srcs, k, reply.error))
  }

  lemma OneReplies(sem: Semantics, d: Device, call: Call)
    requires DeviceOk(d) && (call.Binary? || call.Unary? || call.Automorph?)
    ensures var (d1, reply) := Step(sem, d, call);
      if GoodArguments(d, call) then AnswersOnValues(d, SourcesOf(call), reply)
      else d1 == d && reply == Failed(InvalidArgument)
  {
    hide DeviceOk, ReadAll, Bind, Known, FirstMissing, Mem;
    ReadAllReplies(d, SourcesOf(call));
  }

  lemma ArrayReplies(sem: Semantics, d: Device, call: Call)
    requires DeviceOk(d) && Shaped(call)
    requires call.BinaryMrp? || call.UnaryMrp? || call.BasisConvert? || call.ModDown? || call.ModUp?
    ensures var (d1, reply) := Step(sem, d, call);
      if GoodArguments(d, call) then AnswersOnValues(d, SourcesOf(call), reply)
      else d1 == d && reply == Failed(InvalidArgument)
  {
    hide DeviceOk, ReadAll, StoreMrp, LiftDigits, Results, Known, FirstMissing, Mem, Without;
    ReadAllReplies(d, SourcesOf(call));
  }

  /** A compute call is refused, and changes nothing, exactly for bad arguments; otherwise it succeeds
      exactly if every source has a value, and else answers the error of the first that has none. */
  lemma ComputeReplies(sem: Semantics, d: Device, call: Call)
    requires DeviceOk(d) && Shaped(call) && IsCompute(call)
    ensures var (d1, reply) := Step(sem, d, call);
      if GoodArguments(d, call) then AnswersOnValues(d, SourcesOf(call), reply)
      else d1 == d && reply == Failed(InvalidArgument)
  {
    hide DeviceOk, Step, AnswersOnValues, GoodArguments;
    if call.Binary? || call.Unary? || call.Automorph? {
      OneReplies(sem, d, call);
    } else {
      ArrayReplies(sem, d, call);
    }
  }

  /** hazeModDown in full: Done exactly if both bases are non-empty, every rescale prime is a source prime,
      there are fewer of them, and every source residue has a value; InvalidArgument exactly if the bases
      are wrong. */
  lemma ModDownReplies(sem: Semantics, d: Device, dsts: seq<DevAddr>, srcs: seq<DevAddr>, srcBase: seq<nat>,
                       rescaleBase: seq<nat>)
    requires DeviceOk(d) && Shaped(ModDown(dsts, srcs, srcBase, rescaleBase))
    ensures var reply := Step(sem, d, ModDown(dsts, srcs, srcBase, rescaleBase)).1;
      var good := && srcBase != [] && rescaleBase != [] && |rescaleBase| < |srcBase|
                  && forall q :: q in rescaleBase ==> q in srcBase;
      && (reply.Done? <==> good && forall a :: a in srcs ==> a in Mem(d))
      && (reply == Failed(InvalidArgument) <==> !good)
  {
    hide DeviceOk, Step, Mem;
    ComputeReplies(sem, d, ModDown(dsts, srcs, srcBase, rescaleBase));
  }

  // ---- Copies ----

  lemma CopyReplies(sem: Semantics, d: Device, dst: DevAddr, src: DevAddr, count: nat)
    requires DeviceOk(d)
    ensures Step(sem, d, D2D(dst, src, count)).1 ==
      if dst == NULL || src == NULL then Failed(InvalidArgument)
      else if src in Mem(d) then Done
      else Failed(SourceError(d, src))
  {
    hide DeviceOk, Mem, Read, Bind;
    if src in Mem(d) {
      ReadKnown(d, src);
    } else {
      ReadError(d, src);
    }
  }

  /** When the k-th copy starts, its source has a value: its own, or one copied to it before. */
  predicate CopySource(d: Device, dsts: seq<DevAddr>, srcs: seq<DevAddr>, k: nat)
    requires k < |srcs| <= |dsts|
  {
    srcs[k] in Mem(d) || srcs[k] in dsts[..k]
  }

  /** The k-th copy is the first without a source, which gives error e. */
  predicate FirstUncopied(d: Device, dsts: seq<DevAddr>, srcs: seq<DevAddr>, k: nat, e: Error) {
    && k < |srcs| <= |dsts| && !CopySource(d, dsts, srcs, k) && e == SourceError(d, srcs[k])
    && forall i :: 0 <= i < k ==> CopySource(d, dsts, srcs, i)
  }

  lemma {:induction false} CopyAllReplies(d: Device, dsts: seq<DevAddr>, srcs: seq<DevAddr>, base: seq<nat>, n: nat)
    requires DeviceOk(d) && n <= |srcs| <= |dsts| && |srcs| <= |base|
    ensures var (d1, s) := CopyAll(d, dsts, srcs[..n], base);
      && DeviceOk(d1) && d1.heap == d.heap && d1.cfg == d.cfg
      && (s.Success? <==> forall i :: 0 <= i < n ==> CopySource(d, dsts, srcs, i))
      && (s.Success? ==> Mem(d1).Keys == Mem(d).Keys + ToSet(dsts[..n]))
      && (s.Failure? ==> exists k: nat :: k < n && FirstUncopied(d, dsts, srcs, k, s.error))
    decreases n
  {
    hide MemoryOk, ClaimsOk, Mem, CopyTo, CopySource;
    if n == 0 {
      assert srcs[..0] == [] && dsts[..0] == [];
      assert Mem(d).Keys + ToSet(dsts[..0]) == Mem(d).Keys;
    } else {
      CopyAllReplies(d, dsts, srcs, base, n - 1);
      assert srcs[..n][..n - 1] == srcs[..n - 1];
      var (d0, s0) := CopyAll(d, dsts, srcs[..n - 1], base);
      var (d1, s) := CopyAll(d, dsts, srcs[..n], base);
      if s0.Success? {
        CopyToOk(d0, dsts[n - 1], srcs[n - 1], base[n - 1]);
        SameClaimsOk(d0, d1);
        assert dsts[..n] == dsts[..n - 1] + [dsts[n - 1]];
        ToSetSnoc(dsts[..n - 1], dsts[n - 1]);
        SourceNow(d, d0, dsts, srcs, n - 1);
        if s.Failure? {
          CopyToError(d0, dsts[n - 1], srcs[n - 1], base[n - 1]);
          assert FirstUncopied(d, dsts, srcs, n - 1, s.error);
        }
      } else {
        var k: nat :| k < n - 1 && FirstUncopied(d, dsts, srcs, k, s0.error);
        assert !CopySource(d, dsts, srcs, k);
      }
    }
  }

  lemma SourceNow(d: Device, d1: Device, dsts: seq<DevAddr>, srcs: seq<DevAddr>, k: nat)
    requires k < |srcs| <= |dsts| && Mem(d1).Keys == Mem(d).Keys + ToSet(dsts[..k])
    ensures srcs[k] in Mem(d1) <==> CopySource(d, dsts, srcs, k)
  {
    hide Mem;
  }

  lemma CopyToError(d: Device, dst: DevAddr, src: DevAddr, q: nat)
    requires DeviceOk(d) && src !in Mem(d)
    ensures CopyTo(d, dst, src, q).1 == Failure(SourceError(d, src))
  {
    hide DeviceOk, Mem, Read, Bind;
    ReadError(d, src);
  }

  /** An array copy succeeds exactly if each copy finds a value at its turn, and else answers the error of
      the first that does not. */
  lemma ArrayCopyReplies(sem: Semantics, d: Device, dsts: seq<DevAddr>, srcs: seq<DevAddr>, base: seq<nat>)
    requires DeviceOk(d) && Shaped(D2DMrp(dsts, srcs, base))
    ensures var (d1, reply) := Step(sem, d, D2DMrp(dsts, srcs, base));
      && (base == [] ==> reply == Failed(InvalidArgument) && d1 == d)
      && (base != [] ==> (reply.Done? <==> forall i :: 0 <= i < |srcs| ==> CopySource(d, dsts, srcs, i)))
      && (base != [] && !reply.Done? ==> reply.Failed? && exists k :: FirstUncopied(d, dsts, srcs, k, reply.error))
  {
    hide DeviceOk, CopyAll, CopySource, FirstUncopied, Register;
    CopyAllReplies(d, dsts, srcs, base, |srcs|);
    assert srcs[..|srcs|] == srcs;
    var s := CopyAll(d, dsts, srcs, base).1;
    if s.Failure? {
      var k: nat :| k < |srcs| && FirstUncopied(d, dsts, srcs, k, s.error);
    }
  }

  // ---- Allocation ----

  lemma AllocateReplies(sem: Semantics, d: Device, size: nat)
    requires DeviceOk(d)
    ensures var (d1, reply) := Step(sem, d, Malloc(size));
      if d.heap.polyBytes == 0 then d1 == d && reply == Failed(NotConfigured)
      else if size != d.heap.polyBytes then d1 == d && reply == Failed(AllocTooSmall)
      else
        && reply.Address? && d1.heap.live == d.heap.live + {reply.a}
        && if d.heap.pool == [] then reply.a == d.heap.next && d1.heap.next == d.heap.next + size && d1.heap.pool == []
           else d.heap.pool == d1.heap.pool + [reply.a] && d1.heap.next == d.heap.next
  {
    hide HeapOk, ClaimsOk;
    if d.heap.polyBytes > 0 {
      AllocateOneSafe(d.heap);
    }
  }

  /** The first address of a library that was just started or reset. */
  lemma FirstAddress(sem: Semantics) returns (calls: seq<Call>)
    ensures calls == [SetRingDimension(4), Malloc(32)] && LawfulRun(sem, RESET, calls)
    ensures Run(sem, RESET, calls).1 == [Done, Address(0x40_0000_0000)]
  {
    var c0, c1 := SetRingDimension(4), Malloc(32);
    calls := [c0, c1];
    assert calls[..1] == [c0] && calls[..1][..0] == [];
    assert Run(sem, RESET, []) == (RESET, []);
    assert ToSet(EMPTY.pool) == {} && EMPTY.live - {} == {};
    var d := Step(sem, RESET, c0).0;
    assert d.heap == Heap({}, [], 0x40_0000_0000, 32, 0x40_0000_0000, 0);
    assert Run(sem, RESET, [c0]) == (d, [] + [Done]);
  }

  // ---- Settings ----

  lemma SettingsReplies(sem: Semantics, d: Device, n: nat)
    ensures Step(sem, d, SetRingDimension(n)).1 == (
      if n == 0 || And(n, n - 1) != 0 then Failed(InvalidArgument)
      else if d.cfg.configured && d.cfg.ringDim != n then Failed(NotConfigured)
      else Done)
    ensures Step(sem, d, ConfigureDevice) ==
      if d.cfg.ringDim == 0 then (d, Failed(NotConfigured)) else (d.(cfg := d.cfg.(configured := true)), Done)
    ensures Step(sem, d, DeviceReset) == (RESET, Done)
    requires n < TWO_64
  {
    hide And, IsPowerOfTwo, SetPolynomialSize;
    if n > 0 {
      PowerOfTwoTest(n);
    } else {
      NotZero();
    }
  }

  lemma NotZero()
    ensures !IsPowerOfTwo(0)
  {
  }

  /** A batch of more than 64 is refused before anything else; an empty one always succeeds. */
  lemma ArrayAllocateReplies(sem: Semantics, d: Device, count: nat, size: nat)
    requires DeviceOk(d)
    ensures var (d1, reply) := Step(sem, d, MallocMrp(count, size));
      if count > 64 then d1 == d && reply == Failed(InvalidArgument)
      else if count == 0 then d1 == d && reply == Addresses([])
      else if d.heap.polyBytes == 0 then d1 == d && reply == Failed(NotConfigured)
      else if size != d.heap.polyBytes then d1 == d && reply == Failed(AllocTooSmall)
      else reply.Addresses? && |reply.addrs| == count && d1.heap.live == d.heap.live + ToSet(reply.addrs)
  {
    hide HeapOk, ClaimsOk, Grab;
    AllocateManySafe(d.heap, count, size);
  }

  lemma FreeReplies(sem: Semantics, d: Device, a: DevAddr)
    requires DeviceOk(d)
    ensures var (d1, reply) := Step(sem, d, Free(a));
      && reply == (if a == NULL || a in d.heap.live then Done else Failed(UnknownAddress))
      && d1.heap.live == d.heap.live - {a}
  {
    hide HeapOk, ClaimsOk, Invalidate, FreeMany;
    if a == NULL {
      NullNotLive(d);
      FreeManyExact(d.heap, [a]);
    } else {
      InvalidateOk(d, a);
      FreeManyExact(Invalidate(d, a).heap, [a]);
    }
    SoleEntry(d.heap, a);
  }

  lemma SoleEntry(h: Heap, a: DevAddr)
    ensures (exists i: nat :: i < |[a]| && BadEntry(h, [a], i)) <==> a != NULL && a !in h.live
    ensures ToSet([a]) == {a}
  {
    if a != NULL && a !in h.live {
      assert BadEntry(h, [a], 0);
    }
  }

  /** A batch free of more than 64 is refused; otherwise it frees all it can, and errs exactly if some
      entry is neither null nor live, or names an address again. */
  lemma ArrayFreeReplies(sem: Semantics, d: Device, ps: seq<DevAddr>)
    requires DeviceOk(d)
    ensures var (d1, reply) := Step(sem, d, FreeMrp(ps));
      if |ps| > 64 then d1 == d && reply == Failed(InvalidArgument)
      else
        && d1.heap.live == d.heap.live - ToSet(ps)
        && (reply == Done || reply == Failed(UnknownAddress))
        && (reply == Done <==>
              forall i: nat :: i < |ps| && ps[i] != NULL ==> ps[i] in d.heap.live && ps[i] !in ps[..i])
  {
    hide HeapOk, ClaimsOk, InvalidateAll, FreeMany;
    NullNotLive(d);
    InvalidateAllOk(d, ps);
    FreeManyExact(d.heap, ps);
    assert forall i: nat :: i < |ps| ==>
      (BadEntry(d.heap, ps, i) <==> !(ps[i] != NULL ==> ps[i] in d.heap.live && ps[i] !in ps[..i]));
  }

  // ---- Outputs ----

  lemma TagReplies(sem: Semantics, d: Device, a: DevAddr)
    ensures Step(sem, d, TagOutput(a)).1 ==
      if a == NULL then Failed(InvalidArgument)
      else if a in d.bound then Done
      else Failed(SourceUnavailable)
  {
    hide LeadersOf, MembersOf;
  }

  /** The end of an epoch: silent if there is nothing to export; else the back end decides. */
  lemma EndReplies(sem: Semantics, d: Device, call: Call)
    requires call.Flush? || call.WriteProgram?
    ensures Step(sem, d, call).1 ==
      if call.Flush? && call.env == FormatRejected then Failed(UnsupportedDataFormat)
      else if d.tags == {} && d.promoted == {} then Done
      else
        match call.env
        case StopFailed => Failed(BackendReplayFailed)
        case HookFailed => Failed(BridgeHookFailed)
        case ReplayFailed => if call.Flush? then Failed(BackendReplayFailed) else Done
        case Interrupted(_, fault) =>
          if call.WriteProgram? then Done
          else if fault == NoResult then Failed(BackendOutputMissing)
          else if fault == Garbled then Failed(BackendOutputDecodeFailed)
          else Failed(UnknownAddress)
        case _ => Done
  {
    hide Exported;
  }
}
