/**
 The single-size device allocator: a liveness set, a free list and a sparse map of stored bytes.
 Every method is proved against the functions of module Heap; the stored bytes are described here.
 */
module Allocator {
  import opened Types
  import opened HeapModel

  /** What a write to `a` starts from: the stored bytes, or zeros when nothing of the right size
      is stored. */
  function Staged(host: map<DevAddr, Bytes>, a: DevAddr, n: nat): (r: Bytes)
    ensures |r| == n
  {
    if a in host && |host[a]| == n then host[a] else Zeros(n)
  }

  /** The stored bytes after writing `data` over the front of `a`. */
  function WriteFront(host: map<DevAddr, Bytes>, a: DevAddr, data: Bytes, n: nat): map<DevAddr, Bytes>
    requires |data| <= n
  {
    host[a := Overlay(data, Staged(host, a, n))]
  }

  /** A write changes one address: its front is the data, its tail is what was stored, or zeros if
      nothing was. */
  lemma WriteFrontExact(host: map<DevAddr, Bytes>, a: DevAddr, data: Bytes, n: nat)
    requires |data| <= n
    ensures var host1 := WriteFront(host, a, data, n);
      && host1.Keys == host.Keys + {a} && |host1[a]| == n
      && (forall i :: 0 <= i < |data| ==> host1[a][i] == data[i])
      && (forall i :: |data| <= i < n ==> host1[a][i] == if a in host && |host[a]| == n then host[a][i] else 0)
      && (forall b :: b in host && b != a ==> host1[b] == host[b])
      && (|data| == n ==> host1[a] == data)
  {
    var r := WriteFront(host, a, data, n)[a];
    forall i | |data| <= i < n ensures r[i] == Staged(host, a, n)[i] {
      assert r[i] == Staged(host, a, n)[|data|..][i - |data|];
    }
    if |data| == n {
      assert r == data;
    }
  }

  /** `count` copies of the low eight bits of `value`. */
  function Fill(value: int, count: nat): (r: Bytes)
    ensures |r| == count
  {
    seq(count, _ => (value % 256) as byte)
  }

  /** The first `count` stored bytes of `a`. */
  function ReadStored(live: set<DevAddr>, host: map<DevAddr, Bytes>, polyBytes: nat, a: DevAddr, count: nat): Result<Bytes> {
    if a !in live then Err(UnknownAddress)
    else if count > polyBytes then Err(AllocTooSmall)
    else if a !in host then Err(OutputNotFlushed)
    else Ok(if count <= |host[a]| then host[a][..count] else host[a])
  }

  /** Reads in order, stopping at the first failure. */
  function ReadAllStored(live: set<DevAddr>, host: map<DevAddr, Bytes>, polyBytes: nat, srcs: seq<DevAddr>,
                         count: nat): Result<seq<Bytes>>
    decreases |srcs|
  {
    if srcs == [] then Ok([])
    else
      var n := |srcs| - 1;
      var before := ReadAllStored(live, host, polyBytes, srcs[..n], count);
      if before.Err? then before
      else
        match ReadStored(live, host, polyBytes, srcs[n], count)
        case Ok(bytes) => Ok(before.value + [bytes])
        case Err(e) => Err(e)
  }

  /** Whether one polynomial of `ringDim` limbs can be taken from the bytes stored at `a`. */
  function ComponentsStatus(
      live: set<DevAddr>, host: map<DevAddr, Bytes>, polyBytes: nat, a: DevAddr, ringDim: nat): (s: Status)
    ensures s.Success? ==> a in host
  {
    if ringDim == 0 then Failure(NotConfigured)
    else if a !in live then Failure(UnknownAddress)
    else if polyBytes < 8 * ringDim then Failure(AllocTooSmall)
    else if a !in host then Failure(NoData)
    else if |host[a]| != 8 * ringDim then Failure(ShadowSizeMismatch)
    else Success
  }

  class DeviceAllocator {
    var allocSet: set<DevAddr>
    var shadow: map<DevAddr, Bytes>
    var poolFree: seq<DevAddr>
    var polyBytes: nat
    var nextAddr: nat
    // Not stored by the program; they say since when and how often fresh addresses were bumped.
    ghost var origin: nat
    ghost var bumps: nat

    ghost function View(): Heap
      reads this
    {
      Heap(allocSet, poolFree, nextAddr, polyBytes, origin, bumps)
    }

    /** Only live addresses carry bytes, and always exactly one polynomial of them. */
    ghost predicate Valid()
      reads this
    {
      && polyBytes % 8 == 0
      && shadow.Keys <= allocSet
      && forall a :: a in shadow ==> |shadow[a]| == polyBytes
    }

    constructor ()
      ensures Valid() && View() == EMPTY && shadow == map[]
    {
      allocSet, shadow, poolFree, polyBytes, nextAddr := {}, map[], [], 0, HBM_BASE;
      origin, bumps := HBM_BASE, 0;
    }

    method ClearPool()
      requires Valid()
      modifies this
      ensures allocSet == old(allocSet) - ToSet(old(poolFree)) && poolFree == []
      ensures shadow == old(shadow) - ToSet(old(poolFree))
      ensures unchanged(`polyBytes) && unchanged(`nextAddr) && unchanged(`origin) && unchanged(`bumps)
    {
      for i := 0 to |poolFree|
        invariant unchanged(`poolFree) && unchanged(`polyBytes) && unchanged(`nextAddr)
        invariant unchanged(`origin) && unchanged(`bumps)
        invariant allocSet == old(allocSet) - ToSet(poolFree[..i])
        invariant shadow == old(shadow) - ToSet(poolFree[..i])
      {
        allocSet := allocSet - {poolFree[i]};
        shadow := shadow - {poolFree[i]};
        assert ToSet(poolFree[..i + 1]) == ToSet(poolFree[..i]) + {poolFree[i]};
      }
      assert poolFree[..|poolFree|] == poolFree;
      poolFree := [];
    }

    /** A new size drops the pool. Bytes that are still stored then have the wrong length. */
    method SetPolynomialSize(bytes: nat)
      requires Valid() && bytes % 8 == 0
      modifies this
      ensures View() == HeapModel.SetPolynomialSize(old(View()), bytes)
      ensures shadow == if bytes == old(polyBytes) then old(shadow) else old(shadow) - ToSet(old(poolFree))
      ensures Valid() <==> bytes == old(polyBytes) || shadow == map[]
    {
      if polyBytes != bytes {
        ClearPool();
        polyBytes := bytes;
        origin, bumps := nextAddr, 0;
      }
    }

    method AllocateOne() returns (r: Result<DevAddr>)
      requires Valid()
      modifies this`allocSet, this`poolFree, this`nextAddr, this`bumps
      ensures Valid()
      ensures (View(), r) == HeapModel.AllocateOne(old(View()))
    {
      if poolFree != [] {
        var addr := poolFree[|poolFree| - 1];
        poolFree := poolFree[..|poolFree| - 1];
        if addr in allocSet {
          return Err(PoolMapDesync);
        }
        allocSet := allocSet + {addr};
        return Ok(addr);
      }
      var addr := nextAddr;
      nextAddr := nextAddr + polyBytes;
      bumps := bumps + 1;
      allocSet := allocSet + {addr};
      return Ok(addr);
    }

    method FreeOne(addr: DevAddr) returns (s: Status)
      requires Valid()
      modifies this`allocSet, this`poolFree, this`shadow
      ensures Valid()
      ensures (View(), s) == HeapModel.FreeOne(old(View()), addr)
      ensures shadow == old(shadow) - {addr}
    {
      if addr !in allocSet {
        return Failure(UnknownAddress);
      }
      allocSet := allocSet - {addr};
      shadow := shadow - {addr};
      poolFree := poolFree + [addr];
      return Success;
    }

    method Allocate(bytes: nat) returns (r: Result<DevAddr>)
      requires Valid()
      modifies this
      ensures Valid()
      ensures (View(), r) == HeapModel.Allocate(old(View()), bytes)
      ensures shadow == old(shadow)
    {
      var ok := Validate(polyBytes, bytes);
      match ok
      case Failure(e) => r := Err(e);
      case Success => r := AllocateOne();
    }

    /** All or nothing: a failing batch leaves the liveness set and every stored byte alone. */
    method AllocateMany(count: nat, bytes: nat) returns (r: Result<seq<DevAddr>>)
      requires Valid()
      modifies this
      ensures Valid()
      ensures (View(), r) == HeapModel.AllocateMany(old(View()), count, bytes)
      ensures shadow == old(shadow)
      ensures r.Err? ==> allocSet == old(allocSet)
    {
      AllocateManyAllOrNothing(View(), count, bytes);
      if count == 0 {
        return Ok([]);
      }
      var ok := Validate(polyBytes, bytes);
      if ok.Failure? {
        return Err(ok.error);
      }
      var out := [];
      for i := 0 to count
        invariant Valid() && shadow == old(shadow)
        invariant Grab(old(View()), count, []) == Grab(View(), count - i, out)
        invariant old(allocSet) <= allocSet
        invariant poolFree != [] ==> forall a :: a in out ==> a !in old(allocSet)
      {
        var addr := AllocateOne();
        if addr.Err? {
          for j := 0 to |out|
            invariant Valid() && shadow == old(shadow)
            invariant forall a :: a in out ==> a !in old(allocSet)
            invariant Grab(old(View()), count, []) == (FreeAll(View(), out[j..]), Err(addr.error))
          {
            var _ := FreeOne(out[j]);
            assert out[j..][1..] == out[j + 1..];
            assert shadow == old(shadow);
          }
          return Err(addr.error);
        }
        out := out + [addr.value];
      }
      return Ok(out);
    }

    method Free(addr: DevAddr) returns (s: Status)
      requires Valid()
      modifies this
      ensures Valid()
      ensures (View(), s) == HeapModel.FreeMany(old(View()), [addr])
      ensures shadow == old(shadow) - ({addr} - {NULL})
    {
      if addr == NULL {
        return Success;
      }
      s := FreeOne(addr);
    }

    method FreeMany(addrs: seq<DevAddr>) returns (s: Status)
      requires Valid()
      modifies this
      ensures Valid()
      ensures (View(), s) == HeapModel.FreeMany(old(View()), addrs)
      ensures shadow == old(shadow) - (ToSet(addrs) - {NULL})
    {
      s := Success;
      for i := 0 to |addrs|
        invariant Valid()
        invariant shadow == old(shadow) - (ToSet(addrs[..i]) - {NULL})
        invariant var (h, t) := HeapModel.FreeMany(View(), addrs[i..]);
          HeapModel.FreeMany(old(View()), addrs) == (h, First(s, t))
      {
        assert addrs[i..][1..] == addrs[i + 1..];
        assert ToSet(addrs[..i + 1]) == ToSet(addrs[..i]) + {addrs[i]};
        if addrs[i] == NULL {
          continue;
        }
        var freed := FreeOne(addrs[i]);
        if freed.Failure? && s.Success? {
          s := freed;
        }
      }
      assert addrs[..|addrs|] == addrs;
    }

    /** Moves the stored bytes of `addr` out of the allocator. */
    method ExtractPolynomialComponents(addr: DevAddr, ringDim: nat) returns (r: Result<Bytes>)
      requires Valid()
      modifies this`shadow
      ensures Valid()
      ensures var s := ComponentsStatus(allocSet, old(shadow), polyBytes, addr, ringDim);
        && r == (if s.Success? then Ok(old(shadow)[addr]) else Err(s.error))
        && shadow == if s == Success || s == Failure(ShadowSizeMismatch) then old(shadow) - {addr} else old(shadow)
    {
      if ringDim == 0 {
        return Err(NotConfigured);
      }
      if addr !in allocSet {
        return Err(UnknownAddress);
      }
      if polyBytes < 8 * ringDim {
        return Err(AllocTooSmall);
      }
      if addr !in shadow {
        return Err(NoData);
      }
      var components := shadow[addr];
      shadow := shadow - {addr};
      if |components| != 8 * ringDim {
        return Err(ShadowSizeMismatch);
      }
      return Ok(components);
    }

    /** Copies the stored bytes of `addr`, leaving them in place. */
    method ReadPolynomialComponents(addr: DevAddr, ringDim: nat) returns (r: Result<Bytes>)
      requires Valid()
      ensures var s := ComponentsStatus(allocSet, shadow, polyBytes, addr, ringDim);
        r == (if s.Success? then Ok(shadow[addr]) else Err(s.error))
    {
      if ringDim == 0 {
        return Err(NotConfigured);
      }
      if addr !in allocSet {
        return Err(UnknownAddress);
      }
      if polyBytes < 8 * ringDim {
        return Err(AllocTooSmall);
      }
      if addr !in shadow {
        return Err(NoData);
      }
      if |shadow[addr]| != 8 * ringDim {
        return Err(ShadowSizeMismatch);
      }
      return Ok(shadow[addr]);
    }

    method CopyH2D(dst: DevAddr, src: Pointer<Bytes>) returns (s: Status)
      requires Valid()
      modifies this`shadow
      ensures Valid()
      ensures s ==
        if src.Null? then Failure(InvalidArgument)
        else if dst !in allocSet then Failure(UnknownAddress)
        else if |src.target| > polyBytes then Failure(AllocTooSmall)
        else Success
      ensures shadow == if s.Success? then WriteFront(old(shadow), dst, src.target, polyBytes) else old(shadow)
    {
      if src.Null? {
        return Failure(InvalidArgument);
      }
      if dst !in allocSet {
        return Failure(UnknownAddress);
      }
      if |src.target| > polyBytes {
        return Failure(AllocTooSmall);
      }
      if dst !in shadow || |shadow[dst]| != polyBytes {
        shadow := shadow[dst := Zeros(polyBytes)];
      }
      shadow := shadow[dst := src.target + shadow[dst][|src.target|..]];
      return Success;
    }

    method Memset(addr: DevAddr, value: int, count: nat) returns (s: Status)
      requires Valid()
      modifies this`shadow
      ensures Valid()
      ensures s ==
        if addr !in allocSet then Failure(UnknownAddress)
        else if count > polyBytes then Failure(AllocTooSmall)
        else Success
      ensures shadow ==
        if s.Success? then WriteFront(old(shadow), addr, Fill(value, count), polyBytes) else old(shadow)
    {
      if addr !in allocSet {
        return Failure(UnknownAddress);
      }
      if count > polyBytes {
        return Failure(AllocTooSmall);
      }
      if addr !in shadow || |shadow[addr]| != polyBytes {
        shadow := shadow[addr := Zeros(polyBytes)];
      }
      shadow := shadow[addr := Fill(value, count) + shadow[addr][count..]];
      return Success;
    }

    /** `dst` says whether the caller gave a place to copy to. */
    method CopyToHost(dst: bool, src: DevAddr, count: nat) returns (r: Result<Bytes>)
      requires Valid()
      ensures r == if !dst then Err(InvalidArgument) else ReadStored(allocSet, shadow, polyBytes, src, count)
    {
      if !dst {
        return Err(InvalidArgument);
      }
      if src !in allocSet {
        return Err(UnknownAddress);
      }
      if count > polyBytes {
        return Err(AllocTooSmall);
      }
      if src !in shadow {
        return Err(OutputNotFlushed);
      }
      return Ok(shadow[src][..count]);
    }

    /** Replaces the stored bytes of `addr`, cut or padded to one polynomial. */
    method UpdateShadow(addr: DevAddr, values: Bytes) returns (s: Status)
      requires Valid()
      modifies this`shadow
      ensures Valid()
      ensures s == if addr in allocSet then Success else Failure(UnknownAddress)
      ensures shadow == if s.Success? then old(shadow)[addr := Fit(values, polyBytes)] else old(shadow)
    {
      if addr !in allocSet {
        return Failure(UnknownAddress);
      }
      var sized := values;
      if |sized| != polyBytes {
        sized := if |sized| > polyBytes then sized[..polyBytes] else sized + Zeros(polyBytes - |sized|);
      }
      shadow := shadow[addr := sized];
      return Success;
    }

    method Reset()
      modifies this
      ensures Valid() && View() == EMPTY && shadow == map[]
    {
      allocSet, shadow, poolFree, nextAddr, polyBytes := {}, map[], [], HBM_BASE, 0;
      origin, bumps := HBM_BASE, 0;
    }
  }
}
