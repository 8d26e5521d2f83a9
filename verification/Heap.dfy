/**
 What the allocator's calls do to its liveness set and free list, as functions on values, and
 the laws those functions obey. The class in DeviceAllocator.dfy is proved against them.
 */
module HeapModel {
  import opened Types

  /** `origin` is the value of `next` at the last change of the polynomial size or reset, and
      `bumps` counts the fresh addresses handed out since; the program stores neither. */
  datatype Heap = Heap(
    live: set<DevAddr>, pool: seq<DevAddr>, next: nat, polyBytes: nat, origin: nat, bumps: nat)

  const EMPTY := Heap({}, [], HBM_BASE, 0, HBM_BASE, 0)

  // ---- The calls ----

  function SetPolynomialSize(h: Heap, bytes: nat): Heap {
    if h.polyBytes == bytes then h
    else Heap(h.live - ToSet(h.pool), [], h.next, bytes, h.next, 0)
  }

  /** Every allocation is one polynomial of the configured size. */
  function Validate(polyBytes: nat, bytes: nat): Status {
    if polyBytes == 0 then Failure(NotConfigured)
    else if bytes != polyBytes then Failure(AllocTooSmall)
    else Success
  }

  /** One address: the most recently pooled one if there is one, else a fresh bump. */
  function AllocateOne(h: Heap): (Heap, Result<DevAddr>) {
    if h.pool != [] then
      var a := h.pool[|h.pool| - 1];
      var popped := h.(pool := h.pool[..|h.pool| - 1]);
      if a in h.live then (popped, Err(PoolMapDesync)) else (popped.(live := h.live + {a}), Ok(a))
    else
      (h.(live := h.live + {h.next}, next := h.next + h.polyBytes, bumps := h.bumps + 1), Ok(h.next))
  }

  function FreeOne(h: Heap, a: DevAddr): (Heap, Status) {
    if a !in h.live then (h, Failure(UnknownAddress))
    else (h.(live := h.live - {a}, pool := h.pool + [a]), Success)
  }

  function Allocate(h: Heap, bytes: nat): (Heap, Result<DevAddr>) {
    match Validate(h.polyBytes, bytes)
    case Failure(e) => (h, Err(e))
    case Success => AllocateOne(h)
  }

  /** Frees every address of `addrs` in order, ignoring failures. */
  function FreeAll(h: Heap, addrs: seq<DevAddr>): Heap
    decreases |addrs|
  {
    if addrs == [] then h else FreeAll(FreeOne(h, addrs[0]).0, addrs[1..])
  }

  /** Takes `count` more addresses after `taken`; a failure gives all of them back. */
  function Grab(h: Heap, count: nat, taken: seq<DevAddr>): (Heap, Result<seq<DevAddr>>)
    decreases count
  {
    if count == 0 then (h, Ok(taken))
    else
      var (h', r) := AllocateOne(h);
      match r
      case Err(e) => (FreeAll(h', taken), Err(e))
      case Ok(a) => Grab(h', count - 1, taken + [a])
  }

  function AllocateMany(h: Heap, count: nat, bytes: nat): (Heap, Result<seq<DevAddr>>) {
    if count == 0 then (h, Ok([]))
    else
      match Validate(h.polyBytes, bytes)
      case Failure(e) => (h, Err(e))
      case Success => Grab(h, count, [])
  }

  function First(s: Status, t: Status): Status {
    if s.Failure? then s else t
  }

  /** Frees every non-null address; reports the first failure. */
  function FreeMany(h: Heap, addrs: seq<DevAddr>): (Heap, Status)
    decreases |addrs|
  {
    if addrs == [] then (h, Success)
    else if addrs[0] == NULL then FreeMany(h, addrs[1..])
    else
      var (h1, s1) := FreeOne(h, addrs[0]);
      var (h2, s2) := FreeMany(h1, addrs[1..]);
      (h2, First(s1, s2))
  }

  // ---- Safety and conservation ----

  /** Where the n-th bump from `origin` lands. */
  function Slot(origin: nat, size: nat, n: nat): (a: DevAddr)
    ensures a >= origin
  {
    if n == 0 then origin else Slot(origin, size, n - 1) + size
  }

  /** The first n addresses bumped from `origin`. */
  function Slots(origin: nat, size: nat, n: nat): (s: set<DevAddr>)
    ensures forall a :: a in s ==> origin <= a && a + size <= Slot(origin, size, n)
  {
    if n == 0 then {} else Slots(origin, size, n - 1) + {Slot(origin, size, n - 1)}
  }

  /** Live and pooled addresses are exactly the slots bumped since `origin`, each once. */
  ghost predicate HeapOk(h: Heap) {
    && h.next == Slot(h.origin, h.polyBytes, h.bumps)
    && h.origin >= HBM_BASE
    && (h.polyBytes == 0 ==> h.bumps == 0)
    && Distinct(h.pool)
    && h.live !! ToSet(h.pool)
    && h.live + ToSet(h.pool) == Slots(h.origin, h.polyBytes, h.bumps)
    && |h.live| + |h.pool| == h.bumps
  }

  lemma {:induction false} SlotsDisjoint(origin: nat, size: nat, n: nat, a: DevAddr, b: DevAddr)
    requires a in Slots(origin, size, n) && b in Slots(origin, size, n) && a != b
    ensures a + size <= b || b + size <= a
  {
    var last := Slot(origin, size, n - 1);
    if a != last && b != last {
      SlotsDisjoint(origin, size, n - 1, a, b);
    }
  }

  /** Two different live or pooled addresses never share a byte. */
  lemma ExtentsDisjoint(h: Heap, a: DevAddr, b: DevAddr)
    requires HeapOk(h) && a != b
    requires a in h.live || a in h.pool
    requires b in h.live || b in h.pool
    ensures a + h.polyBytes <= b || b + h.polyBytes <= a
  {
    SlotsDisjoint(h.origin, h.polyBytes, h.bumps, a, b);
  }

  lemma BumpKeepsHeap(h: Heap)
    requires HeapOk(h) && h.polyBytes > 0
    ensures h.next !in h.live && h.next !in h.pool && h.next != NULL
    ensures HeapOk(h.(live := h.live + {h.next}, next := h.next + h.polyBytes, bumps := h.bumps + 1))
  {
    assert h.next !in Slots(h.origin, h.polyBytes, h.bumps);
  }

  lemma PopKeepsHeap(h: Heap)
    requires HeapOk(h) && h.pool != []
    ensures var a := h.pool[|h.pool| - 1];
      a !in h.live && a != NULL && HeapOk(h.(live := h.live + {a}, pool := h.pool[..|h.pool| - 1]))
  {
    var n := |h.pool| - 1;
    var a, rest := h.pool[n], h.pool[..n];
    assert h.pool == rest + [a];
    DistinctSnoc(rest, a);
    ToSetSnoc(rest, a);
    UnionAssociative(h.live, {a}, ToSet(rest));
    assert a in ToSet(h.pool);
  }

  /** The recycled-address check never fires, and a new address is live, new and non-null. */
  lemma AllocateOneSafe(h: Heap)
    requires HeapOk(h) && h.polyBytes > 0
    ensures var (h', r) := AllocateOne(h);
      HeapOk(h') && r.Ok? && r.value !in h.live && r.value != NULL &&
      h'.live == h.live + {r.value} && h'.polyBytes == h.polyBytes
  {
    hide HeapOk;
    if h.pool != [] {
      PopKeepsHeap(h);
    } else {
      BumpKeepsHeap(h);
    }
  }

  lemma FreeOneSafe(h: Heap, a: DevAddr)
    requires HeapOk(h)
    ensures HeapOk(FreeOne(h, a).0)
  {
    if a in h.live {
      assert ToSet(h.pool + [a]) == ToSet(h.pool) + {a};
    }
  }

  /** A new size is safe exactly while nothing is live. */
  lemma SetPolynomialSizeSafe(h: Heap, bytes: nat)
    requires HeapOk(h)
    ensures HeapOk(SetPolynomialSize(h, bytes)) <==> h.live == {} || h.polyBytes == bytes
  {
    if h.polyBytes != bytes {
      var h' := SetPolynomialSize(h, bytes);
      assert h'.live == h.live;
    }
  }

  /** `got` is a batch of new addresses taken from h, leaving h'. */
  ghost predicate Taken(h: Heap, h': Heap, got: seq<DevAddr>) {
    && HeapOk(h') && h'.polyBytes == h.polyBytes
    && Distinct(got)
    && (forall a :: a in got ==> a !in h.live && a != NULL)
    && h'.live == h.live + ToSet(got)
  }

  lemma TakenCons(h: Heap, h1: Heap, h': Heap, a: DevAddr, got: seq<DevAddr>)
    requires h1.live == h.live + {a} && h1.polyBytes == h.polyBytes && a !in h.live && a != NULL
    requires Taken(h1, h', got)
    ensures Taken(h, h', [a] + got)
  {
    hide HeapOk;
    assert a !in got;
    assert ToSet([a] + got) == {a} + ToSet(got);
  }

  lemma {:induction false} GrabSafe(h: Heap, count: nat, taken: seq<DevAddr>)
    returns (got: seq<DevAddr>)
    requires HeapOk(h) && h.polyBytes > 0
    ensures Grab(h, count, taken).1 == Ok(taken + got) && |got| == count
    ensures Taken(h, Grab(h, count, taken).0, got)
    decreases count
  {
    hide HeapOk;
    if count == 0 {
      got := [];
      assert taken + got == taken;
      assert h.live + ToSet(got) == h.live;
    } else {
      var h1, a := TakeOne(h);
      var rest := GrabSafe(h1, count - 1, taken + [a]);
      got := [a] + rest;
      TakenCons(h, h1, Grab(h1, count - 1, taken + [a]).0, a, rest);
      ConcatAssociative(taken, [a], rest);
      GrabStep(h, count, taken, h1, a);
    }
  }

  lemma TakeOne(h: Heap) returns (h1: Heap, a: DevAddr)
    requires HeapOk(h) && h.polyBytes > 0
    ensures AllocateOne(h) == (h1, Ok(a)) && HeapOk(h1)
    ensures h1.live == h.live + {a} && h1.polyBytes == h.polyBytes && a !in h.live && a != NULL
  {
    AllocateOneSafe(h);
    h1, a := AllocateOne(h).0, AllocateOne(h).1.value;
  }

  /** From a healthy heap a batch allocation fails only on its arguments, and what it returns is
      `count` different new live addresses. */
  lemma AllocateManySafe(h: Heap, count: nat, bytes: nat)
    requires HeapOk(h)
    ensures var (h', r) := AllocateMany(h, count, bytes);
      && (r.Ok? <==> count == 0 || (h.polyBytes > 0 && bytes == h.polyBytes))
      && (r.Err? ==> h' == h)
      && (r.Ok? ==> |r.value| == count && Taken(h, h', r.value))
  {
    hide HeapOk;
    if count == 0 {
      assert h.live + ToSet([]) == h.live;
    } else if Validate(h.polyBytes, bytes).Success? {
      var got := GrabSafe(h, count, []);
      EmptyConcat(got);
    }
  }

  // ---- Batches, whatever the heap ----

  lemma {:induction false} FreeAllLive(h: Heap, addrs: seq<DevAddr>)
    ensures FreeAll(h, addrs).live == h.live - ToSet(addrs)
    decreases |addrs|
  {
    if addrs != [] {
      FreeAllLive(FreeOne(h, addrs[0]).0, addrs[1..]);
      assert addrs == [addrs[0]] + addrs[1..];
    }
  }

  lemma {:induction false} GrabAllOrNothing(h: Heap, count: nat, taken: seq<DevAddr>)
    ensures var (h', r) := Grab(h, count, taken);
      match r
      case Err(e) => e == PoolMapDesync && h.pool != [] && h'.live == h.live - ToSet(taken)
      case Ok(out) =>
        |out| == |taken| + count && taken <= out && h'.live == h.live + ToSet(out[|taken|..])
    decreases count
  {
    if count == 0 {
      assert taken[|taken|..] == [];
    } else {
      var (h1, r1) := AllocateOne(h);
      match r1 {
        case Err(_) => FreeAllLive(h1, taken);
        case Ok(a) =>
          GrabAllOrNothing(h1, count - 1, taken + [a]);
          var (h', r) := Grab(h, count, taken);
          if r.Err? {
            assert ToSet(taken + [a]) == ToSet(taken) + {a};
          } else {
            assert r.value[|taken|..] == [a] + r.value[|taken| + 1..];
          }
      }
    }
  }

  /** All or nothing on the live set, even from a pool that holds live entries. */
  lemma AllocateManyAllOrNothing(h: Heap, count: nat, bytes: nat)
    ensures var (h', r) := AllocateMany(h, count, bytes);
      match r
      case Err(_) => h'.live == h.live
      case Ok(out) => |out| == count && h'.live == h.live + ToSet(out)
  {
    if count > 0 && Validate(h.polyBytes, bytes).Success? {
      GrabAllOrNothing(h, count, []);
      var (_, r) := Grab(h, count, []);
      if r.Ok? {
        assert r.value[0..] == r.value;
      }
    }
  }

  /** Entry i of a batch free is bad: not live, or already named earlier in the batch. */
  ghost predicate BadEntry(h: Heap, addrs: seq<DevAddr>, i: nat)
    requires i < |addrs|
  {
    addrs[i] != NULL && (addrs[i] !in h.live || addrs[i] in addrs[..i])
  }

  /** A batch free ends every named lifetime and errs exactly when some entry is bad. */
  lemma {:induction false} FreeManyExact(h: Heap, addrs: seq<DevAddr>)
    ensures var (h', s) := FreeMany(h, addrs);
      && h'.live == h.live - (ToSet(addrs) - {NULL})
      && (s == Failure(UnknownAddress) <==> exists i: nat :: i < |addrs| && BadEntry(h, addrs, i))
      && (s.Failure? ==> s.error == UnknownAddress)
    decreases |addrs|
  {
    if addrs != [] {
      var a, rest := addrs[0], addrs[1..];
      var h1 := if a == NULL then h else FreeOne(h, a).0;
      FreeManyExact(h1, rest);
      assert ToSet(addrs) == {a} + ToSet(rest);
      forall i: nat | i < |rest|
        ensures BadEntry(h, addrs, i + 1) <==> BadEntry(h1, rest, i)
      {
        assert addrs[..i + 1] == [a] + rest[..i];
      }
      if i: nat :| i < |addrs| && BadEntry(h, addrs, i) {
        assert i == 0 || BadEntry(h1, rest, i - 1);
      }
      if i: nat :| i < |rest| && BadEntry(h1, rest, i) {
        assert BadEntry(h, addrs, i + 1);
      }
      assert a != NULL && a !in h.live <==> BadEntry(h, addrs, 0);
    }
  }

  lemma {:induction false} FreeManySafe(h: Heap, addrs: seq<DevAddr>)
    requires HeapOk(h)
    ensures HeapOk(FreeMany(h, addrs).0) && FreeMany(h, addrs).0.polyBytes == h.polyBytes
    decreases |addrs|
  {
    if addrs != [] {
      FreeOneSafe(h, addrs[0]);
      FreeManySafe(if addrs[0] == NULL then h else FreeOne(h, addrs[0]).0, addrs[1..]);
    }
  }

  function Reversed<T>(s: seq<T>): (r: seq<T>)
    ensures |r| == |s|
  {
    if s == [] then [] else Reversed(s[1..]) + [s[0]]
  }

  lemma {:induction false} FreeDistinctPools(h: Heap, addrs: seq<DevAddr>)
    requires Distinct(addrs)
    requires forall a :: a in addrs ==> a in h.live && a != NULL
    ensures FreeMany(h, addrs) == (h.(live := h.live - ToSet(addrs), pool := h.pool + addrs), Success)
    decreases |addrs|
  {
    if addrs == [] {
      assert h.pool + addrs == h.pool;
      assert h.live - ToSet(addrs) == h.live;
    } else {
      var h1 := FreeOne(h, addrs[0]).0;
      assert forall a :: a in addrs[1..] ==> a in h1.live;
      FreeDistinctPools(h1, addrs[1..]);
      assert h.pool + [addrs[0]] + addrs[1..] == h.pool + addrs;
      assert h.live - {addrs[0]} - ToSet(addrs[1..]) == h.live - ToSet(addrs);
    }
  }

  lemma {:induction false} ReversedSnoc<T>(s: seq<T>, x: T)
    ensures Reversed(s + [x]) == [x] + Reversed(s)
  {
    if s != [] {
      ReversedSnoc(s[1..], x);
      assert (s + [x])[1..] == s[1..] + [x];
    }
  }

  lemma DistinctSnoc<T>(s: seq<T>, x: T)
    requires Distinct(s + [x])
    ensures Distinct(s) && x !in s
  {
    forall i, j | 0 <= i < j < |s| ensures s[i] != s[j] {
      assert (s + [x])[i] != (s + [x])[j];
    }
    forall i | 0 <= i < |s| ensures s[i] != x {
      assert (s + [x])[i] != (s + [x])[|s|];
    }
  }

  /** Popping the last entry of a pool that ends in it. */
  lemma PopLast(h: Heap, front: seq<DevAddr>, a: DevAddr)
    requires h.pool == front + [a] && a !in h.live
    ensures AllocateOne(h) == (h.(live := h.live + {a}, pool := front), Ok(a))
  {
    assert (front + [a])[..|front|] == front;
  }

  lemma {:induction false} GrabPops(h: Heap, front: seq<DevAddr>, group: seq<DevAddr>, taken: seq<DevAddr>)
    requires h.pool == front + group
    requires Distinct(group) && forall a :: a in group ==> a !in h.live
    ensures Grab(h, |group|, taken) ==
      (h.(live := h.live + ToSet(group), pool := front), Ok(taken + Reversed(group)))
    decreases |group|
  {
    if group == [] {
      assert h.live + ToSet(group) == h.live;
      assert front + group == front;
      assert taken + Reversed(group) == taken;
    } else {
      var n := |group| - 1;
      var a, rest := group[n], group[..n];
      assert group == rest + [a];
      DistinctSnoc(rest, a);
      ConcatAssociative(front, rest, [a]);
      PopLast(h, front + rest, a);
      var h1 := h.(live := h.live + {a}, pool := front + rest);
      GrabPops(h1, front, rest, taken + [a]);
      GrabStep(h, |group|, taken, h1, a);
      ReversedSnoc(rest, a);
      ConcatAssociative(taken, [a], Reversed(rest));
      ToSetSnoc(rest, a);
      UnionAssociative(h.live, {a}, ToSet(rest));
    }
  }

  lemma GrabStep(h: Heap, count: nat, taken: seq<DevAddr>, h1: Heap, a: DevAddr)
    requires count > 0 && AllocateOne(h) == (h1, Ok(a))
    ensures Grab(h, count, taken) == Grab(h1, count - 1, taken + [a])
  {
  }

  /** Freeing a group and asking for as many again returns the group in reverse, and leaves the
      allocator as it was. */
  lemma FreeThenAllocateReverses(h: Heap, group: seq<DevAddr>)
    requires h.polyBytes > 0
    requires Distinct(group) && forall a :: a in group ==> a in h.live && a != NULL
    ensures var (freed, s) := FreeMany(h, group);
      s == Success && AllocateMany(freed, |group|, h.polyBytes) == (h, Ok(Reversed(group)))
  {
    FreeDistinctPools(h, group);
    var freed := FreeMany(h, group).0;
    GrabPops(freed, h.pool, group, []);
    assert freed.live + ToSet(group) == h.live;
    EmptyConcat(Reversed(group));
    if |group| == 0 {
      assert freed.live == h.live;
      assert h.pool + group == h.pool;
    }
  }
}
