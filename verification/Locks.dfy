/**
 The library's mutexes under any number of threads. A thread may ask for a lock only while every
 lock it holds nests around it. With the nestings of the program no reachable state is stuck; one
 more nesting, back from the allocator to the epoch, and a stuck state is reachable.
 */
module Locks {

  datatype Lock = EpochLock | ConfigLock | AllocatorLock | InitLock

  type Thread = nat

  /** Which lock may be taken while which is held. */
  type Nesting = set<(Lock, Lock)>

  /** epoch.cpp and config.cpp: epoch around config and allocator, config around allocator;
      backend.cpp: init around config. */
  const NESTINGS: Nesting :=
    {(EpochLock, ConfigLock), (EpochLock, AllocatorLock), (ConfigLock, AllocatorLock), (InitLock, ConfigLock)}

  /** Who owns each taken lock, and which lock each blocked thread waits for. */
  datatype State = State(owner: map<Lock, Thread>, waits: map<Thread, Lock>)

  const START := State(map[], map[])

  datatype Step = Ask(t: Thread, l: Lock) | Take(t: Thread) | Drop(t: Thread, l: Lock)

  predicate Holds(s: State, t: Thread, l: Lock) {
    l in s.owner && s.owner[l] == t
  }

  predicate Enabled(nest: Nesting, s: State, step: Step) {
    match step
    case Ask(t, l) => t !in s.waits && forall h :: h in s.owner && s.owner[h] == t ==> (h, l) in nest
    case Take(t) => t in s.waits && s.waits[t] !in s.owner
    case Drop(t, l) => t !in s.waits && Holds(s, t, l)
  }

  function Next(nest: Nesting, s: State, step: Step): State
    requires Enabled(nest, s, step)
  {
    match step
    case Ask(t, l) => s.(waits := s.waits[t := l])
    case Take(t) => State(s.owner[s.waits[t] := t], s.waits - {t})
    case Drop(_, l) => s.(owner := s.owner - {l})
  }

  ghost predicate Reachable(nest: Nesting, s: State, steps: seq<Step>)
    decreases |steps|
  {
    if steps == [] then s == START
    else
      var last := steps[|steps| - 1];
      exists before: State :: Reachable(nest, before, steps[..|steps| - 1]) && Enabled(nest, before, last) &&
        s == Next(nest, before, last)
  }

  // ---- Ranks ----

  function Rank(l: Lock): nat {
    match l
    case EpochLock => 0
    case InitLock => 0
    case ConfigLock => 1
    case AllocatorLock => 2
  }

  ghost predicate Ranked(nest: Nesting) {
    forall h, l :: (h, l) in nest ==> Rank(h) < Rank(l)
  }

  lemma NestingsRanked()
    ensures Ranked(NESTINGS)
  {
  }

  /** A blocked thread waits for a lock above every lock it holds. */
  ghost predicate Ordered(nest: Nesting, s: State) {
    forall t, h :: t in s.waits && Holds(s, t, h) ==> (h, s.waits[t]) in nest
  }

  lemma {:induction false} ReachableOrdered(nest: Nesting, s: State, steps: seq<Step>)
    requires Reachable(nest, s, steps)
    ensures Ordered(nest, s)
    decreases |steps|
  {
    if steps != [] {
      var n := |steps| - 1;
      var before: State :| Reachable(nest, before, steps[..n]) && Enabled(nest, before, steps[n]) &&
        s == Next(nest, before, steps[n]);
      ReachableOrdered(nest, before, steps[..n]);
    }
  }

  /** Some thread can take the lock it waits for, or give one back. */
  ghost predicate Progress(nest: Nesting, s: State) {
    exists step: Step :: (step.Take? || step.Drop?) && Enabled(nest, s, step)
  }

  ghost predicate CanMove(nest: Nesting, s: State, t: Thread) {
    exists step: Step :: (step.Take? || step.Drop?) && step.t == t && Enabled(nest, s, step)
  }

  /** Each thread but the last waits for a lock that the next one holds. */
  ghost predicate Chain(s: State, ts: seq<Thread>) {
    ts != [] && forall i :: 0 <= i < |ts| - 1 ==> ts[i] in s.waits && Holds(s, ts[i + 1], s.waits[ts[i]])
  }

  /** From every blocked thread the chain of holders climbs the ranks and ends at one that can move. */
  lemma Climb(nest: Nesting, s: State, t: Thread) returns (ts: seq<Thread>)
    requires Ranked(nest) && Ordered(nest, s) && t in s.waits
    ensures Chain(s, ts) && ts[0] == t && CanMove(nest, s, ts[|ts| - 1])
    ensures |ts| <= 4 - Rank(s.waits[t])
    decreases 2 - Rank(s.waits[t])
  {
    var l := s.waits[t];
    if l !in s.owner {
      assert Enabled(nest, s, Take(t));
      ts := [t];
    } else {
      var u := s.owner[l];
      assert Holds(s, u, l);
      if u in s.waits {
        var rest := Climb(nest, s, u);
        ts := [t] + rest;
      } else {
        assert Enabled(nest, s, Drop(u, l));
        ts := [t, u];
      }
    }
  }

  /** In a reachable state no thread is blocked for good by a circle of waiting threads. */
  lemma EveryChainEnds(nest: Nesting, s: State, steps: seq<Step>, t: Thread) returns (ts: seq<Thread>)
    requires Ranked(nest) && Reachable(nest, s, steps) && t in s.waits
    ensures Chain(s, ts) && ts[0] == t && CanMove(nest, s, ts[|ts| - 1])
  {
    ReachableOrdered(nest, s, steps);
    ts := Climb(nest, s, t);
  }

  /** No reachable state is deadlocked: whenever a lock is held or awaited, some thread can move. */
  lemma NeverStuck(nest: Nesting, s: State, steps: seq<Step>)
    requires Ranked(nest) && Reachable(nest, s, steps) && s != START
    ensures Progress(nest, s)
  {
    ReachableOrdered(nest, s, steps);
    if s.owner == map[] {
      assert s.waits != map[];
      assert s.waits.Keys != {};
      var t :| t in s.waits;
      assert Enabled(nest, s, Take(t));
    } else {
      assert s.owner.Keys != {};
      var l :| l in s.owner;
      var t := s.owner[l];
      if t in s.waits {
        var ts := Climb(nest, s, t);
      } else {
        assert Enabled(nest, s, Drop(t, l));
      }
    }
  }

  /** The program's nestings never deadlock, for any number of threads and any interleaving. */
  lemma LibraryNeverStuck(s: State, steps: seq<Step>)
    requires Reachable(NESTINGS, s, steps) && s != START
    ensures Progress(NESTINGS, s)
  {
    NestingsRanked();
    NeverStuck(NESTINGS, s, steps);
  }

  // ---- Every request can be served ----

  /** The steps lead from s to s1; they only take awaited locks and give held ones back. */
  ghost predicate Leads(nest: Nesting, s: State, steps: seq<Step>, s1: State)
    decreases |steps|
  {
    if steps == [] then s1 == s
    else
      !steps[0].Ask? && Enabled(nest, s, steps[0]) && Leads(nest, Next(nest, s, steps[0]), steps[1..], s1)
  }

  lemma {:induction false} LeadsTrans(nest: Nesting, s: State, a: seq<Step>, s1: State, b: seq<Step>, s2: State)
    requires Leads(nest, s, a, s1) && Leads(nest, s1, b, s2)
    ensures Leads(nest, s, a + b, s2)
    decreases |a|
  {
    if a == [] {
      assert a + b == b;
    } else {
      assert (a + b)[1..] == a[1..] + b;
      LeadsTrans(nest, Next(nest, s, a[0]), a[1..], s1, b, s2);
    }
  }

  /** What serving a request for `l` leaves alone: the other locks up to its rank and the threads that
      wait for one of those. */
  ghost predicate Undisturbed(s: State, s1: State, l: Lock, t: Thread) {
    && (forall h :: h != l && Rank(h) <= Rank(l) ==>
          (h in s1.owner <==> h in s.owner) && (h in s.owner ==> s1.owner[h] == s.owner[h]))
    && (forall x :: x in s.waits && x != t && Rank(s.waits[x]) <= Rank(l) ==>
          x in s1.waits && s1.waits[x] == s.waits[x])
  }

  /** Whoever holds the lock first gets the lock it waits for itself, if any, then gives this one back. */
  lemma Serve(nest: Nesting, s: State, t: Thread) returns (steps: seq<Step>, s1: State)
    requires Ranked(nest) && Ordered(nest, s) && t in s.waits
    ensures Leads(nest, s, steps, s1) && Holds(s1, t, s.waits[t]) && t !in s1.waits
    ensures Undisturbed(s, s1, s.waits[t], t)
    decreases 2 - Rank(s.waits[t])
  {
    var l := s.waits[t];
    if l !in s.owner {
      steps, s1 := [Take(t)], Next(nest, s, Take(t));
    } else {
      var u := s.owner[l];
      assert Holds(s, u, l);
      var before, s0 := [], s;
      if u in s.waits {
        before, s0 := Serve(nest, s, u);
      }
      assert Holds(s0, u, l) && u !in s0.waits && t in s0.waits && s0.waits[t] == l;
      var freed := Next(nest, s0, Drop(u, l));
      s1 := Next(nest, freed, Take(t));
      var last := [Drop(u, l), Take(t)];
      assert last[1..] == [Take(t)] && last[1..][1..] == [];
      LeadsTrans(nest, s, before, s0, last, s1);
      steps := before + last;
    }
  }

  /** In every reachable state every blocked thread can still get its lock, if the threads above it
      finish: no schedule so far can have locked it out. */
  lemma EveryRequestServable(nest: Nesting, s: State, steps: seq<Step>, t: Thread) returns (more: seq<Step>, s1: State)
    requires Ranked(nest) && Reachable(nest, s, steps) && t in s.waits
    ensures Leads(nest, s, more, s1) && Holds(s1, t, s.waits[t])
  {
    ReachableOrdered(nest, s, steps);
    more, s1 := Serve(nest, s, t);
  }

  // ---- Why the allocator must not call back ----

  const CALLBACK: Nesting := NESTINGS + {(AllocatorLock, EpochLock)}

  lemma Extend(nest: Nesting, s: State, steps: seq<Step>, step: Step)
    requires Reachable(nest, s, steps) && Enabled(nest, s, step)
    ensures Reachable(nest, Next(nest, s, step), steps + [step])
  {
    var more := steps + [step];
    assert more[..|more| - 1] == steps;
    var last := more[|more| - 1];
    assert last == step;
    assert Reachable(nest, s, more[..|more| - 1]) && Enabled(nest, s, last);
  }

  /** With the allocator allowed to take the epoch lock, two threads can block each other for good. */
  lemma CallbackCanStick() returns (s: State, steps: seq<Step>)
    ensures Reachable(CALLBACK, s, steps) && s != START && !Progress(CALLBACK, s)
  {
    hide Reachable;
    steps := [];
    s := START;
    StartReachable();
    s, steps := Grow(s, steps, Ask(0, EpochLock));
    s, steps := Grow(s, steps, Take(0));
    s, steps := Grow(s, steps, Ask(1, AllocatorLock));
    s, steps := Grow(s, steps, Take(1));
    s, steps := Grow(s, steps, Ask(0, AllocatorLock));
    s, steps := Grow(s, steps, Ask(1, EpochLock));
    assert s.owner == map[EpochLock := 0, AllocatorLock := 1];
    assert s.waits == map[0 := AllocatorLock, 1 := EpochLock];
  }

  lemma StartReachable()
    ensures Reachable(CALLBACK, START, [])
  {
  }

  lemma Grow(s: State, steps: seq<Step>, step: Step) returns (s1: State, steps1: seq<Step>)
    requires Reachable(CALLBACK, s, steps) && Enabled(CALLBACK, s, step)
    ensures s1 == Next(CALLBACK, s, step) && steps1 == steps + [step] && Reachable(CALLBACK, s1, steps1)
  {
    s1, steps1 := Next(CALLBACK, s, step), steps + [step];
    Extend(CALLBACK, s, steps, step);
  }
}
