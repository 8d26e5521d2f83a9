/**
 Double-checked initialization under any number of threads: a lock-free look at the flag, and a
 second look under the mutex before initializing. A reset clears the flag under the same mutex.
 */
module InitProtocol {

  type Thread = nat

  /** Where a thread is in its call. */
  datatype Pc =
    | Look            // about to load the flag without the lock
    | AtDoor          // waiting for the mutex
    | LookAgain       // holds it, about to load the flag again
    | Initializing    // holds it, flag was clear
    | Publishing      // holds it, initialization succeeded, flag not yet set
    | Leaving         // holds it, about to release and return
    | ResetAtDoor     // a reset waiting for the mutex
    | Resetting       // a reset that holds it

  /** What happens that a caller can see. */
  datatype Event = Succeeded | GotTrue(t: Thread) | Cleared

  /** Threads outside any call have no entry in `pc`. */
  datatype State = State(flag: bool, holder: set<Thread>, pc: map<Thread, Pc>, log: seq<Event>)

  const START := State(false, {}, map[], [])

  datatype Step =
    | Enter(t: Thread) | EnterReset(t: Thread)
    | LoadFast(t: Thread) | Lock(t: Thread) | LoadSlow(t: Thread)
    | InitReturns(t: Thread, ok: bool) | Store(t: Thread) | Unlock(t: Thread) | Clear(t: Thread)

  predicate At(s: State, t: Thread, pc: Pc) {
    t in s.pc && s.pc[t] == pc
  }

  predicate Enabled(s: State, step: Step) {
    match step
    case Enter(t) => t !in s.pc
    case EnterReset(t) => t !in s.pc
    case LoadFast(t) => At(s, t, Look)
    case Lock(t) => (At(s, t, AtDoor) || At(s, t, ResetAtDoor)) && s.holder == {}
    case LoadSlow(t) => At(s, t, LookAgain)
    case InitReturns(t, _) => At(s, t, Initializing)
    case Store(t) => At(s, t, Publishing)
    case Unlock(t) => At(s, t, Leaving)
    case Clear(t) => At(s, t, Resetting)
  }

  function Next(s: State, step: Step): State
    requires Enabled(s, step)
  {
    match step
    case Enter(t) => s.(pc := s.pc[t := Look])
    case EnterReset(t) => s.(pc := s.pc[t := ResetAtDoor])
    case LoadFast(t) =>
      if s.flag then s.(pc := s.pc - {t}, log := s.log + [GotTrue(t)]) else s.(pc := s.pc[t := AtDoor])
    case Lock(t) => s.(holder := {t}, pc := s.pc[t := if s.pc[t] == AtDoor then LookAgain else Resetting])
    case LoadSlow(t) =>
      if s.flag then s.(pc := s.pc[t := Leaving], log := s.log + [GotTrue(t)]) else s.(pc := s.pc[t := Initializing])
    case InitReturns(t, ok) =>
      if ok then s.(pc := s.pc[t := Publishing], log := s.log + [Succeeded]) else s.(pc := s.pc[t := Leaving])
    case Store(t) => s.(flag := true, pc := s.pc[t := Leaving], log := s.log + [GotTrue(t)])
    case Unlock(t) => s.(holder := s.holder - {t}, pc := s.pc - {t})
    case Clear(t) => s.(flag := false, pc := s.pc[t := Leaving], log := s.log + [Cleared])
  }

  ghost predicate Reachable(s: State, steps: seq<Step>)
    decreases |steps|
  {
    if steps == [] then s == START
    else
      var last := steps[|steps| - 1];
      exists before: State :: Reachable(before, steps[..|steps| - 1]) && Enabled(before, last) && s == Next(before, last)
  }

  // ---- The invariant ----

  predicate Inside(pc: Pc) {
    pc == LookAgain || pc == Initializing || pc == Publishing || pc == Leaving || pc == Resetting
  }

  /** Whether initialization has succeeded since the last clearing. */
  predicate Live(log: seq<Event>) {
    if log == [] then false
    else
      match log[|log| - 1]
      case Succeeded => true
      case Cleared => false
      case GotTrue(_) => Live(log[..|log| - 1])
  }

  ghost predicate Publishes(s: State, t: Thread) {
    At(s, t, Publishing)
  }

  /** Only the holder of the mutex is inside; the flag is set exactly when initialization has
      succeeded since the last reset and its result is published; while one thread is past its second
      look, nothing has succeeded. */
  ghost predicate Ok(s: State) {
    && (forall t :: t in s.pc && Inside(s.pc[t]) <==> t in s.holder)
    && (forall t, u :: t in s.holder && u in s.holder ==> t == u)
    && (s.flag ==> Live(s.log))
    && (Live(s.log) ==> s.flag || exists t :: Publishes(s, t))
    && (forall t :: Publishes(s, t) ==> Live(s.log) && !s.flag)
    && (forall t :: At(s, t, Initializing) ==> !s.flag)
    && Orderly(s.log)
  }

  // ---- What a log must look like ----

  /** Every answer comes after a success, with no clearing between, and so does no second success. */
  ghost predicate Orderly(log: seq<Event>) {
    && (forall i :: 0 <= i < |log| && log[i].GotTrue? ==> Live(log[..i]))
    && forall i :: 0 <= i < |log| && log[i].Succeeded? ==> !Live(log[..i])
  }

  lemma OrderlySnoc(log: seq<Event>, e: Event)
    requires Orderly(log) && (e.GotTrue? ==> Live(log)) && (e.Succeeded? ==> !Live(log))
    ensures Orderly(log + [e])
    ensures Live(log + [e]) <==> e.Succeeded? || (e.GotTrue? && Live(log))
  {
    var more := log + [e];
    assert more[..|log|] == log;
    forall i | 0 <= i < |more|
      ensures (more[i].GotTrue? ==> Live(more[..i])) && (more[i].Succeeded? ==> !Live(more[..i]))
    {
      if i < |log| {
        assert more[..i] == log[..i];
      }
    }
  }

  lemma StepKeepsOk(s: State, step: Step)
    requires Ok(s) && Enabled(s, step)
    ensures Ok(Next(s, step))
  {
    hide Orderly, Live;
    var s1 := Next(s, step);
    if step.Store? {
      assert Publishes(s, step.t);
    }
    if step.InitReturns? {
      NothingLiveYet(s, step.t);
    }
    if s1.log != s.log {
      OrderlySnoc(s.log, s1.log[|s.log|]);
    }
    if step.InitReturns? && step.ok {
      assert Publishes(s1, step.t);
    } else if t :| Publishes(s, t) {
      assert Inside(s.pc[t]);
      if t != step.t {
        assert Publishes(s1, t);
      }
    }
    forall t | Publishes(s1, t) ensures Live(s1.log) && !s1.flag {
      if t != step.t {
        assert Publishes(s, t);
        InsideAlone(s, t, step);
      }
    }
    forall t | At(s1, t, Initializing) ensures !s1.flag {
      if t != step.t {
        assert At(s, t, Initializing);
        InsideAlone(s, t, step);
      }
    }
  }

  lemma OnlyOneInside(s: State, t: Thread, u: Thread)
    requires Ok(s) && t in s.pc && u in s.pc && Inside(s.pc[t]) && Inside(s.pc[u])
    ensures t == u
  {
    assert t in s.holder && u in s.holder;
  }

  /** While another thread is inside, a step neither publishes, succeeds nor clears. */
  lemma InsideAlone(s: State, t: Thread, step: Step)
    requires Ok(s) && Enabled(s, step) && t != step.t && t in s.pc && Inside(s.pc[t])
    ensures Next(s, step).flag == s.flag
    ensures Live(Next(s, step).log) == Live(s.log)
  {
    hide Orderly;
    var u := step.t;
    if u in s.pc && Inside(s.pc[u]) {
      OnlyOneInside(s, t, u);
    }
    var log := Next(s, step).log;
    if log != s.log {
      assert log[..|log| - 1] == s.log;
    }
  }

  /** A thread still initializing means that nothing has succeeded. */
  lemma NothingLiveYet(s: State, t: Thread)
    requires Ok(s) && At(s, t, Initializing)
    ensures !Live(s.log)
  {
    hide Orderly, Live;
  }

  lemma {:induction false} ReachableOk(s: State, steps: seq<Step>)
    requires Reachable(s, steps)
    ensures Ok(s)
    decreases |steps|
  {
    hide Ok;
    if steps == [] {
      StartOk();
    } else {
      var n := |steps| - 1;
      var before: State :| Reachable(before, steps[..n]) && Enabled(before, steps[n]) && s == Next(before, steps[n]);
      ReachableOk(before, steps[..n]);
      StepKeepsOk(before, steps[n]);
    }
  }

  lemma StartOk()
    ensures Ok(START)
  {
  }

  // ---- The protocol's promises ----

  lemma {:induction false} LiveHasSuccess(log: seq<Event>) returns (j: nat)
    requires Live(log)
    ensures j < |log| && log[j] == Succeeded && forall k :: j < k < |log| ==> log[k] != Cleared
    decreases |log|
  {
    var n := |log| - 1;
    if log[n] == Succeeded {
      j := n;
    } else {
      j := LiveHasSuccess(log[..n]);
    }
  }

  lemma {:induction false} StaysLive(log: seq<Event>, j: nat)
    requires j < |log| && log[j] == Succeeded && forall k :: j < k < |log| ==> log[k] != Cleared
    ensures Live(log)
    decreases |log|
  {
    var n := |log| - 1;
    if j < n && log[n].GotTrue? {
      StaysLive(log[..n], j);
    }
  }

  /** No caller gets true before initialization has completed, with no reset in between. */
  lemma TrueOnlyAfterInit(s: State, steps: seq<Step>, i: nat) returns (j: nat)
    requires Reachable(s, steps) && i < |s.log| && s.log[i].GotTrue?
    ensures j < i && s.log[j] == Succeeded && forall k :: j < k < i ==> s.log[k] != Cleared
  {
    hide Live;
    ReachableOk(s, steps);
    j := LiveHasSuccess(s.log[..i]);
    forall k | j < k < i ensures s.log[k] != Cleared {
      assert s.log[..i][k] == s.log[k];
    }
  }

  /** Some caller has got true, with no reset since. */
  ghost predicate Answered(log: seq<Event>) {
    exists i :: 0 <= i < |log| && log[i].GotTrue? && NoReset(log, i)
  }

  ghost predicate NoReset(log: seq<Event>, i: nat) {
    forall k :: i < k < |log| ==> log[k] != Cleared
  }

  lemma AnsweredSnoc(log: seq<Event>, e: Event)
    requires Answered(log + [e]) && !e.GotTrue?
    ensures Answered(log) && e != Cleared
  {
    var more := log + [e];
    var i :| 0 <= i < |more| && more[i].GotTrue? && NoReset(more, i);
    assert more[|log|] == e;
    forall k | i < k < |log| ensures log[k] != Cleared {
      assert more[k] == log[k];
    }
    assert log[i] == more[i] && NoReset(log, i);
  }

  lemma {:induction false} AnsweredIsFlagged(s: State, steps: seq<Step>)
    requires Reachable(s, steps) && Answered(s.log)
    ensures s.flag
    decreases |steps|
  {
    hide Answered;
    if steps == [] {
      NothingAnswered();
      assert false;
    } else {
      var n := |steps| - 1;
      var before: State :| Reachable(before, steps[..n]) && Enabled(before, steps[n]) && s == Next(before, steps[n]);
      if s.log == before.log {
        AnsweredIsFlagged(before, steps[..n]);
      } else if !s.log[|before.log|].GotTrue? {
        AnsweredSnoc(before.log, s.log[|before.log|]);
        AnsweredIsFlagged(before, steps[..n]);
      }
    }
  }

  lemma NothingAnswered()
    ensures !Answered([])
  {
  }

  /** Once initialization has succeeded, and its result is published, with no reset since, every caller
      gets true at once and without the lock; so does every caller after one that did. */
  lemma FastPathAnswers(s: State, steps: seq<Step>, t: Thread)
    requires Reachable(s, steps) && At(s, t, Look)
    requires Answered(s.log) || (exists j :: 0 <= j < |s.log| && s.log[j] == Succeeded && NoReset(s.log, j))
    requires Answered(s.log) || forall u :: !Publishes(s, u)
    ensures Enabled(s, LoadFast(t))
    ensures var s1 := Next(s, LoadFast(t)); s1.log == s.log + [GotTrue(t)] && t !in s1.pc && s1.holder == s.holder
  {
    hide Answered, Live;
    if Answered(s.log) {
      AnsweredIsFlagged(s, steps);
    } else {
      ReachableOk(s, steps);
      var j :| 0 <= j < |s.log| && s.log[j] == Succeeded && NoReset(s.log, j);
      StaysLive(s.log, j);
    }
  }

  /** Between two successful initializations there is a reset. */
  lemma InitOncePerReset(s: State, steps: seq<Step>, i: nat, j: nat)
    requires Reachable(s, steps) && j < i < |s.log| && s.log[i] == Succeeded && s.log[j] == Succeeded
    ensures exists k :: j < k < i && s.log[k] == Cleared
  {
    hide Live;
    ReachableOk(s, steps);
    if forall k :: j < k < i ==> s.log[k] != Cleared {
      var before := s.log[..i];
      forall k | j < k < |before| ensures before[k] != Cleared {
        assert before[k] == s.log[k];
      }
      StaysLive(before, j);
      assert false;
    }
  }

  /** At most one thread is ever inside the mutex. */
  lemma MutualExclusion(s: State, steps: seq<Step>, t: Thread, u: Thread)
    requires Reachable(s, steps) && t in s.pc && u in s.pc && Inside(s.pc[t]) && Inside(s.pc[u])
    ensures t == u
  {
    ReachableOk(s, steps);
    OnlyOneInside(s, t, u);
  }
}
