/**
 * What every run of the two futex locks guarantees: they refine a mutex, `wait` returns holding
 * it, no wakeup is lost, and a free lock that somebody wants can always be taken.
 */
module FutexLockTheorems {
  import opened Wrappers
  import opened FutexLock

  // ---------------------------------------------------------------- refinement of a mutex

  function Owner(pcs: seq<Pc>, from: nat := 0): (r: Option<nat>)
    requires from <= |pcs|
    ensures r.Some? ==> from <= r.value < |pcs| && Owns(pcs[r.value])
    ensures r.None? ==> forall i: nat :: from <= i < |pcs| ==> !Owns(pcs[i])
    decreases |pcs| - from
  {
    if from == |pcs| then None
    else if Owns(pcs[from]) then Some(from)
    else Owner(pcs, from + 1)
  }

  /** One step of the abstract mutex: only a free one is taken, only its owner frees it. */
  predicate MutexStep(before: Option<nat>, thread: nat, after: Option<nat>) {
    || after == before
    || (before.None? && after == Some(thread))
    || (before == Some(thread) && after.None?)
  }

  predicate MutexRun(k: Kind, s: State, events: seq<Event>)
    decreases |events|
  {
    events == [] ||
    match Next(k, s, events[0].thread, events[0].choice)
    case None => true
    case Some(s1) => MutexStep(Owner(s.pcs), events[0].thread, Owner(s1.pcs)) && MutexRun(k, s1, events[1..])
  }

  lemma OwnerUnique(s: State, i: nat)
    requires Inv(s) && i < |s.pcs|
    ensures Owns(s.pcs[i]) <==> Owner(s.pcs) == Some(i)
    ensures s.futexVar == 0 <==> Owner(s.pcs) == None
  {
    OwnerFacts(s);
  }

  lemma StepRefinesMutex(k: Kind, s: State, t: nat, c: Choice, s': State)
    requires Inv(s) && Next(k, s, t, c) == Some(s')
    ensures MutexStep(Owner(s.pcs), t, Owner(s'.pcs))
  {
    StepInv(k, s, t, c, s');
    forall u: nat | u < |s.pcs| && u != t
      ensures Owns(s.pcs[u]) == Owns(s'.pcs[u])
    {
    }
    OwnerUnique(s, t);
    OwnerUnique(s', t);
    if Owner(s'.pcs).Some? {
      OwnerUnique(s, Owner(s'.pcs).value);
    }
    if Owner(s.pcs).Some? {
      OwnerUnique(s', Owner(s.pcs).value);
    }
  }

  /** Every run of either lock, from its construction, is a run of the abstract mutex. */
  lemma {:induction false} RunRefinesMutex(k: Kind, s: State, events: seq<Event>)
    requires Inv(s)
    ensures MutexRun(k, s, events)
    decreases |events|
  {
    if events != [] {
      match Next(k, s, events[0].thread, events[0].choice)
      case None =>
      case Some(s1) =>
        StepRefinesMutex(k, s, events[0].thread, events[0].choice, s1);
        StepInv(k, s, events[0].thread, events[0].choice, s1);
        RunRefinesMutex(k, s1, events[1..]);
    }
  }

  /** In every reachable state the word is 1 exactly when one thread holds the lock, no two
      threads ever do, and the counters count the threads between their +1 and their -1. */
  lemma MutualExclusion(k: Kind, s: State)
    requires Reachable(k, s)
    ensures s.futexVar == 0 || s.futexVar == 1
    ensures s.futexVar == 1 <==> exists i: nat :: i < |s.pcs| && Owns(s.pcs[i])
    ensures forall i: nat, j: nat :: i < j < |s.pcs| ==> !(Owns(s.pcs[i]) && Owns(s.pcs[j]))
    ensures s.numFutexWaiters == Count(s.pcs, InFutexWait)
    ensures s.numBruteWaiters == Count(s.pcs, InSpin)
  {
    ReachableInv(k, s);
    OwnerFacts(s);
  }

  /** If the lock is free while a thread sleeps in `futex_wait(1)`, some thread is committed to
      help: it still has to finish check-and-wake, or it is awake on its way to a try. */
  lemma NoWakeupIsLost(k: Kind, s: State, t: nat)
    requires Reachable(k, s)
    requires t < |s.pcs| && s.pcs[t] == Asleep(1) && s.futexVar == 0
    ensures exists u: nat :: u < |s.pcs| && u != t && (Releasing(s.pcs[u]) || Contending(s.pcs[u]))
  {
    ReachableInv(k, s);
    assert LockSleeper(s.pcs[t]);
    var u: nat :| u < |s.pcs| && Helper(s.pcs[u]);
  }

  /** The choice `unlock_c` makes: when it skips the wake because `num_brute_waiters` is not 0,
      a spinner that will still try or go to FUTEX_WAIT(1) exists at that very step. */
  lemma SkippedWakeIsCovered(k: Kind, s: State, t: nat, s': State)
    requires Reachable(k, s) && t < |s.pcs| && s.pcs[t].ReadSpinnersAfter?
    requires Next(k, s, t, Go) == Some(s') && !s'.pcs[t].ReadSleepers?
    ensures exists u: nat :: u < |s.pcs| && u != t && InSpin(s'.pcs[u])
    ensures s'.futexVar == 0 ==> exists u: nat :: u < |s.pcs| && u != t && InSpin(s'.pcs[u]) && Contending(s'.pcs[u])
  {
    ReachableInv(k, s);
    CountWitness(s.pcs, InSpin);
    OwnerFacts(s);
    var u: nat :| u < |s.pcs| && InSpin(s.pcs[u]);
    assert InSpin(s'.pcs[u]) && s'.pcs[u] == s.pcs[u];
  }

  // ---------------------------------------------------------------- wait() returns holding

  /** Where a thread can be between its call of `wait` and the return from it. */
  predicate InWaitCall(pc: Pc) {
    || ((pc.Release? || Releasing(pc)) && pc.waiting)
    || ((pc.SleepEnter? || InFutexWait(pc)) && (pc.expected == 0 || pc.expected == 1))
    || pc.TryFirst? || pc.ReadSpinners? || pc.SpinEnter? || InSpin(pc) || pc.TryAgain?
  }

  function Prefix(k: Kind, s: State, events: seq<Event>, i: nat): (r: Option<State>)
    requires i <= |events|
  {
    Run(k, s, events[..i])
  }

  lemma WaitStep(k: Kind, s: State, t: nat, e: Event, s': State)
    requires Next(k, s, e.thread, e.choice) == Some(s')
    requires t < |s.pcs| && InWaitCall(s.pcs[t])
    ensures t < |s'.pcs| && (InWaitCall(s'.pcs[t]) || s'.pcs[t].Holding?)
  {
  }

  /** Whatever the other threads do, a thread that called `wait` leaves the call only by
      reaching `Holding`, and at that moment it is the owner of the lock. */
  lemma {:induction false} WaitReturnsHolding(k: Kind, s: State, t: nat, events: seq<Event>)
    requires Inv(s) && t < |s.pcs| && InWaitCall(s.pcs[t])
    requires Run(k, s, events).Some?
    requires t < |Run(k, s, events).value.pcs| ==> !InWaitCall(Run(k, s, events).value.pcs[t])
    ensures exists i: nat :: i <= |events| && Prefix(k, s, events, i).Some?
              && var m := Prefix(k, s, events, i).value;
                 t < |m.pcs| && m.pcs[t].Holding? && Owner(m.pcs) == Some(t) && m.futexVar == 1
    decreases |events|
  {
    var e := events[0];
    var s1 := Next(k, s, e.thread, e.choice).value;
    WaitStep(k, s, t, e, s1);
    StepInv(k, s, e.thread, e.choice, s1);
    if s1.pcs[t].Holding? {
      assert events[..1] == [e] && [e][1..] == [];
      assert Run(k, s1, []) == Some(s1);
      assert Prefix(k, s, events, 1) == Some(s1);
      OwnerUnique(s1, t);
    } else {
      WaitReturnsHolding(k, s1, t, events[1..]);
      var i: nat :| i <= |events[1..]| && Prefix(k, s1, events[1..], i).Some?
        && var m := Prefix(k, s1, events[1..], i).value;
           t < |m.pcs| && m.pcs[t].Holding? && Owner(m.pcs) == Some(t) && m.futexVar == 1;
      assert events[..i + 1][0] == e && events[..i + 1][1..] == events[1..][..i];
      assert Prefix(k, s, events, i + 1) == Prefix(k, s1, events[1..], i);
    }
  }

  // ---------------------------------------------------------------- progress

  /** A schedule without spurious wakeups in which no thread that is outside the lock acts. */
  predicate Honest(k: Kind, s: State, events: seq<Event>)
    decreases |events|
  {
    events == [] ||
    (&& events[0].thread < |s.pcs| && !s.pcs[events[0].thread].Idle? && !events[0].choice.Spurious?
     && match Next(k, s, events[0].thread, events[0].choice)
        case None => false
        case Some(s1) => Honest(k, s1, events[1..]))
  }

  /** `events` honestly leads from `s` to a state in which somebody has taken the lock. */
  predicate Acquires(k: Kind, s: State, events: seq<Event>) {
    Honest(k, s, events) && Run(k, s, events).Some? && Run(k, s, events).value.futexVar == 1
  }

  lemma AcquiresCons(k: Kind, s: State, e: Event, s1: State, rest: seq<Event>)
    requires e.thread < |s.pcs| && !s.pcs[e.thread].Idle? && !e.choice.Spurious?
    requires Next(k, s, e.thread, e.choice) == Some(s1) && Acquires(k, s1, rest)
    ensures Acquires(k, s, [e] + rest)
  {
    assert ([e] + rest)[1..] == rest;
  }

  /** Steps a thread needs, alone, until it takes a free lock. */
  function Distance(pc: Pc): nat
    requires Contending(pc)
  {
    match pc
    case SpinEnter(_) => 2
    case SleepLeave(_) => 2
    case SleepCall(_) => 3
    case SleepEnter(_) => 4
    case SpinLost => 5
    case ReadSpinners => 5
    case SpinYield(_) => 6
    case _ => 1
  }

  /** All steps are those of thread `t`. */
  predicate Alone(events: seq<Event>, t: nat) {
    forall i :: 0 <= i < |events| ==> events[i] == Event(t, Go)
  }

  /** A thread awake inside `lock_c` takes a free lock by its own steps, whatever the spin limit. */
  lemma {:induction false} SoloAcquires(k: Kind, s: State, t: nat) returns (events: seq<Event>)
    requires s.futexVar == 0 && t < |s.pcs| && Contending(s.pcs[t]) && ExpectOk(s.pcs[t])
    ensures |events| <= Distance(s.pcs[t]) && Acquires(k, s, events) && Alone(events, t)
    ensures var after := Run(k, s, events).value; t < |after.pcs| && Owns(after.pcs[t])
    decreases Distance(s.pcs[t])
  {
    var e := Event(t, Go);
    var s1 := Next(k, s, t, Go).value;
    if s1.futexVar == 1 {
      assert Run(k, s1, []) == Some(s1);
      AcquiresCons(k, s, e, s1, []);
      events := [e];
    } else {
      var rest := SoloAcquires(k, s1, t);
      AcquiresCons(k, s, e, s1, rest);
      events := [e] + rest;
    }
  }

  /** FUTEX_WAKE hands the free lock to a sleeper, which then takes it in two steps. */
  lemma WakerAcquires(k: Kind, s: State, t: nat, sleeper: nat) returns (events: seq<Event>)
    requires Inv(s) && s.futexVar == 0
    requires t < |s.pcs| && s.pcs[t].WakeOne? && sleeper < |s.pcs| && s.pcs[sleeper].Asleep?
    ensures |events| <= 3 && Acquires(k, s, events)
  {
    var c := Wake({sleeper});
    assert LegalWake(s.pcs, 1, {sleeper}) by {
      assert sleeper in Sleeping(s.pcs);
      assert Sleeping(s.pcs) == (Sleeping(s.pcs) - {sleeper}) + {sleeper};
    }
    var s1 := Next(k, s, t, c).value;
    assert s1.pcs[sleeper] == SleepLeave(s.pcs[sleeper].expected);
    var rest := SoloAcquires(k, s1, sleeper);
    AcquiresCons(k, s, Event(t, c), s1, rest);
    events := [Event(t, c)] + rest;
  }

  /** A thread in the middle of check-and-wake gets the lock taken by whoever it leaves it to. */
  lemma {:induction false} ReleaserAcquires(k: Kind, s: State, t: nat, sleeper: nat) returns (events: seq<Event>)
    requires Inv(s) && s.futexVar == 0
    requires t < |s.pcs| && Releasing(s.pcs[t]) && sleeper < |s.pcs| && s.pcs[sleeper].Asleep?
    ensures |events| <= if s.pcs[t].WakeOne? then 3 else if s.pcs[t].ReadSleepers? then 4 else 6
    ensures Acquires(k, s, events)
    decreases if s.pcs[t].WakeOne? then 0 else if s.pcs[t].ReadSleepers? then 1 else 2
  {
    CountWitness(s.pcs, InFutexWait);
    assert InFutexWait(s.pcs[sleeper]);
    match s.pcs[t] {
      case WakeOne(w) =>
        events := WakerAcquires(k, s, t, sleeper);
      case ReadSpinnersAfter(w) =>
        if s.numBruteWaiters != 0 {
          CountWitness(s.pcs, InSpin);
          OwnerFacts(s);
          var u: nat :| u < |s.pcs| && InSpin(s.pcs[u]);
          events := SoloAcquires(k, s, u);
        } else {
          events := StepThenRelease(k, s, t, sleeper);
        }
      case ReadSleepers(w) =>
        events := StepThenRelease(k, s, t, sleeper);
    }
  }

  lemma {:induction false} StepThenRelease(k: Kind, s: State, t: nat, sleeper: nat) returns (events: seq<Event>)
    requires Inv(s) && s.futexVar == 0
    requires t < |s.pcs| && sleeper < |s.pcs| && s.pcs[sleeper].Asleep? && s.numFutexWaiters != 0
    requires s.pcs[t].ReadSleepers? || (s.pcs[t].ReadSpinnersAfter? && s.numBruteWaiters == 0)
    ensures |events| <= if s.pcs[t].ReadSleepers? then 4 else 5
    ensures Acquires(k, s, events)
    decreases if s.pcs[t].ReadSleepers? then 1 else 2, 0
  {
    var s1 := Next(k, s, t, Go).value;
    StepInv(k, s, t, Go, s1);
    var rest := ReleaserAcquires(k, s1, t, sleeper);
    AcquiresCons(k, s, Event(t, Go), s1, rest);
    events := [Event(t, Go)] + rest;
  }

  const PROGRESS_BOUND: nat := 6

  /** From every reachable state with the lock free and a thread inside `lock_c`, at most six
      steps of threads that are already inside the lock's code, none of them a spurious wakeup,
      end in an acquisition. The bound does not depend on the spin limit or on how many threads
      there are. So the lock is never free with every contender asleep. */
  lemma LockProgress(k: Kind, s: State, t: nat)
    requires Reachable(k, s)
    requires s.futexVar == 0 && t < |s.pcs| && (Contending(s.pcs[t]) || s.pcs[t] == Asleep(1))
    ensures exists events :: |events| <= PROGRESS_BOUND && Acquires(k, s, events)
  {
    ReachableInv(k, s);
    var events: seq<Event>;
    if Contending(s.pcs[t]) {
      events := SoloAcquires(k, s, t);
    } else {
      assert LockSleeper(s.pcs[t]);
      var u: nat :| u < |s.pcs| && Helper(s.pcs[u]);
      if Contending(s.pcs[u]) {
        events := SoloAcquires(k, s, u);
      } else {
        events := ReleaserAcquires(k, s, u, t);
      }
    }
  }

  // ---------------------------------------------------------------- every honest schedule

  /** How many steps, with the lock free, a thread can take or cause another to take until some
      thread tries the lock. */
  function Weight(pc: Pc): nat {
    match pc
    case SpinEnter(_) => 1
    case SleepLeave(_) => 1
    case SleepCall(_) => 2
    case SleepEnter(_) => 3
    case SpinLost => 4
    case ReadSpinners => 4
    case SpinYield(_) => 5
    case WakeOne(_) => 5
    case ReadSleepers(_) => 6
    case ReadSpinnersAfter(_) => 7
    case _ => 0
  }

  function TotalWeight(pcs: seq<Pc>): nat {
    if pcs == [] then 0 else Weight(pcs[0]) + TotalWeight(pcs[1..])
  }

  lemma {:induction false} WeightUpdate(pcs: seq<Pc>, i: nat, pc: Pc)
    requires i < |pcs|
    ensures TotalWeight(pcs[i := pc]) == TotalWeight(pcs) - Weight(pcs[i]) + Weight(pc)
    decreases i
  {
    if i > 0 {
      assert pcs[i := pc][1..] == pcs[1..][i - 1 := pc];
      WeightUpdate(pcs[1..], i - 1, pc);
    } else {
      assert pcs[i := pc][1..] == pcs[1..];
    }
  }

  /** A wake passes on less than what the waker gives up. */
  lemma WakeWeight(pcs: seq<Pc>, t: nat, who: set<nat>, pc: Pc)
    requires t < |pcs| && !pcs[t].Asleep? && LegalWake(pcs, 1, who)
    ensures TotalWeight(Woken(pcs, who)[t := pc]) <= TotalWeight(pcs) - Weight(pcs[t]) + Weight(pc) + 1
  {
    if who == {} {
      assert Woken(pcs, who) == pcs;
    } else {
      var u :| u in who;
      assert who == {u} by {
        assert |who - {u}| == 0;
      }
      assert u in Sleeping(pcs);
      assert Woken(pcs, who) == pcs[u := SleepLeave(pcs[u].expected)];
      WeightUpdate(pcs, u, SleepLeave(pcs[u].expected));
    }
    WeightUpdate(Woken(pcs, who), t, pc);
  }

  /** With the lock free, each honest step either takes it or lowers the total weight. */
  lemma HonestStepDescends(k: Kind, s: State, t: nat, c: Choice, s1: State)
    requires Inv(s) && s.futexVar == 0 && Next(k, s, t, c) == Some(s1)
    requires !s.pcs[t].Idle? && !c.Spurious?
    ensures s1.futexVar == 1 || (s1.futexVar == 0 && TotalWeight(s1.pcs) < TotalWeight(s.pcs))
  {
    hide TotalWeight, NoLostWakeup, Count;
    OwnerFacts(s);
    assert !Owns(s.pcs[t]) && ExpectOk(s.pcs[t]);
    if s.pcs[t].WakeOne? {
      WakeWeight(s.pcs, t, c.who, AfterUnlock(s.pcs[t].waiting));
    } else {
      WeightUpdate(s.pcs, t, s1.pcs[t]);
    }
  }

  /** Every schedule without spurious wakeups and without threads from outside takes a free lock
      within as many steps as the total weight of the program counters and one more. */
  lemma {:induction false} EveryHonestScheduleAcquires(k: Kind, s: State, events: seq<Event>)
    requires Inv(s) && Honest(k, s, events) && |events| > TotalWeight(s.pcs)
    ensures exists i: nat :: i <= |events| && Prefix(k, s, events, i).Some?
                             && Prefix(k, s, events, i).value.futexVar == 1
    decreases |events|
  {
    hide TotalWeight, Next;
    if s.futexVar == 1 {
      assert Prefix(k, s, events, 0) == Some(s);
    } else {
      var e := events[0];
      var s1 := Next(k, s, e.thread, e.choice).value;
      HonestStepDescends(k, s, e.thread, e.choice, s1);
      StepInv(k, s, e.thread, e.choice, s1);
      if s1.futexVar == 1 {
        FirstStep(k, s, events, 0);
        assert Prefix(k, s1, events[1..], 0) == Some(s1);
        assert Prefix(k, s, events, 1) == Some(s1);
      } else {
        EveryHonestScheduleAcquires(k, s1, events[1..]);
        var i: nat :| i <= |events[1..]| && Prefix(k, s1, events[1..], i).Some?
          && Prefix(k, s1, events[1..], i).value.futexVar == 1;
        FirstStep(k, s, events, i);
        assert Prefix(k, s, events, i + 1) == Prefix(k, s1, events[1..], i);
      }
    }
  }

  lemma FirstStep(k: Kind, s: State, events: seq<Event>, i: nat)
    requires i < |events| && Next(k, s, events[0].thread, events[0].choice).Some?
    ensures var s1 := Next(k, s, events[0].thread, events[0].choice).value;
            Prefix(k, s, events, i + 1) == Prefix(k, s1, events[1..], i)
  {
    assert events[..i + 1][0] == events[0] && events[..i + 1][1..] == events[1..][..i];
  }

  /** So the threads inside the lock's code cannot go on for ever without taking a lock that is free,
      and as long as one of them wants it they can go on. */
  lemma NoLivelock(k: Kind, s: State, t: nat, events: seq<Event>)
    requires Reachable(k, s)
    requires s.futexVar == 0 && t < |s.pcs| && (Contending(s.pcs[t]) || s.pcs[t] == Asleep(1))
    ensures exists e :: Honest(k, s, [e])
    ensures Honest(k, s, events) && |events| > TotalWeight(s.pcs) ==>
              exists i: nat :: i <= |events| && Prefix(k, s, events, i).Some?
                               && Prefix(k, s, events, i).value.futexVar == 1
    ensures TotalWeight(s.pcs) <= 7 * |s.pcs|
  {
    ReachableInv(k, s);
    LockProgress(k, s, t);
    var way: seq<Event> :| |way| <= PROGRESS_BOUND && Acquires(k, s, way);
    assert Honest(k, s, [way[0]]) by {
      assert [way[0]][1..] == [];
      assert Honest(k, Next(k, s, way[0].thread, way[0].choice).value, []);
    }
    if Honest(k, s, events) && |events| > TotalWeight(s.pcs) {
      EveryHonestScheduleAcquires(k, s, events);
    }
    WeightBound(s.pcs);
  }

  lemma {:induction false} WeightBound(pcs: seq<Pc>)
    ensures TotalWeight(pcs) <= 7 * |pcs|
  {
    if pcs != [] {
      WeightBound(pcs[1..]);
    }
  }
}
