/**
 * What single calls of the two locks do: whom `notify` and `unlock_c` wake, that `wait` releases
 * and then goes through FUTEX_WAIT(0), and how long `lock_c` spins before it sleeps.
 */
module FutexCalls {
  import opened Wrappers
  import opened FutexLock
  import opened FutexLockTheorems

  /** A schedule of thread `t` alone that makes one call. */
  predicate OneCall(events: seq<Event>, t: nat, call: Choice) {
    && events != [] && events[0] == Event(t, call)
    && forall i :: 0 < i < |events| ==> events[i].thread == t && (events[i].choice.Go? || events[i].choice.Wake?)
  }

  function Least(a: nat, b: nat): nat {
    if a <= b then a else b
  }

  /** From `s` to `z`, `n` of the sleepers were woken and returned from FUTEX_WAIT; except for them and
      `t` no thread has moved. */
  ghost predicate WokeJust(s: State, z: State, t: nat, n: nat) {
    && |z.pcs| == |s.pcs| && t < |s.pcs|
    && |Sleeping(s.pcs)| == |Sleeping(z.pcs)| + n && Sleeping(z.pcs) <= Sleeping(s.pcs)
    && forall u: nat :: u < |s.pcs| && u != t ==>
         z.pcs[u] == if u in Sleeping(s.pcs) - Sleeping(z.pcs) then SleepLeave(s.pcs[u].expected) else s.pcs[u]
  }

  lemma WakeEffect(s: State, z: State, t: nat, n: nat, who: set<nat>, pc: Pc)
    requires t < |s.pcs| && !s.pcs[t].Asleep? && !pc.Asleep?
    requires LegalWake(s.pcs, n, who) && z.pcs == Woken(s.pcs, who)[t := pc]
    ensures WokeJust(s, z, t, Least(n, |Sleeping(s.pcs)|))
  {
    assert forall u :: u in who ==> u in Sleeping(s.pcs);
    assert Sleeping(z.pcs) == Sleeping(s.pcs) - who;
    assert Sleeping(s.pcs) - Sleeping(z.pcs) == who;
  }

  lemma NoWakeEffect(s: State, z: State, t: nat, pc: Pc)
    requires t < |s.pcs| && !s.pcs[t].Asleep? && !pc.Asleep? && z.pcs == s.pcs[t := pc]
    ensures WokeJust(s, z, t, 0)
  {
    assert Sleeping(z.pcs) == Sleeping(s.pcs);
  }

  /** With the counter at 0 nobody sleeps. */
  lemma NoneAsleep(s: State)
    requires Inv(s) && s.numFutexWaiters == 0
    ensures Sleeping(s.pcs) == {}
  {
    CountWitness(s.pcs, InFutexWait);
    if u: nat :| u in Sleeping(s.pcs) {
      assert InFutexWait(s.pcs[u]);
    }
  }

  lemma RunOne(k: Kind, s: State, events: seq<Event>)
    requires events != [] && Run(k, s, events).Some?
    ensures Next(k, s, events[0].thread, events[0].choice).Some?
    ensures Run(k, s, events) == Run(k, Next(k, s, events[0].thread, events[0].choice).value, events[1..])
  {
  }

  // ---------------------------------------------------------------- notify

  /** The choices of a running call are not open to a thread that is between calls. */
  lemma CallEnds(k: Kind, s: State, t: nat, events: seq<Event>)
    requires t < |s.pcs| && (s.pcs[t].Holding? || s.pcs[t].Idle?) && Run(k, s, events).Some?
    requires forall i :: 0 <= i < |events| ==> events[i].thread == t && (events[i].choice.Go? || events[i].choice.Wake?)
    ensures events == []
  {
    if events != [] {
      RunOne(k, s, events);
    }
  }

  /** `notify(n)` by the holder, undisturbed, wakes `n` sleepers, or all when there are fewer, and does
      nothing else. */
  lemma NotifyWakes(k: Kind, s: State, t: nat, n: nat, events: seq<Event>, z: State)
    requires Inv(s) && t < |s.pcs| && s.pcs[t].Holding?
    requires OneCall(events, t, CallNotify(n)) && Run(k, s, events) == Some(z)
    requires t < |z.pcs| && z.pcs[t].Holding?
    ensures z == s.(pcs := z.pcs) && WokeJust(s, z, t, Least(n, |Sleeping(s.pcs)|))
  {
    hide Run, Count;
    RunOne(k, s, events);
    var s1 := Next(k, s, t, CallNotify(n)).value;
    var rest := events[1..];
    assert s1 == s.(pcs := s.pcs[t := NotifyRead(n)]);
    RunNone(k, s1, rest);
    RunOne(k, s1, rest);
    assert rest[0] == events[1];
    var s2 := Next(k, s1, t, rest[0].choice).value;
    if s.numFutexWaiters == 0 {
      CallEnds(k, s2, t, rest[1..]);
      RunNone(k, s2, rest[1..]);
      NoneAsleep(s);
      NoWakeEffect(s, z, t, Holding);
    } else {
      assert s2 == s.(pcs := s.pcs[t := NotifyWake(n)]);
      RunNone(k, s2, rest[1..]);
      RunOne(k, s2, rest[1..]);
      assert rest[1..][0] == events[2];
      WakeStep(s, s2, t, NotifyWake(n));
      var s3 := Next(k, s2, t, events[2].choice).value;
      CallEnds(k, s3, t, rest[1..][1..]);
      RunNone(k, s3, rest[1..][1..]);
      WokenBeside(s.pcs, t, NotifyWake(n), Holding, events[2].choice.who);
      WakeEffect(s, z, t, n, events[2].choice.who, Holding);
    }
  }

  lemma RunNone(k: Kind, s: State, events: seq<Event>)
    ensures events == [] ==> Run(k, s, events) == Some(s)
  {
  }

  /** The pc of a thread that is awake on both sides does not matter to who sleeps. */
  lemma WakeStep(s: State, s1: State, t: nat, pc: Pc)
    requires t < |s.pcs| && !s.pcs[t].Asleep? && !pc.Asleep? && s1.pcs == s.pcs[t := pc]
    ensures Sleeping(s1.pcs) == Sleeping(s.pcs)
  {
  }

  lemma WokenBeside(pcs: seq<Pc>, t: nat, pc: Pc, next: Pc, who: set<nat>)
    requires t < |pcs| && t !in who
    ensures Woken(pcs[t := pc], who)[t := next] == Woken(pcs, who)[t := next]
  {
  }

  /** In every state of the run thread `u` is between the +1 and the -1 of `futex_wait`. */
  ghost predicate StaysInFutexWait(k: Kind, s: State, events: seq<Event>, u: nat) {
    forall i: nat :: i <= |events| && Prefix(k, s, events, i).Some? ==>
      var m := Prefix(k, s, events, i).value; u < |m.pcs| && InFutexWait(m.pcs[u])
  }

  /** Event `i` of the run is the FUTEX_WAKE with `n` of thread `t`. */
  ghost predicate Wakes(k: Kind, s: State, events: seq<Event>, i: nat, t: nat, n: nat) {
    && i < |events| && events[i].thread == t && events[i].choice.Wake?
    && Prefix(k, s, events, i).Some? && Prefix(k, s, events, i + 1).Some?
    && var m, z := Prefix(k, s, events, i).value, Prefix(k, s, events, i + 1).value;
       && t < |m.pcs| && LegalWake(m.pcs, n, events[i].choice.who)
       && WokeJust(m, z, t, Least(n, |Sleeping(m.pcs)|))
  }

  lemma OthersLeaveAlone(k: Kind, s: State, t: nat, e: Event, s1: State)
    requires t < |s.pcs| && !s.pcs[t].Asleep? && e.thread != t && Next(k, s, e.thread, e.choice) == Some(s1)
    ensures t < |s1.pcs| && s1.pcs[t] == s.pcs[t]
  {
  }

  /** A thread that has read a count of sleepers that was not 0 wakes, whatever others do meanwhile. */
  lemma {:induction false} WakePending(k: Kind, s: State, t: nat, n: nat, events: seq<Event>)
    requires t < |s.pcs| && s.pcs[t] == NotifyWake(n) && Run(k, s, events).Some?
    requires t < |Run(k, s, events).value.pcs| && Run(k, s, events).value.pcs[t].Holding?
    ensures exists i: nat :: Wakes(k, s, events, i, t, n)
    decreases |events|
  {
    hide Run, Wakes;
    RunNone(k, s, events);
    RunOne(k, s, events);
    var e := events[0];
    var s1 := Next(k, s, e.thread, e.choice).value;
    if e.thread == t {
      WakesNow(k, s, t, n, events, s1);
    } else {
      OthersLeaveAlone(k, s, t, e, s1);
      WakePending(k, s1, t, n, events[1..]);
      var i: nat :| Wakes(k, s1, events[1..], i, t, n);
      WakesLater(k, s, events, i, t, n);
    }
  }

  lemma WakesNow(k: Kind, s: State, t: nat, n: nat, events: seq<Event>, s1: State)
    requires t < |s.pcs| && s.pcs[t] == NotifyWake(n) && events != [] && events[0].thread == t
    requires Next(k, s, t, events[0].choice) == Some(s1)
    ensures Wakes(k, s, events, 0, t, n)
  {
    hide Run, WokeJust;
    FirstStep(k, s, events, 0);
    RunNone(k, s1, events[1..][..0]);
    RunNone(k, s, events[..0]);
    WakeEffect(s, s1, t, n, events[0].choice.who, Holding);
  }

  /** A call of `notify(n)` during which some thread stays in `futex_wait` makes a FUTEX_WAKE with `n`. */
  lemma {:induction false} NotifyReachesWake(k: Kind, s: State, t: nat, n: nat, u: nat, events: seq<Event>)
    requires Inv(s) && t < |s.pcs| && s.pcs[t] == NotifyRead(n) && Run(k, s, events).Some?
    requires t < |Run(k, s, events).value.pcs| && Run(k, s, events).value.pcs[t].Holding?
    requires StaysInFutexWait(k, s, events, u)
    ensures exists i: nat :: Wakes(k, s, events, i, t, n)
    decreases |events|
  {
    hide Run, Count, Wakes;
    RunNone(k, s, events);
    RunOne(k, s, events);
    var e := events[0];
    var s1 := Next(k, s, e.thread, e.choice).value;
    StepInv(k, s, e.thread, e.choice, s1);
    StillStays(k, s, events, u);
    if e.thread == t {
      CountWitness(s.pcs, InFutexWait);
      WakePending(k, s1, t, n, events[1..]);
    } else {
      OthersLeaveAlone(k, s, t, e, s1);
      NotifyReachesWake(k, s1, t, n, u, events[1..]);
    }
    var i: nat :| Wakes(k, s1, events[1..], i, t, n);
    WakesLater(k, s, events, i, t, n);
  }

  lemma StillStays(k: Kind, s: State, events: seq<Event>, u: nat)
    requires events != [] && Next(k, s, events[0].thread, events[0].choice).Some? && StaysInFutexWait(k, s, events, u)
    ensures var s1 := Next(k, s, events[0].thread, events[0].choice).value;
            u < |s.pcs| && InFutexWait(s.pcs[u]) && StaysInFutexWait(k, s1, events[1..], u)
  {
    hide Run;
    var s1 := Next(k, s, events[0].thread, events[0].choice).value;
    RunNone(k, s, events[..0]);
    assert Prefix(k, s, events, 0) == Some(s);
    forall i: nat | i <= |events[1..]| && Prefix(k, s1, events[1..], i).Some?
      ensures var m := Prefix(k, s1, events[1..], i).value; u < |m.pcs| && InFutexWait(m.pcs[u])
    {
      FirstStep(k, s, events, i);
      assert Prefix(k, s, events, i + 1).Some?;
    }
  }

  lemma WakesLater(k: Kind, s: State, events: seq<Event>, i: nat, t: nat, n: nat)
    requires events != [] && Next(k, s, events[0].thread, events[0].choice).Some?
    requires Wakes(k, Next(k, s, events[0].thread, events[0].choice).value, events[1..], i, t, n)
    ensures Wakes(k, s, events, i + 1, t, n)
  {
    FirstStep(k, s, events, i);
    FirstStep(k, s, events, i + 1);
  }

  // ---------------------------------------------------------------- unlock_c

  /** Whom `unlock_c` is to wake: one sleeper, unless a spinner is there to take the lock. */
  function WokenByUnlock(k: Kind, s: State): nat {
    if k.Brute? && s.numBruteWaiters != 0 then 0 else Least(1, |Sleeping(s.pcs)|)
  }

  /** The part of `unlock_c` after its store, alone. */
  lemma {:induction false} WakesOneAlone(k: Kind, s: State, t: nat, events: seq<Event>, z: State)
    requires Inv(s) && t < |s.pcs| && Releasing(s.pcs[t]) && !s.pcs[t].waiting
    requires s.pcs[t].WakeOne? || s.pcs[t].ReadSleepers? || k.Brute?
    requires forall i :: 0 <= i < |events| ==> events[i].thread == t && (events[i].choice.Go? || events[i].choice.Wake?)
    requires Run(k, s, events) == Some(z) && t < |z.pcs| && z.pcs[t].Idle?
    ensures z == s.(pcs := z.pcs)
    ensures WokeJust(s, z, t,
                     if s.pcs[t].ReadSpinnersAfter? then WokenByUnlock(k, s) else Least(1, |Sleeping(s.pcs)|))
    decreases |events|
  {
    hide Run, Count;
    RunNone(k, s, events);
    RunOne(k, s, events);
    var s1 := Next(k, s, t, events[0].choice).value;
    var rest := events[1..];
    RunNone(k, s1, rest);
    if s1.pcs[t].Idle? {
      CallEnds(k, s1, t, rest);
      if s.pcs[t].WakeOne? {
        WakeEffect(s, s1, t, 1, events[0].choice.who, Idle);
      } else {
        if s.numFutexWaiters == 0 {
          NoneAsleep(s);
        }
        NoWakeEffect(s, s1, t, Idle);
      }
    } else {
      StepInv(k, s, t, events[0].choice, s1);
      WakesOneAlone(k, s1, t, rest, z);
      WakeStep(s, s1, t, s1.pcs[t]);
    }
  }

  /** `unlock_c` by the holder, undisturbed, stores 0 and wakes whom it is to wake, nothing else. */
  lemma UnlockWakes(k: Kind, s: State, t: nat, events: seq<Event>, z: State)
    requires Inv(s) && t < |s.pcs| && s.pcs[t].Holding?
    requires OneCall(events, t, CallUnlock) && Run(k, s, events) == Some(z)
    requires t < |z.pcs| && z.pcs[t].Idle?
    ensures z == s.(futexVar := 0, pcs := z.pcs) && WokeJust(s, z, t, WokenByUnlock(k, s))
  {
    hide Run, Count;
    RunOne(k, s, events);
    var s1 := Next(k, s, t, CallUnlock).value;
    StepInv(k, s, t, CallUnlock, s1);
    RunNone(k, s1, events[1..]);
    RunOne(k, s1, events[1..]);
    assert events[1..][0] == events[1];
    var s2 := Next(k, s1, t, events[1].choice).value;
    StepInv(k, s1, t, events[1].choice, s2);
    WakesOneAlone(k, s2, t, events[1..][1..], z);
    WakeStep(s, s1, t, s1.pcs[t]);
    WakeStep(s1, s2, t, s2.pcs[t]);
  }

  // ---------------------------------------------------------------- wait

  /** Event `i` of the run is a step that thread `t` takes from `pc`, and leads from `m` to `z`. */
  ghost predicate Moves(k: Kind, s: State, events: seq<Event>, i: nat, t: nat, pc: Pc, m: State, z: State) {
    && i < |events| && events[i].thread == t
    && Prefix(k, s, events, i) == Some(m) && Prefix(k, s, events, i + 1) == Some(z)
    && Next(k, m, t, events[i].choice) == Some(z) && t < |m.pcs| && m.pcs[t] == pc
  }

  lemma MovesFirst(k: Kind, s: State, events: seq<Event>, t: nat, s1: State)
    requires events != [] && events[0].thread == t && t < |s.pcs| && Next(k, s, t, events[0].choice) == Some(s1)
    ensures Moves(k, s, events, 0, t, s.pcs[t], s, s1)
  {
    hide Next;
    FirstStep(k, s, events, 0);
    RunNone(k, s1, events[1..][..0]);
    RunNone(k, s, events[..0]);
  }

  lemma MovesLater(k: Kind, s: State, events: seq<Event>, s1: State, i: nat, t: nat, pc: Pc, m: State, z: State)
    requires events != [] && Next(k, s, events[0].thread, events[0].choice) == Some(s1)
    requires Moves(k, s1, events[1..], i, t, pc, m, z)
    ensures Moves(k, s, events, i + 1, t, pc, m, z)
  {
    hide Next, Run;
    FirstStep(k, s, events, i);
    FirstStep(k, s, events, i + 1);
  }

  /** In `wait`, after the store of 0 and up to the call of FUTEX_WAIT. */
  predicate BeforeSleep(pc: Pc) {
    (Releasing(pc) && pc.waiting) || pc == SleepEnter(0) || pc == SleepCall(0)
  }

  lemma {:induction false} ReachesFutexWait(k: Kind, s: State, t: nat, events: seq<Event>)
    returns (i: nat, m: State, z: State)
    requires t < |s.pcs| && BeforeSleep(s.pcs[t]) && Run(k, s, events).Some?
    requires t < |Run(k, s, events).value.pcs| && Run(k, s, events).value.pcs[t].Holding?
    ensures Moves(k, s, events, i, t, SleepCall(0), m, z)
    decreases |events|
  {
    hide Run, Moves;
    RunNone(k, s, events);
    RunOne(k, s, events);
    var e := events[0];
    var s1 := Next(k, s, e.thread, e.choice).value;
    if e.thread == t && s.pcs[t].SleepCall? {
      MovesFirst(k, s, events, t, s1);
      i, m, z := 0, s, s1;
    } else {
      if e.thread != t {
        OthersLeaveAlone(k, s, t, e, s1);
      }
      i, m, z := ReachesFutexWait(k, s1, t, events[1..]);
      MovesLater(k, s, events, s1, i, t, SleepCall(0), m, z);
      i := i + 1;
    }
  }

  lemma {:induction false} ReleasesThenWaits(k: Kind, s: State, t: nat, events: seq<Event>)
    returns (j: nat, released: State, i: nat, m: State, z: State)
    requires t < |s.pcs| && s.pcs[t] == Release(true) && Run(k, s, events).Some?
    requires t < |Run(k, s, events).value.pcs| && Run(k, s, events).value.pcs[t].Holding?
    ensures j < i < |events| && released.futexVar == 0 && Prefix(k, s, events, j + 1) == Some(released)
    ensures Moves(k, s, events, i, t, SleepCall(0), m, z)
    decreases |events|
  {
    hide Run, Moves;
    RunNone(k, s, events);
    RunOne(k, s, events);
    var e := events[0];
    var s1 := Next(k, s, e.thread, e.choice).value;
    if e.thread == t {
      i, m, z := ReachesFutexWait(k, s1, t, events[1..]);
      FirstStep(k, s, events, 0);
      RunNone(k, s1, events[1..][..0]);
      j, released := 0, s1;
    } else {
      OthersLeaveAlone(k, s, t, e, s1);
      j, released, i, m, z := ReleasesThenWaits(k, s1, t, events[1..]);
      FirstStep(k, s, events, j + 1);
      j := j + 1;
    }
    MovesIndex(k, s1, events[1..], i, t, SleepCall(0), m, z);
    MovesLater(k, s, events, s1, i, t, SleepCall(0), m, z);
    i := i + 1;
  }

  lemma MovesIndex(k: Kind, s: State, events: seq<Event>, i: nat, t: nat, pc: Pc, m: State, z: State)
    requires Moves(k, s, events, i, t, pc, m, z)
    ensures i < |events|
  {
  }

  /** Every call of `wait` stores 0 and after that calls FUTEX_WAIT(0), whatever others do: unless that
      returns spuriously, the thread falls asleep exactly when the word is 0 at that moment. */
  lemma WaitReleasesAndSleeps(k: Kind, s: State, t: nat, events: seq<Event>)
    returns (j: nat, released: State, i: nat, m: State, z: State)
    requires t < |s.pcs| && s.pcs[t].Holding? && Run(k, s, events).Some?
    requires events != [] && events[0] == Event(t, CallWait)
    requires t < |Run(k, s, events).value.pcs| && Run(k, s, events).value.pcs[t].Holding?
    ensures 0 < j < i < |events| && Prefix(k, s, events, j + 1) == Some(released) && released.futexVar == 0
    ensures events[i].thread == t && Prefix(k, s, events, i) == Some(m) && Prefix(k, s, events, i + 1) == Some(z)
    ensures t < |m.pcs| == |z.pcs| && m.pcs[t] == SleepCall(0)
    ensures z == m.(pcs := z.pcs)
    ensures z.pcs[t] == if events[i].choice.Go? && m.futexVar == 0 then Asleep(0) else SleepLeave(0)
  {
    hide Run;
    RunOne(k, s, events);
    var s1 := Next(k, s, t, CallWait).value;
    j, released, i, m, z := ReleasesThenWaits(k, s1, t, events[1..]);
    MovesIndex(k, s1, events[1..], i, t, SleepCall(0), m, z);
    FirstStep(k, s, events, j + 1);
    MovesLater(k, s, events, s1, i, t, SleepCall(0), m, z);
    j, i := j + 1, i + 1;
  }

  // ---------------------------------------------------------------- lock_c on a lock that is held

  function Steps(t: nat, n: nat): (events: seq<Event>)
    ensures |events| == n
  {
    seq(n, i => Event(t, Go))
  }

  lemma StepsOne(k: Kind, s: State, t: nat, n: nat, s1: State)
    requires Next(k, s, t, Go) == Some(s1)
    ensures Run(k, s, Steps(t, n + 1)) == Run(k, s1, Steps(t, n))
  {
    hide Next;
    assert Steps(t, n + 1)[1..] == Steps(t, n);
  }

  /** Thread `t` has gone to sleep in FUTEX_WAIT(1), nothing else has changed. */
  function FallenAsleep(s: State, t: nat): State
    requires t < |s.pcs|
  {
    s.(numFutexWaiters := s.numFutexWaiters + 1, pcs := s.pcs[t := Asleep(1)])
  }

  lemma GoesToSleep(k: Kind, s: State, t: nat)
    requires t < |s.pcs| && s.pcs[t] == SleepEnter(1) && s.futexVar == 1
    ensures Run(k, s, Steps(t, 2)) == Some(FallenAsleep(s, t))
  {
    var s1 := Next(k, s, t, Go).value;
    var s2 := Next(k, s1, t, Go).value;
    StepsOne(k, s, t, 1, s1);
    StepsOne(k, s1, t, 0, s2);
    assert s2.pcs == s.pcs[t := Asleep(1)];
  }

  /** A spinner tries `left` times, yielding after each, and then goes to sleep. */
  lemma {:induction false} SpinsOut(k: Kind, s: State, t: nat, left: nat)
    requires t < |s.pcs| && left > 0 && s.pcs[t] == SpinTry(left) && s.futexVar == 1
    ensures Run(k, s, Steps(t, 2 * left + 3)) == Some(FallenAsleep(s, t).(numBruteWaiters := s.numBruteWaiters - 1))
    decreases left
  {
    hide Run;
    var s1 := Next(k, s, t, Go).value;
    var s2 := Next(k, s1, t, Go).value;
    StepsOne(k, s, t, 2 * left + 2, s1);
    StepsOne(k, s1, t, 2 * left + 1, s2);
    if left > 1 {
      assert s2 == s.(pcs := s.pcs[t := SpinTry(left - 1)]);
      SpinsOut(k, s2, t, left - 1);
      assert s2.pcs[t := Asleep(1)] == s.pcs[t := Asleep(1)];
    } else {
      var s3 := Next(k, s2, t, Go).value;
      StepsOne(k, s2, t, 2, s3);
      GoesToSleep(k, s3, t);
      assert s3.pcs[t := Asleep(1)] == s.pcs[t := Asleep(1)];
    }
  }

  /** Own steps that `lock_c` takes on a lock that stays held: a first try, and in Brute, when fewer
      threads spin than allowed, exactly as many further tries as the limit says, then FUTEX_WAIT(1). */
  function StepsToSleep(k: Kind, s: State): nat {
    match k
    case Simple => 3
    case Brute(limit, count) => if s.numBruteWaiters < count && limit > 0 then 2 * limit + 6 else 4
  }

  lemma ContendsThenSleeps(k: Kind, s: State, t: nat)
    requires t < |s.pcs| && s.pcs[t] == TryFirst && s.futexVar == 1
    requires k.Brute? && s.numBruteWaiters < k.waitersCount ==> k.waitLimit > 0
    ensures Run(k, s, Steps(t, StepsToSleep(k, s))) == Some(FallenAsleep(s, t))
  {
    hide Run;
    var n := StepsToSleep(k, s);
    var s1 := Next(k, s, t, Go).value;
    StepsOne(k, s, t, n - 1, s1);
    if k.Simple? {
      GoesToSleep(k, s1, t);
      assert s1.pcs[t := Asleep(1)] == s.pcs[t := Asleep(1)];
    } else {
      var s2 := Next(k, s1, t, Go).value;
      StepsOne(k, s1, t, n - 2, s2);
      if s.numBruteWaiters < k.waitersCount {
        var s3 := Next(k, s2, t, Go).value;
        StepsOne(k, s2, t, n - 3, s3);
        SpinsOut(k, s3, t, k.waitLimit);
        assert s3.pcs[t := Asleep(1)] == s.pcs[t := Asleep(1)];
      } else {
        GoesToSleep(k, s2, t);
        assert s2.pcs[t := Asleep(1)] == s.pcs[t := Asleep(1)];
      }
    }
  }

  /** A waiter woken for a lock that is held tries once and goes back to sleep, without spinning. */
  lemma WokenSleepsAgain(k: Kind, s: State, t: nat)
    requires t < |s.pcs| && s.pcs[t] == SleepLeave(1) && s.futexVar == 1
    ensures Run(k, s, Steps(t, 4)) == Some(s.(pcs := s.pcs[t := Asleep(1)]))
  {
    hide Run;
    var s1 := Next(k, s, t, Go).value;
    var s2 := Next(k, s1, t, Go).value;
    StepsOne(k, s, t, 3, s1);
    StepsOne(k, s1, t, 2, s2);
    GoesToSleep(k, s2, t);
    assert s2.pcs[t := Asleep(1)] == s.pcs[t := Asleep(1)];
  }

  /** A thread back from the FUTEX_WAIT of `wait` contends like one that has just called `lock_c`. */
  lemma NotifiedContends(k: Kind, s: State, t: nat)
    requires t < |s.pcs| && s.pcs[t] == SleepLeave(0) && s.futexVar == 1
    requires k.Brute? && s.numBruteWaiters < k.waitersCount ==> k.waitLimit > 0
    ensures Run(k, s, Steps(t, StepsToSleep(k, s) + 1)) == Some(s.(pcs := s.pcs[t := Asleep(1)]))
  {
    hide Run;
    var s1 := Next(k, s, t, Go).value;
    StepsOne(k, s, t, StepsToSleep(k, s), s1);
    ContendsThenSleeps(k, s1, t);
    assert s1.pcs[t := Asleep(1)] == s.pcs[t := Asleep(1)];
  }

  /** On a free lock a contender, alone, comes out of `lock_c` holding it. */
  lemma {:induction false} ReturnsHolding(k: Kind, s: State, t: nat) returns (n: nat)
    requires t < |s.pcs| && ExpectOk(s.pcs[t])
    requires (Contending(s.pcs[t]) && s.futexVar == 0) || s.pcs[t].SpinWon?
    ensures n <= (if s.pcs[t].SpinWon? then 1 else Distance(s.pcs[t]) + 1) && Run(k, s, Steps(t, n)).Some?
    ensures var z := Run(k, s, Steps(t, n)).value; |z.pcs| == |s.pcs| && z.pcs[t].Holding?
    decreases if s.pcs[t].SpinWon? then 0 else 1 + Distance(s.pcs[t])
  {
    hide Run;
    var s1 := Next(k, s, t, Go).value;
    if s1.pcs[t].Holding? {
      RunNone(k, s1, Steps(t, 0));
      n := 0;
    } else {
      n := ReturnsHolding(k, s1, t);
    }
    StepsOne(k, s, t, n, s1);
    n := n + 1;
  }

  /** With a limit of 0 or less, counting down does not meet 0 (until the counter overflows): a spinner
      goes on for as long as the lock is held. */
  lemma {:induction false} SpinsForever(k: Kind, s: State, t: nat, left: int, n: nat)
    requires t < |s.pcs| && left <= 0 && s.pcs[t] == SpinTry(left) && s.futexVar == 1
    ensures Run(k, s, Steps(t, 2 * n)) == Some(s.(pcs := s.pcs[t := SpinTry(left - n)]))
    decreases n
  {
    hide Run;
    if n == 0 {
      RunNone(k, s, Steps(t, 0));
      assert s.pcs[t := SpinTry(left)] == s.pcs;
    } else {
      var s1 := Next(k, s, t, Go).value;
      var s2 := Next(k, s1, t, Go).value;
      StepsOne(k, s, t, 2 * n - 1, s1);
      StepsOne(k, s1, t, 2 * n - 2, s2);
      SpinsForever(k, s2, t, left - 1, n - 1);
      assert s2.pcs[t := SpinTry(left - n)] == s.pcs[t := SpinTry(left - n)];
    }
  }

  // ---------------------------------------------------------------- calls can be made

  lemma RunsTwo(k: Kind, s: State, e: Event, s1: State, rest: seq<Event>)
    requires Next(k, s, e.thread, e.choice) == Some(s1)
    ensures Run(k, s, [e] + rest) == Run(k, s1, rest)
  {
    assert ([e] + rest)[1..] == rest;
  }

  /** A choice for FUTEX_WAKE with `n` there always is. */
  lemma SomeoneToWake(pcs: seq<Pc>, n: nat) returns (who: set<nat>)
    ensures LegalWake(pcs, n, who)
  {
    who := Smaller(Sleeping(pcs), Least(n, |Sleeping(pcs)|));
  }

  lemma {:induction false} Smaller(all: set<nat>, n: nat) returns (some: set<nat>)
    requires n <= |all|
    ensures some <= all && |some| == n
    decreases n
  {
    if n == 0 {
      some := {};
    } else {
      var x :| x in all;
      assert |all - {x}| == |all| - 1;
      some := Smaller(all - {x}, n - 1);
      some := some + {x};
    }
  }

  /** The holder can call `notify` with any positive number, and alone the call returns. */
  lemma NotifyCanBeCalled(k: Kind, s: State, t: nat, n: nat) returns (events: seq<Event>, z: State)
    requires t < |s.pcs| && s.pcs[t].Holding? && n >= 1
    ensures OneCall(events, t, CallNotify(n)) && Run(k, s, events) == Some(z)
    ensures |z.pcs| == |s.pcs| && z.pcs[t].Holding?
  {
    hide Run;
    var call, go := Event(t, CallNotify(n)), Event(t, Go);
    var s1 := Next(k, s, t, CallNotify(n)).value;
    var s2 := Next(k, s1, t, Go).value;
    if s2.pcs[t].Holding? {
      events, z := [call] + ([go] + []), s2;
      RunNone(k, s2, []);
      RunsTwo(k, s1, go, s2, []);
      RunsTwo(k, s, call, s1, [go] + []);
    } else {
      var who := SomeoneToWake(s2.pcs, n);
      var wake := Event(t, Wake(who));
      z := Next(k, s2, t, Wake(who)).value;
      events := [call] + ([go] + ([wake] + []));
      RunNone(k, z, []);
      RunsTwo(k, s2, wake, z, []);
      RunsTwo(k, s1, go, s2, [wake] + []);
      RunsTwo(k, s, call, s1, [go] + ([wake] + []));
    }
  }

  /** What is left of `unlock_c` can always be run to its end. */
  lemma {:induction false} UnlockRunsOut(k: Kind, s: State, t: nat) returns (events: seq<Event>, z: State)
    requires t < |s.pcs| && (s.pcs[t].Release? || Releasing(s.pcs[t])) && !s.pcs[t].waiting
    ensures forall i :: 0 <= i < |events| ==> events[i].thread == t && (events[i].choice.Go? || events[i].choice.Wake?)
    ensures Run(k, s, events) == Some(z) && |z.pcs| == |s.pcs| && z.pcs[t].Idle?
    decreases var pc := s.pcs[t];
              if pc.Release? then 3 else if pc.ReadSpinnersAfter? then 2 else if pc.ReadSleepers? then 1 else 0
  {
    hide Run;
    var c := Go;
    if s.pcs[t].WakeOne? {
      var who := SomeoneToWake(s.pcs, 1);
      c := Wake(who);
    }
    var s1 := Next(k, s, t, c).value;
    if s1.pcs[t].Idle? {
      RunNone(k, s1, []);
      events, z := [], s1;
    } else {
      events, z := UnlockRunsOut(k, s1, t);
    }
    RunsTwo(k, s, Event(t, c), s1, events);
    events := [Event(t, c)] + events;
  }

  /** The holder can unlock, and alone the call returns. */
  lemma UnlockCanBeCalled(k: Kind, s: State, t: nat) returns (events: seq<Event>, z: State)
    requires t < |s.pcs| && s.pcs[t].Holding?
    ensures OneCall(events, t, CallUnlock) && Run(k, s, events) == Some(z)
    ensures |z.pcs| == |s.pcs| && z.pcs[t].Idle?
  {
    hide Run;
    var s1 := Next(k, s, t, CallUnlock).value;
    events, z := UnlockRunsOut(k, s1, t);
    RunsTwo(k, s, Event(t, CallUnlock), s1, events);
    events := [Event(t, CallUnlock)] + events;
  }

  /** A thread outside can call `lock_c`, which takes a free lock at its first try. */
  lemma LockCanBeCalled(k: Kind, s: State, t: nat)
    requires t < |s.pcs| && s.pcs[t].Idle?
    ensures Next(k, s, t, CallLock) == Some(s.(pcs := s.pcs[t := TryFirst]))
    ensures s.futexVar == 0 ==>
              Run(k, s, [Event(t, CallLock), Event(t, Go)]) == Some(s.(futexVar := 1, pcs := s.pcs[t := Holding]))
  {
    hide Run;
    var s1 := Next(k, s, t, CallLock).value;
    var s2 := Next(k, s1, t, Go).value;
    RunNone(k, s2, []);
    RunsTwo(k, s1, Event(t, Go), s2, []);
    RunsTwo(k, s, Event(t, CallLock), s1, [Event(t, Go)]);
    assert [Event(t, Go)] + [] == [Event(t, Go)];
    assert [Event(t, CallLock)] + [Event(t, Go)] == [Event(t, CallLock), Event(t, Go)];
    assert s1.pcs[t := Holding] == s.pcs[t := Holding];
  }

  /** The holder can call `wait`; alone it comes to sleep in FUTEX_WAIT(0), with the lock free. */
  lemma {:induction false} WaitRunsToSleep(k: Kind, s: State, t: nat) returns (events: seq<Event>, z: State)
    requires t < |s.pcs| && (s.pcs[t] == Release(true) || (BeforeSleep(s.pcs[t]) && s.futexVar == 0))
    ensures (forall i :: 0 <= i < |events| ==> events[i].thread == t && !events[i].choice.Spurious?)
    ensures Run(k, s, events) == Some(z) && |z.pcs| == |s.pcs| && z.pcs[t] == Asleep(0) && z.futexVar == 0
    decreases var pc := s.pcs[t];
              if pc.Release? then 6 else if pc.ReadSpinnersAfter? then 5 else if pc.ReadSleepers? then 4
              else if pc.WakeOne? then 3 else if pc.SleepEnter? then 2 else 1
  {
    hide Run;
    var c := Go;
    if s.pcs[t].WakeOne? {
      var who := SomeoneToWake(s.pcs, 1);
      c := Wake(who);
    }
    var s1 := Next(k, s, t, c).value;
    if s1.pcs[t].Asleep? {
      RunNone(k, s1, []);
      events, z := [], s1;
    } else {
      events, z := WaitRunsToSleep(k, s1, t);
    }
    RunsTwo(k, s, Event(t, c), s1, events);
    events := [Event(t, c)] + events;
  }

  lemma WaitCanBeCalled(k: Kind, s: State, t: nat) returns (events: seq<Event>, z: State)
    requires t < |s.pcs| && s.pcs[t].Holding?
    ensures events != [] && events[0] == Event(t, CallWait)
    ensures forall i :: 0 <= i < |events| ==> events[i].thread == t && !events[i].choice.Spurious?
    ensures Run(k, s, events) == Some(z) && |z.pcs| == |s.pcs| && z.pcs[t] == Asleep(0) && z.futexVar == 0
  {
    hide Run;
    var s1 := Next(k, s, t, CallWait).value;
    events, z := WaitRunsToSleep(k, s1, t);
    RunsTwo(k, s, Event(t, CallWait), s1, events);
    events := [Event(t, CallWait)] + events;
  }

  /** FUTEX_WAIT may return without being woken, before or after the thread has fallen asleep. */
  lemma WaitMayReturnSpuriously(k: Kind, s: State, t: nat)
    requires t < |s.pcs| && (s.pcs[t].SleepCall? || s.pcs[t].Asleep?)
    ensures Next(k, s, t, Spurious) == Some(s.(pcs := s.pcs[t := SleepLeave(s.pcs[t].expected)]))
  {
  }
}
