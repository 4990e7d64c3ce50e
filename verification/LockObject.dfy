/**
 * The lock object itself, updated in place: the fields of `LockObjectSimple` and
 * `LockObjectBrute`, the atomic primitives of utils/lock/ops.h on them, and the scheduler's view
 * of one step of one thread. Every in-place step is proved to be the step of `FutexLock.Next`.
 */
module LockObject {
  import opened Wrappers
  import opened FutexLock
  import opened FutexLockTheorems

  class Lock {
    const kind: Kind
    var futexVar: int
    var numFutexWaiters: int
    var numBruteWaiters: int
    var pcs: seq<Pc>           // one program counter for each thread that uses the lock

    function Snapshot(): State
      reads this
    {
      State(futexVar, numFutexWaiters, numBruteWaiters, pcs)
    }

    constructor (kind: Kind, threads: nat)
      ensures this.kind == kind && Snapshot() == Init(threads) && Inv(Snapshot())
    {
      this.kind := kind;
      futexVar, numFutexWaiters, numBruteWaiters := 0, 0, 0;
      pcs := seq(threads, i => Idle);
      new;
      InitInv(threads);
    }

    /** `atomic_try_lock`: test-and-set; true when the word was 0. */
    method TryLock() returns (taken: bool)
      modifies `futexVar
      ensures futexVar == 1 && taken == (old(futexVar) == 0)
    {
      taken := futexVar == 0;
      futexVar := 1;
    }

    /** `atomic_release`. */
    method AtomicRelease()
      modifies `futexVar
      ensures futexVar == 0
    {
      futexVar := 0;
    }

    method MoveTo(t: nat, pc: Pc)
      requires t < |pcs|
      modifies `pcs
      ensures pcs == old(pcs)[t := pc]
    {
      pcs := pcs[t := pc];
    }

    /** One step of `lock_c`, `__lock_wait` and `__brute_lock_wait`. */
    method LockStep(t: nat)
      requires t < |pcs|
      requires pcs[t].TryFirst? || pcs[t].ReadSpinners? || pcs[t].SpinEnter? || InSpin(pcs[t]) || pcs[t].TryAgain?
      modifies this
      ensures Next(kind, old(Snapshot()), t, Go) == Some(Snapshot())
    {
      match pcs[t] {
        case TryFirst =>
          var taken := TryLock();
          MoveTo(t, if taken then Holding else AfterTryFails(kind));
        case ReadSpinners =>
          if kind.Brute? && numBruteWaiters < kind.waitersCount {
            MoveTo(t, SpinEnter(kind.waitLimit));
          } else {
            MoveTo(t, SleepEnter(1));
          }
        case SpinEnter(left) =>
          numBruteWaiters := numBruteWaiters + 1;
          MoveTo(t, SpinTry(left));
        case SpinTry(left) =>
          var taken := TryLock();
          MoveTo(t, if taken then SpinWon else SpinYield(left));
        case SpinYield(left) =>
          var limit := left - 1;
          MoveTo(t, if limit != 0 then SpinTry(limit) else SpinLost);
        case SpinWon =>
          numBruteWaiters := numBruteWaiters - 1;
          MoveTo(t, Holding);
        case SpinLost =>
          numBruteWaiters := numBruteWaiters - 1;
          MoveTo(t, SleepEnter(1));
        case TryAgain =>
          var taken := TryLock();
          MoveTo(t, if taken then Holding else SleepEnter(1));
      }
    }

    /** One step of `futex_wait`. A step that is not open to the thread changes nothing. */
    method FutexWaitStep(t: nat, c: Choice) returns (ok: bool)
      requires t < |pcs| && (pcs[t].SleepEnter? || InFutexWait(pcs[t]))
      modifies this
      ensures ok ==> Next(kind, old(Snapshot()), t, c) == Some(Snapshot())
      ensures !ok ==> Next(kind, old(Snapshot()), t, c) == None && unchanged(this)
    {
      ok := c.Go?;
      match pcs[t] {
        case SleepEnter(e) =>
          if c.Go? {
            numFutexWaiters := numFutexWaiters + 1;
            MoveTo(t, SleepCall(e));
          }
        case SleepCall(e) =>
          if c.Spurious? {
            MoveTo(t, SleepLeave(e));
            ok := true;
          } else if c.Go? {
            MoveTo(t, if futexVar == e then Asleep(e) else SleepLeave(e));
          }
        case Asleep(e) =>
          ok := c.Spurious?;
          if c.Spurious? {
            MoveTo(t, SleepLeave(e));
          }
        case SleepLeave(e) =>
          if c.Go? {
            numFutexWaiters := numFutexWaiters - 1;
            MoveTo(t, if e == 1 then TryAgain else TryFirst);
          }
      }
    }

    /** One step of `unlock_c` or `notify`. */
    method UnlockStep(t: nat, c: Choice) returns (ok: bool)
      requires t < |pcs|
      requires pcs[t].Release? || Releasing(pcs[t]) || pcs[t].NotifyRead? || pcs[t].NotifyWake?
      modifies this
      ensures ok ==> Next(kind, old(Snapshot()), t, c) == Some(Snapshot())
      ensures !ok ==> Next(kind, old(Snapshot()), t, c) == None && unchanged(this)
    {
      ok := c.Go?;
      match pcs[t] {
        case Release(w) =>
          if c.Go? {
            AtomicRelease();
            MoveTo(t, if kind.Simple? then ReadSleepers(w) else ReadSpinnersAfter(w));
          }
        case ReadSpinnersAfter(w) =>
          if c.Go? {
            MoveTo(t, if numBruteWaiters == 0 then ReadSleepers(w) else AfterUnlock(w));
          }
        case ReadSleepers(w) =>
          if c.Go? {
            MoveTo(t, if numFutexWaiters != 0 then WakeOne(w) else AfterUnlock(w));
          }
        case WakeOne(w) =>
          ok := c.Wake? && LegalWake(pcs, 1, c.who);
          if ok {
            pcs := Woken(pcs, c.who);
            MoveTo(t, AfterUnlock(w));
          }
        case NotifyRead(n) =>
          if c.Go? {
            MoveTo(t, if numFutexWaiters != 0 then NotifyWake(n) else Holding);
          }
        case NotifyWake(n) =>
          ok := c.Wake? && LegalWake(pcs, n, c.who);
          if ok {
            pcs := Woken(pcs, c.who);
            MoveTo(t, Holding);
          }
      }
    }

    /** One step of thread `t`; a step that is not open to it changes nothing. */
    method Step(t: nat, c: Choice) returns (ok: bool)
      modifies this
      ensures ok ==> Next(kind, old(Snapshot()), t, c) == Some(Snapshot())
      ensures !ok ==> Next(kind, old(Snapshot()), t, c) == None && unchanged(this)
    {
      if t >= |pcs| {
        return false;
      }
      var pc := pcs[t];
      if pc.Idle? || pc.Holding? {
        var next := LocalStep(kind, View(futexVar, numFutexWaiters, numBruteWaiters, pc), c);
        ok := next.Some?;
        if ok {
          MoveTo(t, next.value.pc);
        }
      } else if pc.SleepEnter? || InFutexWait(pc) {
        ok := FutexWaitStep(t, c);
      } else if pc.Release? || Releasing(pc) || pc.NotifyRead? || pc.NotifyWake? {
        ok := UnlockStep(t, c);
      } else {
        ok := c.Go?;
        if ok {
          LockStep(t);
        }
      }
    }

    /** Any schedule, run in place on a lock in any state a run can reach: the choices that were
        open were taken, mutual exclusion and the wakeup guarantee hold at the end, and the steps
        taken form a run of the abstract mutex. */
    method RunSchedule(events: seq<Event>) returns (done: seq<Event>)
      requires Inv(Snapshot())
      modifies this
      ensures Inv(Snapshot())
      ensures Run(kind, old(Snapshot()), done) == Some(Snapshot())
      ensures MutexRun(kind, old(Snapshot()), done)
    {
      done := [];
      ghost var start := Snapshot();
      for i := 0 to |events|
        invariant Inv(Snapshot()) && Run(kind, start, done) == Some(Snapshot())
      {
        ghost var s := Snapshot();
        var ok := Step(events[i].thread, events[i].choice);
        if ok {
          StepInv(kind, s, events[i].thread, events[i].choice, Snapshot());
          RunAppend(kind, start, done, events[i]);
          done := done + [events[i]];
        }
      }
      RunRefinesMutex(kind, start, done);
    }
  }

  lemma {:induction false} RunAppend(k: Kind, s: State, events: seq<Event>, e: Event)
    requires Run(k, s, events).Some?
    ensures Run(k, s, events + [e]) == Next(k, Run(k, s, events).value, e.thread, e.choice)
    decreases |events|
  {
    if events == [] {
      assert events + [e] == [e] && [e][1..] == [];
    } else {
      assert (events + [e])[1..] == events[1..] + [e];
      RunAppend(k, Next(k, s, events[0].thread, events[0].choice).value, events[1..], e);
    }
  }
}
