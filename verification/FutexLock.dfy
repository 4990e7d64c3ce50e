/**
 * The futex locks `LockObjectSimple` (utils/lock/simple.h) and `LockObjectBrute`
 * (utils/lock/brute.h) as one transition system over a shared futex word and two counters.
 *
 * Every atomic operation, every plain read of a counter, every FUTEX_WAIT / FUTEX_WAKE and
 * every edge of a loop is one step of one thread; any number of threads run interleaved.
 * Memory is sequentially consistent, and only the holder calls `unlock_c`, `wait` and `notify`.
 */
module FutexLock {
  import opened Wrappers

  /** Which lock: the simple one, or the spinning one with its two template parameters. */
  datatype Kind = Simple | Brute(waitLimit: int, waitersCount: int)

  /** Where a thread is. `expected` is the value given to FUTEX_WAIT: 1 from `__lock_wait`,
      0 from `wait`. `waiting` tells whether `unlock_c` runs on behalf of `wait`. */
  datatype Pc =
    | Idle                                 // outside, not holding
    | TryFirst                             // lock_c: about to try the lock
    | ReadSpinners                         // __lock_wait: about to read num_brute_waiters
    | SpinEnter(left: int)                 // __brute_lock_wait: about to add 1
    | SpinTry(left: int)                   // about to try the lock
    | SpinYield(left: int)                 // try failed: yield, then test --limit
    | SpinWon                              // try succeeded: about to subtract 1 and return true
    | SpinLost                             // limit used up: about to subtract 1 and return false
    | SleepEnter(expected: int)              // futex_wait: about to add 1
    | SleepCall(expected: int)               // about to call FUTEX_WAIT
    | Asleep(expected: int)                  // sleeping in the kernel
    | SleepLeave(expected: int)              // FUTEX_WAIT returned: about to subtract 1
    | TryAgain                             // condition of the do-while in __lock_wait
    | Holding                              // outside, holding
    | Release(waiting: bool)               // unlock_c: about to store 0
    | ReadSpinnersAfter(waiting: bool)     // unlock_c of Brute: about to read num_brute_waiters
    | ReadSleepers(waiting: bool)          // notify(1) of unlock_c: about to read num_futex_waiters
    | WakeOne(waiting: bool)               // about to call FUTEX_WAKE with 1
    | NotifyRead(count: nat)               // notify(n) of the holder: about to read num_futex_waiters
    | NotifyWake(count: nat)               // about to call FUTEX_WAKE with n

  datatype State = State(futexVar: int, numFutexWaiters: int, numBruteWaiters: int, pcs: seq<Pc>)

  /** What a thread's step is free to choose. */
  datatype Choice =
    | Go
    | CallLock | CallUnlock | CallWait | CallNotify(count: nat)
    | Wake(who: set<nat>)     // the sleepers that one FUTEX_WAKE picks
    | Spurious                // FUTEX_WAIT returns without being woken

  datatype Event = Event(thread: nat, choice: Choice)

  function Init(n: nat): State {
    State(0, 0, 0, seq(n, i => Idle))
  }

  // ---------------------------------------------------------------- the step function

  /** The shared variables and the program counter of the thread that steps. */
  datatype View = View(futexVar: int, numFutexWaiters: int, numBruteWaiters: int, pc: Pc)

  function AfterUnlock(waiting: bool): Pc {
    if waiting then SleepEnter(0) else Idle
  }

  function AfterTryFails(k: Kind): Pc {
    if k.Simple? then SleepEnter(1) else ReadSpinners
  }

  /** Every step except a FUTEX_WAKE touches the shared variables and one program counter. */
  function LocalStep(k: Kind, v: View, c: Choice): Option<View> {
    match v.pc
    case Idle => if c.CallLock? then Some(v.(pc := TryFirst)) else None
    case Holding => (
      match c
      case CallUnlock => Some(v.(pc := Release(false)))
      case CallWait => Some(v.(pc := Release(true)))
      case CallNotify(n) => if n >= 1 then Some(v.(pc := NotifyRead(n))) else None
      case _ => None)
    case SleepCall(e) =>
      if c.Spurious? then Some(v.(pc := SleepLeave(e)))
      else if !c.Go? then None
      else if v.futexVar == e then Some(v.(pc := Asleep(e)))
      else Some(v.(pc := SleepLeave(e)))
    case Asleep(e) => if c.Spurious? then Some(v.(pc := SleepLeave(e))) else None
    case WakeOne(_) => None
    case NotifyWake(_) => None
    case _ => if c.Go? then Some(Proceed(k, v)) else None
  }

  predicate Deterministic(pc: Pc) {
    !pc.Idle? && !pc.Holding? && !pc.SleepCall? && !pc.Asleep? && !pc.WakeOne? && !pc.NotifyWake?
  }

  function Proceed(k: Kind, v: View): View
    requires Deterministic(v.pc)
  {
    match v.pc
    case TryFirst =>
      if v.futexVar == 0 then v.(futexVar := 1, pc := Holding) else v.(futexVar := 1, pc := AfterTryFails(k))
    case ReadSpinners =>
      if k.Brute? && v.numBruteWaiters < k.waitersCount
      then v.(pc := SpinEnter(k.waitLimit)) else v.(pc := SleepEnter(1))
    case SpinEnter(l) => v.(numBruteWaiters := v.numBruteWaiters + 1, pc := SpinTry(l))
    case SpinTry(l) =>
      if v.futexVar == 0 then v.(futexVar := 1, pc := SpinWon) else v.(futexVar := 1, pc := SpinYield(l))
    case SpinYield(l) => if l - 1 != 0 then v.(pc := SpinTry(l - 1)) else v.(pc := SpinLost)
    case SpinWon => v.(numBruteWaiters := v.numBruteWaiters - 1, pc := Holding)
    case SpinLost => v.(numBruteWaiters := v.numBruteWaiters - 1, pc := SleepEnter(1))
    case SleepEnter(e) => v.(numFutexWaiters := v.numFutexWaiters + 1, pc := SleepCall(e))
    case SleepLeave(e) =>
      v.(numFutexWaiters := v.numFutexWaiters - 1, pc := if e == 1 then TryAgain else TryFirst)
    case TryAgain =>
      if v.futexVar == 0 then v.(futexVar := 1, pc := Holding) else v.(futexVar := 1, pc := SleepEnter(1))
    case Release(w) => v.(futexVar := 0, pc := if k.Simple? then ReadSleepers(w) else ReadSpinnersAfter(w))
    case ReadSpinnersAfter(w) =>
      if v.numBruteWaiters == 0 then v.(pc := ReadSleepers(w)) else v.(pc := AfterUnlock(w))
    case ReadSleepers(w) =>
      if v.numFutexWaiters != 0 then v.(pc := WakeOne(w)) else v.(pc := AfterUnlock(w))
    case NotifyRead(n) =>
      if v.numFutexWaiters != 0 then v.(pc := NotifyWake(n)) else v.(pc := Holding)
  }

  function Sleeping(pcs: seq<Pc>): set<nat> {
    set i: nat | i < |pcs| && pcs[i].Asleep?
  }

  /** FUTEX_WAKE with `n` wakes `n` sleepers of its choice, or all when there are fewer. */
  predicate LegalWake(pcs: seq<Pc>, n: nat, who: set<nat>) {
    who <= Sleeping(pcs) && |who| == if |Sleeping(pcs)| < n then |Sleeping(pcs)| else n
  }

  function Woken(pcs: seq<Pc>, who: set<nat>): (r: seq<Pc>)
    ensures |r| == |pcs|
  {
    seq(|pcs|, i requires 0 <= i < |pcs| =>
      if i in who && pcs[i].Asleep? then SleepLeave(pcs[i].expected) else pcs[i])
  }

  /** One step of thread `t`, or `None` when that choice is not open to it. */
  function Next(k: Kind, s: State, t: nat, c: Choice): Option<State> {
    if t >= |s.pcs| then None
    else match s.pcs[t] {
      case WakeOne(w) =>
        if c.Wake? && LegalWake(s.pcs, 1, c.who)
        then Some(s.(pcs := Woken(s.pcs, c.who)[t := AfterUnlock(w)])) else None
      case NotifyWake(n) =>
        if c.Wake? && LegalWake(s.pcs, n, c.who)
        then Some(s.(pcs := Woken(s.pcs, c.who)[t := Holding])) else None
      case pc =>
        match LocalStep(k, View(s.futexVar, s.numFutexWaiters, s.numBruteWaiters, pc), c) {
          case None => None
          case Some(v) =>
            Some(State(v.futexVar, v.numFutexWaiters, v.numBruteWaiters, s.pcs[t := v.pc]))
        }
    }
  }

  /** Running a schedule. */
  function Run(k: Kind, s: State, events: seq<Event>): Option<State>
    decreases |events|
  {
    if events == [] then Some(s)
    else match Next(k, s, events[0].thread, events[0].choice)
      case None => None
      case Some(s1) => Run(k, s1, events[1..])
  }

  ghost predicate Reachable(k: Kind, s: State) {
    exists n: nat, events: seq<Event> :: Run(k, Init(n), events) == Some(s)
  }

  // ---------------------------------------------------------------- counting threads

  function Count(pcs: seq<Pc>, p: Pc -> bool): nat {
    if pcs == [] then 0 else (if p(pcs[0]) then 1 else 0) + Count(pcs[1..], p)
  }

  lemma {:induction false} CountUpdate(pcs: seq<Pc>, i: nat, pc: Pc, p: Pc -> bool)
    requires i < |pcs|
    ensures Count(pcs[i := pc], p)
            == Count(pcs, p) - (if p(pcs[i]) then 1 else 0) + (if p(pc) then 1 else 0)
  {
    if i > 0 {
      assert pcs[i := pc][1..] == pcs[1..][i - 1 := pc];
      CountUpdate(pcs[1..], i - 1, pc, p);
    } else {
      assert pcs[i := pc][1..] == pcs[1..];
    }
  }

  lemma {:induction false} CountSame(a: seq<Pc>, b: seq<Pc>, p: Pc -> bool)
    requires |a| == |b| && forall i :: 0 <= i < |a| ==> p(a[i]) == p(b[i])
    ensures Count(a, p) == Count(b, p)
  {
    if a != [] {
      assert forall i :: 0 <= i < |a| - 1 ==> p(a[1..][i]) == p(b[1..][i]);
      CountSame(a[1..], b[1..], p);
    }
  }

  /** Someone is counted exactly when the count is positive; two different threads make it two. */
  lemma {:induction false} CountWitness(pcs: seq<Pc>, p: Pc -> bool)
    ensures Count(pcs, p) > 0 <==> exists i: nat :: i < |pcs| && p(pcs[i])
    ensures forall i: nat, j: nat :: i < j < |pcs| && p(pcs[i]) && p(pcs[j]) ==> Count(pcs, p) >= 2
  {
    if pcs != [] {
      CountWitness(pcs[1..], p);
      assert forall i: nat :: 0 < i < |pcs| ==> pcs[i] == pcs[1..][i - 1];
      if Count(pcs[1..], p) > 0 {
        var i: nat :| i < |pcs[1..]| && p(pcs[1..][i]);
        assert p(pcs[i + 1]);
      }
    }
  }

  // ---------------------------------------------------------------- the invariant

  predicate Owns(pc: Pc) {
    pc.Holding? || pc.SpinWon? || pc.Release? || pc.NotifyRead? || pc.NotifyWake?
  }

  /** Between the +1 and the -1 of `futex_wait`. */
  predicate InFutexWait(pc: Pc) {
    pc.SleepCall? || pc.Asleep? || pc.SleepLeave?
  }

  /** Between the +1 and the -1 of `__brute_lock_wait`. */
  predicate InSpin(pc: Pc) {
    pc.SpinTry? || pc.SpinYield? || pc.SpinWon? || pc.SpinLost?
  }

  predicate ExpectOk(pc: Pc) {
    pc.SleepEnter? || InFutexWait(pc) ==> pc.expected == 0 || pc.expected == 1
  }

  /** Awake inside `lock_c` and not yet holding. A thread that returned from the FUTEX_WAIT of
      `wait` belongs here, because its next call is `lock_c`. */
  predicate Contending(pc: Pc) {
    || pc.TryFirst? || pc.ReadSpinners? || pc.SpinEnter? || pc.SpinTry? || pc.SpinYield? || pc.SpinLost?
    || ((pc.SleepEnter? || pc.SleepCall?) && pc.expected == 1) || pc.SleepLeave? || pc.TryAgain?
  }

  /** Has stored 0 and has not finished deciding whom to wake. */
  predicate Releasing(pc: Pc) {
    pc.ReadSpinnersAfter? || pc.ReadSleepers? || pc.WakeOne?
  }

  predicate Helper(pc: Pc) {
    Contending(pc) || Releasing(pc)
  }

  predicate LockSleeper(pc: Pc) {
    pc == Asleep(1)
  }

  ghost predicate NoLostWakeup(s: State) {
    s.futexVar == 0 && (exists t: nat :: t < |s.pcs| && LockSleeper(s.pcs[t]))
    ==> exists u: nat :: u < |s.pcs| && Helper(s.pcs[u])
  }

  ghost predicate Inv(s: State) {
    && 0 <= s.futexVar <= 1
    && s.futexVar == Count(s.pcs, Owns)
    && s.numFutexWaiters == Count(s.pcs, InFutexWait)
    && s.numBruteWaiters == Count(s.pcs, InSpin)
    && (forall t: nat :: t < |s.pcs| ==> ExpectOk(s.pcs[t]))
    && NoLostWakeup(s)
  }

  lemma {:induction false} InitCount(n: nat, p: Pc -> bool)
    requires !p(Idle)
    ensures Count(Init(n).pcs, p) == 0
  {
    CountWitness(Init(n).pcs, p);
  }

  lemma InitInv(n: nat)
    ensures Inv(Init(n))
  {
    InitCount(n, Owns);
    InitCount(n, InFutexWait);
    InitCount(n, InSpin);
  }

  function Bit(b: bool): int { if b then 1 else 0 }

  /** Every local step changes the word exactly as it changes whether its thread owns the lock. */
  lemma WordDelta(k: Kind, v: View, c: Choice, w: View)
    requires LocalStep(k, v, c) == Some(w)
    requires 0 <= v.futexVar <= 1 && ExpectOk(v.pc) && (Owns(v.pc) ==> v.futexVar == 1)
    ensures w.futexVar - v.futexVar == Bit(Owns(w.pc)) - Bit(Owns(v.pc))
    ensures 0 <= w.futexVar <= 1 && ExpectOk(w.pc)
  {
  }

  /** And each counter exactly as it changes whether its thread is counted. */
  lemma CounterDeltas(k: Kind, v: View, c: Choice, w: View)
    requires LocalStep(k, v, c) == Some(w)
    ensures w.numFutexWaiters - v.numFutexWaiters == Bit(InFutexWait(w.pc)) - Bit(InFutexWait(v.pc))
    ensures w.numBruteWaiters - v.numBruteWaiters == Bit(InSpin(w.pc)) - Bit(InSpin(v.pc))
  {
  }

  /** A FUTEX_WAKE step: the thread at `t` moves from `WakeOne`/`NotifyWake` to `pc`. */
  lemma WakeCounts(pcs: seq<Pc>, t: nat, who: set<nat>, pc: Pc, p: Pc -> bool)
    requires t < |pcs| && !pcs[t].Asleep? && p(pc) == p(pcs[t])
    requires forall e :: p(Asleep(e)) == p(SleepLeave(e))
    ensures Count(Woken(pcs, who)[t := pc], p) == Count(pcs, p)
  {
    CountSame(Woken(pcs, who)[t := pc], pcs, p);
  }

  /** The holder is unique, and there is one exactly when the word is 1. */
  lemma OwnerFacts(s: State)
    requires Inv(s)
    ensures s.futexVar == 1 <==> exists i: nat :: i < |s.pcs| && Owns(s.pcs[i])
    ensures forall i: nat, j: nat :: i < j < |s.pcs| ==> !(Owns(s.pcs[i]) && Owns(s.pcs[j]))
  {
    CountWitness(s.pcs, Owns);
  }

  lemma WakePreservesCounts(k: Kind, s: State, t: nat, c: Choice, s': State)
    requires Inv(s) && Next(k, s, t, c) == Some(s') && (s.pcs[t].WakeOne? || s.pcs[t].NotifyWake?)
    ensures s' == s.(pcs := s'.pcs)
    ensures Count(s'.pcs, Owns) == Count(s.pcs, Owns)
    ensures Count(s'.pcs, InFutexWait) == Count(s.pcs, InFutexWait)
    ensures Count(s'.pcs, InSpin) == Count(s.pcs, InSpin)
    ensures |s'.pcs| == |s.pcs| && forall u: nat :: u < |s.pcs| ==> ExpectOk(s'.pcs[u])
  {
    hide Count, LocalStep, NoLostWakeup;
    var q := if s.pcs[t].WakeOne? then AfterUnlock(s.pcs[t].waiting) else Holding;
    WakeCounts(s.pcs, t, c.who, q, Owns);
    WakeCounts(s.pcs, t, c.who, q, InFutexWait);
    WakeCounts(s.pcs, t, c.who, q, InSpin);
  }

  lemma CountsPreserved(k: Kind, s: State, t: nat, c: Choice, s': State)
    requires Inv(s) && Next(k, s, t, c) == Some(s')
    ensures 0 <= s'.futexVar <= 1
    ensures s'.futexVar == Count(s'.pcs, Owns)
    ensures s'.numFutexWaiters == Count(s'.pcs, InFutexWait)
    ensures s'.numBruteWaiters == Count(s'.pcs, InSpin)
    ensures |s'.pcs| == |s.pcs| && forall u: nat :: u < |s.pcs| ==> ExpectOk(s'.pcs[u])
  {
    hide Count, LocalStep, NoLostWakeup;
    OwnerFacts(s);
    var pc := s.pcs[t];
    if pc.WakeOne? || pc.NotifyWake? {
      WakePreservesCounts(k, s, t, c, s');
    } else {
      var v := View(s.futexVar, s.numFutexWaiters, s.numBruteWaiters, pc);
      var w := LocalStep(k, v, c).value;
      WordDelta(k, v, c, w);
      CounterDeltas(k, v, c, w);
      CountUpdate(s.pcs, t, w.pc, Owns);
      CountUpdate(s.pcs, t, w.pc, InFutexWait);
      CountUpdate(s.pcs, t, w.pc, InSpin);
    }
  }

  /** With the word at 0, a helper that stops being one leaves another helper, or no sleeper. */
  lemma HelperHandsOver(k: Kind, s: State, t: nat, c: Choice, s': State)
    requires Inv(s) && Next(k, s, t, c) == Some(s')
    requires s.futexVar == 0 && s'.futexVar == 0 && Helper(s.pcs[t]) && !Helper(s'.pcs[t])
    ensures NoLostWakeup(s')
  {
    hide Count;
    OwnerFacts(s);
    CountWitness(s.pcs, InSpin);
    CountWitness(s.pcs, InFutexWait);
    match s.pcs[t] {
      case ReadSpinnersAfter(_) =>
        var u: nat :| u < |s.pcs| && InSpin(s.pcs[u]);
        assert Helper(s'.pcs[u]);
      case WakeOne(_) =>
        if c.who != {} {
          var u :| u in c.who;
          assert Helper(s'.pcs[u]);
        } else {
          assert Sleeping(s.pcs) == {};
          assert forall u: nat :: u < |s.pcs| && LockSleeper(s'.pcs[u]) ==> u in Sleeping(s.pcs);
        }
      case _ =>
    }
  }

  lemma NoLostWakeupPreserved(k: Kind, s: State, t: nat, c: Choice, s': State)
    requires Inv(s) && Next(k, s, t, c) == Some(s')
    ensures NoLostWakeup(s')
  {
    hide Count;
    CountsPreserved(k, s, t, c, s');
    if s'.futexVar == 0 && exists u: nat :: u < |s'.pcs| && LockSleeper(s'.pcs[u]) {
      if s.futexVar == 1 {
        assert Helper(s'.pcs[t]);       // only the releasing store clears the word
      } else {
        var u: nat :| u < |s'.pcs| && LockSleeper(s'.pcs[u]);
        assert LockSleeper(s.pcs[u]);   // with the word at 0 nobody falls asleep expecting 1
        var h: nat :| h < |s.pcs| && Helper(s.pcs[h]);
        if h != t {
          assert Helper(s'.pcs[h]);
        } else if !Helper(s'.pcs[t]) {
          HelperHandsOver(k, s, t, c, s');
        }
      }
    }
  }

  /** Every step of every thread keeps the invariant. */
  lemma StepInv(k: Kind, s: State, t: nat, c: Choice, s': State)
    requires Inv(s) && Next(k, s, t, c) == Some(s')
    ensures Inv(s')
  {
    CountsPreserved(k, s, t, c, s');
    NoLostWakeupPreserved(k, s, t, c, s');
  }

  lemma {:induction false} RunInv(k: Kind, s: State, events: seq<Event>)
    requires Inv(s) && Run(k, s, events).Some?
    ensures Inv(Run(k, s, events).value)
    decreases |events|
  {
    if events != [] {
      var s1 := Next(k, s, events[0].thread, events[0].choice).value;
      StepInv(k, s, events[0].thread, events[0].choice, s1);
      RunInv(k, s1, events[1..]);
    }
  }

  lemma ReachableInv(k: Kind, s: State)
    requires Reachable(k, s)
    ensures Inv(s)
  {
    var n: nat, events: seq<Event> :| Run(k, Init(n), events) == Some(s);
    InitInv(n);
    RunInv(k, Init(n), events);
  }
}
