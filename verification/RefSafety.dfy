/** The safety of reference counting (utils/lock/refs.h), proved over every interleaving. */
module RefSafety {
  import opened Wrappers
  import opened RefCounting

  lemma InitInv(threads: nat)
    ensures Inv(Init(threads))
  {
  }

  /** What a step of thread `t` leaves alone: all that other threads own. */
  ghost predicate Untouched(s: State, t: nat, s1: State) {
    && |s1.pcs| == |s.pcs| && |s.handles| <= |s1.handles| && |s.objects| <= |s1.objects|
    && (forall u :: 0 <= u < |s.pcs| && u != t ==> s1.pcs[u] == s.pcs[u])
    && (forall h :: 0 <= h < |s.handles| && !Owns(s, t, h) ==> s1.handles[h] == s.handles[h])
    && (forall o :: 0 <= o < |s.objects| && s.objects[o].creator != Some(t) ==>
          s1.objects[o].creator == s.objects[o].creator)
  }

  lemma StepUntouched(s: State, t: nat, c: Choice, s1: State)
    requires Owned(s) && t < |s.pcs| && ThreadInv(s, t) && Next(s, t, c) == Some(s1)
    ensures Untouched(s, t, s1)
  {
  }

  lemma OthersKeepTheirs(s: State, t: nat, s1: State, u: nat)
    requires Untouched(s, t, s1) && u < |s.pcs| && u != t && ThreadInv(s, u)
    ensures ThreadInv(s1, u)
  {
  }

  lemma StartKeepsOwn(s: State, t: nat, c: Choice, s1: State)
    requires Owned(s) && t < |s.pcs| && s.pcs[t].Idle? && Start(s, t, c) == Some(s1)
    ensures ThreadInv(s1, t) && Owned(s1)
  {
  }

  lemma ClearedKeepsOwn(s: State, t: nat, h: nat, next: Then)
    requires Owned(s) && t < |s.pcs| && Owns(s, t, h) && ThenInv(s, t, next) && s.handles[h].ptr == None
    ensures ThreadInv(Cleared(s, t, h, next), t) && Owned(Cleared(s, t, h, next))
  {
  }

  /** Counting up or down and deleting change nothing that `Owned` speaks of. */
  lemma ObjectStepOwned(s: State, o: nat, v: int)
    requires Owned(s) && o < |s.objects|
    ensures Owned(Add(s, o, v)) && Owned(Delete(s, o))
  {
  }

  lemma PointOwned(s: State, h: nat, p: Option<nat>)
    requires Owned(s) && h < |s.handles| && s.handles[h].Handle? && (p.Some? ==> p.value < |s.objects|)
    ensures Owned(Point(s, h, p))
  {
  }

  lemma AtOwned(s: State, t: nat, pc: Pc)
    requires Owned(s) && t < |s.pcs|
    ensures Owned(At(s, t, pc))
  {
  }

  lemma ProceedOwned(s: State, t: nat)
    requires Owned(s) && t < |s.pcs| && ThreadInv(s, t) && Ready(s, t)
    ensures Owned(Proceed(s, t))
  {
    hide Owned;
    match s.pcs[t]
    case Acquire(h, _) =>
      if s.handles[h].ptr.Some? {
        ObjectStepOwned(s, s.handles[h].ptr.value, 1);
        AtOwned(Add(s, s.handles[h].ptr.value, 1), t, Idle);
      } else {
        AtOwned(s, t, Idle);
      }
    case Test(h, next) =>
      if s.handles[h].ptr.Some? {
        AtOwned(s, t, Drop(h, next));
      } else {
        ClearedKeepsOwn(s, t, h, next);
      }
    case Drop(h, next) =>
      var o := s.handles[h].ptr.value;
      ObjectStepOwned(s, o, -1);
      AtOwned(Add(s, o, -1), t, Decide(h, s.objects[o].refCount - 1, next));
    case Decide(h, left, next) =>
      ObjectStepOwned(s, s.handles[h].ptr.value, 0);
      AtOwned(if left == 0 then Delete(s, s.handles[h].ptr.value) else s, t, Nullify(h, next));
    case Nullify(h, next) =>
      PointOwned(s, h, None);
      ClearedKeepsOwn(Point(s, h, None), t, h, next);
    case Assign(h, g, moving) =>
      PointOwned(s, h, s.handles[g].ptr);
      AtOwned(Point(s, h, s.handles[g].ptr), t, if moving then Detach(h, g) else Acquire(h, Some(g)));
    case Detach(h, g) =>
      PointOwned(s, g, None);
      AtOwned(Point(s, g, None), t, Idle);
    case CreatorDrop(o) =>
      CreatorDropOwned(s, t, o);
    case CreatorDecide(o, left) =>
      ObjectStepOwned(s, o, 0);
      AtOwned(if left == 0 then Delete(s, o) else s, t, Idle);
  }

  lemma CreatorDropOwned(s: State, t: nat, o: nat)
    requires Owned(s) && t < |s.pcs| && s.pcs[t] == CreatorDrop(o) && Ready(s, t)
    ensures Owned(Proceed(s, t))
  {
  }

  lemma ProceedKeepsOwn(s: State, t: nat)
    requires Owned(s) && t < |s.pcs| && ThreadInv(s, t) && Ready(s, t)
    ensures ThreadInv(Proceed(s, t), t)
  {
    hide Owned;
    if s.pcs[t].Test? && s.handles[s.pcs[t].h].ptr == None {
      ClearedKeepsOwn(s, t, s.pcs[t].h, s.pcs[t].next);
    } else if s.pcs[t].Nullify? {
      PointOwned(s, s.pcs[t].h, None);
      ClearedKeepsOwn(Point(s, s.pcs[t].h, None), t, s.pcs[t].h, s.pcs[t].next);
    }
  }

  // ---------------------------------------------------------------- who is counted

  predicate PointsTo(s: State, h: nat, o: nat) {
    Points(s, h) && s.handles[h].ptr == Some(o)
  }

  /** The handle that begins to account for a unit of the count of `o` when `t` steps, if any. */
  function Gained(s: State, t: nat, o: nat): Option<nat>
    requires t < |s.pcs|
  {
    if (s.pcs[t].Acquire? || s.pcs[t].Detach?) && PointsTo(s, s.pcs[t].h, o) then Some(s.pcs[t].h) else None
  }

  /** The handle that ceases to. */
  function Lost(s: State, t: nat, o: nat): Option<nat>
    requires t < |s.pcs|
  {
    if s.pcs[t].Drop? && PointsTo(s, s.pcs[t].h, o) then Some(s.pcs[t].h)
    else if s.pcs[t].Detach? && PointsTo(s, s.pcs[t].other, o) then Some(s.pcs[t].other)
    else None
  }

  lemma CountsOfOthers(s: State, t: nat, s1: State, x: nat, o: nat)
    requires Owned(s) && t < |s.pcs| && Untouched(s, t, s1) && x < |s.handles| && !Owns(s, t, x)
    ensures Counts(s1, x, o) == Counts(s, x, o)
  {
  }

  lemma CountsAfterStart(s: State, t: nat, c: Choice, s1: State, x: nat, o: nat)
    requires Owned(s) && t < |s.pcs| && s.pcs[t].Idle? && Start(s, t, c) == Some(s1)
    requires forall u :: 0 <= u < |s.pcs| ==> ThreadInv(s, u)
    requires x < |s.handles| ==> Owns(s, t, x)
    ensures Counts(s1, x, o) == Counts(s, x, o)
  {
    if c.GiveHandle? {
      assert ThreadInv(s, c.to);
    }
  }

  lemma CountsAfterProceed(s: State, t: nat, x: nat, o: nat)
    requires t < |s.pcs| && ThreadInv(s, t) && Ready(s, t)
    requires x < |s.handles| ==> Owns(s, t, x)
    ensures Counts(Proceed(s, t), x, o) <==> Gained(s, t, o) == Some(x) || (Counts(s, x, o) && Lost(s, t, o) != Some(x))
  {
  }

  /** The handles counted after a step. */
  lemma CountsAfter(s: State, t: nat, c: Choice, s1: State, x: nat, o: nat)
    requires Inv(s) && Next(s, t, c) == Some(s1)
    ensures Counts(s1, x, o) <==> Gained(s, t, o) == Some(x) || (Counts(s, x, o) && Lost(s, t, o) != Some(x))
  {
    assert ThreadInv(s, t);
    StepUntouched(s, t, c, s1);
    if x < |s.handles| && !Owns(s, t, x) {
      CountsOfOthers(s, t, s1, x, o);
    } else if s.pcs[t].Idle? {
      CountsAfterStart(s, t, c, s1, x, o);
    } else {
      CountsAfterProceed(s, t, x, o);
    }
  }

  function Size(x: Option<nat>): nat {
    if x.Some? then 1 else 0
  }

  lemma Resized(before: set<nat>, gained: Option<nat>, lost: Option<nat>, after: set<nat>)
    requires forall x: nat :: x in after <==> gained == Some(x) || (x in before && lost != Some(x))
    requires gained.Some? ==> gained.value !in before
    requires lost.Some? ==> lost.value in before
    ensures |after| == |before| + Size(gained) - Size(lost)
  {
    var kept := if lost.Some? then before - {lost.value} else before;
    if gained.Some? {
      assert after == kept + {gained.value};
    } else {
      assert after == kept;
    }
  }

  lemma GainsAndLosses(s: State, t: nat, o: nat)
    requires Owned(s) && t < |s.pcs| && ThreadInv(s, t)
    ensures Gained(s, t, o).Some? ==> !Counts(s, Gained(s, t, o).value, o)
    ensures Lost(s, t, o).Some? ==> Counts(s, Lost(s, t, o).value, o)
    ensures s.pcs[t].Detach? ==> Size(Gained(s, t, o)) == Size(Lost(s, t, o))
  {
  }

  lemma CountedAfter(s: State, t: nat, c: Choice, s1: State, o: nat)
    requires Inv(s) && Next(s, t, c) == Some(s1)
    ensures |Counted(s1, o)| == |Counted(s, o)| + Size(Gained(s, t, o)) - Size(Lost(s, t, o))
  {
    forall x: nat
      ensures x in Counted(s1, o) <==> Gained(s, t, o) == Some(x) || (x in Counted(s, o) && Lost(s, t, o) != Some(x))
    {
      CountsAfter(s, t, c, s1, x, o);
    }
    assert ThreadInv(s, t);
    GainsAndLosses(s, t, o);
    Resized(Counted(s, o), Gained(s, t, o), Lost(s, t, o), Counted(s1, o));
  }

  // ---------------------------------------------------------------- what happens to an object

  /** The object that the next step of `t` counts up or down, or that it is to delete or not. */
  predicate Touches(s: State, t: nat, o: nat)
    requires t < |s.pcs|
  {
    match s.pcs[t]
    case Acquire(h, _) => PointsTo(s, h, o)
    case Drop(h, _) => PointsTo(s, h, o)
    case Decide(h, left, _) => left == 0 && PointsTo(s, h, o)
    case CreatorDrop(p) => p == o
    case CreatorDecide(p, left) => left == 0 && p == o
    case _ => false
  }

  /** The record of an object after the next step of `t`. */
  function Record(s: State, t: nat, o: nat): Object
    requires t < |s.pcs| && o < |s.objects|
  {
    var x := s.objects[o];
    if !Touches(s, t, o) then x
    else
      match s.pcs[t]
      case Acquire(_, _) => x.(refCount := x.refCount + 1)
      case Drop(_, _) => x.(refCount := x.refCount - 1, zeros := Zeros(x))
      case CreatorDrop(_) => x.(refCount := x.refCount - 1, zeros := Zeros(x), creator := None)
      case Decide(_, _, _) => x.(deletions := x.deletions + 1)
      case CreatorDecide(_, _) => x.(deletions := x.deletions + 1)
      case _ => x
  }

  function Zeros(x: Object): nat {
    if x.refCount == 1 then x.zeros + 1 else x.zeros
  }

  lemma RecordAfterStart(s: State, t: nat, c: Choice, s1: State, o: nat)
    requires Owned(s) && t < |s.pcs| && s.pcs[t].Idle? && Start(s, t, c) == Some(s1) && o < |s.objects|
    ensures o < |s1.objects| && s1.objects[o] == s.objects[o].(creator := s1.objects[o].creator)
    ensures s1.objects[o].creator.Some? <==> s.objects[o].creator.Some?
  {
  }

  lemma RecordAfter(s: State, t: nat, o: nat)
    requires t < |s.pcs| && ThreadInv(s, t) && Ready(s, t) && o < |s.objects|
    ensures |Proceed(s, t).objects| == |s.objects| && Proceed(s, t).objects[o] == Record(s, t, o)
  {
  }

  lemma DeletesOfOthers(s: State, t: nat, s1: State, u: nat, o: nat)
    requires t < |s.pcs| && Untouched(s, t, s1) && u != t && (u < |s.pcs| ==> ThreadInv(s, u))
    ensures Deletes(s1, u, o) == Deletes(s, u, o)
  {
  }

  lemma OwnDeletes(s: State, t: nat, o: nat)
    requires t < |s.pcs| && ThreadInv(s, t) && Ready(s, t) && o < |s.objects|
    ensures Deletes(Proceed(s, t), t, o) <==>
            Touches(s, t, o) && (s.pcs[t].Drop? || s.pcs[t].CreatorDrop?) && s.objects[o].refCount == 1
    ensures Deletes(s, t, o) <==> Touches(s, t, o) && (s.pcs[t].Decide? || s.pcs[t].CreatorDecide?)
  {
  }

  /** Whoever counts an object up or down has a reference to it: the count is at least 1. */
  lemma TouchedIsReferenced(s: State, t: nat, o: nat)
    requires Owned(s) && t < |s.pcs| && ThreadInv(s, t) && o < |s.objects| && ObjectInv(s, o)
    requires Touches(s, t, o) && (s.pcs[t].Acquire? || s.pcs[t].Drop? || s.pcs[t].CreatorDrop?)
    ensures s.objects[o].refCount >= 1
  {
    match s.pcs[t]
    case Acquire(_, from) =>
      if from.Some? {
        assert from.value in Counted(s, o);
      }
    case Drop(h, _) =>
      assert h in Counted(s, o);
    case _ =>
  }

  lemma ObjectKept(s: State, t: nat, c: Choice, s1: State, o: nat)
    requires Inv(s) && Next(s, t, c) == Some(s1) && o < |s.objects|
    ensures o < |s1.objects| && ObjectInv(s1, o)
  {
    assert ThreadInv(s, t) && ObjectInv(s, o);
    CountedAfter(s, t, c, s1, o);
    StepUntouched(s, t, c, s1);
    forall u: nat | u != t
      ensures Deletes(s1, u, o) == Deletes(s, u, o)
    {
      assert u < |s.pcs| ==> ThreadInv(s, u);
      DeletesOfOthers(s, t, s1, u, o);
    }
    if s.pcs[t].Idle? {
      RecordAfterStart(s, t, c, s1, o);
      StillDeletes(s, t, s1, o);
    } else {
      RecordAfter(s, t, o);
      OwnDeletes(s, t, o);
      ProceedObjectKept(s, t, s1, o);
    }
  }

  lemma StillDeletes(s: State, t: nat, s1: State, o: nat)
    requires t < |s.pcs| && o < |s.objects| && o < |s1.objects| && ObjectInv(s, o)
    requires forall u: nat :: u != t ==> Deletes(s1, u, o) == Deletes(s, u, o)
    requires Deletes(s1, t, o) == Deletes(s, t, o)
    requires s1.objects[o] == s.objects[o].(creator := s1.objects[o].creator)
    requires s1.objects[o].creator.Some? <==> s.objects[o].creator.Some?
    requires |Counted(s1, o)| == |Counted(s, o)|
    ensures ObjectInv(s1, o)
  {
    hide Deletes, Counted;
    if exists u :: Deletes(s, u, o) {
      var u :| Deletes(s, u, o);
      assert Deletes(s1, u, o);
    }
  }

  lemma ProceedObjectKept(s: State, t: nat, s1: State, o: nat)
    requires Owned(s) && t < |s.pcs| && ThreadInv(s, t) && o < |s.objects| && ObjectInv(s, o)
    requires o < |s1.objects| && s1.objects[o] == Record(s, t, o)
    requires forall u: nat :: u != t ==> Deletes(s1, u, o) == Deletes(s, u, o)
    requires Deletes(s1, t, o) <==>
             Touches(s, t, o) && (s.pcs[t].Drop? || s.pcs[t].CreatorDrop?) && s.objects[o].refCount == 1
    requires Deletes(s, t, o) <==> Touches(s, t, o) && (s.pcs[t].Decide? || s.pcs[t].CreatorDecide?)
    requires |Counted(s1, o)| == |Counted(s, o)| + Size(Gained(s, t, o)) - Size(Lost(s, t, o))
    ensures ObjectInv(s1, o)
  {
    hide Counted, Deletes;
    if !Touches(s, t, o) {
      StillDeletes(s, t, s1, o);
    } else if s.pcs[t].Decide? || s.pcs[t].CreatorDecide? {
      assert forall u :: !Deletes(s1, u, o);
    } else {
      TouchedIsReferenced(s, t, o);
      assert forall u :: u != t ==> !Deletes(s1, u, o);
    }
  }

  // ---------------------------------------------------------------- every run

  lemma NewObject(s: State, t: nat, s1: State)
    requires Inv(s) && Next(s, t, New) == Some(s1)
    ensures ObjectInv(s1, |s.objects|)
  {
    var o := |s.objects|;
    forall x: nat
      ensures !Counts(s1, x, o)
    {
      CountsAfter(s, t, New, s1, x, o);
    }
    assert Counted(s1, o) == {};
    forall u: nat
      ensures !Deletes(s1, u, o)
    {
      assert u < |s.pcs| ==> ThreadInv(s, u);
    }
  }

  lemma StepInv(s: State, t: nat, c: Choice, s1: State)
    requires Inv(s) && Next(s, t, c) == Some(s1)
    ensures Inv(s1)
  {
    assert ThreadInv(s, t);
    StepUntouched(s, t, c, s1);
    if s.pcs[t].Idle? {
      StartKeepsOwn(s, t, c, s1);
    } else {
      ProceedOwned(s, t);
      ProceedKeepsOwn(s, t);
    }
    forall u | 0 <= u < |s1.pcs|
      ensures ThreadInv(s1, u)
    {
      if u != t {
        OthersKeepTheirs(s, t, s1, u);
      }
    }
    forall o | 0 <= o < |s1.objects|
      ensures ObjectInv(s1, o)
    {
      if o < |s.objects| {
        ObjectKept(s, t, c, s1, o);
      } else {
        ObjectsMade(s, t, c, s1);
        NewObject(s, t, s1);
      }
    }
  }

  lemma ObjectsMade(s: State, t: nat, c: Choice, s1: State)
    requires Inv(s) && Next(s, t, c) == Some(s1) && |s1.objects| > |s.objects|
    ensures c == New && |s1.objects| == |s.objects| + 1
  {
    assert ThreadInv(s, t);
    if !s.pcs[t].Idle? && s.objects != [] {
      RecordAfter(s, t, 0);
    }
  }

  lemma {:induction false} RunInv(s: State, events: seq<Event>)
    requires Inv(s) && Run(s, events).Some?
    ensures Inv(Run(s, events).value)
    decreases |events|
  {
    if events != [] {
      var s1 := Next(s, events[0].thread, events[0].choice).value;
      StepInv(s, events[0].thread, events[0].choice, s1);
      RunInv(s1, events[1..]);
    }
  }

  /** A state that some interleaving of any number of threads reaches. */
  ghost predicate Reachable(s: State) {
    exists threads: nat, events: seq<Event> :: Run(Init(threads), events) == Some(s)
  }

  lemma ReachableInv(s: State)
    requires Reachable(s)
    ensures Inv(s)
  {
    var threads: nat, events: seq<Event> :| Run(Init(threads), events) == Some(s);
    InitInv(threads);
    RunInv(Init(threads), events);
  }

  // ---------------------------------------------------------------- what follows

  /** Thread `t` is between its `dec_ref` through handle `h` and setting the pointer to null. */
  predicate Clearing(s: State, t: nat, h: nat) {
    t < |s.pcs| && (s.pcs[t].Decide? || s.pcs[t].Nullify?) && s.pcs[t].h == h
  }

  /** No handle points to a deleted object, except the one whose own `clear` is on its way. */
  lemma NoDanglingHandle(s: State, h: nat, o: nat)
    requires Reachable(s) && h < |s.handles| && s.handles[h].Handle? && s.handles[h].ptr == Some(o)
    requires !Clearing(s, s.handles[h].owner, h)
    ensures o < |s.objects| && s.objects[o].deletions == 0 && s.objects[o].refCount >= 1
  {
    ReachableInv(s);
    var t := s.handles[h].owner;
    assert Points(s, h) && ThreadInv(s, t) && ObjectInv(s, o);
    if InFlight(s.pcs[t], h) {
      var from := if s.pcs[t].Detach? then Some(s.pcs[t].other) else s.pcs[t].from;
      if from.Some? {
        assert Counts(s, from.value, o);
        assert from.value in Counted(s, o);
      }
    } else {
      assert h in Counted(s, o);
    }
  }

  /** Every `inc_ref`, `dec_ref` and `delete` is made on an object that has not been deleted. */
  lemma TouchesOnlyLive(s: State, t: nat, o: nat)
    requires Reachable(s) && t < |s.pcs| && o < |s.objects| && Touches(s, t, o)
    ensures s.objects[o].deletions == 0
  {
    ReachableInv(s);
    assert ThreadInv(s, t) && ObjectInv(s, o);
    if s.pcs[t].Decide? || s.pcs[t].CreatorDecide? {
      assert Deletes(s, t, o);
    } else {
      TouchedIsReferenced(s, t, o);
    }
  }

  /** At most one `dec_ref` ever returns 0, one does exactly when no reference is left, and only
      then is the object deleted, once. */
  lemma DeletedAtMostOnce(s: State, o: nat)
    requires Reachable(s) && o < |s.objects|
    ensures var x := s.objects[o];
            && x.deletions <= x.zeros <= 1
            && (x.zeros == 1 <==> Counted(s, o) == {} && x.creator.None?)
            && x.refCount == |Counted(s, o)| + (if x.creator.Some? then 1 else 0)
  {
    ReachableInv(s);
    assert ObjectInv(s, o);
  }

  /** Nothing leaks: once no thread is about to delete it, an object without references is gone. */
  lemma UnreferencedIsDeleted(s: State, o: nat)
    requires Reachable(s) && o < |s.objects| && forall t :: 0 <= t < |s.pcs| ==> s.pcs[t].Idle?
    ensures s.objects[o].deletions == 1 <==>
            s.objects[o].creator.None?
            && forall h :: 0 <= h < |s.handles| && s.handles[h].Handle? ==> s.handles[h].ptr != Some(o)
  {
    ReachableInv(s);
    assert ObjectInv(s, o);
    forall h: nat
      ensures h in Counted(s, o) <==> h < |s.handles| && s.handles[h].Handle? && s.handles[h].ptr == Some(o)
    {
    }
    if s.objects[o].creator.None? && Counted(s, o) == {} {
      assert s.objects[o].zeros == 1;
    }
  }

  // ---------------------------------------------------------------- what an operation does

  /** Steps that an operation still has to take at most. */
  function Rank(pc: Pc): nat {
    match pc
    case Idle => 0
    case Acquire(_, _) => 1
    case Detach(_, _) => 1
    case CreatorDecide(_, _) => 1
    case CreatorDrop(_) => 2
    case Assign(_, _, _) => 2
    case Nullify(_, _) => 3
    case Decide(_, _, _) => 4
    case Drop(_, _) => 5
    case Test(_, _) => 6
  }

  /** No operation ever waits: its next step is always open, and it is done after at most six. */
  lemma NeverBlocked(s: State, t: nat)
    requires Reachable(s) && t < |s.pcs| && !s.pcs[t].Idle?
    ensures Next(s, t, Go).Some? && Rank(Next(s, t, Go).value.pcs[t]) < Rank(s.pcs[t]) <= 6
  {
    ReachableInv(s);
    assert ThreadInv(s, t);
  }

  /** The pointer that assigning from `g` leaves in `h`: assignment to itself drops the reference. */
  function Assigned(s: State, h: nat, g: nat): Option<nat>
    requires g < |s.handles| && s.handles[g].Handle?
  {
    if g == h then None else s.handles[g].ptr
  }

  /** What the running operation of `t` is going to leave in its handle `x`. */
  function Final(s: State, t: nat, x: nat): Handle
    requires t < |s.pcs| && ThreadInv(s, t) && Owns(s, t, x)
  {
    var now := s.handles[x];
    match s.pcs[t]
    case Test(h, next) => FinalAfterClear(s, t, h, next, x)
    case Drop(h, next) => FinalAfterClear(s, t, h, next, x)
    case Decide(h, _, next) => FinalAfterClear(s, t, h, next, x)
    case Nullify(h, next) => FinalAfterClear(s, t, h, next, x)
    case Assign(h, g, moving) =>
      if x == g && moving then now.(ptr := None) else if x == h then now.(ptr := s.handles[g].ptr) else now
    case Detach(_, g) => if x == g then now.(ptr := None) else now
    case _ => now
  }

  function FinalAfterClear(s: State, t: nat, h: nat, next: Then, x: nat): Handle
    requires t < |s.pcs| && Owns(s, t, x) && ThenInv(s, t, next)
  {
    var now := s.handles[x];
    match next
    case Nothing => if x == h then now.(ptr := None) else now
    case Destroyed => if x == h then Gone else now
    case CopyFrom(g) => if x == h then now.(ptr := Assigned(s, h, g)) else now
    case MoveFrom(g) =>
      if x == g then now.(ptr := None) else if x == h then now.(ptr := Assigned(s, h, g)) else now
  }

  lemma FinalOfOthers(s: State, u: nat, s1: State, t: nat, x: nat)
    requires Untouched(s, u, s1) && t < |s.pcs| && t != u && ThreadInv(s, t) && ThreadInv(s1, t) && Owns(s, t, x)
    ensures Owns(s1, t, x) && Final(s1, t, x) == Final(s, t, x)
  {
  }

  lemma FinalOfOwn(s: State, t: nat, x: nat)
    requires t < |s.pcs| && ThreadInv(s, t) && Ready(s, t) && ThreadInv(Proceed(s, t), t) && Owns(s, t, x)
    ensures var s1 := Proceed(s, t);
            if Owns(s1, t, x) then Final(s1, t, x) == Final(s, t, x)
            else s1.pcs[t].Idle? && s1.handles[x] == Gone == Final(s, t, x)
  {
  }

  /** Thread `t` only goes on with what it has begun. */
  predicate OnlyGoes(events: seq<Event>, t: nat) {
    forall i :: 0 <= i < |events| && events[i].thread == t ==> events[i].choice.Go?
  }

  lemma {:induction false} StaysGone(s: State, events: seq<Event>, x: nat)
    requires Inv(s) && Run(s, events).Some? && x < |s.handles| && s.handles[x] == Gone
    ensures x < |Run(s, events).value.handles| && Run(s, events).value.handles[x] == Gone
    decreases |events|
  {
    if events != [] {
      var t, c := events[0].thread, events[0].choice;
      var s1 := Next(s, t, c).value;
      assert ThreadInv(s, t);
      StepUntouched(s, t, c, s1);
      StepInv(s, t, c, s1);
      StaysGone(s1, events[1..], x);
    }
  }

  /** Whatever the other threads do meanwhile, a finished operation has had its effect. */
  lemma {:induction false} OperationTakesEffect(s: State, events: seq<Event>, t: nat, x: nat)
    requires Inv(s) && Run(s, events).Some? && t < |s.pcs| && OnlyGoes(events, t) && Owns(s, t, x)
    requires t < |Run(s, events).value.pcs| && Run(s, events).value.pcs[t].Idle?
    ensures x < |Run(s, events).value.handles| && Run(s, events).value.handles[x] == Final(s, t, x)
    decreases |events|
  {
    if events != [] {
      var u, c := events[0].thread, events[0].choice;
      var s1 := Next(s, u, c).value;
      assert ThreadInv(s, u);
      StepUntouched(s, u, c, s1);
      StepInv(s, u, c, s1);
      assert ThreadInv(s, t) && ThreadInv(s1, t);
      if u != t {
        FinalOfOthers(s, u, s1, t, x);
      } else {
        FinalOfOwn(s, t, x);
      }
      if Owns(s1, t, x) {
        OperationTakesEffect(s1, events[1..], t, x);
      } else {
        StaysGone(s1, events[1..], x);
      }
    }
  }

  /** Both assignments: the target ends with the other's pointer, or null if it is the other; the
      other keeps its pointer when copied and loses it when moved. */
  lemma AssignmentTakesEffect(s: State, t: nat, c: Choice, events: seq<Event>)
    requires Inv(s) && t < |s.pcs| && s.pcs[t].Idle? && (c.AssignCopy? || c.AssignMove?) && Next(s, t, c).Some?
    requires OnlyGoes(events, t) && Run(Next(s, t, c).value, events).Some?
    requires t < |Run(Next(s, t, c).value, events).value.pcs| && Run(Next(s, t, c).value, events).value.pcs[t].Idle?
    ensures var after := Run(Next(s, t, c).value, events).value.handles;
            && c.h < |after| && c.g < |after|
            && after[c.h] == Handle(t, Assigned(s, c.h, c.g))
            && (c.g != c.h ==> after[c.g] == if c.AssignMove? then Handle(t, None) else s.handles[c.g])
  {
    var s1 := Next(s, t, c).value;
    StepInv(s, t, c, s1);
    OperationTakesEffect(s1, events, t, c.h);
    OperationTakesEffect(s1, events, t, c.g);
  }

  /** The constructors: the new handle is empty, or points where it was made from; the other keeps its
      pointer when copied and loses it when moved. */
  lemma ConstructionTakesEffect(s: State, t: nat, c: Choice, events: seq<Event>)
    requires Inv(s) && t < |s.pcs| && s.pcs[t].Idle? && Next(s, t, c).Some?
    requires c.MakeNull? || c.MakeRaw? || c.MakeCopy? || c.MakeMove?
    requires OnlyGoes(events, t) && Run(Next(s, t, c).value, events).Some?
    requires t < |Run(Next(s, t, c).value, events).value.pcs| && Run(Next(s, t, c).value, events).value.pcs[t].Idle?
    ensures var after, h := Run(Next(s, t, c).value, events).value.handles, |s.handles|;
            && h < |after|
            && (c.MakeNull? ==> after[h] == Handle(t, None))
            && (c.MakeRaw? ==> after[h] == Handle(t, Some(c.o)))
            && (c.MakeCopy? ==> c.g < h && after[h] == Handle(t, s.handles[c.g].ptr) && after[c.g] == s.handles[c.g])
            && (c.MakeMove? ==> c.g < h && after[h] == Handle(t, s.handles[c.g].ptr) && after[c.g] == Handle(t, None))
  {
    var s1 := Next(s, t, c).value;
    StepInv(s, t, c, s1);
    OperationTakesEffect(s1, events, t, |s.handles|);
    if c.MakeCopy? || c.MakeMove? {
      OperationTakesEffect(s1, events, t, c.g);
    }
  }

  /** `clear` leaves the handle empty, the destructor leaves none. */
  lemma ReleaseTakesEffect(s: State, t: nat, c: Choice, events: seq<Event>)
    requires Inv(s) && t < |s.pcs| && s.pcs[t].Idle? && (c.Clear? || c.Destroy?) && Next(s, t, c).Some?
    requires OnlyGoes(events, t) && Run(Next(s, t, c).value, events).Some?
    requires t < |Run(Next(s, t, c).value, events).value.pcs| && Run(Next(s, t, c).value, events).value.pcs[t].Idle?
    ensures var after := Run(Next(s, t, c).value, events).value.handles;
            c.h < |after| && after[c.h] == if c.Clear? then Handle(t, None) else Gone
  {
    var s1 := Next(s, t, c).value;
    StepInv(s, t, c, s1);
    OperationTakesEffect(s1, events, t, c.h);
  }

  /** `n` steps of thread `t`. */
  function Goes(t: nat, n: nat): (events: seq<Event>)
    ensures |events| == n && OnlyGoes(events, t) && forall i :: 0 <= i < n ==> events[i] == Event(t, Go)
  {
    seq(n, i => Event(t, Go))
  }

  /** What a thread has begun it can finish alone. */
  lemma {:induction false} FinishesAlone(s: State, t: nat) returns (n: nat)
    requires Inv(s) && t < |s.pcs|
    ensures n <= Rank(s.pcs[t]) && Run(s, Goes(t, n)).Some?
    ensures var z := Run(s, Goes(t, n)).value; |z.pcs| == |s.pcs| && z.pcs[t].Idle?
    decreases Rank(s.pcs[t])
  {
    hide Inv;
    if s.pcs[t].Idle? {
      n := 0;
    } else {
      OwnReady(s, t);
      var s1 := Next(s, t, Go).value;
      StepInv(s, t, Go, s1);
      n := FinishesAlone(s1, t);
      assert Goes(t, n + 1)[1..] == Goes(t, n);
      n := n + 1;
    }
  }

  lemma OwnReady(s: State, t: nat)
    requires Inv(s) && t < |s.pcs| && !s.pcs[t].Idle?
    ensures Next(s, t, Go).Some?
    ensures var s1 := Next(s, t, Go).value; |s1.pcs| == |s.pcs| && Rank(s1.pcs[t]) < Rank(s.pcs[t])
  {
    assert ThreadInv(s, t);
  }

  /** The operation is on things that thread `t` owns. */
  predicate Permitted(s: State, t: nat, c: Choice) {
    match c
    case Go => false
    case New => true
    case MakeNull => true
    case MakeRaw(o) => Created(s, t, o)
    case MakeCopy(g) => Owns(s, t, g)
    case MakeMove(g) => Owns(s, t, g)
    case Clear(h) => Owns(s, t, h)
    case AssignCopy(h, g) => Owns(s, t, h) && Owns(s, t, g)
    case AssignMove(h, g) => Owns(s, t, h) && Owns(s, t, g)
    case Destroy(h) => Owns(s, t, h)
    case DropCreator(o) => Created(s, t, o)
    case GiveHandle(h, u) => Owns(s, t, h) && u < |s.pcs|
    case GiveCreator(o, u) => Created(s, t, o) && u < |s.pcs|
  }

  /** Every operation on what a thread owns can be begun and finished alone in at most six steps; a new
      object has the one reference that its creator holds, which is gone once the creator has dropped it. */
  lemma OperationsCanBeDone(s: State, t: nat, c: Choice) returns (n: nat)
    requires Inv(s) && t < |s.pcs| && s.pcs[t].Idle? && Permitted(s, t, c)
    ensures Next(s, t, c).Some? && n <= 6 && Run(Next(s, t, c).value, Goes(t, n)).Some?
    ensures var z := Run(Next(s, t, c).value, Goes(t, n)).value;
            && |z.pcs| == |s.pcs| && z.pcs[t].Idle?
            && (c.New? ==> z.objects == s.objects + [Object(1, Some(t), 0, 0)])
            && (c.DropCreator? ==> c.o < |z.objects| && z.objects[c.o].creator.None?)
            && (c.GiveHandle? ==> Owns(z, c.to, c.h) && z.handles[c.h].ptr == s.handles[c.h].ptr)
            && (c.GiveCreator? ==> Created(z, c.to, c.o))
  {
    var s1 := Next(s, t, c).value;
    StepInv(s, t, c, s1);
    n := FinishesAlone(s1, t);
    if s1.pcs[t].Idle? {
      NothingToDo(s1, t, n);
    } else if c.DropCreator? {
      DropsAlone(s1, t, c.o, n);
    }
  }

  lemma NothingToDo(s: State, t: nat, n: nat)
    requires t < |s.pcs| && s.pcs[t].Idle? && Run(s, Goes(t, n)).Some?
    ensures n == 0 && Run(s, Goes(t, n)) == Some(s)
  {
  }

  lemma DropsAlone(s: State, t: nat, o: nat, n: nat)
    requires Inv(s) && t < |s.pcs| && s.pcs[t] == CreatorDrop(o) && Run(s, Goes(t, n)).Some?
    requires var z := Run(s, Goes(t, n)).value; t < |z.pcs| && z.pcs[t].Idle?
    ensures var z := Run(s, Goes(t, n)).value; o < |z.objects| && z.objects[o].creator.None?
  {
    assert ThreadInv(s, t);
    if n > 0 {
      var s1 := Next(s, t, Go).value;
      assert Goes(t, n)[0] == Event(t, Go) && Goes(t, n)[1..] == Goes(t, n - 1);
      if n > 1 {
        var s2 := Next(s1, t, Go).value;
        assert Goes(t, n - 1)[0] == Event(t, Go) && Goes(t, n - 1)[1..] == Goes(t, n - 2);
        NothingToDo(s2, t, n - 2);
      }
    }
  }
}
