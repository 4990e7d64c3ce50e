/**
 * `RefObject` and `Ref` (utils/lock/refs.h): atomic reference counting as a transition system over
 * interleavings. Every `atomic_add`, every `delete`, every test and every assignment of `ptr` is
 * one step of one thread; each handle and each creator's reference is owned by one thread, which
 * may pass it on between operations. Memory is sequentially consistent.
 */
module RefCounting {
  import opened Wrappers

  /** A `RefObject`. `creator` is the thread that holds the constructor's reference, while it does;
      `zeros` counts the calls of `dec_ref` that returned 0, `deletions` those of `delete`. */
  datatype Object = Object(refCount: int, creator: Option<nat>, zeros: nat, deletions: nat)

  /** A `Ref` and the thread that owns it, or the place of one that has been destroyed. */
  datatype Handle = Gone | Handle(owner: nat, ptr: Option<nat>)

  /** What an operation does after its call of `clear`. */
  datatype Then = Nothing | Destroyed | CopyFrom(other: nat) | MoveFrom(other: nat)

  /** Where a thread is within an operation. */
  datatype Pc =
    | Idle
    | Acquire(h: nat, from: Option<nat>)       // ptr is set: about to inc_ref; `from` is the handle copied
    | Test(h: nat, next: Then)                 // clear: about to test ptr
    | Drop(h: nat, next: Then)                 // about to dec_ref
    | Decide(h: nat, left: int, next: Then)    // dec_ref returned `left`
    | Nullify(h: nat, next: Then)              // about to set ptr to null
    | Assign(h: nat, other: nat, moving: bool) // cleared: about to set ptr to other.ptr
    | Detach(h: nat, other: nat)               // moved: about to set other.ptr to null
    | CreatorDrop(o: nat)                      // the creator is about to dec_ref
    | CreatorDecide(o: nat, left: int)

  datatype State = State(objects: seq<Object>, handles: seq<Handle>, pcs: seq<Pc>)

  /** The next step of a running operation, or the operation that an idle thread starts. */
  datatype Choice =
    | Go
    | New
    | MakeNull | MakeRaw(o: nat) | MakeCopy(g: nat) | MakeMove(g: nat)
    | Clear(h: nat) | AssignCopy(h: nat, g: nat) | AssignMove(h: nat, g: nat) | Destroy(h: nat)
    | DropCreator(o: nat)
    | GiveHandle(h: nat, to: nat) | GiveCreator(o: nat, to: nat)

  datatype Event = Event(thread: nat, choice: Choice)

  function Init(threads: nat): State {
    State([], [], seq(threads, i => Idle))
  }

  predicate Owns(s: State, t: nat, h: nat) {
    h < |s.handles| && s.handles[h].Handle? && s.handles[h].owner == t
  }

  predicate Created(s: State, t: nat, o: nat) {
    o < |s.objects| && s.objects[o].creator == Some(t)
  }

  function At(s: State, t: nat, pc: Pc): State
    requires t < |s.pcs|
  {
    s.(pcs := s.pcs[t := pc])
  }

  function Point(s: State, h: nat, p: Option<nat>): State
    requires h < |s.handles| && s.handles[h].Handle?
  {
    s.(handles := s.handles[h := s.handles[h].(ptr := p)])
  }

  function Make(s: State, t: nat, p: Option<nat>): State {
    s.(handles := s.handles + [Handle(t, p)])
  }

  /** An idle thread starts an operation on things it owns. */
  function Start(s: State, t: nat, c: Choice): Option<State>
    requires t < |s.pcs|
  {
    match c
    case Go => None
    case New => Some(s.(objects := s.objects + [Object(1, Some(t), 0, 0)]))
    case MakeNull => Some(Make(s, t, None))
    case MakeRaw(o) =>
      if Created(s, t, o) then Some(At(Make(s, t, Some(o)), t, Acquire(|s.handles|, None))) else None
    case MakeCopy(g) =>
      if Owns(s, t, g) then Some(At(Make(s, t, s.handles[g].ptr), t, Acquire(|s.handles|, Some(g)))) else None
    case MakeMove(g) =>
      if Owns(s, t, g) then Some(At(Make(s, t, s.handles[g].ptr), t, Detach(|s.handles|, g))) else None
    case Clear(h) => if Owns(s, t, h) then Some(At(s, t, Test(h, Nothing))) else None
    case Destroy(h) => if Owns(s, t, h) then Some(At(s, t, Test(h, Destroyed))) else None
    case AssignCopy(h, g) =>
      if Owns(s, t, h) && Owns(s, t, g) then Some(At(s, t, Test(h, CopyFrom(g)))) else None
    case AssignMove(h, g) =>
      if Owns(s, t, h) && Owns(s, t, g) then Some(At(s, t, Test(h, MoveFrom(g)))) else None
    case DropCreator(o) => if Created(s, t, o) then Some(At(s, t, CreatorDrop(o))) else None
    case GiveHandle(h, u) =>
      if Owns(s, t, h) && u < |s.pcs| then Some(s.(handles := s.handles[h := s.handles[h].(owner := u)])) else None
    case GiveCreator(o, u) =>
      if Created(s, t, o) && u < |s.pcs|
      then Some(s.(objects := s.objects[o := s.objects[o].(creator := Some(u))])) else None
  }

  /** `atomic_add` on the reference count of object `o`. */
  function Add(s: State, o: nat, v: int): State
    requires o < |s.objects|
  {
    var x := s.objects[o];
    var n := x.refCount + v;
    s.(objects := s.objects[o := x.(refCount := n, zeros := if v < 0 && n == 0 then x.zeros + 1 else x.zeros)])
  }

  function Delete(s: State, o: nat): State
    requires o < |s.objects|
  {
    s.(objects := s.objects[o := s.objects[o].(deletions := s.objects[o].deletions + 1)])
  }

  /** The end of `clear`, and what the operation does next. */
  function Cleared(s: State, t: nat, h: nat, next: Then): State
    requires t < |s.pcs| && h < |s.handles|
  {
    match next
    case Nothing => At(s, t, Idle)
    case Destroyed => At(s.(handles := s.handles[h := Gone]), t, Idle)
    case CopyFrom(g) => At(s, t, Assign(h, g, false))
    case MoveFrom(g) => At(s, t, Assign(h, g, true))
  }

  predicate Points(s: State, h: nat) {
    h < |s.handles| && s.handles[h].Handle? && (s.handles[h].ptr.Some? ==> s.handles[h].ptr.value < |s.objects|)
  }

  /** What the next step of thread `t` touches exists. */
  predicate Ready(s: State, t: nat)
    requires t < |s.pcs|
  {
    match s.pcs[t]
    case Idle => false
    case Acquire(h, _) => Points(s, h)
    case Test(h, _) => Points(s, h)
    case Drop(h, _) => Points(s, h) && s.handles[h].ptr.Some?
    case Decide(h, _, _) => Points(s, h) && s.handles[h].ptr.Some?
    case Nullify(h, _) => Points(s, h)
    case Assign(h, g, _) => Points(s, h) && Points(s, g)
    case Detach(h, g) => Points(s, h) && Points(s, g)
    case CreatorDrop(o) => o < |s.objects|
    case CreatorDecide(o, _) => o < |s.objects|
  }

  function Proceed(s: State, t: nat): State
    requires t < |s.pcs| && Ready(s, t)
  {
    match s.pcs[t]
    case Acquire(h, _) =>
      if s.handles[h].ptr.Some? then At(Add(s, s.handles[h].ptr.value, 1), t, Idle) else At(s, t, Idle)
    case Test(h, next) =>
      if s.handles[h].ptr.Some? then At(s, t, Drop(h, next)) else Cleared(s, t, h, next)
    case Drop(h, next) =>
      var o := s.handles[h].ptr.value;
      At(Add(s, o, -1), t, Decide(h, s.objects[o].refCount - 1, next))
    case Decide(h, left, next) =>
      At(if left == 0 then Delete(s, s.handles[h].ptr.value) else s, t, Nullify(h, next))
    case Nullify(h, next) => Cleared(Point(s, h, None), t, h, next)
    case Assign(h, g, moving) =>
      At(Point(s, h, s.handles[g].ptr), t, if moving then Detach(h, g) else Acquire(h, Some(g)))
    case Detach(h, g) => At(Point(s, g, None), t, Idle)
    case CreatorDrop(o) =>
      var dropped := Add(s, o, -1);
      var x := dropped.objects[o].(creator := None);
      At(dropped.(objects := dropped.objects[o := x]), t, CreatorDecide(o, x.refCount))
    case CreatorDecide(o, left) => At(if left == 0 then Delete(s, o) else s, t, Idle)
  }

  /** One step of thread `t`, or `None` when that choice is not open to it. */
  function Next(s: State, t: nat, c: Choice): Option<State> {
    if t >= |s.pcs| then None
    else if s.pcs[t].Idle? then Start(s, t, c)
    else if c.Go? && Ready(s, t) then Some(Proceed(s, t))
    else None
  }

  function Run(s: State, events: seq<Event>): Option<State>
    decreases |events|
  {
    if events == [] then Some(s)
    else
      match Next(s, events[0].thread, events[0].choice)
      case None => None
      case Some(s1) => Run(s1, events[1..])
  }

  // ---------------------------------------------------------------- what every run keeps

  /** The handle that a thread is holding without a reference of its own in the count. */
  predicate InFlight(pc: Pc, h: nat) {
    (pc.Acquire? || pc.Decide? || pc.Nullify? || pc.Detach?) && pc.h == h
  }

  /** Handle `h` accounts for one unit of the count of object `o`. */
  predicate Counts(s: State, h: nat, o: nat) {
    h < |s.handles| && s.handles[h].Handle? && s.handles[h].owner < |s.pcs| && s.handles[h].ptr == Some(o)
    && !InFlight(s.pcs[s.handles[h].owner], h)
  }

  function Counted(s: State, o: nat): set<nat> {
    set h: nat | h < |s.handles| && Counts(s, h, o)
  }

  /** Thread `t` has seen the count of `o` reach zero and is about to delete it. */
  predicate Deletes(s: State, t: nat, o: nat) {
    t < |s.pcs| && (
      match s.pcs[t]
      case Decide(h, left, _) => left == 0 && h < |s.handles| && s.handles[h].Handle? && s.handles[h].ptr == Some(o)
      case CreatorDecide(p, left) => left == 0 && p == o
      case _ => false)
  }

  predicate ThenInv(s: State, t: nat, next: Then) {
    match next
    case CopyFrom(g) => Owns(s, t, g)
    case MoveFrom(g) => Owns(s, t, g)
    case _ => true
  }

  /** What a thread within an operation relies on. */
  predicate ThreadInv(s: State, t: nat)
    requires t < |s.pcs|
  {
    match s.pcs[t]
    case Idle => true
    case Acquire(h, from) =>
      Owns(s, t, h) && (
        match s.handles[h].ptr
        case None => true
        case Some(o) =>
          match from
          case None => Created(s, t, o)
          case Some(g) => g != h && Owns(s, t, g) && s.handles[g].ptr == Some(o))
    case Test(h, next) => Owns(s, t, h) && ThenInv(s, t, next)
    case Drop(h, next) => Owns(s, t, h) && ThenInv(s, t, next) && s.handles[h].ptr.Some?
    case Decide(h, _, next) => Owns(s, t, h) && ThenInv(s, t, next) && s.handles[h].ptr.Some?
    case Nullify(h, next) => Owns(s, t, h) && ThenInv(s, t, next)
    case Assign(h, g, _) => Owns(s, t, h) && Owns(s, t, g) && s.handles[h].ptr == None
    case Detach(h, g) =>
      Owns(s, t, h) && Owns(s, t, g) && s.handles[h].ptr == s.handles[g].ptr && (h == g ==> s.handles[h].ptr == None)
    case CreatorDrop(o) => Created(s, t, o)
    case CreatorDecide(o, _) => o < |s.objects|
  }

  /** The count is the number of references, and who sees it reach zero deletes the object. */
  ghost predicate ObjectInv(s: State, o: nat)
    requires o < |s.objects|
  {
    var x := s.objects[o];
    && x.refCount == |Counted(s, o)| + (if x.creator.Some? then 1 else 0)
    && x.zeros == (if x.refCount == 0 then 1 else 0)
    && x.deletions <= x.zeros
    && (forall t :: Deletes(s, t, o) ==> x.zeros == 1 && x.deletions == 0)
    && (forall t, u :: Deletes(s, t, o) && Deletes(s, u, o) ==> t == u)
    && (x.zeros == 1 && x.deletions == 0 ==> exists t :: Deletes(s, t, o))
  }

  predicate Owned(s: State) {
    && (forall h :: 0 <= h < |s.handles| && s.handles[h].Handle? ==> s.handles[h].owner < |s.pcs| && Points(s, h))
    && (forall o :: 0 <= o < |s.objects| && s.objects[o].creator.Some? ==> s.objects[o].creator.value < |s.pcs|)
  }

  ghost predicate Inv(s: State) {
    && Owned(s)
    && (forall t :: 0 <= t < |s.pcs| ==> ThreadInv(s, t))
    && (forall o :: 0 <= o < |s.objects| ==> ObjectInv(s, o))
  }
}
