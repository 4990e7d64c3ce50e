/**
 * `RefObject` and `Ref` (utils/lock/refs.h) as objects updated in place, one call at a time. Each
 * call is stated over the set of all handles, so aliasing is part of it: the handle assigned to
 * may be the one assigned from, or point to the same object.
 */
module RefObjects {
  class RefObject {
    var refCount: int
    var deletions: nat     // how often `delete` has been called on it

    constructor ()
      ensures refCount == 1 && deletions == 0
    {
      refCount, deletions := 1, 0;
    }

    method IncRef() returns (n: int)
      modifies `refCount
      ensures n == refCount == old(refCount) + 1
    {
      refCount := refCount + 1;
      n := refCount;
    }

    method DecRef() returns (n: int)
      modifies `refCount
      ensures n == refCount == old(refCount) - 1
    {
      refCount := refCount - 1;
      n := refCount;
    }
  }

  /** The handles that point to `o`. */
  function Pointing(refs: set<Ref>, o: RefObject): set<Ref>
    reads refs
  {
    set r | r in refs && r.ptr == o
  }

  /** Every object's count is the number of handles that point to it, plus one while its creator
      holds on to it, and it is deleted, once, exactly when there are none. */
  ghost predicate Counted(refs: set<Ref>, objects: set<RefObject>, held: set<RefObject>)
    reads refs, objects
  {
    && held <= objects
    && (forall r :: r in refs && r.ptr != null ==> r.ptr in objects)
    && (forall o :: o in objects ==>
          && o.refCount == |Pointing(refs, o)| + (if o in held then 1 else 0)
          && o.deletions == (if o.refCount == 0 then 1 else 0))
  }

  class Ref {
    var ptr: RefObject?

    /** An empty handle. */
    constructor ()
      ensures ptr == null
    {
      ptr := null;
    }

    /** A handle made from a pointer; whoever has the pointer holds a reference meanwhile. */
    constructor Raw(ptr: RefObject?, ghost refs: set<Ref>, ghost objects: set<RefObject>, ghost held: set<RefObject>)
      requires Counted(refs, objects, held) && (ptr != null ==> ptr in held)
      modifies objects
      ensures this.ptr == ptr && Counted(refs + {this}, objects, held)
    {
      this.ptr := ptr;
      new;
      assert this !in refs && refs - {this} == refs;
      IncRef(refs, objects, held);
    }

    constructor Copy(other: Ref, ghost refs: set<Ref>, ghost objects: set<RefObject>, ghost held: set<RefObject>)
      requires Counted(refs, objects, held) && other in refs
      modifies objects
      ensures ptr == old(other.ptr) && Counted(refs + {this}, objects, held)
    {
      ptr := other.ptr;
      new;
      assert this !in refs && refs - {this} == refs;
      PointedIsCounted(other, refs, objects, held);
      IncRef(refs, objects, held);
    }

    constructor Move(other: Ref, ghost refs: set<Ref>, ghost objects: set<RefObject>, ghost held: set<RefObject>)
      requires Counted(refs, objects, held) && other in refs
      modifies other
      ensures ptr == old(other.ptr) && other.ptr == null && Counted(refs + {this}, objects, held)
    {
      ptr := other.ptr;
      new;
      assert this !in refs && refs - {this} == refs;
      Detach(other, refs, objects, held);
    }

    /** The handle already points to its object; now the count says so too. */
    method IncRef(ghost refs: set<Ref>, ghost objects: set<RefObject>, ghost held: set<RefObject>)
      requires Counted(refs - {this}, objects, held)
      requires ptr != null ==> ptr in objects && ptr.refCount > 0
      modifies objects
      ensures Counted(refs + {this}, objects, held)
      ensures forall o :: o in objects ==> o.deletions == old(o.deletions)
    {
      if ptr != null {
        var _ := ptr.IncRef();
      }
      forall o | o in objects
        ensures |Pointing(refs + {this}, o)| == old(|Pointing(refs - {this}, o)|) + (if ptr == o then 1 else 0)
      {
        WithThis(refs, o);
      }
    }

    lemma WithThis(refs: set<Ref>, o: RefObject)
      ensures |Pointing(refs + {this}, o)| == |Pointing(refs - {this}, o)| + (if ptr == o then 1 else 0)
    {
      if ptr == o {
        assert Pointing(refs + {this}, o) == Pointing(refs - {this}, o) + {this};
      } else {
        assert Pointing(refs + {this}, o) == Pointing(refs - {this}, o);
      }
    }

    /** The handle already points where `other` does; now it takes over the reference. */
    method Detach(other: Ref, ghost refs: set<Ref>, ghost objects: set<RefObject>, ghost held: set<RefObject>)
      requires Counted(refs - {this}, objects, held) && other in refs
      requires ptr == other.ptr && (other == this ==> ptr == null)
      modifies other
      ensures ptr == old(ptr) && other.ptr == null && Counted(refs + {this}, objects, held)
    {
      label L:
      other.ptr := null;
      forall o | o in objects
        ensures |Pointing(refs + {this}, o)| == old@L(|Pointing(refs - {this}, o)|)
      {
        WithThis(refs, o);
        if ptr == o {
          assert Pointing(refs - {this}, o) == old@L(Pointing(refs - {this}, o)) - {other};
        } else {
          assert Pointing(refs - {this}, o) == old@L(Pointing(refs - {this}, o));
        }
      }
    }

    /** Gives up the reference, and deletes the object exactly when it was the last one. */
    method Clear(ghost refs: set<Ref>, ghost objects: set<RefObject>, ghost held: set<RefObject>)
      requires this in refs && Counted(refs, objects, held)
      modifies this, objects
      ensures ptr == null && Counted(refs, objects, held)
      ensures forall o :: o in objects ==> (o.deletions > old(o.deletions) <==> old(ptr) == o && old(o.refCount) == 1)
    {
      if ptr != null {
        assert this in Pointing(refs, ptr);
        var left := ptr.DecRef();
        if left == 0 {
          ptr.deletions := ptr.deletions + 1;
        }
        ghost var was := ptr;
        label L:
        ptr := null;
        assert Pointing(refs, was) == old@L(Pointing(refs, was)) - {this};
        assert forall o :: o in objects && o != was ==> Pointing(refs, o) == old@L(Pointing(refs, o));
      }
    }

    /** Assignment by copy. Assigning a handle to itself leaves it empty. The object deleted on the
        way, and with it any handle inside it, is the one whose last reference this handle held;
        `other` is read after that. */
    method Assign(other: Ref, ghost refs: set<Ref>, ghost objects: set<RefObject>, ghost held: set<RefObject>)
      requires this in refs && other in refs && Counted(refs, objects, held)
      modifies this, objects
      ensures ptr == (if other == this then null else old(other.ptr))
      ensures Counted(refs, objects, held)
      ensures forall o :: o in objects ==> (o.deletions > old(o.deletions) <==> old(ptr) == o && old(o.refCount) == 1)
    {
      Clear(refs, objects, held);
      Cleared(this, refs, objects, held);
      if other != this {
        PointedIsCounted(other, refs - {this}, objects, held);
      }
      ptr := other.ptr;
      IncRef(refs, objects, held);
      assert refs + {this} == refs;
    }

    /** Assignment by move. */
    method AssignMoved(other: Ref, ghost refs: set<Ref>, ghost objects: set<RefObject>, ghost held: set<RefObject>)
      requires this in refs && other in refs && Counted(refs, objects, held)
      modifies this, other, objects
      ensures ptr == (if other == this then null else old(other.ptr)) && (other != this ==> other.ptr == null)
      ensures Counted(refs, objects, held)
      ensures forall o :: o in objects ==> (o.deletions > old(o.deletions) <==> old(ptr) == o && old(o.refCount) == 1)
    {
      Clear(refs, objects, held);
      Cleared(this, refs, objects, held);
      ptr := other.ptr;
      Detach(other, refs, objects, held);
      assert refs + {this} == refs;
    }

    /** The destructor: the handle is no more. */
    method Destroy(ghost refs: set<Ref>, ghost objects: set<RefObject>, ghost held: set<RefObject>)
      requires this in refs && Counted(refs, objects, held)
      modifies this, objects
      ensures Counted(refs - {this}, objects, held)
    {
      Clear(refs, objects, held);
      Cleared(this, refs, objects, held);
    }
  }

  lemma PointedIsCounted(r: Ref, refs: set<Ref>, objects: set<RefObject>, held: set<RefObject>)
    requires Counted(refs, objects, held) && r in refs
    ensures r.ptr != null ==> r.ptr.refCount > 0
  {
    if r.ptr != null {
      assert r in Pointing(refs, r.ptr);
    }
  }

  /** An empty handle counts for nothing. */
  lemma Cleared(r: Ref, refs: set<Ref>, objects: set<RefObject>, held: set<RefObject>)
    requires Counted(refs, objects, held) && r in refs && r.ptr == null
    ensures Counted(refs - {r}, objects, held)
  {
    assert forall o :: o in objects ==> Pointing(refs - {r}, o) == Pointing(refs, o);
  }

  /** The creator gives up the constructor's reference. */
  method DropCreator(o: RefObject, ghost refs: set<Ref>, ghost objects: set<RefObject>, ghost held: set<RefObject>)
    requires Counted(refs, objects, held) && o in held
    modifies o
    ensures Counted(refs, objects, held - {o})
  {
    var left := o.DecRef();
    if left == 0 {
      o.deletions := o.deletions + 1;
    }
  }
}
