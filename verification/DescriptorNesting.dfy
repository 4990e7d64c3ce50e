/**
 * What is nested in what (proto/descr.py), read off the descriptors themselves: which objects a
 * descriptor has as parts, and which are anywhere inside it. `get_children` and reachability
 * through it (proto/render_all.py) come to just that.
 */
module DescriptorNesting {
  import opened Descriptors

  /** The object that a field of a struct, or the item of an array field, brings in. */
  predicate Gives(f: FieldDescr, part: Obj) {
    || (f.StructField? && part == OfStruct(f.struct))
    || (f.UnionField? && part == OfField(f))
    || (f.EnumField? && part == OfEnum(f.enum))
  }

  /** A struct has what its fields and the items of its array fields bring in, a union its structs and
      a union field its union. */
  ghost predicate IsPart(whole: Obj, part: Obj) {
    match whole
    case OfStruct(s) =>
      exists i :: 0 <= i < |s.fields| &&
                  (Gives(s.fields[i], part) || (s.fields[i].ArrayField? && Gives(s.fields[i].item, part)))
    case OfUnion(u) => exists i :: 0 <= i < |u.structs| && part == OfStruct(u.structs[i])
    case OfField(f) => f.UnionField? && part == OfUnion(f.union)
    case OfEnum(_) => false
  }

  lemma {:induction false} FieldPart(fields: seq<FieldDescr>, part: Obj)
    ensures part in FieldChildren(fields) <==>
            exists i :: 0 <= i < |fields| &&
                        (Gives(fields[i], part) || (fields[i].ArrayField? && Gives(fields[i].item, part)))
    decreases |fields|
  {
    if fields != [] {
      FieldPart(fields[1..], part);
      assert part in FieldChild(fields[0]) <==>
        Gives(fields[0], part) || (fields[0].ArrayField? && Gives(fields[0].item, part));
      assert forall i :: 0 < i < |fields| ==> fields[i] == fields[1..][i - 1];
    }
  }

  /** `get_children` yields just the parts. */
  lemma ChildrenAreParts(whole: Obj, part: Obj)
    ensures part in Children(whole) <==> IsPart(whole, part)
  {
    match whole
    case OfStruct(s) => FieldPart(s.fields, part);
    case OfUnion(u) =>
      assert forall i :: 0 <= i < |u.structs| ==> Children(whole)[i] == OfStruct(u.structs[i]);
    case _ =>
  }

  // ---------------------------------------------------------------- anywhere inside

  ghost predicate InStruct(o: Obj, s: StructDescr) {
    o == OfStruct(s) ||
    exists i :: 0 <= i < |s.fields| &&
                (InField(o, s.fields[i]) || (s.fields[i].ArrayField? && InField(o, s.fields[i].item)))
  }

  ghost predicate InField(o: Obj, f: FieldDescr) {
    match f
    case StructField(_, _, s) => InStruct(o, s)
    case UnionField(_, _, u) => o == OfField(f) || InUnion(o, u)
    case EnumField(_, _, e) => o == OfEnum(e)
    case _ => false
  }

  ghost predicate InUnion(o: Obj, u: UnionDescr) {
    o == OfUnion(u) || exists i :: 0 <= i < |u.structs| && InStruct(o, u.structs[i])
  }

  /** `o` is `head` or anywhere inside it. */
  ghost predicate Nested(o: Obj, head: Obj) {
    match head
    case OfStruct(s) => InStruct(o, s)
    case OfUnion(u) => InUnion(o, u)
    case OfField(f) => o == head || (f.UnionField? && InUnion(o, f.union))
    case OfEnum(_) => o == head
  }

  /** Something nested is the whole itself or nested in one of its parts. */
  lemma NestedInPart(o: Obj, whole: Obj) returns (part: Obj)
    requires Nested(o, whole) && o != whole
    ensures IsPart(whole, part) && Nested(o, part)
  {
    match whole
    case OfStruct(s) =>
      var i :| 0 <= i < |s.fields| &&
               (InField(o, s.fields[i]) || (s.fields[i].ArrayField? && InField(o, s.fields[i].item)));
      var f := if InField(o, s.fields[i]) then s.fields[i] else s.fields[i].item;
      part := match f
        case StructField(_, _, t) => OfStruct(t)
        case UnionField(_, _, _) => OfField(f)
        case EnumField(_, _, e) => OfEnum(e)
        case _ => whole;
      assert Gives(f, part);
    case OfUnion(u) =>
      var i :| 0 <= i < |u.structs| && InStruct(o, u.structs[i]);
      part := OfStruct(u.structs[i]);
    case OfField(f) =>
      part := OfUnion(f.union);
    case _ =>
      part := whole;
  }

  lemma PartNested(o: Obj, whole: Obj, part: Obj)
    requires IsPart(whole, part) && Nested(o, part)
    ensures Nested(o, whole)
  {
  }

  lemma SelfNested(o: Obj)
    ensures Nested(o, o)
  {
  }

  lemma {:induction false} NestedStep(m: Obj, part: Obj, head: Obj)
    requires Nested(m, head) && IsPart(m, part)
    ensures Nested(part, head)
    decreases Size(head)
  {
    hide Nested, IsPart;
    if m == head {
      SelfNested(part);
      PartNested(part, head, part);
    } else {
      var c := NestedInPart(m, head);
      ChildrenAreParts(head, c);
      ChildSmaller(head, c);
      NestedStep(m, part, c);
      PartNested(part, head, c);
    }
  }

  lemma {:induction false} NestedIsReachable(starts: seq<Obj>, o: Obj, head: Obj)
    requires Reachable(starts, head) && Nested(o, head)
    ensures Reachable(starts, o)
    decreases Size(head)
  {
    hide Nested, IsPart, Reachable;
    if o != head {
      var c := NestedInPart(o, head);
      ChildrenAreParts(head, c);
      ChildSmaller(head, c);
      ReachChild(starts, head, c);
      NestedIsReachable(starts, o, c);
    }
  }

  lemma {:induction false} PathIsNested(starts: seq<Obj>, p: seq<Obj>)
    requires IsPath(starts, p)
    ensures Nested(p[|p| - 1], p[0])
    decreases |p|
  {
    hide Nested, IsPart;
    SelfNested(p[0]);
    if |p| > 1 {
      var front := p[..|p| - 1];
      assert forall i :: 0 <= i < |front| - 1 ==> front[i + 1] in Children(front[i]);
      PathIsNested(starts, front);
      ChildrenAreParts(p[|p| - 2], p[|p| - 1]);
      NestedStep(p[|p| - 2], p[|p| - 1], p[0]);
    }
  }

  ghost predicate NestedInAny(o: Obj, heads: seq<Obj>) {
    exists h :: h in heads && Nested(o, h)
  }

  /** What the walks over `get_children` reach is what is nested in the heads. */
  lemma ReachableIsNested(heads: seq<Obj>, o: Obj)
    ensures Reachable(heads, o) <==> NestedInAny(o, heads)
  {
    if Reachable(heads, o) {
      var p :| IsPath(heads, p) && p[|p| - 1] == o;
      PathIsNested(heads, p);
    }
    if NestedInAny(o, heads) {
      var h :| h in heads && Nested(o, h);
      ReachStart(heads, h);
      NestedIsReachable(heads, o, h);
    }
  }

  /** No enum is nested in the heads, and no two different objects under one name. */
  ghost predicate Unambiguous(heads: seq<Obj>) {
    && (forall e :: !NestedInAny(OfEnum(e), heads))
    && (forall a, b :: NestedInAny(a, heads) && NestedInAny(b, heads) && GetName(a) == GetName(b) ==> a == b)
  }

  lemma ConsistentIsUnambiguous(heads: seq<Obj>)
    ensures Consistent(heads) <==> Unambiguous(heads)
  {
    hide Reachable, NestedInAny;
    forall o
      ensures Reachable(heads, o) <==> NestedInAny(o, heads)
    {
      ReachableIsNested(heads, o);
    }
    if Consistent(heads) {
      forall e
        ensures !NestedInAny(OfEnum(e), heads)
      {
        assert GetName(OfEnum(e)).None?;
      }
    }
  }
}
