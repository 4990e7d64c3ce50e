/**
 * Protocol descriptors (proto/descr.py) and the order in which render_proto emits them
 * (proto/render_all.py): a duplicate check, a count of references by name, and a topological
 * sort on an explicit stack.
 */
module Descriptors {
  import opened Wrappers

  /** `meta` stands for the attributes that only equality looks at: description, default, bit
      sizes, flags. Equality of descriptors is structural. */
  datatype StructDescr = StructDescr(name: string, meta: string, fields: seq<FieldDescr>)
  datatype UnionDescr = UnionDescr(name: string, meta: string, structs: seq<StructDescr>)
  datatype FieldDescr =
    | PlainField(name: string, meta: string)
    | EnumField(name: string, meta: string, enum: nat)
    | ArrayField(name: string, meta: string, item: FieldDescr)
    | StructField(name: string, meta: string, struct: StructDescr)
    | UnionField(name: string, meta: string, union: UnionDescr)

  /** What the three functions walk over. */
  datatype Obj =
    | OfStruct(struct: StructDescr)
    | OfUnion(union: UnionDescr)
    | OfField(field: FieldDescr)
    | OfEnum(enum: nat)

  datatype Error = NoName | Different(name: string) | UnknownName(name: string)

  /** `get_name`. An enum is a class, not an instance of `Enum`, and has no attribute `name`:
      the access raises. */
  function GetName(o: Obj): (r: Option<string>)
    ensures r.None? <==> o.OfEnum?
    ensures o.OfStruct? ==> r == Some(o.struct.name)
    ensures o.OfUnion? ==> r == Some(o.union.name)
    ensures o.OfField? ==> r == Some(o.field.name)
  {
    match o
    case OfStruct(s) => Some(s.name)
    case OfUnion(u) => Some(u.name)
    case OfField(f) => Some(f.name)
    case OfEnum(_) => None
  }

  function FieldChildren(fields: seq<FieldDescr>): seq<Obj> {
    if fields == [] then [] else FieldChild(fields[0]) + FieldChildren(fields[1..])
  }

  function FieldChild(field: FieldDescr): seq<Obj> {
    var f := if field.ArrayField? then field.item else field;
    match f
    case StructField(_, _, s) => [OfStruct(s)]
    case UnionField(_, _, _) => [OfField(f)]
    case EnumField(_, _, e) => [OfEnum(e)]
    case _ => []
  }

  /** `get_children`. */
  function Children(o: Obj): seq<Obj> {
    match o
    case OfStruct(s) => FieldChildren(s.fields)
    case OfUnion(u) => seq(|u.structs|, i requires 0 <= i < |u.structs| => OfStruct(u.structs[i]))
    case OfField(f) => if f.UnionField? then [OfUnion(f.union)] else []
    case OfEnum(_) => []
  }

  // ---------------------------------------------------------------- descriptors are trees

  function StructSize(s: StructDescr): nat { 1 + FieldSizes(s.fields) }

  function FieldSizes(fields: seq<FieldDescr>): nat {
    if fields == [] then 0 else FieldSize(fields[0]) + FieldSizes(fields[1..])
  }

  function FieldSize(f: FieldDescr): nat {
    match f
    case PlainField(_, _) => 1
    case EnumField(_, _, _) => 2
    case ArrayField(_, _, item) => 1 + FieldSize(item)
    case StructField(_, _, s) => 1 + StructSize(s)
    case UnionField(_, _, u) => 1 + UnionSize(u)
  }

  function UnionSize(u: UnionDescr): nat { 1 + StructSizes(u.structs) }

  function StructSizes(structs: seq<StructDescr>): nat {
    if structs == [] then 0 else StructSize(structs[0]) + StructSizes(structs[1..])
  }

  function Size(o: Obj): nat {
    match o
    case OfStruct(s) => StructSize(s)
    case OfUnion(u) => UnionSize(u)
    case OfField(f) => FieldSize(f)
    case OfEnum(_) => 1
  }

  function Total(objs: seq<Obj>): nat {
    if objs == [] then 0 else Size(objs[0]) + Total(objs[1..])
  }

  lemma {:induction false} TotalAppend(a: seq<Obj>, b: seq<Obj>)
    ensures Total(a + b) == Total(a) + Total(b)
    decreases |a|
  {
    if a == [] {
      assert a + b == b;
    } else {
      assert (a + b)[1..] == a[1..] + b;
      TotalAppend(a[1..], b);
    }
  }

  lemma {:induction false} TotalOfFields(fields: seq<FieldDescr>)
    ensures Total(FieldChildren(fields)) <= FieldSizes(fields)
    decreases |fields|
  {
    if fields != [] {
      TotalOfFields(fields[1..]);
      TotalAppend(FieldChild(fields[0]), FieldChildren(fields[1..]));
      TotalOfField(fields[0]);
    }
  }

  lemma TotalOfField(field: FieldDescr)
    ensures Total(FieldChild(field)) <= FieldSize(field)
  {
    var f := if field.ArrayField? then field.item else field;
    assert FieldChild(field) == [] || Total(FieldChild(field)) == Size(FieldChild(field)[0]);
    assert FieldSize(f) <= FieldSize(field);
  }

  lemma {:induction false} TotalOfStructs(structs: seq<StructDescr>, objs: seq<Obj>)
    requires |objs| == |structs| && forall i :: 0 <= i < |objs| ==> objs[i] == OfStruct(structs[i])
    ensures Total(objs) == StructSizes(structs)
    decreases |objs|
  {
    if objs != [] {
      TotalOfStructs(structs[1..], objs[1..]);
    }
  }

  /** The children of a descriptor are together smaller than it. */
  lemma ChildrenSmaller(o: Obj)
    ensures Total(Children(o)) < Size(o)
  {
    match o
    case OfStruct(s) => TotalOfFields(s.fields);
    case OfUnion(u) => TotalOfStructs(u.structs, Children(o));
    case OfField(f) =>
      if f.UnionField? {
        assert [OfUnion(f.union)][1..] == [];
      }
    case OfEnum(_) =>
  }

  /** Popping an object makes a stack smaller, even when its children are pushed. */
  lemma PopSmaller(popped: seq<Obj>, o: Obj)
    ensures Total(popped) < Total(popped + [o]) && Total(popped + Children(o)) < Total(popped + [o])
  {
    TotalAppend(popped, [o]);
    assert [o][1..] == [];
    ChildrenSmaller(o);
    TotalAppend(popped, Children(o));
  }

  lemma {:induction false} MemberSmaller(o: Obj, objs: seq<Obj>)
    requires o in objs
    ensures Size(o) <= Total(objs)
    decreases |objs|
  {
    if o != objs[0] {
      MemberSmaller(o, objs[1..]);
    }
  }

  lemma ChildSmaller(parent: Obj, child: Obj)
    requires child in Children(parent)
    ensures Size(child) < Size(parent)
  {
    ChildrenSmaller(parent);
    MemberSmaller(child, Children(parent));
  }

  // ---------------------------------------------------------------- reachability and names

  ghost predicate IsPath(starts: seq<Obj>, p: seq<Obj>) {
    && p != [] && p[0] in starts
    && forall i :: 0 <= i < |p| - 1 ==> p[i + 1] in Children(p[i])
  }

  ghost predicate Reachable(starts: seq<Obj>, o: Obj) {
    exists p :: IsPath(starts, p) && p[|p| - 1] == o
  }

  /** Every reachable object has a name, and no two different ones share one. */
  ghost predicate Consistent(starts: seq<Obj>) {
    && (forall o :: Reachable(starts, o) ==> GetName(o).Some?)
    && (forall a, b :: Reachable(starts, a) && Reachable(starts, b) && GetName(a) == GetName(b) ==> a == b)
  }

  lemma ReachStart(starts: seq<Obj>, o: Obj)
    requires o in starts
    ensures Reachable(starts, o)
  {
    assert IsPath(starts, [o]) && [o][0] == o;
  }

  lemma ReachChild(starts: seq<Obj>, parent: Obj, child: Obj)
    requires Reachable(starts, parent) && child in Children(parent)
    ensures Reachable(starts, child)
  {
    var p :| IsPath(starts, p) && p[|p| - 1] == parent;
    assert IsPath(starts, p + [child]) && (p + [child])[|p|] == child;
  }

  /** A set that holds the starts and is closed under children holds everything reachable. */
  lemma {:induction false} ClosedHoldsPath(starts: seq<Obj>, p: seq<Obj>, closed: set<Obj>)
    requires IsPath(starts, p)
    requires forall o :: o in starts ==> o in closed
    requires forall m, c :: m in closed && c in Children(m) ==> c in closed
    ensures p[|p| - 1] in closed
    decreases |p|
  {
    if |p| > 1 {
      var q := p[..|p| - 1];
      assert forall i :: 0 <= i < |q| ==> q[i] == p[i];
      ClosedHoldsPath(starts, q, closed);
      assert p[|p| - 1] in Children(p[|p| - 2]);
    }
  }

  lemma ClosedHoldsReachable(starts: seq<Obj>, closed: set<Obj>)
    requires forall o :: o in starts ==> o in closed
    requires forall m, c :: m in closed && c in Children(m) ==> c in closed
    ensures forall o :: Reachable(starts, o) ==> o in closed
  {
    forall o | Reachable(starts, o)
      ensures o in closed
    {
      var p :| IsPath(starts, p) && p[|p| - 1] == o;
      ClosedHoldsPath(starts, p, closed);
    }
  }

  /** One name refers to another: some reachable object of the one has a child of the other. */
  ghost predicate Refers(starts: seq<Obj>, parent: string, child: string) {
    exists o, c :: Reachable(starts, o) && c in Children(o) && GetName(o) == Some(parent) && GetName(c) == Some(child)
  }

  ghost predicate NamePath(starts: seq<Obj>, names: seq<string>) {
    forall i :: 0 <= i < |names| - 1 ==> Refers(starts, names[i], names[i + 1])
  }

  lemma {:induction false} NamePathShrinks(starts: seq<Obj>, names: seq<string>, o: Obj) returns (last: Obj)
    requires Consistent(starts) && NamePath(starts, names) && |names| > 1
    requires Reachable(starts, o) && GetName(o) == Some(names[0])
    ensures Reachable(starts, last) && GetName(last) == Some(names[|names| - 1]) && Size(last) < Size(o)
    decreases |names|
  {
    assert Refers(starts, names[0], names[1]);
    var m, c :| Reachable(starts, m) && c in Children(m)
                && GetName(m) == Some(names[0]) && GetName(c) == Some(names[1]);
    assert m == o;
    ReachChild(starts, o, c);
    ChildSmaller(o, c);
    if |names| == 2 {
      last := c;
    } else {
      assert forall i :: 0 <= i < |names| - 1 ==> names[1..][i] == names[i + 1];
      last := NamePathShrinks(starts, names[1..], c);
    }
  }

  /** When the duplicate check passes, the names refer to each other without cycles. */
  lemma NameGraphAcyclic(starts: seq<Obj>, names: seq<string>)
    requires Consistent(starts) && NamePath(starts, names) && |names| > 1
    ensures names[0] != names[|names| - 1]
  {
    assert Refers(starts, names[0], names[1]);
    var o, c :| Reachable(starts, o) && c in Children(o)
                && GetName(o) == Some(names[0]) && GetName(c) == Some(names[1]);
    var last := NamePathShrinks(starts, names, o);
  }

  // ---------------------------------------------------------------- counting occurrences

  function Occ(name: string, objs: seq<Obj>): nat {
    if objs == [] then 0 else (if GetName(objs[0]) == Some(name) then 1 else 0) + Occ(name, objs[1..])
  }

  lemma {:induction false} OccAppend(name: string, a: seq<Obj>, b: seq<Obj>)
    ensures Occ(name, a + b) == Occ(name, a) + Occ(name, b)
    decreases |a|
  {
    if a == [] {
      assert a + b == b;
    } else {
      assert (a + b)[1..] == a[1..] + b;
      OccAppend(name, a[1..], b);
    }
  }

  lemma {:induction false} OccPositive(name: string, objs: seq<Obj>)
    ensures Occ(name, objs) > 0 <==> exists o :: o in objs && GetName(o) == Some(name)
    decreases |objs|
  {
    if objs != [] {
      OccPositive(name, objs[1..]);
      assert forall o :: o in objs <==> o == objs[0] || o in objs[1..];
    }
  }

  /** All children of a list of objects, one object after the other. */
  function Edges(objs: seq<Obj>): seq<Obj> {
    if objs == [] then [] else Children(objs[0]) + Edges(objs[1..])
  }

  lemma {:induction false} EdgesSnoc(objs: seq<Obj>, o: Obj)
    ensures Edges(objs + [o]) == Edges(objs) + Children(o)
    decreases |objs|
  {
    if objs == [] {
      assert objs + [o] == [o] && [o][1..] == [];
    } else {
      assert (objs + [o])[1..] == objs[1..] + [o];
      EdgesSnoc(objs[1..], o);
    }
  }

  lemma {:induction false} OccEdges(name: string, objs: seq<Obj>)
    ensures forall m :: m in objs ==> Occ(name, Edges(objs)) >= Occ(name, Children(m))
    ensures Occ(name, Edges(objs)) > 0 ==> exists m, c :: m in objs && c in Children(m) && GetName(c) == Some(name)
    decreases |objs|
  {
    if objs != [] {
      OccEdges(name, objs[1..]);
      OccAppend(name, Children(objs[0]), Edges(objs[1..]));
      OccPositive(name, Children(objs[0]));
      assert forall o :: o in objs <==> o == objs[0] || o in objs[1..];
    }
  }

  predicate Distinct(objs: seq<Obj>) {
    forall i, j :: 0 <= i < j < |objs| ==> objs[i] != objs[j]
  }

  /** The objects of `all` that are not in `done`. */
  function Rest(all: seq<Obj>, done: seq<Obj>): (r: seq<Obj>)
    ensures forall o :: o in r <==> o in all && o !in done
  {
    if all == [] then []
    else (if all[0] in done then [] else [all[0]]) + Rest(all[1..], done)
  }

  lemma {:induction false} RestSame(all: seq<Obj>, done: seq<Obj>, o: Obj)
    requires o !in all
    ensures Rest(all, done + [o]) == Rest(all, done)
    decreases |all|
  {
    if all != [] {
      assert all[0] in all;
      RestSame(all[1..], done, o);
    }
  }

  lemma {:induction false} RestShrinks(all: seq<Obj>, done: seq<Obj>, o: Obj, name: string)
    requires Distinct(all) && o in all && o !in done
    ensures Occ(name, Edges(Rest(all, done)))
            == Occ(name, Edges(Rest(all, done + [o]))) + Occ(name, Children(o))
    decreases |all|
  {
    var head, tail := if all[0] in done then [] else [all[0]], Rest(all[1..], done);
    if all[0] == o {
      assert o !in all[1..];
      RestSame(all[1..], done, o);
      assert Rest(all, done) == [o] + tail && ([o] + tail)[1..] == tail;
      OccAppend(name, Children(o), Edges(tail));
      assert Rest(all, done + [o]) == tail;
    } else {
      RestShrinks(all[1..], done, o, name);
      var tail1 := Rest(all[1..], done + [o]);
      if all[0] in done {
        assert Rest(all, done) == tail && Rest(all, done + [o]) == tail1;
      } else {
        assert Rest(all, done) == [all[0]] + tail && ([all[0]] + tail)[1..] == tail;
        assert Rest(all, done + [o]) == [all[0]] + tail1 && ([all[0]] + tail1)[1..] == tail1;
        OccAppend(name, Children(all[0]), Edges(tail));
        OccAppend(name, Children(all[0]), Edges(tail1));
      }
    }
  }
}
