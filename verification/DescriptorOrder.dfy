/**
 * `validate_duplicates`, `count_entries` and `order_descrs` (proto/render_all.py) as the loops
 * over an explicit stack that they are, and what the three give together in `render_proto`.
 */
module DescriptorOrder {
  import opened Wrappers
  import opened Descriptors
  import opened DescriptorNesting

  // ---------------------------------------------------------------- sorted(..., key=get_name)

  predicate Leq(a: string, b: string) {
    a == [] || (b != [] && (a[0] < b[0] || (a[0] == b[0] && Leq(a[1..], b[1..]))))
  }

  predicate Named(objs: seq<Obj>) {
    forall o :: o in objs ==> GetName(o).Some?
  }

  function Insert(o: Obj, objs: seq<Obj>): (r: seq<Obj>)
    requires GetName(o).Some? && Named(objs)
    ensures multiset(r) == multiset{o} + multiset(objs)
    ensures Named(r)
  {
    if objs == [] || Leq(GetName(o).value, GetName(objs[0]).value) then [o] + objs
    else
      var r := [objs[0]] + Insert(o, objs[1..]);
      assert objs == [objs[0]] + objs[1..];
      r
  }

  /** Stable, by name; Python compares the names by code points. */
  function SortByName(objs: seq<Obj>): (r: seq<Obj>)
    requires Named(objs)
    ensures multiset(r) == multiset(objs) && Named(r)
  {
    if objs == [] then []
    else
      assert objs == [objs[0]] + objs[1..];
      Insert(objs[0], SortByName(objs[1..]))
  }

  predicate Sorted(objs: seq<Obj>)
    requires Named(objs)
  {
    forall i, j :: 0 <= i < j < |objs| ==> Leq(GetName(objs[i]).value, GetName(objs[j]).value)
  }

  lemma {:induction false} LeqOrder(a: string, b: string, c: string)
    ensures Leq(a, b) || Leq(b, a)
    ensures Leq(a, b) && Leq(b, c) ==> Leq(a, c)
    decreases |a|
  {
    if a != [] && b != [] {
      LeqOrder(a[1..], b[1..], if c == [] then [] else c[1..]);
    }
  }

  lemma {:induction false} InsertSorted(o: Obj, objs: seq<Obj>)
    requires GetName(o).Some? && Named(objs) && Sorted(objs)
    ensures Sorted(Insert(o, objs))
    decreases |objs|
  {
    hide Leq;
    if objs == [] {
      return;
    }
    var name, first := GetName(o).value, GetName(objs[0]).value;
    LeqOrder(name, first, []);
    if Leq(name, first) {
      forall i | 0 <= i < |objs| ensures Leq(name, GetName(objs[i]).value) {
        LeqOrder(name, first, GetName(objs[i]).value);
      }
    } else {
      InsertSorted(o, objs[1..]);
      var r := Insert(o, objs[1..]);
      forall x | x in r ensures Leq(first, GetName(x).value) {
        assert x in multiset(r);
        assert x == o || x in objs[1..];
      }
    }
  }

  lemma {:induction false} SortSorts(objs: seq<Obj>)
    requires Named(objs)
    ensures Sorted(SortByName(objs))
    decreases |objs|
  {
    if objs != [] {
      SortSorts(objs[1..]);
      InsertSorted(objs[0], SortByName(objs[1..]));
    }
  }

  lemma {:induction false} InsertSums(o: Obj, objs: seq<Obj>, name: string)
    requires GetName(o).Some? && Named(objs)
    ensures Total(Insert(o, objs)) == Size(o) + Total(objs)
    ensures Occ(name, Insert(o, objs)) == Occ(name, [o]) + Occ(name, objs)
    decreases |objs|
  {
    if objs == [] || Leq(GetName(o).value, GetName(objs[0]).value) {
      assert ([o] + objs)[1..] == objs && [o][1..] == [];
    } else {
      InsertSums(o, objs[1..], name);
      assert ([objs[0]] + Insert(o, objs[1..]))[1..] == Insert(o, objs[1..]) && [o][1..] == [];
    }
  }

  lemma {:induction false} SortSums(objs: seq<Obj>, name: string)
    requires Named(objs)
    ensures Total(SortByName(objs)) == Total(objs) && Occ(name, SortByName(objs)) == Occ(name, objs)
    decreases |objs|
  {
    if objs != [] {
      SortSums(objs[1..], name);
      InsertSums(objs[0], SortByName(objs[1..]), name);
      assert [objs[0]][1..] == [];
    }
  }

  lemma SortMembers(objs: seq<Obj>)
    requires Named(objs)
    ensures forall o :: o in SortByName(objs) <==> o in objs
  {
    assert forall o :: o in SortByName(objs) <==> o in multiset(SortByName(objs));
    assert forall o :: o in objs <==> o in multiset(objs);
  }

  // ---------------------------------------------------------------- validate_duplicates

  ghost predicate Seen(o: Obj, stack: seq<Obj>, known: map<string, Obj>) {
    o in stack || (GetName(o).Some? && GetName(o).value in known && known[GetName(o).value] == o)
  }

  /** The starts and the children of every known object are known or still on the stack. */
  ghost predicate AllSeen(starts: seq<Obj>, stack: seq<Obj>, known: map<string, Obj>) {
    && (forall o :: o in starts ==> Seen(o, stack, known))
    && (forall m, c :: m in known.Values && c in Children(m) ==> Seen(c, stack, known))
  }

  lemma SeenAfterPop(starts: seq<Obj>, popped: seq<Obj>, o: Obj, known: map<string, Obj>, name: string)
    requires GetName(o) == Some(name) && AllSeen(starts, popped + [o], known)
    ensures name in known && known[name] == o ==> AllSeen(starts, popped, known)
    ensures name !in known ==> AllSeen(starts, popped + Children(o), known[name := o])
  {
    hide Children;
    var known1 := known[name := o];
    forall c | Seen(c, popped + [o], known)
      ensures name in known && known[name] == o ==> Seen(c, popped, known)
      ensures name !in known ==> Seen(c, popped + Children(o), known1)
    {
      if c in popped + [o] {
        assert c in popped || c == o;
      }
    }
    if name !in known {
      forall m, c | m in known1.Values && c in Children(m)
        ensures Seen(c, popped + Children(o), known1)
      {
        var n :| n in known1 && known1[n] == m;
        if n != name {
          assert m == known[n] && m in known.Values;
        }
      }
    }
  }

  /** What an error of `validate_duplicates` or `count_entries` says is so. */
  ghost predicate Blames(starts: seq<Obj>, e: Error) {
    match e
    case NoName => exists o :: Reachable(starts, o) && GetName(o).None?
    case Different(name) => exists a, b :: Homonyms(starts, name, a, b)
    case UnknownName(_) => false
  }

  ghost predicate Homonyms(starts: seq<Obj>, name: string, a: Obj, b: Obj) {
    a != b && Reachable(starts, a) && Reachable(starts, b) && GetName(a) == GetName(b) == Some(name)
  }

  /** An enum has no name for `get_name`, so no struct with a field of one gets past the check. */
  lemma EnumIsRefused(starts: seq<Obj>, parent: StructDescr, i: nat)
    requires Reachable(starts, OfStruct(parent)) && i < |parent.fields|
    requires var f := parent.fields[i]; f.EnumField? || (f.ArrayField? && f.item.EnumField?)
    ensures !Consistent(starts)
  {
    var f := parent.fields[i];
    var enum := OfEnum(if f.EnumField? then f.enum else f.item.enum);
    ChildOfField(parent.fields, i, enum);
    ReachChild(starts, OfStruct(parent), enum);
  }

  lemma {:induction false} ChildOfField(fields: seq<FieldDescr>, i: nat, o: Obj)
    requires i < |fields| && o in FieldChild(fields[i])
    ensures o in FieldChildren(fields)
    decreases i
  {
    if i > 0 {
      ChildOfField(fields[1..], i - 1, o);
    }
  }

  /** Raises exactly when two different reachable descriptors share a name, or an enum, which
      has no name, is reachable. */
  method ValidateDuplicates(starts: seq<Obj>) returns (r: Result<(), Error>)
    ensures r.Ok? <==> Consistent(starts)
    ensures r.Err? ==> Blames(starts, r.error)
  {
    hide Children, Total, Reachable;
    var known: map<string, Obj> := map[];
    var stack := starts;
    forall o | o in starts ensures Reachable(starts, o) { ReachStart(starts, o); }
    while stack != []
      invariant forall o :: o in stack ==> Reachable(starts, o)
      invariant forall n :: n in known ==> Reachable(starts, known[n]) && GetName(known[n]) == Some(n)
      invariant AllSeen(starts, stack, known)
      decreases Total(stack)
    {
      var o := stack[|stack| - 1];
      ghost var popped := stack[..|stack| - 1];
      assert stack == popped + [o];
      PopSmaller(popped, o);
      stack := stack[..|stack| - 1];
      if GetName(o).None? {
        return Err(NoName);
      }
      var name := GetName(o).value;
      if name in known {
        if o != known[name] {
          assert Homonyms(starts, name, o, known[name]);
          return Err(Different(name));
        }
        SeenAfterPop(starts, popped, o, known, name);
      } else {
        SeenAfterPop(starts, popped, o, known, name);
        forall c | c in Children(o) ensures Reachable(starts, c) { ReachChild(starts, o, c); }
        known := known[name := o];
        stack := stack + Children(o);
      }
    }
    forall m, c | m in known.Values && c in Children(m)
      ensures c in known.Values
    {
      assert known[GetName(m).value] == m && Seen(c, [], known);
    }
    ClosedHoldsReachable(starts, known.Values);
    r := Ok(());
  }

  // ---------------------------------------------------------------- count_entries

  /** `all` lists the reachable objects, each once. */
  ghost predicate Complete(starts: seq<Obj>, all: seq<Obj>) {
    Distinct(all) && forall o :: Reachable(starts, o) <==> o in all
  }

  ghost predicate NamesOf(names: set<string>, objs: seq<Obj>) {
    && (forall o :: o in objs ==> GetName(o).Some? && GetName(o).value in names)
    && (forall n :: n in names ==> exists o :: o in objs && GetName(o) == Some(n))
  }

  /** Each reachable name is counted once for every occurrence among the starts and among the
      children of each reachable object. */
  ghost predicate CountsReferences(starts: seq<Obj>, all: seq<Obj>, counts: map<string, int>) {
    && NamesOf(counts.Keys, all)
    && forall n :: n in counts ==> counts[n] == Occ(n, starts + Edges(all))
  }

  /** The same for whatever list of the reachable objects. */
  ghost predicate CountsAll(starts: seq<Obj>, counts: map<string, int>) {
    exists all :: Complete(starts, all) && CountsReferences(starts, all, counts)
  }

  function At(counts: map<string, int>, n: string): int {
    if n in counts then counts[n] else 0
  }

  ghost predicate CountInv(starts: seq<Obj>, stack: seq<Obj>, visited: set<string>, counts: map<string, int>,
                           all: seq<Obj>)
  {
    && (forall o :: o in stack || o in all ==> Reachable(starts, o))
    && Distinct(all)
    && (forall o :: o in starts ==> o in stack || o in all)
    && (forall m, c :: m in all && c in Children(m) ==> c in stack || c in all)
    && NamesOf(visited, all)
    && counts.Keys == visited
    && (forall n: string :: At(counts, n) + Occ(n, stack) == Occ(n, starts + Edges(all)))
  }

  lemma CountStep(starts: seq<Obj>, popped: seq<Obj>, o: Obj, visited: set<string>, counts: map<string, int>,
                  all: seq<Obj>, name: string)
    requires Consistent(starts) && CountInv(starts, popped + [o], visited, counts, all) && GetName(o) == Some(name)
    ensures var counts1 := counts[name := At(counts, name) + 1];
            if name in visited then CountInv(starts, popped, visited, counts1, all)
            else CountInv(starts, popped + Children(o), visited + {name}, counts1, all + [o])
  {
    hide Children, Occ, Edges, Reachable;
    var counts1 := counts[name := At(counts, name) + 1];
    assert o in popped + [o];
    CountOne(popped, o, all, starts, name);
    if name in visited {
      assert o in all;
    } else {
      assert o !in all;
      forall c | c in Children(o) ensures Reachable(starts, c) { ReachChild(starts, o, c); }
    }
  }

  lemma CountOne(popped: seq<Obj>, o: Obj, all: seq<Obj>, starts: seq<Obj>, name: string)
    requires GetName(o) == Some(name)
    ensures forall n: string :: Occ(n, popped + [o]) == Occ(n, popped) + if n == name then 1 else 0
    ensures forall n: string :: Occ(n, popped + Children(o)) == Occ(n, popped) + Occ(n, Children(o))
    ensures forall n: string :: Occ(n, starts + Edges(all + [o])) == Occ(n, starts + Edges(all)) + Occ(n, Children(o))
  {
    hide Children, Occ, Edges;
    PopCounts(popped, o, name);
    forall n: string
      ensures Occ(n, popped + Children(o)) == Occ(n, popped) + Occ(n, Children(o))
      ensures Occ(n, starts + Edges(all + [o])) == Occ(n, starts + Edges(all)) + Occ(n, Children(o))
    {
      OccAppend(n, popped, Children(o));
      EdgesSnoc(all, o);
      assert starts + Edges(all + [o]) == (starts + Edges(all)) + Children(o);
      OccAppend(n, starts + Edges(all), Children(o));
    }
  }

  lemma CountDone(starts: seq<Obj>, visited: set<string>, counts: map<string, int>, all: seq<Obj>)
    requires CountInv(starts, [], visited, counts, all)
    ensures Complete(starts, all) && CountsReferences(starts, all, counts) && CountsAll(starts, counts)
  {
    hide Children, Edges, Reachable;
    ClosedHoldsReachable(starts, set o | o in all);
    assert forall n :: n in counts ==> At(counts, n) == counts[n] && Occ(n, []) == 0;
  }

  lemma CountStart(starts: seq<Obj>)
    ensures CountInv(starts, starts, {}, map[], [])
  {
    hide Children, Reachable;
    forall o | o in starts ensures Reachable(starts, o) { ReachStart(starts, o); }
    assert starts + Edges([]) == starts;
  }

  lemma NamelessIsBlamed(starts: seq<Obj>, o: Obj)
    requires Reachable(starts, o) && GetName(o).None?
    ensures !Consistent(starts) && Blames(starts, NoName)
  {
    hide Reachable;
  }

  /** On consistent descriptors the result counts every reference. An error is a reachable object
      without a name; the function may also miss that there is one. */
  method CountEntries(starts: seq<Obj>) returns (r: Result<map<string, int>, Error>)
    ensures Consistent(starts) ==> r.Ok? && CountsAll(starts, r.value)
    ensures r.Err? ==> r.error == NoName && Blames(starts, r.error)
  {
    hide Children, Reachable, Consistent, Total, CountInv, CountsAll, Blames;
    var visited: set<string> := {};
    var counts: map<string, int> := map[];
    var stack := starts;
    ghost var all: seq<Obj> := [];
    forall o | o in starts ensures Reachable(starts, o) { ReachStart(starts, o); }
    CountStart(starts);
    while stack != []
      invariant forall o :: o in stack ==> Reachable(starts, o)
      invariant Consistent(starts) ==> CountInv(starts, stack, visited, counts, all)
      decreases Total(stack)
    {
      var o := stack[|stack| - 1];
      ghost var popped := stack[..|stack| - 1];
      assert stack == popped + [o];
      PopSmaller(popped, o);
      stack := stack[..|stack| - 1];
      if GetName(o).None? {
        NamelessIsBlamed(starts, o);
        return Err(NoName);
      }
      var name := GetName(o).value;
      if Consistent(starts) {
        CountStep(starts, popped, o, visited, counts, all, name);
      }
      counts := counts[name := At(counts, name) + 1];
      if name !in visited {
        visited := visited + {name};
        forall c | c in Children(o) ensures Reachable(starts, c) { ReachChild(starts, o, c); }
        stack := stack + Children(o);
        all := all + [o];
      }
    }
    if Consistent(starts) {
      CountDone(starts, visited, counts, all);
    }
    r := Ok(counts);
  }

  // ---------------------------------------------------------------- order_descrs

  /** Every reachable object once, no two under one name, each child before each parent. */
  ghost predicate DependencyOrder(starts: seq<Obj>, order: seq<Obj>) {
    && (forall o :: Reachable(starts, o) <==> o in order)
    && (forall i, j :: 0 <= i < j < |order| ==> GetName(order[i]) != GetName(order[j]))
    && (forall i, j :: 0 <= i < |order| && 0 <= j < |order| && order[j] in Children(order[i]) ==> j < i)
  }

  ghost predicate ParentsFirst(order: seq<Obj>) {
    forall i, j :: 0 <= i < |order| && 0 <= j < |order| && order[j] in Children(order[i]) ==> i < j
  }

  ghost predicate OrderInv(all: seq<Obj>, stack: seq<Obj>, left: map<string, int>, order: seq<Obj>) {
    && (forall o :: o in stack || o in order ==> o in all)
    && Distinct(order) && ParentsFirst(order)
    && NamesOf(left.Keys, all)
    && (forall n :: n in left ==> left[n] == Occ(n, stack) + Occ(n, Edges(Rest(all, order))))
    && (forall o :: o in all ==> (o in order <==> left[GetName(o).value] == 0))
  }

  ghost predicate Closed(all: seq<Obj>) {
    && Distinct(all)
    && (forall m, c :: m in all && c in Children(m) ==> c in all)
    && (forall a, b :: a in all && b in all && GetName(a) == GetName(b) ==> a == b)
  }

  lemma CompleteClosed(starts: seq<Obj>, all: seq<Obj>)
    requires Consistent(starts) && Complete(starts, all)
    ensures Closed(all)
  {
    forall m, c | m in all && c in Children(m) ensures c in all { ReachChild(starts, m, c); }
  }

  lemma OrderStart(starts: seq<Obj>, all: seq<Obj>, counts: map<string, int>)
    requires Consistent(starts) && Complete(starts, all) && CountsReferences(starts, all, counts)
    ensures OrderInv(all, starts, counts, [])
  {
    hide Children, Occ, Edges, Rest, Reachable;
    forall o | o in starts ensures o in all { ReachStart(starts, o); }
    RestOfNone(all);
    forall n | n in counts
      ensures counts[n] == Occ(n, starts) + Occ(n, Edges(all))
    {
      OccAppend(n, starts, Edges(all));
    }
    forall o | o in all
      ensures counts[GetName(o).value] != 0
    {
      ReachedByName(starts, all, o);
    }
  }

  lemma {:induction false} RestOfNone(all: seq<Obj>)
    ensures Rest(all, []) == all
    decreases |all|
  {
    if all != [] {
      RestOfNone(all[1..]);
    }
  }

  /** A reachable object is a start or a child of a reachable one, so it has been counted. */
  lemma ReachedByName(starts: seq<Obj>, all: seq<Obj>, o: Obj)
    requires Complete(starts, all) && o in all && GetName(o).Some?
    ensures Occ(GetName(o).value, starts) + Occ(GetName(o).value, Edges(all)) > 0
  {
    hide Children, Occ, Edges;
    var name := GetName(o).value;
    var p :| IsPath(starts, p) && p[|p| - 1] == o;
    OccPositive(name, starts);
    if |p| > 1 {
      var q := p[..|p| - 1];
      assert forall i :: 0 <= i < |q| ==> q[i] == p[i];
      assert IsPath(starts, q);
      var parent := q[|q| - 1];
      assert Reachable(starts, parent) && p[|p| - 1] in Children(p[|p| - 2]);
      OccEdges(name, all);
      OccPositive(name, Children(parent));
    }
  }

  /** Popping an object whose name still has other references open. */
  lemma OrderSkip(all: seq<Obj>, popped: seq<Obj>, o: Obj, left: map<string, int>, order: seq<Obj>, name: string)
    requires Closed(all) && OrderInv(all, popped + [o], left, order) && GetName(o) == Some(name)
    requires name in left && left[name] - 1 != 0
    ensures OrderInv(all, popped, left[name := left[name] - 1], order)
  {
    hide Children, Occ, Edges, Rest;
    PopCounts(popped, o, name);
    assert o in popped + [o];
  }

  lemma PopCounts(popped: seq<Obj>, o: Obj, name: string)
    requires GetName(o) == Some(name)
    ensures forall n: string :: Occ(n, popped + [o]) == Occ(n, popped) + if n == name then 1 else 0
  {
    forall n: string
      ensures Occ(n, popped + [o]) == Occ(n, popped) + if n == name then 1 else 0
    {
      OccAppend(n, popped, [o]);
      assert [o][1..] == [];
    }
  }

  /** When the last open reference to `o` is popped, its parents are in the order already and
      its children are not. */
  lemma TakenBetween(all: seq<Obj>, popped: seq<Obj>, o: Obj, left: map<string, int>, order: seq<Obj>, name: string)
    requires Closed(all) && OrderInv(all, popped + [o], left, order) && GetName(o) == Some(name)
    requires name in left && left[name] == 1
    ensures o in all && o !in order
    ensures forall m :: m in all && o in Children(m) ==> m in order
    ensures forall c :: c in Children(o) ==> c !in order && c != o
  {
    assert o in popped + [o];
    PopCounts(popped, o, name);
    forall m | m in all && o in Children(m)
      ensures m in order
    {
      if m !in order {
        OccEdges(name, Rest(all, order));
        OccPositive(name, Children(m));
        assert false;
      }
    }
    forall c | c in Children(o)
      ensures c !in order && c != o
    {
      ChildSmaller(o, c);
      OccEdges(GetName(c).value, Rest(all, order));
      OccPositive(GetName(c).value, Children(o));
    }
  }

  lemma ParentsFirstSnoc(order: seq<Obj>, o: Obj, all: seq<Obj>)
    requires ParentsFirst(order) && o in all && (forall m :: m in order ==> m in all)
    requires forall m :: m in all && o in Children(m) ==> m in order
    requires forall c :: c in Children(o) ==> c !in order && c != o
    ensures ParentsFirst(order + [o])
  {
    var order1 := order + [o];
    forall i, j | 0 <= i < |order1| && 0 <= j < |order1| && order1[j] in Children(order1[i])
      ensures i < j
    {
      if i < |order| && j < |order| {
        assert order[j] in Children(order[i]);
      }
    }
  }

  lemma TakenCounts(all: seq<Obj>, popped: seq<Obj>, o: Obj, order: seq<Obj>, name: string, children: seq<Obj>)
    requires Distinct(all) && o in all && o !in order && GetName(o) == Some(name)
    requires forall n: string :: Occ(n, children) == Occ(n, Children(o))
    ensures forall n: string :: Occ(n, popped + children) + Occ(n, Edges(Rest(all, order + [o])))
              == Occ(n, popped + [o]) + Occ(n, Edges(Rest(all, order))) - if n == name then 1 else 0
  {
    PopCounts(popped, o, name);
    forall n: string
      ensures Occ(n, popped + children) + Occ(n, Edges(Rest(all, order + [o])))
              == Occ(n, popped + [o]) + Occ(n, Edges(Rest(all, order))) - if n == name then 1 else 0
    {
      OccAppend(n, popped, children);
      RestShrinks(all, order, o, n);
    }
  }

  /** Popping the last open reference puts the object in the order. */
  lemma OrderTake(all: seq<Obj>, popped: seq<Obj>, o: Obj, left: map<string, int>, order: seq<Obj>, name: string,
                  children: seq<Obj>)
    requires Closed(all) && OrderInv(all, popped + [o], left, order) && GetName(o) == Some(name)
    requires name in left && left[name] == 1
    requires forall c :: c in children <==> c in Children(o)
    requires forall n: string :: Occ(n, children) == Occ(n, Children(o))
    ensures OrderInv(all, popped + children, left[name := 0], order + [o])
  {
    hide Children, Occ, Edges, Rest;
    TakenBetween(all, popped, o, left, order, name);
    ParentsFirstSnoc(order, o, all);
    TakenCounts(all, popped, o, order, name, children);
  }

  /** With nothing left on the stack, an object missing from the order has a larger one missing. */
  lemma {:induction false} NothingMissing(all: seq<Obj>, left: map<string, int>, order: seq<Obj>, o: Obj)
    requires Closed(all) && OrderInv(all, [], left, order) && o in all
    ensures o in order
    decreases Total(all) - Size(o)
  {
    if o !in order {
      var name := GetName(o).value;
      OccEdges(name, Rest(all, order));
      var m, c :| m in Rest(all, order) && c in Children(m) && GetName(c) == Some(name);
      assert c == o;
      ChildSmaller(m, o);
      MemberSmaller(o, all);
      MemberSmaller(m, all);
      NothingMissing(all, left, order, m);
    }
  }

  function Reversed(objs: seq<Obj>): (r: seq<Obj>)
    ensures |r| == |objs| && forall i :: 0 <= i < |r| ==> r[i] == objs[|objs| - 1 - i]
    ensures forall o :: o in r <==> o in objs
  {
    if objs == [] then []
    else
      var r := Reversed(objs[1..]) + [objs[0]];
      assert forall o :: o in objs <==> o == objs[0] || o in objs[1..];
      r
  }

  lemma OrderDone(starts: seq<Obj>, all: seq<Obj>, left: map<string, int>, order: seq<Obj>)
    requires Consistent(starts) && Complete(starts, all) && OrderInv(all, [], left, order)
    ensures DependencyOrder(starts, Reversed(order))
  {
    CompleteClosed(starts, all);
    forall o | o in all ensures o in order { NothingMissing(all, left, order, o); }
    var r := Reversed(order);
    forall i, j | 0 <= i < j < |r|
      ensures GetName(r[i]) != GetName(r[j])
    {
      assert r[i] in order && r[j] in order;
    }
    forall i, j | 0 <= i < |r| && 0 <= j < |r| && r[j] in Children(r[i])
      ensures j < i
    {
      assert order[|order| - 1 - j] in Children(order[|order| - 1 - i]);
    }
  }

  lemma PoppedNamed(all: seq<Obj>, popped: seq<Obj>, o: Obj, left: map<string, int>, order: seq<Obj>)
    requires Closed(all) && OrderInv(all, popped + [o], left, order)
    ensures GetName(o).Some? && GetName(o).value in left && Named(Children(o))
  {
    hide Children, Occ, Edges, Rest;
    assert o in popped + [o];
  }

  // ---------------------------------------------------------------- siblings in alphabetical order

  ghost predicate Precedes(line: seq<Obj>, a: Obj, b: Obj) {
    exists i, j :: 0 <= i < j < |line| && line[i] == a && line[j] == b
  }

  lemma PrecedesInsert(front: seq<Obj>, more: seq<Obj>, back: seq<Obj>, a: Obj, b: Obj)
    requires Precedes(front + back, a, b)
    ensures Precedes(front + more + back, a, b)
  {
    var line, wider := front + back, front + more + back;
    var i, j :| 0 <= i < j < |line| && line[i] == a && line[j] == b;
    var i1 := if i < |front| then i else i + |more|;
    var j1 := if j < |front| then j else j + |more|;
    assert wider[i1] == a && wider[j1] == b;
  }

  lemma PrecedesDrop(front: seq<Obj>, o: Obj, back: seq<Obj>, a: Obj, b: Obj)
    requires Precedes(front + [o] + back, a, b) && o != a && o != b
    ensures Precedes(front + back, a, b)
  {
    var wider, line := front + [o] + back, front + back;
    var i, j :| 0 <= i < j < |wider| && wider[i] == a && wider[j] == b;
    var i1 := if i < |front| then i else i - 1;
    var j1 := if j < |front| then j else j - 1;
    assert line[i1] == a && line[j1] == b;
  }

  lemma PrecedesReversed(line: seq<Obj>, a: Obj, b: Obj)
    requires Precedes(line, a, b)
    ensures Precedes(Reversed(line), b, a)
  {
    var i, j :| 0 <= i < j < |line| && line[i] == a && line[j] == b;
    assert Reversed(line)[|line| - 1 - j] == b && Reversed(line)[|line| - 1 - i] == a;
  }

  lemma ReversedAppend(a: seq<Obj>, b: seq<Obj>)
    ensures Reversed(a + b) == Reversed(b) + Reversed(a)
  {
  }

  lemma {:induction false} LeqBoth(a: string, b: string)
    requires Leq(a, b) && Leq(b, a)
    ensures a == b
    decreases |a|
  {
    if a != [] {
      LeqBoth(a[1..], b[1..]);
      assert a == [a[0]] + a[1..] && b == [b[0]] + b[1..];
    }
  }

  /** `a` comes before `b` in the alphabet. */
  predicate Alphabetical(a: Obj, b: Obj) {
    GetName(a).Some? && GetName(b).Some? && GetName(a) != GetName(b) && Leq(GetName(a).value, GetName(b).value)
  }

  lemma SortedPrecedes(objs: seq<Obj>, a: Obj, b: Obj)
    requires Named(objs) && a in objs && b in objs && Alphabetical(a, b)
    ensures Precedes(SortByName(objs), a, b)
  {
    hide Leq, SortByName;
    var r := SortByName(objs);
    SortSorts(objs);
    SortMembers(objs);
    var i, j :| 0 <= i < |r| && 0 <= j < |r| && r[i] == a && r[j] == b;
    if j < i {
      LeqBoth(GetName(a).value, GetName(b).value);
    }
  }

  /** Its name is referred to just once. */
  predicate Once(counts: map<string, int>, o: Obj) {
    GetName(o).Some? && GetName(o).value in counts && counts[GetName(o).value] == 1
  }

  predicate Siblings(counts: map<string, int>, p: Obj, a: Obj, b: Obj) {
    a in Children(p) && b in Children(p) && Once(counts, a) && Once(counts, b) && Alphabetical(a, b)
  }

  /** Of two children of one parent that nothing else refers to, the alphabetically first is first. */
  ghost predicate SiblingsSorted(counts: map<string, int>, order: seq<Obj>) {
    forall p, a, b :: p in order && Siblings(counts, p, a, b) ==> Precedes(order, a, b)
  }

  /** While walking: in the order so far and then the stack from its top, the second is first. */
  ghost predicate SiblingInv(counts: map<string, int>, order: seq<Obj>, stack: seq<Obj>) {
    forall p, a, b :: p in order && Siblings(counts, p, a, b) ==> Precedes(order + Reversed(stack), b, a)
  }

  lemma SiblingsStart(counts: map<string, int>, stack: seq<Obj>)
    ensures SiblingInv(counts, [], stack)
  {
  }

  lemma SiblingsTake(counts: map<string, int>, order: seq<Obj>, popped: seq<Obj>, o: Obj)
    requires SiblingInv(counts, order, popped + [o]) && Named(Children(o))
    ensures SiblingInv(counts, order + [o], popped + SortByName(Children(o)))
  {
    hide Children, Precedes, SortByName, Reversed, Once, Alphabetical, Leq;
    var sorted := SortByName(Children(o));
    ReversedAppend(popped, [o]);
    ReversedAppend(popped, sorted);
    ReversedOne(o);
    var front, back := order + [o], Reversed(popped);
    assert front + Reversed(sorted) + back == front + (Reversed(sorted) + back);
    assert order + ([o] + back) == front + back;
    forall p, a, b | p in front && Siblings(counts, p, a, b)
      ensures Precedes(front + Reversed(sorted) + back, b, a)
    {
      if p in order {
        PrecedesInsert(front, Reversed(sorted), back, b, a);
      } else {
        SortedPrecedes(Children(o), a, b);
        PrecedesReversed(sorted, a, b);
        PrecedesWithin(front, Reversed(sorted), back, b, a);
      }
    }
  }

  lemma ReversedOne(o: Obj)
    ensures Reversed([o]) == [o] && Reversed([]) == []
  {
  }

  lemma PrecedesWithin(front: seq<Obj>, line: seq<Obj>, back: seq<Obj>, a: Obj, b: Obj)
    requires Precedes(line, a, b)
    ensures Precedes(front + line + back, a, b)
  {
    var i, j :| 0 <= i < j < |line| && line[i] == a && line[j] == b;
    var all := front + line + back;
    assert all[|front| + i] == a && all[|front| + j] == b;
  }

  lemma SiblingsSkip(counts: map<string, int>, order: seq<Obj>, popped: seq<Obj>, o: Obj)
    requires SiblingInv(counts, order, popped + [o]) && !Once(counts, o)
    ensures SiblingInv(counts, order, popped)
  {
    hide Children, Precedes, Reversed, Once, Alphabetical;
    ReversedAppend(popped, [o]);
    ReversedOne(o);
    assert order + ([o] + Reversed(popped)) == order + [o] + Reversed(popped);
    forall p, a, b | p in order && Siblings(counts, p, a, b)
      ensures Precedes(order + Reversed(popped), b, a)
    {
      PrecedesDrop(order, o, Reversed(popped), b, a);
    }
  }

  lemma SiblingsDone(counts: map<string, int>, order: seq<Obj>)
    requires SiblingInv(counts, order, [])
    ensures SiblingsSorted(counts, Reversed(order))
  {
    hide Children, Precedes, Once, Alphabetical;
    ReversedOne(OfEnum(0));
    assert order + [] == order;
    forall p, a, b | p in Reversed(order) && Siblings(counts, p, a, b)
      ensures Precedes(Reversed(order), a, b)
    {
      PrecedesReversed(order, b, a);
    }
  }

  /** The countdown is at most what it started from, so a name referred to once is taken at once. */
  lemma SkippedIsNotOnce(all: seq<Obj>, popped: seq<Obj>, o: Obj, left: map<string, int>, order: seq<Obj>,
                         counts: map<string, int>, name: string)
    requires OrderInv(all, popped + [o], left, order) && GetName(o) == Some(name)
    requires name in left && left[name] - 1 != 0 && name in counts && left[name] <= counts[name]
    ensures !Once(counts, o)
  {
    hide Children, Edges, Rest;
    OccPositive(name, popped + [o]);
    assert o in popped + [o];
  }

  /** With the counts of consistent descriptors: every reachable one, children before parents.
      Otherwise a missing name or an enum may make it raise. */
  method OrderDescrs(starts: seq<Obj>, entriesCount: map<string, int>) returns (r: Result<seq<Obj>, Error>)
    ensures Consistent(starts) && CountsAll(starts, entriesCount) ==>
              r.Ok? && DependencyOrder(starts, r.value) && SiblingsSorted(entriesCount, r.value)
  {
    hide Children, Occ, Edges, Rest, Total, SortByName;
    hide OrderInv, Closed, Complete, CountsReferences, Consistent, DependencyOrder;
    hide SiblingInv, SiblingsSorted, Once;
    var order: seq<Obj> := [];
    var left := entriesCount;
    var stack := starts;
    ghost var counted := Consistent(starts) && CountsAll(starts, left);
    ghost var all: seq<Obj> := [];
    if counted {
      all :| Complete(starts, all) && CountsReferences(starts, all, left);
      CompleteClosed(starts, all);
      OrderStart(starts, all, left);
    }
    SiblingsStart(entriesCount, stack);
    while stack != []
      invariant counted ==> OrderInv(all, stack, left, order)
      invariant left.Keys == entriesCount.Keys && forall n :: n in left ==> left[n] <= entriesCount[n]
      invariant counted ==> SiblingInv(entriesCount, order, stack)
      decreases Total(stack)
    {
      var o := stack[|stack| - 1];
      ghost var popped := stack[..|stack| - 1];
      assert stack == popped + [o];
      PopSmaller(popped, o);
      stack := stack[..|stack| - 1];
      if counted {
        PoppedNamed(all, popped, o, left, order);
      }
      if GetName(o).None? {
        return Err(NoName);
      }
      var name := GetName(o).value;
      if name !in left {
        return Err(UnknownName(name));
      }
      ghost var before := left;
      left := left[name := left[name] - 1];
      if left[name] != 0 {
        if counted {
          OrderSkip(all, popped, o, before, order, name);
          SkippedIsNotOnce(all, popped, o, before, order, entriesCount, name);
          SiblingsSkip(entriesCount, order, popped, o);
        }
      } else {
        var children := Children(o);
        if !forall i :: 0 <= i < |children| ==> GetName(children[i]).Some? {
          return Err(NoName);
        }
        forall n: string ensures Occ(n, SortByName(children)) == Occ(n, children) { SortSums(children, n); }
        SortMembers(children);
        SortSums(children, name);
        TotalAppend(popped, SortByName(children));
        TotalAppend(popped, children);
        if counted {
          OrderTake(all, popped, o, before, order, name, SortByName(children));
          SiblingsTake(entriesCount, order, popped, o);
        }
        order := order + [o];
        stack := stack + SortByName(children);
      }
    }
    if counted {
      OrderDone(starts, all, left, order);
      SiblingsDone(entriesCount, order);
    }
    r := Ok(Reversed(order));
  }

  /** The heads and all that is nested in them, each once and under its own name, everything before
      whatever has it as a part. */
  ghost predicate Rendered(heads: seq<Obj>, order: seq<Obj>) {
    && (forall o :: o in order <==> NestedInAny(o, heads))
    && (forall i, j :: 0 <= i < j < |order| ==> GetName(order[i]) != GetName(order[j]))
    && (forall i, j :: 0 <= i < |order| && 0 <= j < |order| && IsPart(order[i], order[j]) ==> j < i)
  }

  lemma DependencyOrderIsRendered(heads: seq<Obj>, order: seq<Obj>)
    requires DependencyOrder(heads, order)
    ensures Rendered(heads, order)
  {
    hide Children, IsPart, Reachable, NestedInAny;
    forall o
      ensures o in order <==> NestedInAny(o, heads)
    {
      ReachableIsNested(heads, o);
    }
    forall i, j | 0 <= i < |order| && 0 <= j < |order| && IsPart(order[i], order[j])
      ensures j < i
    {
      ChildrenAreParts(order[i], order[j]);
    }
  }

  /** The beginning of `render_proto`: it gets past the check exactly when names are unambiguous, and
      then has an order in which everything is defined before it is used. */
  method RenderOrder(headDescrs: seq<Obj>) returns (r: Result<seq<Obj>, Error>)
    ensures r.Ok? <==> Unambiguous(headDescrs)
    ensures r.Ok? ==> Rendered(headDescrs, r.value)
    ensures r.Err? ==> Blames(headDescrs, r.error)
  {
    hide *;
    ConsistentIsUnambiguous(headDescrs);
    var valid := ValidateDuplicates(headDescrs);
    if valid.Err? {
      return Err(valid.error);
    }
    var counted := CountEntries(headDescrs);
    match counted
    case Err(e) => r := Err(e);
    case Ok(entriesCount) =>
      r := OrderDescrs(headDescrs, entriesCount);
      DependencyOrderIsRendered(headDescrs, r.value);
  }
}
