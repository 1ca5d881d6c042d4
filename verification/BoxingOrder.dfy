// The orders in which references and fields are listed: the accumulators of the search grow at their fronts.
module BoxingOrder {
  import opened Boxing

  // References are gathered newest first.
  lemma {:induction false} GatherGrows(t: Type, current: string, acc: seq<string>)
    ensures Gather(t, current, acc) == Gather(t, current, []) + acc
    decreases t, 0
  {
    match t
    case Ref(modname, name) => assert [FullName(modname, name)] + [] == [FullName(modname, name)];
    case Unqualified(name) => assert [FullName(current, name)] + [] == [FullName(current, name)];
    case Struct(fields) => GatherFieldsGrows(fields, current, acc);
    case ListOf(inner) => GatherGrows(inner, current, acc);
    case Other(parts) => GatherPartsGrows(parts, current, acc);
  }

  lemma {:induction false} GatherFieldsGrows(fields: seq<Field>, current: string, acc: seq<string>)
    ensures GatherFields(fields, current, acc) == GatherFields(fields, current, []) + acc
    decreases fields, 0
  {
    hide Gather;
    if fields != [] {
      var first := GatherField(fields[0], current, []);
      GatherFieldGrows(fields[0], current, acc);
      GatherFieldsGrows(fields[1..], current, first + acc);
      GatherFieldsGrows(fields[1..], current, first);
    }
  }

  lemma {:induction false} GatherFieldGrows(f: Field, current: string, acc: seq<string>)
    ensures GatherField(f, current, acc) == GatherField(f, current, []) + acc
    decreases f, 0
  {
    hide Gather;
    match f
    case Component(_, kind) => GatherGrows(kind, current, acc);
    case Plain(part) => GatherGrows(part, current, acc);
  }

  lemma {:induction false} GatherPartsGrows(parts: seq<Type>, current: string, acc: seq<string>)
    ensures GatherParts(parts, current, acc) == GatherParts(parts, current, []) + acc
    decreases parts, 0
  {
    hide Gather;
    if parts != [] {
      var first := Gather(parts[0], current, []);
      GatherGrows(parts[0], current, acc);
      GatherPartsGrows(parts[1..], current, first + acc);
      GatherPartsGrows(parts[1..], current, first);
    }
  }

  // The references of a later field stand before those of an earlier one.
  lemma LaterFieldsFirst(f: Field, fields: seq<Field>, current: string)
    ensures GatherFields([f] + fields, current, []) == GatherFields(fields, current, []) + GatherField(f, current, [])
  {
    hide GatherField;
    assert ([f] + fields)[1..] == fields;
    GatherFieldsGrows(fields, current, GatherField(f, current, []));
  }

  // Of equal entries the first one is kept.
  lemma FirstIsKept<T(!new)>(s: seq<T>, x: T)
    ensures Unique(s + [x]) == if x in s then Unique(s) else Unique(s) + [x]
  {
    assert (s + [x])[..|s|] == s;
  }

  // The fields of the types on the path, from the start of the search on, and of each type in the order they have.
  lemma PathInOrder(types: Types, u: string, path: seq<string>, target: string)
    ensures CycleFields(types, [u] + path, target)
         == (if u in types && types[u].kind.Struct? then FieldsInto(u, types[u].kind.fields, target) else [])
            + CycleFields(types, path, target)
  {
    hide FieldsInto;
    assert ([u] + path)[1..] == path;
  }

  lemma FieldsInOrder(parent: string, f: Field, fields: seq<Field>, target: string)
    ensures FieldsInto(parent, [f] + fields, target)
         == (if f.Component? && target in Refs(f.kind, "") then [Entry(parent, f.name)] else [])
            + FieldsInto(parent, fields, target)
  {
    hide Refs;
    assert ([f] + fields)[1..] == fields;
  }

  ghost predicate EndsWith(s: seq<Entry>, t: seq<Entry>) {
    |t| <= |s| && s[|s| - |t|..] == t
  }

  // What is found later stands before what was found earlier.
  lemma {:induction false} VisitGrows(graph: Graph, types: Types, all: set<string>, node: string, colors: Colors,
                                      path: seq<string>, found: seq<Entry>)
    requires Within(graph, all) && node in all && ColorOf(colors, node) == White
    ensures EndsWith(Visit(graph, types, all, node, colors, path, found).1, found)
    decreases |all - Touched(colors)|, 0
  {
    hide Visit, VisitAll, Within, Touched, ColorOf, EndsWith;
    var neighbors := if node in graph then graph[node] else [];
    Touches(colors, node, Gray);
    OneLess(all, Touched(colors), node);
    VisitIs(graph, types, all, node, colors, path, found);
    NeighborsWithin(graph, all, node);
    VisitAllGrows(graph, types, all, node, neighbors, colors[node := Gray], path, found);
  }

  lemma NeighborsWithin(graph: Graph, all: set<string>, node: string)
    requires Within(graph, all)
    ensures node in graph ==> forall v :: v in graph[node] ==> v in all
  {
  }

  lemma {:induction false} VisitAllGrows(graph: Graph, types: Types, all: set<string>, node: string,
                                         neighbors: seq<string>, colors: Colors, path: seq<string>, found: seq<Entry>)
    requires Within(graph, all) && forall v :: v in neighbors ==> v in all
    ensures EndsWith(VisitAll(graph, types, all, node, neighbors, colors, path, found).1, found)
    decreases |all - Touched(colors)|, |neighbors| + 1
  {
    hide Visit, VisitAll, Within, Touched, CycleFields;
    if neighbors == [] {
      NothingToVisit(graph, types, all, node, colors, path, found);
    } else {
      var v, rest := neighbors[0], neighbors[1..];
      assert neighbors == [v] + rest;
      VisitAllIs(graph, types, all, node, v, rest, colors, path, found);
      var m := Meet(graph, types, all, node, v, colors, path, found);
      if ColorOf(colors, v) == White { VisitGrows(graph, types, all, v, colors, path + [node], found); }
      assert EndsWith(m.1, found);
      Fewer(all, Touched(colors), Touched(m.0));
      VisitAllGrows(graph, types, all, node, rest, m.0, path, m.1);
      EndsTwice(VisitAll(graph, types, all, node, rest, m.0, path, m.1).1, m.1, found);
    }
  }

  lemma EndsTwice(a: seq<Entry>, b: seq<Entry>, c: seq<Entry>)
    requires EndsWith(a, b) && EndsWith(b, c)
    ensures EndsWith(a, c)
  {
    assert a[|a| - |c|..] == a[|a| - |b|..][|b| - |c|..];
  }
}
