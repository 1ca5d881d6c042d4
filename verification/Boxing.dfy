// The search of x-series.ex for the fields that make types recursive: a coloured depth-first search over the
// graph "type definition refers to type".
module Boxing {

  // What the search sees of a parsed type. A reference names its module or is unqualified. SEQUENCE, SET and
  // CHOICE have a list of fields, most of them components with a name; every other tuple or list is searched part
  // by part.
  datatype Type =
    | Ref(modname: string, name: string)
    | Unqualified(name: string)
    | Struct(fields: seq<Field>)
    | ListOf(inner: Type)
    | Other(parts: seq<Type>)

  datatype Field = Component(name: string, kind: Type) | Plain(part: Type)

  datatype Definition = Definition(modname: string, kind: Type)

  type Types = map<string, Definition>

  type Graph = map<string, seq<string>>

  // A field to be boxed: the type that holds it, and its name.
  datatype Entry = Entry(parent: string, field: string)

  function FullName(modname: string, name: string): string {
    modname + "_" + name
  }

  // ---------------------------------------------------------------- the graph

  // extract_type_refs_acc
  function Gather(t: Type, current: string, acc: seq<string>): seq<string> {
    match t
    case Ref(modname, name) => [FullName(modname, name)] + acc
    case Unqualified(name) => [FullName(current, name)] + acc
    case Struct(fields) => GatherFields(fields, current, acc)
    case ListOf(inner) => Gather(inner, current, acc)
    case Other(parts) => GatherParts(parts, current, acc)
  }

  function GatherFields(fields: seq<Field>, current: string, acc: seq<string>): seq<string> {
    if fields == [] then acc else GatherFields(fields[1..], current, GatherField(fields[0], current, acc))
  }

  function GatherField(f: Field, current: string, acc: seq<string>): seq<string> {
    match f
    case Component(_, kind) => Gather(kind, current, acc)
    case Plain(part) => Gather(part, current, acc)
  }

  function GatherParts(parts: seq<Type>, current: string, acc: seq<string>): seq<string> {
    if parts == [] then acc else GatherParts(parts[1..], current, Gather(parts[0], current, acc))
  }

  // Enum.uniq keeps the first of equal elements.
  function Unique<T(==, !new)>(s: seq<T>): (r: seq<T>)
    ensures forall x :: x in r <==> x in s
  {
    if s == [] then []
    else
      var front := s[..|s| - 1];
      var last := s[|s| - 1];
      assert s == front + [last];
      var r := Unique(front);
      if last in r then r else r + [last]
  }

  // extract_type_refs
  function Refs(t: Type, current: string): seq<string> {
    Unique(Gather(t, current, []))
  }

  // build_type_graph
  function TypeGraph(types: Types): Graph {
    map name | name in types :: Refs(types[name].kind, types[name].modname)
  }

  // ---------------------------------------------------------------- what a back edge reports

  // find_in_fields: the module is not known here, so it is the empty string.
  function FieldsInto(parent: string, fields: seq<Field>, target: string): (entries: seq<Entry>)
    ensures forall e :: e in entries <==>
      exists f :: f in fields && f.Component? && target in Refs(f.kind, "") && e == Entry(parent, f.name)
  {
    if fields == [] then []
    else
      assert fields == [fields[0]] + fields[1..];
      var f := fields[0];
      (if f.Component? && target in Refs(f.kind, "") then [Entry(parent, f.name)] else [])
      + FieldsInto(parent, fields[1..], target)
  }

  // find_cycle_fields
  function CycleFields(types: Types, path: seq<string>, target: string): (entries: seq<Entry>)
    ensures forall u :: u in path && u in types && types[u].kind.Struct? ==>
      forall e :: e in FieldsInto(u, types[u].kind.fields, target) ==> e in entries
  {
    if path == [] then []
    else
      assert path == [path[0]] + path[1..];
      var u := path[0];
      (if u in types && types[u].kind.Struct? then FieldsInto(u, types[u].kind.fields, target) else [])
      + CycleFields(types, path[1..], target)
  }

  // ---------------------------------------------------------------- the search

  datatype Color = White | Gray | Black

  type Colors = map<string, Color>

  function ColorOf(colors: Colors, node: string): Color {
    if node in colors then colors[node] else White
  }

  ghost function Touched(colors: Colors): set<string> {
    set n | n in colors && colors[n] != White
  }

  // all holds every type that can be met: the defined ones and the ones they refer to.
  ghost predicate Within(graph: Graph, all: set<string>) {
    forall u, v :: u in graph && v in graph[u] ==> v in all
  }

  // dfs_visit
  function Visit(graph: Graph, types: Types, ghost all: set<string>, node: string, colors: Colors, path: seq<string>,
                 found: seq<Entry>)
    : (r: (Colors, seq<Entry>))
    requires Within(graph, all) && node in all && ColorOf(colors, node) == White
    ensures Touched(colors) <= Touched(r.0)
    decreases |all - Touched(colors)|, 0
  {
    var gray := colors[node := Gray];
    Touches(colors, node, Gray);
    OneLess(all, Touched(colors), node);
    hide Touched, ColorOf;
    var neighbors := if node in graph then graph[node] else [];
    var (after, cycles) := VisitAll(graph, types, all, node, neighbors, gray, path, found);
    Touches(after, node, Black);
    (after[node := Black], cycles)
  }

  function VisitAll(graph: Graph, types: Types, ghost all: set<string>, node: string, neighbors: seq<string>,
                    colors: Colors,
                    path: seq<string>, found: seq<Entry>): (r: (Colors, seq<Entry>))
    requires Within(graph, all) && forall v :: v in neighbors ==> v in all
    ensures Touched(colors) <= Touched(r.0)
    decreases |all - Touched(colors)|, |neighbors| + 1
  {
    if neighbors == [] then (colors, found)
    else
      var v := neighbors[0];
      var (c, f) := match ColorOf(colors, v)
        case Gray => (colors, CycleFields(types, path + [node], v) + found)
        case White => Visit(graph, types, all, v, colors, path + [node], found)
        case Black => (colors, found);
      Fewer(all, Touched(colors), Touched(c));
      VisitAll(graph, types, all, node, neighbors[1..], c, path, f)
  }

  lemma Touches(colors: Colors, node: string, color: Color)
    requires color != White
    ensures Touched(colors[node := color]) == Touched(colors) + {node}
    ensures ColorOf(colors, node) == White ==> node !in Touched(colors)
  {
  }

  lemma OneLess(all: set<string>, touched: set<string>, node: string)
    requires node in all && node !in touched
    ensures |all - (touched + {node})| < |all - touched|
  {
    assert all - (touched + {node}) == (all - touched) - {node};
  }

  lemma Fewer(all: set<string>, before: set<string>, after: set<string>)
    requires before <= after
    ensures |all - after| <= |all - before|
  {
    assert all - before == (all - after) + ((all - before) * after);
    assert (all - after) !! ((all - before) * after);
  }

  // find_cycles_dfs: nodes lists the keys of the graph.
  function Search(graph: Graph, types: Types, ghost all: set<string>, nodes: seq<string>, colors: Colors,
                  found: seq<Entry>)
    : (Colors, seq<Entry>)
    requires Within(graph, all) && forall n :: n in nodes ==> n in all
  {
    if nodes == [] then (colors, found)
    else if ColorOf(colors, nodes[0]) == White then
      var (c, f) := Visit(graph, types, all, nodes[0], colors, [], found);
      Search(graph, types, all, nodes[1..], c, f)
    else Search(graph, types, all, nodes[1..], colors, found)
  }

  ghost function Everything(types: Types): (all: set<string>)
    ensures Within(TypeGraph(types), all) && types.Keys <= all
  {
    types.Keys + set u, v | u in types && v in Refs(types[u].kind, types[u].modname) :: v
  }

  // detect_type_cycles
  function Reported(types: Types, nodes: seq<string>): seq<Entry>
    requires forall n :: n in nodes <==> n in types
  {
    Unique(Search(TypeGraph(types), types, Everything(types), nodes, map n | n in nodes :: White, []).1)
  }

  // ---------------------------------------------------------------- boxing

  function Unboxed(parent: string, fields: seq<Field>, boxed: seq<Entry>): seq<Field> {
    if fields == [] then []
    else
      var rest := Unboxed(parent, fields[1..], boxed);
      if fields[0].Component? && Entry(parent, fields[0].name) in boxed then rest else [fields[0]] + rest
  }

  function Strip(parent: string, t: Type, boxed: seq<Entry>): Type {
    if t.Struct? then Struct(Unboxed(parent, t.fields, boxed)) else t
  }

  // The definitions without the fields that are boxed.
  function Remaining(types: Types, boxed: seq<Entry>): Types {
    map u | u in types :: Definition(types[u].modname, Strip(u, types[u].kind, boxed))
  }

  // u still refers to v when the boxed fields are gone.
  ghost predicate Linked(types: Types, boxed: seq<Entry>, u: string, v: string) {
    u in types && v in Refs(Strip(u, types[u].kind, boxed), types[u].modname)
  }

  ghost predicate Refers(graph: Graph, u: string, v: string) {
    u in graph && v in graph[u]
  }

  // Each type on the chain refers to the next.
  ghost predicate Chain(graph: Graph, w: seq<string>) {
    forall i, j :: 0 <= i && j == i + 1 < |w| ==> Refers(graph, w[i], w[j])
  }

  // A chain of references from a type back to itself.
  ghost predicate Cycle(types: Types, w: seq<string>) {
    Chain(TypeGraph(types), w) && |w| >= 2 && w[0] == w[|w| - 1]
  }

  ghost predicate Recursive(types: Types) {
    exists w :: Cycle(types, w)
  }

  // What the search reports of u when it finds a back edge from u to v.
  function Own(types: Types, u: string, v: string): seq<Entry> {
    if u in types && types[u].kind.Struct? then FieldsInto(u, types[u].kind.fields, v) else []
  }

  // Boxing that removes every reference from u to v.
  ghost predicate Boxable(types: Types, u: string, v: string) {
    !Linked(types, Own(types, u, v), u, v)
  }

  // The reference from u to v stands outside the components of u, where nothing is ever boxed.
  ghost predicate Outside(types: Types, u: string, v: string) {
    && u in types
    && var Definition(current, t) := types[u];
       if t.Struct? then exists f :: f in t.fields && f.Plain? && MentionsField(f, current, v)
       else Mentions(t, current, v)
  }

  // ---------------------------------------------------------------- references

  ghost predicate Mentions(t: Type, current: string, x: string) {
    match t
    case Ref(modname, name) => x == FullName(modname, name)
    case Unqualified(name) => x == FullName(current, name)
    case Struct(fields) => MentionsFields(fields, current, x)
    case ListOf(inner) => Mentions(inner, current, x)
    case Other(parts) => MentionsParts(parts, current, x)
  }

  ghost predicate MentionsField(f: Field, current: string, x: string) {
    match f
    case Component(_, kind) => Mentions(kind, current, x)
    case Plain(part) => Mentions(part, current, x)
  }

  ghost predicate MentionsFields(fields: seq<Field>, current: string, x: string) {
    fields != [] && (MentionsField(fields[0], current, x) || MentionsFields(fields[1..], current, x))
  }

  ghost predicate MentionsParts(parts: seq<Type>, current: string, x: string) {
    parts != [] && (Mentions(parts[0], current, x) || MentionsParts(parts[1..], current, x))
  }

  lemma {:induction false} GatherMentions(t: Type, current: string, acc: seq<string>, x: string)
    ensures x in Gather(t, current, acc) <==> x in acc || Mentions(t, current, x)
    decreases t
  {
    match t
    case Ref(_, _) =>
    case Unqualified(_) =>
    case Struct(fields) => GatherFieldsMention(fields, current, acc, x);
    case ListOf(inner) => GatherMentions(inner, current, acc, x);
    case Other(parts) => GatherPartsMention(parts, current, acc, x);
  }

  lemma {:induction false} GatherFieldsMention(fields: seq<Field>, current: string, acc: seq<string>, x: string)
    ensures x in GatherFields(fields, current, acc) <==> x in acc || MentionsFields(fields, current, x)
    decreases fields
  {
    if fields != [] {
      var f := fields[0];
      GatherFieldMentions(f, current, acc, x);
      GatherFieldsMention(fields[1..], current, GatherField(f, current, acc), x);
    }
  }

  lemma {:induction false} GatherFieldMentions(f: Field, current: string, acc: seq<string>, x: string)
    ensures x in GatherField(f, current, acc) <==> x in acc || MentionsField(f, current, x)
    decreases f
  {
    match f
    case Component(_, kind) => GatherMentions(kind, current, acc, x);
    case Plain(part) => GatherMentions(part, current, acc, x);
  }

  lemma {:induction false} GatherPartsMention(parts: seq<Type>, current: string, acc: seq<string>, x: string)
    ensures x in GatherParts(parts, current, acc) <==> x in acc || MentionsParts(parts, current, x)
    decreases parts
  {
    if parts != [] {
      GatherMentions(parts[0], current, acc, x);
      GatherPartsMention(parts[1..], current, Gather(parts[0], current, acc), x);
    }
  }

  lemma RefsMention(t: Type, current: string, x: string)
    ensures x in Refs(t, current) <==> Mentions(t, current, x)
  {
    GatherMentions(t, current, [], x);
  }

  // Every reference names its module.
  predicate Qualified(t: Type) {
    match t
    case Ref(_, _) => true
    case Unqualified(_) => false
    case Struct(fields) => forall f :: f in fields ==> QualifiedField(f)
    case ListOf(inner) => Qualified(inner)
    case Other(parts) => forall p :: p in parts ==> Qualified(p)
  }

  predicate QualifiedField(f: Field) {
    match f
    case Component(_, kind) => Qualified(kind)
    case Plain(part) => Qualified(part)
  }

  lemma {:induction false} SameAnywhere(t: Type, a: string, b: string, x: string)
    requires Qualified(t)
    ensures Mentions(t, a, x) == Mentions(t, b, x)
    decreases t
  {
    match t
    case Ref(_, _) =>
    case Struct(fields) => FieldsSameAnywhere(fields, a, b, x);
    case ListOf(inner) => SameAnywhere(inner, a, b, x);
    case Other(parts) => PartsSameAnywhere(parts, a, b, x);
  }

  lemma {:induction false} FieldsSameAnywhere(fields: seq<Field>, a: string, b: string, x: string)
    requires forall f :: f in fields ==> QualifiedField(f)
    ensures MentionsFields(fields, a, x) == MentionsFields(fields, b, x)
    decreases fields
  {
    if fields != [] {
      assert QualifiedField(fields[0]);
      var f := fields[0];
      FieldSameAnywhere(f, a, b, x);
      FieldsSameAnywhere(fields[1..], a, b, x);
    }
  }

  lemma {:induction false} FieldSameAnywhere(f: Field, a: string, b: string, x: string)
    requires QualifiedField(f)
    ensures MentionsField(f, a, x) == MentionsField(f, b, x)
    decreases f
  {
    match f
    case Component(_, kind) => SameAnywhere(kind, a, b, x);
    case Plain(part) => SameAnywhere(part, a, b, x);
  }

  lemma {:induction false} PartsSameAnywhere(parts: seq<Type>, a: string, b: string, x: string)
    requires forall p :: p in parts ==> Qualified(p)
    ensures MentionsParts(parts, a, x) == MentionsParts(parts, b, x)
    decreases parts
  {
    if parts != [] {
      SameAnywhere(parts[0], a, b, x);
      PartsSameAnywhere(parts[1..], a, b, x);
    }
  }

  // ---------------------------------------------------------------- which references boxing removes

  lemma {:induction false} FewerMentions(parent: string, fields: seq<Field>, few: seq<Entry>, many: seq<Entry>,
                                         current: string, v: string)
    requires forall e :: e in few ==> e in many
    ensures MentionsFields(Unboxed(parent, fields, many), current, v)
        ==> MentionsFields(Unboxed(parent, fields, few), current, v)
    ensures MentionsFields(Unboxed(parent, fields, few), current, v) ==> MentionsFields(fields, current, v)
    decreases fields
  {
    if fields != [] { FewerMentions(parent, fields[1..], few, many, current, v); }
  }

  // Boxing more removes references and adds none.
  lemma FewerLinks(types: Types, few: seq<Entry>, many: seq<Entry>, u: string, v: string)
    requires Linked(types, many, u, v) && forall e :: e in few ==> e in many
    ensures Linked(types, few, u, v) && v in TypeGraph(types)[u]
  {
    var t, current := types[u].kind, types[u].modname;
    RefsMention(Strip(u, t, few), current, v);
    RefsMention(Strip(u, t, many), current, v);
    RefsMention(t, current, v);
    if t.Struct? { FewerMentions(u, t.fields, few, many, current, v); }
  }

  // Boxing the entries of a back edge removes the edge if anything the search reports of it does.
  lemma BackEdgeGone(types: Types, boxed: seq<Entry>, path: seq<string>, u: string, v: string)
    requires u in path && forall e :: e in CycleFields(types, path, v) ==> e in boxed
    ensures Boxable(types, u, v) ==> !Linked(types, boxed, u, v)
  {
    if Linked(types, boxed, u, v) { FewerLinks(types, Own(types, u, v), boxed, u, v); }
  }

  lemma {:induction false} UnboxedMentions(parent: string, fields: seq<Field>, boxed: seq<Entry>, current: string,
                                           v: string)
    ensures MentionsFields(Unboxed(parent, fields, boxed), current, v)
       <==> exists f :: f in fields && MentionsField(f, current, v)
                        && (f.Component? ==> Entry(parent, f.name) !in boxed)
    decreases fields
  {
    if fields != [] {
      assert fields == [fields[0]] + fields[1..];
      UnboxedMentions(parent, fields[1..], boxed, current, v);
    }
  }

  // A reference is boxable exactly when every field that holds it is a component, and a component of that name shows
  // it even when it is read without a module.
  lemma BoxableFields(types: Types, u: string, v: string)
    requires u in types && types[u].kind.Struct?
    ensures Boxable(types, u, v)
       <==> forall f :: f in types[u].kind.fields && MentionsField(f, types[u].modname, v) ==>
              && f.Component?
              && exists g :: g in types[u].kind.fields && g.Component? && v in Refs(g.kind, "") && g.name == f.name
  {
    hide Refs, Unboxed, MentionsField;
    var Definition(current, t) := types[u];
    var own := Own(types, u, v);
    RefsMention(Strip(u, t, own), current, v);
    UnboxedMentions(u, t.fields, own, current, v);
    forall f | f in t.fields && f.Component?
      ensures Entry(u, f.name) in own
         <==> exists g :: g in t.fields && g.Component? && v in Refs(g.kind, "") && g.name == f.name
    {
      if g :| g in t.fields && g.Component? && v in Refs(g.kind, "") && g.name == f.name {
        assert Entry(u, g.name) in own;
      }
    }
  }

  // It is enough that the fields that hold it are components whose references name their modules.
  lemma QualifiedIsBoxable(types: Types, u: string, v: string)
    requires u in types && types[u].kind.Struct?
    requires forall f :: f in types[u].kind.fields && MentionsField(f, types[u].modname, v) ==>
               f.Component? && Qualified(f.kind)
    ensures Boxable(types, u, v)
  {
    BoxableFields(types, u, v);
    forall f | f in types[u].kind.fields && MentionsField(f, types[u].modname, v) ensures v in Refs(f.kind, "") {
      SameAnywhere(f.kind, types[u].modname, "", v);
      RefsMention(f.kind, "", v);
    }
  }

  // A reference outside the components stays, whatever is boxed, so it is not boxable.
  lemma OutsideStays(types: Types, boxed: seq<Entry>, u: string, v: string)
    requires Outside(types, u, v)
    ensures Linked(types, boxed, u, v)
  {
    var Definition(current, t) := types[u];
    RefsMention(Strip(u, t, boxed), current, v);
    if t.Struct? { UnboxedMentions(u, t.fields, boxed, current, v); }
  }

  // ---------------------------------------------------------------- what the search keeps

  // u still refers to v when the boxed fields are gone, though boxing can remove such a reference.
  ghost predicate Held(types: Types, boxed: seq<Entry>, u: string, v: string) {
    Linked(types, boxed, u, v) && Boxable(types, u, v)
  }

  ghost predicate Loop(types: Types, boxed: seq<Entry>, w: seq<string>) {
    && |w| >= 2 && w[0] == w[|w| - 1]
    && forall i, j :: 0 <= i && j == i + 1 < |w| ==> Held(types, boxed, w[i], w[j])
  }

  // The gray types are the path. By references of that kind, what is black leads only to black, and not in a cycle.
  lemma FewerHeld(types: Types, few: seq<Entry>, many: seq<Entry>, u: string, v: string)
    requires Held(types, many, u, v) && forall e :: e in few ==> e in many
    ensures Held(types, few, u, v) && v in TypeGraph(types)[u]
  {
    FewerLinks(types, few, many, u, v);
  }

  ghost predicate Good(types: Types, colors: Colors, path: seq<string>, found: seq<Entry>) {
    && (forall n :: ColorOf(colors, n) == Gray <==> n in path)
    && (forall u, v :: ColorOf(colors, u) == Black && Held(types, found, u, v) ==> ColorOf(colors, v) == Black)
    && (forall w :: Loop(types, found, w) ==> exists i :: 0 <= i < |w| && ColorOf(colors, w[i]) != Black)
  }

  ghost predicate Grew(colors: Colors, found: seq<Entry>, after: (Colors, seq<Entry>)) {
    && (forall n :: ColorOf(colors, n) == Black ==> ColorOf(after.0, n) == Black)
    && (forall e :: e in found ==> e in after.1)
  }

  lemma GoodGrows(types: Types, colors: Colors, path: seq<string>, found: seq<Entry>, more: seq<Entry>)
    requires Good(types, colors, path, found) && forall e :: e in found ==> e in more
    ensures Good(types, colors, path, more)
  {
    forall u, v | Held(types, more, u, v) ensures Held(types, found, u, v) {
      FewerHeld(types, found, more, u, v);
    }
    forall w | Loop(types, more, w) ensures exists i :: 0 <= i < |w| && ColorOf(colors, w[i]) != Black {
      assert Loop(types, found, w);
    }
  }

  lemma Grays(types: Types, colors: Colors, path: seq<string>, found: seq<Entry>, node: string)
    requires Good(types, colors, path, found) && ColorOf(colors, node) == White
    ensures Good(types, colors[node := Gray], path + [node], found)
  {
    hide Held;
    var gray := colors[node := Gray];
    forall n ensures ColorOf(gray, n) == Gray <==> n in path + [node] {
      assert ColorOf(colors, n) == Gray <==> n in path;
    }
    forall w | Loop(types, found, w) ensures exists i :: 0 <= i < |w| && ColorOf(gray, w[i]) != Black {
      var i :| 0 <= i < |w| && ColorOf(colors, w[i]) != Black;
      assert ColorOf(gray, w[i]) != Black;
    }
  }

  lemma Blackens(types: Types, colors: Colors, path: seq<string>, found: seq<Entry>, node: string)
    requires Good(types, colors, path + [node], found) && node !in path
    requires forall v :: Held(types, found, node, v) ==> ColorOf(colors, v) == Black
    ensures Good(types, colors[node := Black], path, found)
  {
    hide Held;
    var black := colors[node := Black];
    assert node in path + [node];
    forall n ensures ColorOf(black, n) == Gray <==> n in path {
      assert ColorOf(colors, n) == Gray <==> n in path + [node];
    }
    forall w | Loop(types, found, w) ensures exists i :: 0 <= i < |w| && ColorOf(black, w[i]) != Black {
      if node in w {
        var k :| 0 < k < |w| && w[k] == node;
        assert Held(types, found, w[k - 1], w[k]);
        assert ColorOf(black, w[k - 1]) != Black;
      } else {
        var i :| 0 <= i < |w| && ColorOf(colors, w[i]) != Black;
        assert ColorOf(black, w[i]) != Black;
      }
    }
  }

  // One unfolding of each search function.
  lemma VisitIs(graph: Graph, types: Types, all: set<string>, node: string, colors: Colors, path: seq<string>,
                found: seq<Entry>)
    requires Within(graph, all) && node in all && ColorOf(colors, node) == White
    ensures var neighbors := if node in graph then graph[node] else [];
            var r := VisitAll(graph, types, all, node, neighbors, colors[node := Gray], path, found);
            Visit(graph, types, all, node, colors, path, found) == (r.0[node := Black], r.1)
  {
    hide ColorOf, Touched, Within, VisitAll;
  }

  // What the search does on meeting one neighbor.
  function Meet(graph: Graph, types: Types, ghost all: set<string>, node: string, v: string, colors: Colors,
                path: seq<string>,
                found: seq<Entry>): (Colors, seq<Entry>)
    requires Within(graph, all) && v in all
  {
    match ColorOf(colors, v)
    case Gray => (colors, CycleFields(types, path + [node], v) + found)
    case White => Visit(graph, types, all, v, colors, path + [node], found)
    case Black => (colors, found)
  }

  lemma VisitAllIs(graph: Graph, types: Types, all: set<string>, node: string, v: string, rest: seq<string>,
                   colors: Colors,
                   path: seq<string>, found: seq<Entry>)
    requires Within(graph, all) && v in all && forall n :: n in rest ==> n in all
    ensures var m := Meet(graph, types, all, node, v, colors, path, found);
            VisitAll(graph, types, all, node, [v] + rest, colors, path, found)
            == VisitAll(graph, types, all, node, rest, m.0, path, m.1)
    ensures Touched(colors) <= Touched(Meet(graph, types, all, node, v, colors, path, found).0)
  {
    hide ColorOf, Touched, Within, CycleFields, Visit;
    assert ([v] + rest)[1..] == rest;
  }

  lemma {:induction false} VisitKeeps(types: Types, all: set<string>, node: string, colors: Colors,
                                      path: seq<string>, found: seq<Entry>)
    requires Within(TypeGraph(types), all) && node in all
    requires ColorOf(colors, node) == White && Good(types, colors, path, found)
    ensures var r := Visit(TypeGraph(types), types, all, node, colors, path, found);
            Good(types, r.0, path, r.1) && Grew(colors, found, r) && ColorOf(r.0, node) == Black
    decreases |all - Touched(colors)|, 0
  {
    hide Good, Held, Visit, VisitAll, TypeGraph;
    var graph := TypeGraph(types);
    var gray := colors[node := Gray];
    var neighbors := if node in graph then graph[node] else [];
    Grays(types, colors, path, found, node);
    Touches(colors, node, Gray);
    OneLess(all, Touched(colors), node);
    NotOnPath(types, colors, path, found, node);
    VisitAllKeeps(types, all, node, neighbors, gray, path, found);
    VisitIs(graph, types, all, node, colors, path, found);
    var r := VisitAll(graph, types, all, node, neighbors, gray, path, found);
    forall v | Held(types, r.1, node, v) ensures ColorOf(r.0, v) == Black {
      LinkedIsKnown(types, r.1, node, v);
    }
    Blackens(types, r.0, path, r.1, node);
    GrewThrough(colors, node, found, r);
  }

  lemma GrewThrough(colors: Colors, node: string, found: seq<Entry>, r: (Colors, seq<Entry>))
    requires ColorOf(colors, node) == White && Grew(colors[node := Gray], found, r)
    ensures Grew(colors, found, (r.0[node := Black], r.1))
  {
    forall n | ColorOf(colors, n) == Black ensures ColorOf(r.0[node := Black], n) == Black {
      assert ColorOf(colors[node := Gray], n) == Black;
    }
  }

  lemma LinkedIsKnown(types: Types, boxed: seq<Entry>, u: string, v: string)
    requires Held(types, boxed, u, v)
    ensures u in TypeGraph(types) && v in TypeGraph(types)[u]
  {
    FewerHeld(types, boxed, boxed, u, v);
  }

  lemma NotOnPath(types: Types, colors: Colors, path: seq<string>, found: seq<Entry>, node: string)
    requires Good(types, colors, path, found) && ColorOf(colors, node) == White
    ensures node !in path
  {
  }

  lemma {:induction false} VisitAllKeeps(types: Types, all: set<string>, node: string, neighbors: seq<string>,
                                         colors: Colors,
                                         path: seq<string>, found: seq<Entry>)
    requires Within(TypeGraph(types), all) && (forall v :: v in neighbors ==> v in all)
    requires Good(types, colors, path + [node], found)
    ensures var r := VisitAll(TypeGraph(types), types, all, node, neighbors, colors, path, found);
            && Good(types, r.0, path + [node], r.1) && Grew(colors, found, r)
            && forall v :: v in neighbors ==> ColorOf(r.0, v) == Black || !Held(types, r.1, node, v)
    decreases |all - Touched(colors)|, |neighbors| + 2
  {
    hide Good, Held, Visit, VisitAll, TypeGraph, Meet;
    var graph := TypeGraph(types);
    if neighbors == [] {
      NothingToVisit(graph, types, all, node, colors, path, found);
    } else {
      var v, rest := neighbors[0], neighbors[1..];
      assert neighbors == [v] + rest;
      VisitAllIs(graph, types, all, node, v, rest, colors, path, found);
      var m := Meet(graph, types, all, node, v, colors, path, found);
      MeetKeeps(types, all, node, v, colors, path, found);
      Fewer(all, Touched(colors), Touched(m.0));
      VisitAllKeeps(types, all, node, rest, m.0, path, m.1);
      var r := VisitAll(graph, types, all, node, rest, m.0, path, m.1);
      if Held(types, r.1, node, v) { FewerHeld(types, m.1, r.1, node, v); }
    }
  }

  lemma NothingToVisit(graph: Graph, types: Types, all: set<string>, node: string, colors: Colors, path: seq<string>,
                       found: seq<Entry>)
    requires Within(graph, all)
    ensures VisitAll(graph, types, all, node, [], colors, path, found) == (colors, found)
  {
  }

  lemma {:induction false} MeetKeeps(types: Types, all: set<string>, node: string, v: string, colors: Colors,
                                     path: seq<string>, found: seq<Entry>)
    requires Within(TypeGraph(types), all) && v in all
    requires Good(types, colors, path + [node], found)
    ensures var m := Meet(TypeGraph(types), types, all, node, v, colors, path, found);
            && Good(types, m.0, path + [node], m.1) && Grew(colors, found, m)
            && (ColorOf(m.0, v) == Black || !Held(types, m.1, node, v))
    decreases |all - Touched(colors)|, 1
  {
    hide Good, Linked, Boxable, Visit, TypeGraph;
    if ColorOf(colors, v) == Gray {
      var more := CycleFields(types, path + [node], v) + found;
      GoodGrows(types, colors, path + [node], found, more);
      BackEdgeGone(types, more, path + [node], node, v);
    } else if ColorOf(colors, v) == White {
      VisitKeeps(types, all, v, colors, path + [node], found);
    }
  }

  lemma {:induction false} SearchKeeps(types: Types, all: set<string>, nodes: seq<string>, colors: Colors,
                                       found: seq<Entry>)
    requires Within(TypeGraph(types), all) && (forall n :: n in nodes ==> n in all)
    requires Good(types, colors, [], found)
    ensures var r := Search(TypeGraph(types), types, all, nodes, colors, found);
            && Good(types, r.0, [], r.1) && Grew(colors, found, r)
            && forall n :: n in nodes ==> ColorOf(r.0, n) == Black
  {
    hide Held, Loop;
    if nodes != [] {
      var graph := TypeGraph(types);
      var c, f := colors, found;
      assert nodes == [nodes[0]] + nodes[1..];
      if ColorOf(colors, nodes[0]) == White {
        VisitKeeps(types, all, nodes[0], colors, [], found);
        var r := Visit(graph, types, all, nodes[0], colors, [], found);
        c, f := r.0, r.1;
      }
      SearchKeeps(types, all, nodes[1..], c, f);
    }
  }

  // Whatever the definitions are made of and in whatever order they are searched: a cycle that remains when the
  // reported fields are boxed passes through a reference that boxing does not remove.
  lemma RemainingCycleIsStuck(types: Types, nodes: seq<string>, w: seq<string>)
    requires forall n :: n in nodes <==> n in types
    requires Cycle(Remaining(types, Reported(types, nodes)), w)
    ensures exists i, j :: 0 <= i && j == i + 1 < |w| && !Boxable(types, w[i], w[j])
  {
    hide Good, Loop, Search, TypeGraph, Remaining, Chain, Boxable;
    var white: Colors := map n | n in nodes :: White;
    FreshIsGood(types, white);
    SearchKeeps(types, Everything(types), nodes, white, []);
    var r := Search(TypeGraph(types), types, Everything(types), nodes, white, []);
    SameBoxed(types, Unique(r.1), r.1);
    LoopsBreak(types, r.0, r.1, w);
    RemainingLoop(types, r.1, w);
  }

  lemma SameBoxed(types: Types, few: seq<Entry>, many: seq<Entry>)
    requires forall e :: e in few <==> e in many
    ensures Remaining(types, few) == Remaining(types, many)
  {
    forall u | u in types ensures Strip(u, types[u].kind, few) == Strip(u, types[u].kind, many) {
      if types[u].kind.Struct? { SameUnboxed(u, types[u].kind.fields, few, many); }
    }
  }

  lemma {:induction false} SameUnboxed(parent: string, fields: seq<Field>, few: seq<Entry>, many: seq<Entry>)
    requires forall e :: e in few <==> e in many
    ensures Unboxed(parent, fields, few) == Unboxed(parent, fields, many)
  {
    if fields != [] { SameUnboxed(parent, fields[1..], few, many); }
  }

  lemma FreshIsGood(types: Types, white: Colors)
    requires forall n :: n in white ==> white[n] == White
    ensures Good(types, white, [], [])
  {
    hide Held;
    forall w | Loop(types, [], w) ensures exists i :: 0 <= i < |w| && ColorOf(white, w[i]) != Black {
      assert ColorOf(white, w[0]) != Black;
    }
  }

  lemma RemainingLoop(types: Types, boxed: seq<Entry>, w: seq<string>)
    requires Cycle(Remaining(types, boxed), w)
    ensures Loop(types, boxed, w) || exists i, j :: 0 <= i && j == i + 1 < |w| && !Boxable(types, w[i], w[j])
  {
    hide Strip, Refs, Boxable;
    forall i, j | 0 <= i && j == i + 1 < |w| ensures Linked(types, boxed, w[i], w[j]) {
      assert Refers(TypeGraph(Remaining(types, boxed)), w[i], w[j]);
    }
  }

  lemma HasSuccessor(types: Types, boxed: seq<Entry>, w: seq<string>, i: nat)
    requires Loop(types, boxed, w) && i < |w|
    ensures w[i] in types
  {
    var k := if i < |w| - 1 then i else 0;
    assert Held(types, boxed, w[k], w[k + 1]);
  }

  lemma LoopsBreak(types: Types, colors: Colors, found: seq<Entry>, w: seq<string>)
    requires Good(types, colors, [], found) && (forall n :: n in types ==> ColorOf(colors, n) == Black)
    ensures !Loop(types, found, w)
  {
    if Loop(types, found, w) {
      var i :| 0 <= i < |w| && ColorOf(colors, w[i]) != Black;
      HasSuccessor(types, found, w, i);
    }
  }

  // ---------------------------------------------------------------- what is reported

  ghost predicate GrayOnPath(colors: Colors, path: seq<string>) {
    forall n :: ColorOf(colors, n) == Gray ==> n in path
  }

  // The type refers to itself through a chain of references.
  ghost predicate OnCycle(types: Types, v: string) {
    exists w :: Cycle(types, w) && w[0] == v
  }

  // The entry names a component that refers to a recursive type.
  ghost predicate Justified(types: Types, e: Entry) {
    && e.parent in types && types[e.parent].kind.Struct?
    && exists f, v ::
         && f in types[e.parent].kind.fields && f.Component? && f.name == e.field
         && v in Refs(f.kind, "") && OnCycle(types, v)
  }

  ghost predicate AllJustified(types: Types, found: seq<Entry>) {
    forall e :: e in found ==> Justified(types, e)
  }

  lemma {:induction false} EntriesJustified(types: Types, path: seq<string>, v: string)
    requires OnCycle(types, v)
    ensures AllJustified(types, CycleFields(types, path, v))
  {
    hide Refs, OnCycle;
    if path != [] { EntriesJustified(types, path[1..], v); }
  }

  lemma ChainExtends(graph: Graph, path: seq<string>, v: string)
    requires Chain(graph, path) && path != []
    requires Refers(graph, path[|path| - 1], v)
    ensures Chain(graph, path + [v])
  {
    var w := path + [v];
    forall i, j | 0 <= i && j == i + 1 < |w| ensures Refers(graph, w[i], w[j]) {
      if j < |path| { assert Refers(graph, path[i], path[j]); }
    }
  }

  lemma ChainEnd(graph: Graph, path: seq<string>, k: nat)
    requires Chain(graph, path) && k <= |path|
    ensures Chain(graph, path[k..])
  {
    var w := path[k..];
    forall i, j | 0 <= i && j == i + 1 < |w| ensures Refers(graph, w[i], w[j]) {
      assert Refers(graph, path[k + i], path[k + j]);
    }
  }

  // The path is a chain of references, so a gray neighbor closes a loop.
  lemma GrayClosesLoop(types: Types, path: seq<string>, v: string)
    requires Chain(TypeGraph(types), path) && v in path
    requires Refers(TypeGraph(types), path[|path| - 1], v)
    ensures OnCycle(types, v)
  {
    hide TypeGraph, Chain;
    var k :| 0 <= k < |path| && path[k] == v;
    ChainEnd(TypeGraph(types), path, k);
    ChainExtends(TypeGraph(types), path[k..], v);
    var w := path[k..] + [v];
    assert Cycle(types, w) && w[0] == v;
  }

  lemma {:induction false} VisitJustifies(types: Types, all: set<string>, node: string, colors: Colors,
                                          path: seq<string>, found: seq<Entry>)
    requires Within(TypeGraph(types), all) && node in all && ColorOf(colors, node) == White
    requires Chain(TypeGraph(types), path + [node]) && GrayOnPath(colors, path) && AllJustified(types, found)
    ensures var r := Visit(TypeGraph(types), types, all, node, colors, path, found);
            AllJustified(types, r.1) && GrayOnPath(r.0, path)
    decreases |all - Touched(colors)|, 0
  {
    hide Visit, VisitAll, TypeGraph, Chain, AllJustified, GrayOnPath;
    var graph := TypeGraph(types);
    var gray := colors[node := Gray];
    var neighbors := if node in graph then graph[node] else [];
    Touches(colors, node, Gray);
    OneLess(all, Touched(colors), node);
    GrayNode(colors, node, path);
    VisitAllJustifies(types, all, node, neighbors, gray, path, found);
    VisitIs(graph, types, all, node, colors, path, found);
    BlackNode(VisitAll(graph, types, all, node, neighbors, gray, path, found).0, node, path);
  }

  lemma GrayNode(colors: Colors, node: string, path: seq<string>)
    requires GrayOnPath(colors, path)
    ensures GrayOnPath(colors[node := Gray], path + [node])
  {
    forall n | ColorOf(colors[node := Gray], n) == Gray ensures n in path + [node] {
      if n != node { assert ColorOf(colors, n) == Gray; }
    }
  }

  lemma BlackNode(colors: Colors, node: string, path: seq<string>)
    requires GrayOnPath(colors, path + [node])
    ensures GrayOnPath(colors[node := Black], path)
  {
    forall n | ColorOf(colors[node := Black], n) == Gray ensures n in path {
      assert n != node && ColorOf(colors, n) == Gray;
    }
  }

  lemma {:induction false} VisitAllJustifies(types: Types, all: set<string>, node: string, neighbors: seq<string>,
                                             colors: Colors, path: seq<string>, found: seq<Entry>)
    requires Within(TypeGraph(types), all) && forall v :: v in neighbors ==> v in all
    requires forall v :: v in neighbors ==> Refers(TypeGraph(types), node, v)
    requires Chain(TypeGraph(types), path + [node]) && GrayOnPath(colors, path + [node]) && AllJustified(types, found)
    ensures var r := VisitAll(TypeGraph(types), types, all, node, neighbors, colors, path, found);
            AllJustified(types, r.1) && GrayOnPath(r.0, path + [node])
    decreases |all - Touched(colors)|, |neighbors| + 2
  {
    hide Visit, VisitAll, TypeGraph, Chain, AllJustified, GrayOnPath, Meet;
    var graph := TypeGraph(types);
    if neighbors == [] {
      NothingToVisit(graph, types, all, node, colors, path, found);
    } else {
      var v, rest := neighbors[0], neighbors[1..];
      assert neighbors == [v] + rest;
      VisitAllIs(graph, types, all, node, v, rest, colors, path, found);
      var m := Meet(graph, types, all, node, v, colors, path, found);
      MeetJustifies(types, all, node, v, colors, path, found);
      Fewer(all, Touched(colors), Touched(m.0));
      VisitAllJustifies(types, all, node, rest, m.0, path, m.1);
    }
  }

  lemma {:induction false} MeetJustifies(types: Types, all: set<string>, node: string, v: string, colors: Colors,
                                         path: seq<string>, found: seq<Entry>)
    requires Within(TypeGraph(types), all) && v in all && Refers(TypeGraph(types), node, v)
    requires Chain(TypeGraph(types), path + [node]) && GrayOnPath(colors, path + [node]) && AllJustified(types, found)
    ensures var m := Meet(TypeGraph(types), types, all, node, v, colors, path, found);
            AllJustified(types, m.1) && GrayOnPath(m.0, path + [node])
    decreases |all - Touched(colors)|, 1
  {
    hide Visit, TypeGraph, Justified, Chain;
    if ColorOf(colors, v) == Gray {
      GrayClosesLoop(types, path + [node], v);
      EntriesJustified(types, path + [node], v);
    } else if ColorOf(colors, v) == White {
      ChainExtends(TypeGraph(types), path + [node], v);
      VisitJustifies(types, all, v, colors, path + [node], found);
    }
  }

  lemma {:induction false} SearchJustifies(types: Types, all: set<string>, nodes: seq<string>, colors: Colors,
                                           found: seq<Entry>)
    requires Within(TypeGraph(types), all) && (forall n :: n in nodes ==> n in all)
    requires GrayOnPath(colors, []) && AllJustified(types, found)
    ensures AllJustified(types, Search(TypeGraph(types), types, all, nodes, colors, found).1)
  {
    hide TypeGraph, AllJustified, GrayOnPath, Visit;
    if nodes != [] {
      if ColorOf(colors, nodes[0]) == White {
        assert Chain(TypeGraph(types), [] + [nodes[0]]);
        VisitJustifies(types, all, nodes[0], colors, [], found);
        var r := Visit(TypeGraph(types), types, all, nodes[0], colors, [], found);
        SearchJustifies(types, all, nodes[1..], r.0, r.1);
      } else {
        SearchJustifies(types, all, nodes[1..], colors, found);
      }
    }
  }

  // Whatever the definitions are made of, every field reported refers to a recursive type.
  lemma ReportedRefersToRecursive(types: Types, nodes: seq<string>)
    requires forall n :: n in nodes <==> n in types
    ensures AllJustified(types, Reported(types, nodes))
  {
    hide TypeGraph, Search, Justified;
    var white: Colors := map n | n in nodes :: White;
    SearchJustifies(types, Everything(types), nodes, white, []);
  }

  // So definitions that are not recursive have nothing boxed.
  lemma NothingReportedWithoutCycle(types: Types, nodes: seq<string>)
    requires (forall n :: n in nodes <==> n in types) && !Recursive(types)
    ensures Reported(types, nodes) == []
  {
    hide Reported, Justified;
    ReportedRefersToRecursive(types, nodes);
    if Reported(types, nodes) != [] { JustifiedIsRecursive(types, Reported(types, nodes)[0]); }
  }

  lemma JustifiedIsRecursive(types: Types, e: Entry)
    requires Justified(types, e)
    ensures Recursive(types)
  {
    hide TypeGraph, Refs, Chain;
  }

  // ---------------------------------------------------------------- when boxing breaks every cycle

  ghost predicate BoxableAlong(types: Types, w: seq<string>) {
    forall i, j :: 0 <= i && j == i + 1 < |w| ==> Boxable(types, w[i], w[j])
  }

  ghost predicate OutsideAlong(types: Types, w: seq<string>) {
    forall i, j :: 0 <= i && j == i + 1 < |w| ==> Outside(types, w[i], w[j])
  }

  // The reference stays, whatever order the types are searched in: a field outside the components holds it, or a
  // component whose name is never reported, because no component of that name shows a recursive type when it is read
  // without a module.
  ghost predicate Kept(types: Types, u: string, v: string) {
    && u in types
    && var Definition(current, t) := types[u];
       if t.Struct?
       then exists f :: f in t.fields && MentionsField(f, current, v)
                        && (f.Component? ==> !Justified(types, Entry(u, f.name)))
       else Mentions(t, current, v)
  }

  ghost predicate KeptAlong(types: Types, w: seq<string>) {
    forall i, j :: 0 <= i && j == i + 1 < |w| ==> Kept(types, w[i], w[j])
  }

  lemma KeptStays(types: Types, boxed: seq<Entry>, u: string, v: string)
    requires Kept(types, u, v) && AllJustified(types, boxed)
    ensures Linked(types, boxed, u, v)
  {
    hide Justified;
    var Definition(current, t) := types[u];
    RefsMention(Strip(u, t, boxed), current, v);
    if t.Struct? { UnboxedMentions(u, t.fields, boxed, current, v); }
  }

  // Boxing can remove every reference that lies on a cycle.
  ghost predicate CyclesBoxable(types: Types) {
    forall w :: Cycle(types, w) ==> BoxableAlong(types, w)
  }

  // The type at the seam aside, the cycle passes through no type twice.
  ghost predicate Simple(w: seq<string>) {
    forall i, j :: 0 <= i < j < |w| - 1 ==> w[i] != w[j]
  }

  // On a simple cycle boxing can remove either every reference or none.
  ghost predicate Unmixed(types: Types) {
    forall w :: Cycle(types, w) && Simple(w) ==> BoxableAlong(types, w) || KeptAlong(types, w)
  }

  lemma RemainingCycles(types: Types, boxed: seq<Entry>, w: seq<string>)
    ensures Cycle(Remaining(types, boxed), w)
       <==> |w| >= 2 && w[0] == w[|w| - 1]
            && forall i, j :: 0 <= i && j == i + 1 < |w| ==> Linked(types, boxed, w[i], w[j])
    ensures Cycle(Remaining(types, boxed), w) ==> Cycle(types, w)
  {
    hide Strip, Refs;
    var after := TypeGraph(Remaining(types, boxed));
    forall i, j | 0 <= i && j == i + 1 < |w|
      ensures Refers(after, w[i], w[j]) <==> Linked(types, boxed, w[i], w[j])
      ensures Linked(types, boxed, w[i], w[j]) ==> Refers(TypeGraph(types), w[i], w[j])
    {
      if Linked(types, boxed, w[i], w[j]) { FewerLinks(types, boxed, boxed, w[i], w[j]); }
    }
  }

  // Once the reported fields are boxed no definition is recursive.
  lemma BoxingBreaksCycles(types: Types, nodes: seq<string>)
    requires (forall n :: n in nodes <==> n in types) && CyclesBoxable(types)
    ensures !Recursive(Remaining(types, Reported(types, nodes)))
  {
    hide Cycle, Boxable, Reported, Remaining;
    if w :| Cycle(Remaining(types, Reported(types, nodes)), w) {
      RemainingCycles(types, Reported(types, nodes), w);
      RemainingCycleIsStuck(types, nodes, w);
    }
  }

  // A cycle of references outside the components stays, whatever is boxed.
  lemma OutsideCycleStays(types: Types, boxed: seq<Entry>, w: seq<string>)
    requires Cycle(types, w) && OutsideAlong(types, w)
    ensures Cycle(Remaining(types, boxed), w)
  {
    hide Outside, Linked, Remaining;
    forall i, j | 0 <= i && j == i + 1 < |w| ensures Linked(types, boxed, w[i], w[j]) {
      OutsideStays(types, boxed, w[i], w[j]);
    }
    RemainingCycles(types, boxed, w);
  }

  // So does a cycle whose references stand outside the components or in components that are never reported.
  lemma KeptCycleStays(types: Types, nodes: seq<string>, w: seq<string>)
    requires (forall n :: n in nodes <==> n in types) && Cycle(types, w) && KeptAlong(types, w)
    ensures Cycle(Remaining(types, Reported(types, nodes)), w)
  {
    hide Kept, Linked, Remaining, Reported, AllJustified;
    ReportedRefersToRecursive(types, nodes);
    var boxed := Reported(types, nodes);
    forall i, j | 0 <= i && j == i + 1 < |w| ensures Linked(types, boxed, w[i], w[j]) {
      KeptStays(types, boxed, w[i], w[j]);
    }
    RemainingCycles(types, boxed, w);
  }

  // A walk can be cut down to one that passes through no type twice.
  lemma {:induction false} Shortcut(graph: Graph, p: seq<string>) returns (q: seq<string>)
    requires Chain(graph, p) && p != []
    ensures Chain(graph, q) && q != [] && q[0] == p[0] && q[|q| - 1] == p[|p| - 1]
    ensures forall i, j :: 0 <= i < j < |q| ==> q[i] != q[j]
    decreases |p|
  {
    if i, j :| 0 <= i < j < |p| && p[i] == p[j] {
      var shorter := p[..i] + p[j..];
      ChainJoins(graph, p, i, p, j);
      q := Shortcut(graph, shorter);
    } else {
      q := p;
    }
  }

  // The first i types of p, then r from place j on.
  lemma ChainJoins(graph: Graph, p: seq<string>, i: nat, r: seq<string>, j: nat)
    requires Chain(graph, p) && Chain(graph, r) && i < |p| && j < |r| && p[i] == r[j]
    ensures Chain(graph, p[..i] + r[j..])
  {
    var w := p[..i] + r[j..];
    forall k, m | 0 <= k && m == k + 1 < |w| ensures Refers(graph, w[k], w[m]) {
      if m <= i {
        assert Refers(graph, p[k], p[m]);
      } else {
        assert Refers(graph, r[k - i + j], r[m - i + j]);
      }
    }
  }

  // Every reference on a cycle lies on a simple one.
  lemma SimpleCycle(types: Types, w: seq<string>, i: nat) returns (s: seq<string>)
    requires Cycle(types, w) && i + 1 < |w|
    ensures Cycle(types, s) && Simple(s) && s[0] == w[i] && s[1] == w[i + 1]
  {
    hide TypeGraph, Chain;
    var graph := TypeGraph(types);
    ChainEnd(graph, w, i + 1);
    ChainFront(graph, w, i + 1);
    var back, front := w[i + 1..], w[..i + 1];
    ChainJoins(graph, back, |back| - 1, front, 0);
    var p := back[..|back| - 1] + front[0..];
    var q := Shortcut(graph, p);
    ReferenceOf(graph, w, i);
    Prepended(graph, w[i], q);
    s := [w[i]] + q;
  }

  lemma ChainFront(graph: Graph, path: seq<string>, k: nat)
    requires Chain(graph, path) && k <= |path|
    ensures Chain(graph, path[..k])
  {
    var w := path[..k];
    forall i, j | 0 <= i && j == i + 1 < |w| ensures Refers(graph, w[i], w[j]) {
      assert Refers(graph, path[i], path[j]);
    }
  }

  lemma ReferenceOf(graph: Graph, w: seq<string>, i: nat)
    requires Chain(graph, w) && i + 1 < |w|
    ensures Refers(graph, w[i], w[i + 1])
  {
  }

  lemma Prepended(graph: Graph, u: string, q: seq<string>)
    requires Chain(graph, q) && q != [] && Refers(graph, u, q[0])
    ensures Chain(graph, [u] + q)
  {
    var w := [u] + q;
    forall i, j | 0 <= i && j == i + 1 < |w| ensures Refers(graph, w[i], w[j]) {
      if i > 0 { assert Refers(graph, q[i - 1], q[j - 1]); }
    }
  }

  // Where no simple cycle mixes the two kinds, boxing breaks every cycle exactly when it can remove every reference
  // on one.
  lemma BoxingExact(types: Types, nodes: seq<string>)
    requires (forall n :: n in nodes <==> n in types) && Unmixed(types)
    ensures !Recursive(Remaining(types, Reported(types, nodes))) <==> CyclesBoxable(types)
  {
    hide Cycle, Boxable, Kept, Reported, Remaining, Simple;
    if CyclesBoxable(types) {
      BoxingBreaksCycles(types, nodes);
    } else {
      var w :| Cycle(types, w) && !BoxableAlong(types, w);
      var i: nat :| i + 1 < |w| && !Boxable(types, w[i], w[i + 1]);
      CycleIsLong(types, w);
      var s := SimpleCycle(types, w, i);
      CycleIsLong(types, s);
      assert !BoxableAlong(types, s);
      KeptCycleStays(types, nodes, s);
    }
  }

  lemma CycleIsLong(types: Types, w: seq<string>)
    requires Cycle(types, w)
    ensures |w| >= 2
  {
  }

  // A field is reported exactly when some definition is recursive.
  lemma ReportedIffRecursive(types: Types, nodes: seq<string>)
    requires (forall n :: n in nodes <==> n in types) && CyclesBoxable(types)
    ensures Reported(types, nodes) != [] <==> Recursive(types)
  {
    hide Recursive, Reported, CyclesBoxable;
    if Reported(types, nodes) == [] {
      BoxingBreaksCycles(types, nodes);
      NothingBoxed(types);
    }
    if !Recursive(types) { NothingReportedWithoutCycle(types, nodes); }
  }

  lemma NothingBoxed(types: Types)
    ensures Remaining(types, []) == types
  {
    forall u | u in types ensures Strip(u, types[u].kind, []) == types[u].kind {
      if types[u].kind.Struct? { NoFieldBoxed(u, types[u].kind.fields); }
    }
  }

  lemma {:induction false} NoFieldBoxed(parent: string, fields: seq<Field>)
    ensures Unboxed(parent, fields, []) == fields
  {
    if fields != [] { NoFieldBoxed(parent, fields[1..]); }
  }

  // ---------------------------------------------------------------- cycles the search cannot box

  // Read without their module, the components refer to no type that the search meets.
  ghost predicate Unseen(types: Types, all: set<string>) {
    forall u, f, x ::
      u in types && types[u].kind.Struct? && f in types[u].kind.fields && f.Component? && x in Refs(f.kind, "") ==>
        x !in all
  }

  lemma {:induction false} NoneInto(parent: string, fields: seq<Field>, v: string)
    requires forall f :: f in fields && f.Component? ==> v !in Refs(f.kind, "")
    ensures FieldsInto(parent, fields, v) == []
  {
    hide Refs;
    if fields != [] {
      assert fields == [fields[0]] + fields[1..];
      NoneInto(parent, fields[1..], v);
    }
  }

  lemma {:induction false} NoFieldsInto(types: Types, all: set<string>, path: seq<string>, v: string)
    requires Unseen(types, all) && v in all
    ensures CycleFields(types, path, v) == []
  {
    hide Refs;
    if path != [] {
      NoFieldsInto(types, all, path[1..], v);
      var u := path[0];
      if u in types && types[u].kind.Struct? {
        NoneInto(u, types[u].kind.fields, v);
      }
    }
  }

  lemma {:induction false} VisitFindsNothing(types: Types, all: set<string>, node: string, colors: Colors,
                                             path: seq<string>, found: seq<Entry>)
    requires Within(TypeGraph(types), all) && node in all && ColorOf(colors, node) == White && Unseen(types, all)
    ensures Visit(TypeGraph(types), types, all, node, colors, path, found).1 == found
    decreases |all - Touched(colors)|, 0
  {
    hide Visit, VisitAll, TypeGraph, Unseen;
    var graph := TypeGraph(types);
    Touches(colors, node, Gray);
    OneLess(all, Touched(colors), node);
    VisitAllFindsNothing(types, all, node, if node in graph then graph[node] else [], colors[node := Gray], path,
                         found);
    VisitIs(graph, types, all, node, colors, path, found);
  }

  lemma {:induction false} VisitAllFindsNothing(types: Types, all: set<string>, node: string, neighbors: seq<string>,
                                                colors: Colors,
                                                path: seq<string>, found: seq<Entry>)
    requires Within(TypeGraph(types), all) && (forall v :: v in neighbors ==> v in all) && Unseen(types, all)
    ensures VisitAll(TypeGraph(types), types, all, node, neighbors, colors, path, found).1 == found
    decreases |all - Touched(colors)|, |neighbors| + 2
  {
    hide Visit, VisitAll, TypeGraph, Unseen;
    var graph := TypeGraph(types);
    if neighbors == [] {
      NothingToVisit(graph, types, all, node, colors, path, found);
    } else {
      var v, rest := neighbors[0], neighbors[1..];
      assert neighbors == [v] + rest;
      VisitAllIs(graph, types, all, node, v, rest, colors, path, found);
      var m := Meet(graph, types, all, node, v, colors, path, found);
      if ColorOf(colors, v) == Gray {
        NoFieldsInto(types, all, path + [node], v);
      } else if ColorOf(colors, v) == White {
        VisitFindsNothing(types, all, v, colors, path + [node], found);
      }
      Fewer(all, Touched(colors), Touched(m.0));
      VisitAllFindsNothing(types, all, node, rest, m.0, path, m.1);
    }
  }

  lemma {:induction false} SearchFindsNothing(types: Types, all: set<string>, nodes: seq<string>, colors: Colors,
                                              found: seq<Entry>)
    requires Within(TypeGraph(types), all) && (forall n :: n in nodes ==> n in all) && Unseen(types, all)
    ensures Search(TypeGraph(types), types, all, nodes, colors, found).1 == found
  {
    hide TypeGraph, Visit, Unseen;
    if nodes != [] {
      if ColorOf(colors, nodes[0]) == White {
        VisitFindsNothing(types, all, nodes[0], colors, [], found);
        var r := Visit(TypeGraph(types), types, all, nodes[0], colors, [], found);
        SearchFindsNothing(types, all, nodes[1..], r.0, r.1);
      } else {
        SearchFindsNothing(types, all, nodes[1..], colors, found);
      }
    }
  }

  // Cycles through such definitions stay: nothing is reported for them.
  lemma UnseenStaysRecursive(types: Types, nodes: seq<string>)
    requires (forall n :: n in nodes <==> n in types) && Unseen(types, Everything(types))
    ensures Reported(types, nodes) == []
    ensures Recursive(Remaining(types, Reported(types, nodes))) <==> Recursive(types)
  {
    hide Recursive, Search, TypeGraph, Unseen;
    var white: Colors := map n | n in nodes :: White;
    SearchFindsNothing(types, Everything(types), nodes, white, []);
    NothingBoxed(types);
  }

  // A ::= SEQUENCE OF A in module M has no field to box.
  lemma ListOfItselfStays()
    ensures var types: Types := map["M_A" := Definition("M", ListOf(Ref("M", "A")))];
            Reported(types, ["M_A"]) == [] && Recursive(types)
  {
    var types: Types := map["M_A" := Definition("M", ListOf(Ref("M", "A")))];
    UnseenStaysRecursive(types, ["M_A"]);
    RefsMention(ListOf(Ref("M", "A")), "M", "M_A");
    SelfLoop(types, "M_A");
  }

  // A ::= SEQUENCE { next A } is missed too when the reference does not carry its module. The search allows for such
  // references; whether the parser, which is not part of this model, yields any is left open.
  lemma UnqualifiedFieldStays()
    ensures var types: Types := map["M_A" := Definition("M", Struct([Component("Next", Unqualified("A"))]))];
            Reported(types, ["M_A"]) == [] && Recursive(types)
  {
    var t := Struct([Component("Next", Unqualified("A"))]);
    var types: Types := map["M_A" := Definition("M", t)];
    forall x ensures x in Refs(t, "M") <==> x == "M_A" {
      RefsMention(t, "M", x);
      assert FullName("M", "A") == "M_A";
    }
    forall x ensures x in Refs(Unqualified("A"), "") ==> x != "M_A" {
      RefsMention(Unqualified("A"), "", x);
      assert FullName("", "A") == "_A";
    }
    assert Everything(types) == {"M_A"};
    UnseenStaysRecursive(types, ["M_A"]);
    SelfLoop(types, "M_A");
  }

  lemma SelfLoop(types: Types, u: string)
    requires u in types && u in Refs(types[u].kind, types[u].modname)
    ensures Recursive(types)
  {
    hide Refs;
    var w := [u, u];
    assert Cycle(types, w);
  }

  // A ::= SEQUENCE { b B } and B ::= SEQUENCE OF A form a mixed cycle. Searched from A nothing is reported and the
  // cycle stays; searched from B the field b is reported and the cycle is gone.
  lemma MixedDependsOnOrder()
    ensures var a := Struct([Component("B", Ref("M", "B"))]);
            var b := ListOf(Ref("M", "A"));
            var types: Types := map["M_A" := Definition("M", a), "M_B" := Definition("M", b)];
            && Reported(types, ["M_A", "M_B"]) == []
            && Recursive(Remaining(types, Reported(types, ["M_A", "M_B"])))
            && Reported(types, ["M_B", "M_A"]) == [Entry("M_A", "B")]
            && !Recursive(Remaining(types, Reported(types, ["M_B", "M_A"])))
  {
    var toA, toB := Ref("M", "A"), Ref("M", "B");
    var a := Struct([Component("B", toB)]);
    var b := ListOf(toA);
    var types: Types := map["M_A" := Definition("M", a), "M_B" := Definition("M", b)];
    assert FullName("M", "A") == "M_A" && FullName("M", "B") == "M_B";
    assert Gather(toB, "M", []) == ["M_B"] && Gather(toB, "", []) == ["M_B"] && Gather(b, "M", []) == ["M_A"];
    UniqueOne("M_A");
    OneRef(toB, "B", "M", "M_B");
    OneRef(toB, "B", "", "M_B");
    FieldThenList(types, "M_A", "M_B", "B", toB, toA);
  }

  lemma FieldThenList(types: Types, a: string, b: string, field: string, toB: Type, toA: Type)
    requires a != b && types.Keys == {a, b}
    requires types[a].kind == Struct([Component(field, toB)]) && types[b].kind == ListOf(toA)
    requires Refs(types[a].kind, types[a].modname) == [b] == Refs(toB, "")
    requires Refs(types[b].kind, types[b].modname) == [a]
    ensures Reported(types, [a, b]) == [] && Recursive(Remaining(types, []))
    ensures Reported(types, [b, a]) == [Entry(a, field)] && !Recursive(Remaining(types, [Entry(a, field)]))
  {
    hide Refs, Search, CycleFields, Everything, Recursive, Remaining;
    var graph := TypeGraph(types);
    var white: Colors := map[a := White, b := White];
    assert (map n | n in [a, b] :: White) == white && (map n | n in [b, a] :: White) == white;
    SearchesRound(graph, types, Everything(types), a, b, white);
    SearchesRound(graph, types, Everything(types), b, a, white);
    EntriesRound(types, a, b, field, toB);
    UniqueOne(Entry(a, field));
    NothingBoxed(types);
    RoundIsRecursive(types, a, b);
    FieldBoxed(types, a, b, field, toB);
  }

  lemma RoundIsRecursive(types: Types, a: string, b: string)
    requires Refers(TypeGraph(types), a, b) && Refers(TypeGraph(types), b, a)
    ensures Recursive(types)
  {
    hide TypeGraph;
    assert Cycle(types, [a, b, a]);
  }

  // a and b refer to each other.
  lemma SearchesRound(graph: Graph, types: Types, all: set<string>, a: string, b: string, white: Colors)
    requires Within(graph, all) && a in all && b in all && a != b
    requires a in graph && graph[a] == [b] && b in graph && graph[b] == [a]
    requires white == map[a := White, b := White]
    ensures Search(graph, types, all, [a, b], white, []).1 == CycleFields(types, [a, b], a)
  {
    hide CycleFields, Visit, VisitAll;
    var entries := CycleFields(types, [a, b], a);
    var first, grays := white[a := Gray], white[a := Gray][b := Gray];
    assert [b] + [] == [b] && [a] + [] == [a] && [] + [a] == [a] && [a] + [b] == [a, b] && entries + [] == entries;
    VisitAllIs(graph, types, all, b, a, [], grays, [a], []);
    NothingToVisit(graph, types, all, b, grays, [a], entries);
    assert VisitAll(graph, types, all, b, [a], grays, [a], []) == (grays, entries);
    VisitIs(graph, types, all, b, first, [a], []);
    assert Visit(graph, types, all, b, first, [a], []) == (grays[b := Black], entries);
    VisitAllIs(graph, types, all, a, b, [], first, [], []);
    NothingToVisit(graph, types, all, a, grays[b := Black], [], entries);
    assert VisitAll(graph, types, all, a, [b], first, [], []) == (grays[b := Black], entries);
    VisitIs(graph, types, all, a, white, [], []);
    var done := grays[b := Black][a := Black];
    assert Visit(graph, types, all, a, white, [], []) == (done, entries);
    assert [a, b][1..] == [b] && [b][1..] == [];
    assert Search(graph, types, all, [b], done, entries) == (done, entries);
  }

  lemma EntriesRound(types: Types, a: string, b: string, field: string, toB: Type)
    requires a in types && types[a].kind == Struct([Component(field, toB)])
    requires b in types && !types[b].kind.Struct? && Refs(toB, "") == [b] && a != b
    ensures CycleFields(types, [a, b], a) == [] && CycleFields(types, [b, a], b) == [Entry(a, field)]
  {
    hide Refs;
    assert [a, b][1..] == [b] && [b][1..] == [] && [b, a][1..] == [a] && [a][1..] == [];
    assert FieldsInto(a, [Component(field, toB)], a) == [];
    assert FieldsInto(a, [Component(field, toB)], b) == [Entry(a, field)];
    assert CycleFields(types, [b], a) == [] && CycleFields(types, [a], b) == [Entry(a, field)];
  }

  lemma FieldBoxed(types: Types, a: string, b: string, field: string, toB: Type)
    requires a != b && types.Keys == {a, b}
    requires types[a].kind == Struct([Component(field, toB)])
    requires Refs(types[b].kind, types[b].modname) == [a] && !types[b].kind.Struct?
    ensures !Recursive(Remaining(types, [Entry(a, field)]))
  {
    hide Refs;
    var boxed := [Entry(a, field)];
    var rest := Remaining(types, boxed);
    assert [Component(field, toB)][1..] == [];
    assert Unboxed(a, types[a].kind.fields, boxed) == [];
    forall v ensures !Refers(TypeGraph(rest), a, v) {
      RefsMention(Struct([]), types[a].modname, v);
    }
    forall w | Cycle(rest, w) ensures false {
      ReferenceOf(TypeGraph(rest), w, 0);
      if |w| > 2 { ReferenceOf(TypeGraph(rest), w, 1); }
    }
  }

  // Boxing can be more than cycles need: with V ::= SEQUENCE { next V }, a field of a type that is not recursive
  // itself is reported when its type is searched first.
  lemma BoxedWithoutNeed()
    ensures var v := Struct([Component("Next", Ref("M", "V"))]);
            var r := Struct([Component("First", Ref("M", "V"))]);
            var types: Types := map["M_R" := Definition("M", r), "M_V" := Definition("M", v)];
            Reported(types, ["M_R", "M_V"]) == [Entry("M_R", "First"), Entry("M_V", "Next")] && !OnCycle(types, "M_R")
  {
    var t := Ref("M", "V");
    var v := Struct([Component("Next", t)]);
    var r := Struct([Component("First", t)]);
    var types: Types := map["M_R" := Definition("M", r), "M_V" := Definition("M", v)];
    assert FullName("M", "V") == "M_V";
    assert Gather(t, "M", []) == ["M_V"] && Gather(t, "", []) == ["M_V"];
    hide Refs, Gather, Search, CycleFields, Everything;
    OneRef(t, "Next", "M", "M_V");
    OneRef(t, "First", "M", "M_V");
    OneRef(t, "Next", "", "M_V");
    ReportsBoth(types, "M_R", "M_V", "First", "Next", t);
    NotReferredTo(types, "M_R");
  }

  lemma ReportsBoth(types: Types, a: string, b: string, first: string, next: string, t: Type)
    requires a != b && types.Keys == {a, b}
    requires types[a].kind == Struct([Component(first, t)]) && types[b].kind == Struct([Component(next, t)])
    requires Refs(types[a].kind, types[a].modname) == [b] == Refs(types[b].kind, types[b].modname) && Refs(t, "") == [b]
    ensures Reported(types, [a, b]) == [Entry(a, first), Entry(b, next)]
  {
    hide Refs, Search, CycleFields, Everything;
    var nodes := [a, b];
    var white: Colors := map n | n in nodes :: White;
    assert white == map[a := White, b := White];
    SearchesTwo(TypeGraph(types), types, Everything(types), a, b, white);
    EntriesOfTwo(types, a, b, first, next, t);
    UniqueTwo(Entry(a, first), Entry(b, next));
  }

  lemma UniqueOne<T(!new)>(x: T)
    ensures Unique([x]) == [x]
  {
    assert [x][..0] == [] && Unique<T>([]) == [];
  }

  lemma UniqueTwo<T(!new)>(x: T, y: T)
    requires x != y
    ensures Unique([x, y]) == [x, y]
  {
    UniqueOne(x);
    assert [x, y][..1] == [x];
  }

  lemma OneRef(t: Type, field: string, current: string, x: string)
    requires Gather(t, current, []) == [x]
    ensures Refs(Struct([Component(field, t)]), current) == [x] && Refs(t, current) == [x]
  {
    var fields := [Component(field, t)];
    assert fields[1..] == [] && [x][..0] == [];
    assert GatherField(fields[0], current, []) == [x];
    assert GatherFields(fields, current, []) == GatherFields([], current, [x]);
    assert Gather(Struct(fields), current, []) == [x];
    UniqueOne(x);
  }

  lemma NotReferredTo(types: Types, a: string)
    requires forall u :: u in types ==> a !in TypeGraph(types)[u]
    ensures !OnCycle(types, a)
  {
    hide TypeGraph;
    forall w | Chain(TypeGraph(types), w) && |w| >= 2 ensures w[|w| - 1] != a {
      assert Refers(TypeGraph(types), w[|w| - 2], w[|w| - 1]);
      KeysOfGraph(types);
    }
  }

  lemma KeysOfGraph(types: Types)
    ensures TypeGraph(types).Keys == types.Keys
  {
  }

  // a refers to b and b to itself.
  lemma SearchesTwo(graph: Graph, types: Types, all: set<string>, a: string, b: string, white: Colors)
    requires Within(graph, all) && a in all && b in all && a != b
    requires a in graph && graph[a] == [b] && b in graph && graph[b] == [b]
    requires white == map[a := White, b := White]
    ensures Search(graph, types, all, [a, b], white, []).1 == CycleFields(types, [a, b], b)
  {
    hide CycleFields, Visit, VisitAll;
    var entries := CycleFields(types, [a, b], b);
    var first, grays := white[a := Gray], white[a := Gray][b := Gray];
    assert [b] + [] == [b] && [] + [a] == [a] && [a] + [b] == [a, b] && entries + [] == entries;
    VisitAllIs(graph, types, all, b, b, [], grays, [a], []);
    NothingToVisit(graph, types, all, b, grays, [a], entries);
    assert VisitAll(graph, types, all, b, [b], grays, [a], []) == (grays, entries);
    VisitIs(graph, types, all, b, first, [a], []);
    assert Visit(graph, types, all, b, first, [a], []) == (grays[b := Black], entries);
    VisitAllIs(graph, types, all, a, b, [], first, [], []);
    NothingToVisit(graph, types, all, a, grays[b := Black], [], entries);
    assert VisitAll(graph, types, all, a, [b], first, [], []) == (grays[b := Black], entries);
    VisitIs(graph, types, all, a, white, [], []);
    var done := grays[b := Black][a := Black];
    assert Visit(graph, types, all, a, white, [], []) == (done, entries);
    assert [a, b][1..] == [b] && [b][1..] == [];
    assert Search(graph, types, all, [b], done, entries) == (done, entries);
  }

  lemma EntriesOfTwo(types: Types, a: string, b: string, first: string, next: string, t: Type)
    requires a in types && types[a].kind == Struct([Component(first, t)])
    requires b in types && types[b].kind == Struct([Component(next, t)])
    requires Refs(t, "") == [b]
    ensures CycleFields(types, [a, b], b) == [Entry(a, first), Entry(b, next)]
  {
    hide Refs;
    assert [a, b][1..] == [b] && [b][1..] == [];
    assert FieldsInto(a, [Component(first, t)], b) == [Entry(a, first)];
    assert FieldsInto(b, [Component(next, t)], b) == [Entry(b, next)];
    assert CycleFields(types, [b], b) == [Entry(b, next)];
  }
}
