// The import order of x-series.ex: Kahn's algorithm over the graph "file imports file".
module Kahn {

  type Name = string
  type Graph = map<Name, seq<Name>>

  // What the two folds over the parsed files build: every file is a key, and imports are files.
  ghost predicate Closed(graph: Graph, nodes: set<Name>) {
    graph.Keys == nodes && forall u, v :: u in graph && v in graph[u] ==> v in nodes
  }

  ghost predicate Distinct(s: seq<Name>) {
    forall i, j :: 0 <= i < j < |s| ==> s[i] != s[j]
  }

  // order lists the elements of nodes, each once: how Elixir happens to enumerate a map or a set.
  ghost predicate Lists(order: seq<Name>, nodes: set<Name>) {
    Distinct(order) && forall x :: x in order <==> x in nodes
  }

  function Count(s: seq<Name>, x: Name): nat {
    if s == [] then 0 else (if s[0] == x then 1 else 0) + Count(s[1..], x)
  }

  // The number of imports of x in the files of order that are in live.
  function Importers(graph: Graph, order: seq<Name>, live: set<Name>, x: Name): nat
    requires forall u :: u in order ==> u in graph
  {
    if order == [] then 0
    else (if order[0] in live then Count(graph[order[0]], x) else 0) + Importers(graph, order[1..], live, x)
  }

  // ---------------------------------------------------------------- the algorithm

  function Bump(deps: seq<Name>, degree: map<Name, int>): map<Name, int> {
    if deps == [] then degree
    else
      var d := deps[0];
      Bump(deps[1..], degree[d := if d in degree then degree[d] + 1 else 1])
  }

  function Tally(graph: Graph, order: seq<Name>, degree: map<Name, int>): map<Name, int>
    requires forall u :: u in order ==> u in graph
  {
    if order == [] then degree else Tally(graph, order[1..], Bump(graph[order[0]], degree))
  }

  // One pass over the imports of an emitted file: lower their degrees, collect those that reach zero in front.
  function Lower(deps: seq<Name>, degree: map<Name, int>, ready: seq<Name>): (map<Name, int>, seq<Name>) {
    if deps == [] then (degree, ready)
    else
      var d := deps[0];
      var lowered := (if d in degree then degree[d] else 1) - 1;
      Lower(deps[1..], degree[d := lowered], if lowered == 0 then [d] + ready else ready)
  }

  datatype State = State(degree: map<Name, int>, queue: seq<Name>, result: seq<Name>, remaining: set<Name>)

  function Emit(graph: Graph, s: State): State
    requires s.queue != []
  {
    var node := s.queue[0];
    var (degree, ready) := Lower(if node in graph then graph[node] else [], s.degree, []);
    State(degree, s.queue[1..] + ready, s.result + [node], s.remaining - {node})
  }

  // What every step keeps.
  ghost predicate Invariant(graph: Graph, order: seq<Name>, s: State)
    requires forall u :: u in order <==> u in graph
  {
    && s.degree.Keys == graph.Keys
    && (forall x :: x in graph ==> s.degree[x] == Importers(graph, order, s.remaining, x))
    && Distinct(s.queue)
    && (forall x :: x in s.queue <==> x in s.remaining && Importers(graph, order, s.remaining, x) == 0)
    && Distinct(s.result) && s.remaining <= graph.Keys
    && (forall x :: x in s.result <==> x in graph && x !in s.remaining)
    && ImportersFirst(graph, s.result)
  }

  // Every file that imports an emitted one was emitted before it.
  ghost predicate ImportersFirst(graph: Graph, result: seq<Name>) {
    forall j, u :: 0 <= j < |result| && u in graph && result[j] in graph[u] ==> u in result[..j]
  }

  function Run(graph: Graph, s: State, ghost order: seq<Name>): (end: State)
    requires Lists(order, graph.Keys) && Closed(graph, graph.Keys) && Invariant(graph, order, s)
    ensures Invariant(graph, order, end) && end.queue == []
    decreases |s.remaining|
  {
    if s.queue == [] then s
    else
      EmitKeeps(graph, order, s);
      assert s.queue[0] in s.queue;
      assert s.queue[0] in s.remaining;
      Run(graph, Emit(graph, s), order)
  }

  // ---------------------------------------------------------------- counting

  lemma {:induction false} CountPositive(s: seq<Name>, x: Name)
    ensures Count(s, x) > 0 <==> x in s
  {
    if s != [] {
      CountPositive(s[1..], x);
      assert s == [s[0]] + s[1..];
    }
  }

  lemma {:induction false} ImportersExist(graph: Graph, order: seq<Name>, live: set<Name>, x: Name)
    requires forall u :: u in order ==> u in graph
    ensures Importers(graph, order, live, x) > 0 <==> exists u :: u in order && u in live && x in graph[u]
  {
    if order != [] {
      ImportersExist(graph, order[1..], live, x);
      CountPositive(graph[order[0]], x);
      assert order == [order[0]] + order[1..];
    }
  }

  lemma {:induction false} ImportersDrop(graph: Graph, order: seq<Name>, live: set<Name>, node: Name, x: Name)
    requires Distinct(order) && (forall u :: u in order ==> u in graph) && node in live
    ensures Importers(graph, order, live, x)
         == Importers(graph, order, live - {node}, x) + if node in order then Count(graph[node], x) else 0
  {
    if order != [] {
      ImportersDrop(graph, order[1..], live, node, x);
      assert order == [order[0]] + order[1..];
      assert order[0] !in order[1..];
    }
  }

  lemma {:induction false} LowerCounts(deps: seq<Name>, degree: map<Name, int>, ready: seq<Name>, x: Name)
    requires x in degree && (forall d :: d in deps ==> d in degree)
    ensures var (lowered, _) := Lower(deps, degree, ready);
            lowered.Keys == degree.Keys && lowered[x] == degree[x] - Count(deps, x)
  {
    if deps != [] {
      var d := deps[0];
      LowerCounts(deps[1..], degree[d := degree[d] - 1], if degree[d] - 1 == 0 then [d] + ready else ready, x);
    }
  }

  // As long as no degree falls below zero, the files made ready are those whose degree the pass brings to zero.
  lemma {:induction false} LowerReadies(deps: seq<Name>, degree: map<Name, int>, ready: seq<Name>)
    requires forall d :: d in deps ==> d in degree
    requires forall d :: d in degree ==> Count(deps, d) <= degree[d]
    requires Distinct(ready) && forall d :: d in ready ==> d in degree && degree[d] == 0
    ensures var (_, now) := Lower(deps, degree, ready);
            Distinct(now) && forall x :: x in now <==> x in ready || (x in deps && degree[x] == Count(deps, x))
  {
    if deps != [] {
      var d := deps[0];
      var rest := deps[1..];
      var next := degree[d := degree[d] - 1];
      var more := if degree[d] - 1 == 0 then [d] + ready else ready;
      CountPositive(deps, d);
      assert deps == [d] + rest;
      assert d !in ready;
      forall x | x in next ensures Count(rest, x) <= next[x] {
        assert Count(deps, x) == (if d == x then 1 else 0) + Count(rest, x);
      }
      assert Distinct(more);
      LowerReadies(rest, next, more);
      var (_, now) := Lower(deps, degree, ready);
      forall x ensures x in now <==> x in ready || (x in deps && degree[x] == Count(deps, x)) {
        CountPositive(rest, x);
      }
    }
  }

  // ---------------------------------------------------------------- one step

  lemma EmitKeeps(graph: Graph, order: seq<Name>, s: State)
    requires Lists(order, graph.Keys) && Closed(graph, graph.Keys) && Invariant(graph, order, s) && s.queue != []
    ensures s.queue[0] in s.remaining
    ensures Invariant(graph, order, Emit(graph, s))
  {
    hide Importers, Lower, ImportersFirst, Closed, Lists;
    var node := s.queue[0];
    assert node in s.queue;
    EmitCounts(graph, order, s, node);
    EmitQueues(graph, order, s, node);
    EmitOrders(graph, order, s, node);
  }

  lemma Joins(a: seq<Name>, b: seq<Name>)
    requires Distinct(a) && Distinct(b) && forall x :: x in a ==> x !in b
    ensures Distinct(a + b)
  {
    forall i, j | 0 <= i < j < |a + b| ensures (a + b)[i] != (a + b)[j] {
      if i < |a| <= j { assert a[i] in a && b[j - |a|] in b; }
    }
  }

  // The next queue holds the files left over without an importer left over.
  lemma EmitQueues(graph: Graph, order: seq<Name>, s: State, node: Name)
    requires Lists(order, graph.Keys) && Closed(graph, graph.Keys) && Invariant(graph, order, s)
    requires s.queue != [] && node == s.queue[0] && node in s.remaining
    ensures var (_, ready) := Lower(graph[node], s.degree, []);
            var left := s.remaining - {node};
            && Distinct(s.queue[1..] + ready)
            && forall x :: x in s.queue[1..] + ready <==> x in left && Importers(graph, order, left, x) == 0
  {
    hide Importers, Lower, ImportersFirst;
    var deps := graph[node];
    var left := s.remaining - {node};
    var (_, ready) := Lower(deps, s.degree, []);
    EmitCounts(graph, order, s, node);
    LowerReadies(deps, s.degree, []);
    assert s.queue == [node] + s.queue[1..];
    forall x | x in ready ensures x in left && Importers(graph, order, left, x) == 0 && x !in s.queue {
      ReadyIsLeft(graph, order, s, node, x);
    }
    Joins(s.queue[1..], ready);
    forall x ensures x in s.queue[1..] + ready <==> x in left && Importers(graph, order, left, x) == 0 {
      CountPositive(deps, x);
    }
  }

  lemma EmitCounts(graph: Graph, order: seq<Name>, s: State, node: Name)
    requires Lists(order, graph.Keys) && Closed(graph, graph.Keys) && Invariant(graph, order, s) && node in s.remaining
    ensures forall x :: x in graph ==>
      s.degree[x] == Importers(graph, order, s.remaining - {node}, x) + Count(graph[node], x)
    ensures var (degree, _) := Lower(graph[node], s.degree, []);
            && degree.Keys == graph.Keys
            && forall x :: x in graph ==> degree[x] == Importers(graph, order, s.remaining - {node}, x)
  {
    var (degree, _) := Lower(graph[node], s.degree, []);
    forall x | x in graph
      ensures s.degree[x] == Importers(graph, order, s.remaining - {node}, x) + Count(graph[node], x)
      ensures degree.Keys == graph.Keys && degree[x] == s.degree[x] - Count(graph[node], x)
    {
      ImportersDrop(graph, order, s.remaining, node, x);
      LowerCounts(graph[node], s.degree, [], x);
    }
  }

  lemma ReadyIsLeft(graph: Graph, order: seq<Name>, s: State, node: Name, x: Name)
    requires Lists(order, graph.Keys) && Closed(graph, graph.Keys) && Invariant(graph, order, s)
    requires node in s.remaining && Importers(graph, order, s.remaining, node) == 0
    requires x in graph[node] && s.degree[x] == Count(graph[node], x)
    ensures x in s.remaining - {node} && x !in s.queue
  {
    CountPositive(graph[node], x);
    if x in s.result { EmittedImporter(graph, s.result, x, node); }
  }

  lemma EmittedImporter(graph: Graph, result: seq<Name>, x: Name, u: Name)
    requires ImportersFirst(graph, result) && x in result && u in graph && x in graph[u]
    ensures u in result
  {
    var j :| 0 <= j < |result| && result[j] == x;
    assert u in result[..j];
  }

  lemma EmitOrders(graph: Graph, order: seq<Name>, s: State, node: Name)
    requires Lists(order, graph.Keys) && Closed(graph, graph.Keys) && Invariant(graph, order, s)
    requires node in s.remaining && Importers(graph, order, s.remaining, node) == 0
    ensures ImportersFirst(graph, s.result + [node]) && Distinct(s.result + [node])
  {
    var result := s.result + [node];
    ImportersExist(graph, order, s.remaining, node);
    forall j, u | 0 <= j < |result| && u in graph && result[j] in graph[u] ensures u in result[..j] {
      if j == |s.result| {
        assert result[..j] == s.result;
      } else {
        assert result[..j] == s.result[..j];
      }
    }
  }

  // ---------------------------------------------------------------- the start

  lemma {:induction false} BumpCounts(deps: seq<Name>, degree: map<Name, int>, x: Name)
    requires x in degree && (forall d :: d in deps ==> d in degree)
    ensures x in Bump(deps, degree) && Bump(deps, degree)[x] == degree[x] + Count(deps, x)
  {
    if deps != [] {
      BumpCounts(deps[1..], degree[deps[0] := degree[deps[0]] + 1], x);
    }
  }

  lemma {:induction false} TallyCounts(graph: Graph, order: seq<Name>, degree: map<Name, int>, live: set<Name>, x: Name)
    requires Closed(graph, graph.Keys) && degree.Keys == graph.Keys && x in graph
    requires forall u :: u in order ==> u in graph && u in live
    ensures x in Tally(graph, order, degree)
    ensures Tally(graph, order, degree)[x] == degree[x] + Importers(graph, order, live, x)
  {
    if order != [] {
      var bumped := Bump(graph[order[0]], degree);
      BumpKeys(graph[order[0]], degree);
      BumpCounts(graph[order[0]], degree, x);
      TallyCounts(graph, order[1..], bumped, live, x);
    }
  }

  lemma {:induction false} TallyKeys(graph: Graph, order: seq<Name>, degree: map<Name, int>)
    requires Closed(graph, graph.Keys) && degree.Keys == graph.Keys && forall u :: u in order ==> u in graph
    ensures Tally(graph, order, degree).Keys == graph.Keys
  {
    if order != [] {
      BumpKeys(graph[order[0]], degree);
      TallyKeys(graph, order[1..], Bump(graph[order[0]], degree));
    }
  }

  lemma {:induction false} BumpKeys(deps: seq<Name>, degree: map<Name, int>)
    requires forall d :: d in deps ==> d in degree
    ensures Bump(deps, degree).Keys == degree.Keys
  {
    if deps != [] {
      var next := degree[deps[0] := degree[deps[0]] + 1];
      assert next.Keys == degree.Keys;
      BumpKeys(deps[1..], next);
    }
  }

  function Keep(s: seq<Name>, kept: set<Name>): (r: seq<Name>)
    ensures forall x :: x in r <==> x in s && x in kept
    ensures Distinct(s) ==> Distinct(r)
  {
    if s == [] then []
    else
      assert s == [s[0]] + s[1..];
      var rest := Keep(s[1..], kept);
      if s[0] in kept then [s[0]] + rest else rest
  }

  function Start(graph: Graph, files: seq<Name>, order: seq<Name>): State
    requires forall u :: u in order ==> u in graph
  {
    var degree := Tally(graph, order, map f | f in files :: 0);
    State(degree, Keep(files, set f | f in degree && degree[f] == 0), [], set f | f in files)
  }

  lemma StartHolds(graph: Graph, files: seq<Name>, order: seq<Name>)
    requires Lists(files, graph.Keys) && Lists(order, graph.Keys) && Closed(graph, graph.Keys)
    ensures Invariant(graph, order, Start(graph, files, order))
    ensures Start(graph, files, order).remaining == graph.Keys
  {
    var zero: map<Name, int> := map f | f in files :: 0;
    assert zero.Keys == graph.Keys;
    TallyKeys(graph, order, zero);
    forall x | x in graph ensures Tally(graph, order, zero)[x] == Importers(graph, order, graph.Keys, x) {
      TallyCounts(graph, order, zero, graph.Keys, x);
    }
  }

  // ---------------------------------------------------------------- the sort

  function End(graph: Graph, files: seq<Name>, order: seq<Name>): (end: State)
    requires Lists(files, graph.Keys) && Lists(order, graph.Keys) && Closed(graph, graph.Keys)
    ensures Invariant(graph, order, end) && end.queue == []
  {
    StartHolds(graph, files, order);
    Run(graph, Start(graph, files, order), order)
  }

  // kahn_sort: the emitted files, then the files never reached, as the set lists them.
  function Sorted(graph: Graph, files: seq<Name>, order: seq<Name>, setOrder: seq<Name>): seq<Name>
    requires Lists(files, graph.Keys) && Lists(order, graph.Keys) && Lists(setOrder, graph.Keys)
    requires Closed(graph, graph.Keys)
  {
    var end := End(graph, files, order);
    end.result + Keep(setOrder, end.remaining)
  }

  // First in, first out: whatever waits at some moment is emitted next, in the order in which it waits.
  lemma {:induction false} QueueIsFirstInFirstOut(graph: Graph, order: seq<Name>, s: State)
    requires Lists(order, graph.Keys) && Closed(graph, graph.Keys) && Invariant(graph, order, s)
    ensures s.result + s.queue <= Run(graph, s, order).result
    decreases |s.remaining|
  {
    hide Invariant, Closed, Lists;
    if s.queue != [] {
      EmitKeeps(graph, order, s);
      EmitShrinks(graph, order, s);
      var next := Emit(graph, s);
      QueueIsFirstInFirstOut(graph, order, next);
      assert s.result + s.queue == next.result + s.queue[1..] <= next.result + next.queue;
    }
  }

  lemma EmitShrinks(graph: Graph, order: seq<Name>, s: State)
    requires Lists(order, graph.Keys) && Closed(graph, graph.Keys) && Invariant(graph, order, s) && s.queue != []
    ensures |Emit(graph, s).remaining| < |s.remaining|
  {
    hide Closed, Lists, Importers, ImportersFirst, Lower;
    assert s.queue[0] in s.queue;
  }

  function Reversed(s: seq<Name>): seq<Name> {
    if s == [] then [] else Reversed(s[1..]) + [s[0]]
  }

  // Files that become free together join the queue in the opposite order of the import list.
  lemma {:induction false} FreedInReverse(deps: seq<Name>, degree: map<Name, int>, ready: seq<Name>)
    requires Distinct(deps) && forall d :: d in deps ==> d in degree && degree[d] == 1
    ensures Lower(deps, degree, ready).1 == Reversed(deps) + ready
  {
    if deps != [] {
      var d := deps[0];
      assert d !in deps[1..];
      assert forall e :: e in deps[1..] ==> e in deps;
      FreedInReverse(deps[1..], degree[d := 0], [d] + ready);
      assert Reversed(deps[1..]) + ([d] + ready) == Reversed(deps) + ready;
    }
  }

  // Files that are free from the start stand in the queue in the order of the files, and files that are left over
  // come last, in the order of the set.
  lemma EmittedThenLeft(graph: Graph, files: seq<Name>, order: seq<Name>, setOrder: seq<Name>)
    requires Lists(files, graph.Keys) && Lists(order, graph.Keys) && Lists(setOrder, graph.Keys)
    requires Closed(graph, graph.Keys)
    ensures var sorted, emitted := Sorted(graph, files, order, setOrder), End(graph, files, order).result;
            && Start(graph, files, order).queue <= emitted <= sorted
            && Follows(sorted[|emitted|..], setOrder)
    ensures Follows(Start(graph, files, order).queue, files)
  {
    hide Run, Invariant, Closed, Tally;
    StartHolds(graph, files, order);
    var start, end := Start(graph, files, order), End(graph, files, order);
    QueueIsFirstInFirstOut(graph, order, start);
    assert [] + start.queue == start.queue;
    KeepFollows(files, set f | f in start.degree && start.degree[f] == 0);
    KeepFollows(setOrder, end.remaining);
    assert Sorted(graph, files, order, setOrder)[|end.result|..] == Keep(setOrder, end.remaining);
  }

  // s lists some of the places of t, in their order.
  ghost predicate Follows(s: seq<Name>, t: seq<Name>) {
    s == [] || exists i :: 0 <= i < |t| && t[i] == s[0] && Follows(s[1..], t[i + 1..])
  }

  lemma {:induction false} KeepFollows(s: seq<Name>, kept: set<Name>)
    ensures Follows(Keep(s, kept), s)
  {
    if s != [] {
      KeepFollows(s[1..], kept);
      if s[0] in kept {
        assert Keep(s, kept)[1..] == Keep(s[1..], kept);
      } else if Keep(s, kept) != [] {
        Earlier(Keep(s, kept), s);
      }
    }
  }

  lemma Earlier(r: seq<Name>, s: seq<Name>)
    requires s != [] && Follows(r, s[1..])
    ensures Follows(r, s)
  {
    if r != [] {
      var i :| 0 <= i < |s[1..]| && s[1..][i] == r[0] && Follows(r[1..], s[1..][i + 1..]);
      assert s[i + 1] == r[0] && s[1..][i + 1..] == s[i + 1 + 1..];
    }
  }

  // Nothing is lost and nothing is repeated.
  lemma SortedIsPermutation(graph: Graph, files: seq<Name>, order: seq<Name>, setOrder: seq<Name>)
    requires Lists(files, graph.Keys) && Lists(order, graph.Keys) && Lists(setOrder, graph.Keys)
    requires Closed(graph, graph.Keys)
    ensures Lists(Sorted(graph, files, order, setOrder), graph.Keys)
    ensures multiset(Sorted(graph, files, order, setOrder)) == multiset(files)
  {
    hide Importers, ImportersFirst, Closed, Keep;
    var sorted := Sorted(graph, files, order, setOrder);
    var end := End(graph, files, order);
    Joins(end.result, Keep(setOrder, end.remaining));
    SameElements(sorted, files);
  }

  lemma {:induction false} DistinctCounts(s: seq<Name>, x: Name)
    requires Distinct(s)
    ensures multiset(s)[x] == if x in s then 1 else 0
  {
    if s != [] {
      assert s == [s[0]] + s[1..];
      DistinctCounts(s[1..], x);
    }
  }

  lemma SameElements(s: seq<Name>, t: seq<Name>)
    requires Distinct(s) && Distinct(t) && forall x :: x in s <==> x in t
    ensures multiset(s) == multiset(t)
  {
    forall x ensures multiset(s)[x] == multiset(t)[x] {
      DistinctCounts(s, x);
      DistinctCounts(t, x);
    }
  }

  // ---------------------------------------------------------------- cycles

  // Each file on a walk imports the next.
  ghost predicate Walk(graph: Graph, w: seq<Name>) {
    && w != []
    && (forall i :: 0 <= i < |w| ==> w[i] in graph)
    && (forall i, j :: 0 <= i && j == i + 1 < |w| ==> w[j] in graph[w[i]])
  }

  ghost predicate Cyclic(graph: Graph) {
    exists w :: Walk(graph, w) && |w| >= 2 && w[0] == w[|w| - 1]
  }

  // The file lies downstream of a cycle: some walk to it passes through a file twice.
  ghost predicate BehindCycle(graph: Graph, x: Name) {
    exists w :: Walk(graph, w) && w[|w| - 1] == x && !Distinct(w)
  }

  lemma {:induction false} WalkBack(graph: Graph, order: seq<Name>, s: State, x: Name, n: nat) returns (w: seq<Name>)
    requires Lists(order, graph.Keys) && Invariant(graph, order, s) && s.queue == [] && x in s.remaining
    ensures Walk(graph, w) && |w| == n + 1 && w[n] == x && forall i :: 0 <= i < |w| ==> w[i] in s.remaining
    decreases n
  {
    hide Importers, ImportersFirst;
    if n == 0 {
      w := [x];
    } else {
      ImportersExist(graph, order, s.remaining, x);
      var u :| u in order && u in s.remaining && x in graph[u];
      var v := WalkBack(graph, order, s, u, n - 1);
      w := v + [x];
    }
  }

  lemma {:induction false} Pigeonhole(w: seq<Name>, nodes: set<Name>)
    requires Distinct(w) && forall i :: 0 <= i < |w| ==> w[i] in nodes
    ensures |w| <= |nodes|
  {
    if w != [] {
      var last := w[|w| - 1];
      Pigeonhole(w[..|w| - 1], nodes - {last});
    }
  }

  // Where an emitted file stands, everything upstream of it stands earlier.
  lemma {:induction false} Upstream(graph: Graph, result: seq<Name>, w: seq<Name>, i: nat, j: nat, m: nat)
    requires ImportersFirst(graph, result) && Walk(graph, w) && i < j < |w| && m < |result| && result[m] == w[j]
    ensures w[i] in result[..m]
    decreases j - i
  {
    assert w[j] in graph[w[j - 1]];
    assert w[j - 1] in result[..m];
    if i < j - 1 {
      var k :| 0 <= k < m && result[k] == w[j - 1];
      Upstream(graph, result, w, i, j - 1, k);
      assert result[..k] <= result[..m];
    }
  }

  lemma {:induction false} Downstream(graph: Graph, order: seq<Name>, s: State, w: seq<Name>, i: nat, j: nat)
    requires Lists(order, graph.Keys) && Invariant(graph, order, s)
    requires Walk(graph, w) && i <= j < |w| && w[i] in s.remaining
    ensures w[j] in s.remaining
    decreases j - i
  {
    hide Importers;
    if i < j {
      assert w[i + 1] in graph[w[i]];
      if w[i + 1] in s.result { EmittedImporter(graph, s.result, w[i + 1], w[i]); }
      Downstream(graph, order, s, w, i + 1, j);
    }
  }

  lemma CycleIsLeft(graph: Graph, order: seq<Name>, s: State, w: seq<Name>, i: nat, j: nat)
    requires Lists(order, graph.Keys) && Invariant(graph, order, s) && Walk(graph, w) && i < j < |w| && w[i] == w[j]
    ensures w[j] in s.remaining
  {
    hide Importers, ImportersFirst;
    if w[j] in s.result {
      var m :| 0 <= m < |s.result| && s.result[m] == w[j];
      Upstream(graph, s.result, w, i, j, m);
    }
  }

  // The warning's list holds exactly the files behind a cycle of imports.
  lemma LeftoverIsBehindCycle(graph: Graph, files: seq<Name>, order: seq<Name>, x: Name)
    requires Lists(files, graph.Keys) && Lists(order, graph.Keys) && Closed(graph, graph.Keys)
    ensures x in End(graph, files, order).remaining <==> BehindCycle(graph, x)
  {
    hide Importers, ImportersFirst, Closed, End, Lists;
    var s := End(graph, files, order);
    if x in s.remaining {
      var w := WalkBack(graph, order, s, x, |s.remaining|);
      if Distinct(w) { Pigeonhole(w, s.remaining); }
      assert BehindCycle(graph, x);
    }
    if BehindCycle(graph, x) {
      var w :| Walk(graph, w) && w[|w| - 1] == x && !Distinct(w);
      var i, j :| 0 <= i < j < |w| && w[i] == w[j];
      CycleIsLeft(graph, order, s, w, i, j);
      Downstream(graph, order, s, w, j, |w| - 1);
    }
  }

  lemma WalkPart(graph: Graph, w: seq<Name>, from: nat, to: nat)
    requires Walk(graph, w) && from < to <= |w|
    ensures Walk(graph, w[from..to])
  {
    var part := w[from..to];
    forall k | 0 <= k < |part| ensures part[k] in graph {
      assert w[from + k] in graph;
    }
    forall k, m | 0 <= k && m == k + 1 < |part| ensures part[m] in graph[part[k]] {
      assert w[from + m] in graph[w[from + k]];
    }
  }

  lemma CutLoop(graph: Graph, w: seq<Name>)
    requires Walk(graph, w) && !Distinct(w)
    ensures Cyclic(graph)
  {
    hide Walk, Cyclic;
    var i, j :| 0 <= i < j < |w| && w[i] == w[j];
    LoopIsCycle(graph, w, i, j);
  }

  lemma LoopIsCycle(graph: Graph, w: seq<Name>, i: nat, j: nat)
    requires Walk(graph, w) && i < j < |w| && w[i] == w[j]
    ensures Cyclic(graph)
  {
    hide Walk;
    var loop := w[i..j + 1];
    WalkPart(graph, w, i, j + 1);
    assert loop[0] == w[i] && loop[|loop| - 1] == w[j];
  }

  // Something is left over exactly when the imports form a cycle.
  lemma LeftoverIffCyclic(graph: Graph, files: seq<Name>, order: seq<Name>)
    requires Lists(files, graph.Keys) && Lists(order, graph.Keys) && Closed(graph, graph.Keys)
    ensures End(graph, files, order).remaining != {} <==> Cyclic(graph)
  {
    hide Importers, ImportersFirst, Closed, End, Lists, Distinct;
    var s := End(graph, files, order);
    if s.remaining != {} {
      var x :| x in s.remaining;
      LeftoverIsBehindCycle(graph, files, order, x);
      var w :| Walk(graph, w) && w[|w| - 1] == x && !Distinct(w);
      CutLoop(graph, w);
    }
    if Cyclic(graph) {
      var w :| Walk(graph, w) && |w| >= 2 && w[0] == w[|w| - 1];
      CycleIsLeft(graph, order, s, w, 0, |w| - 1);
    }
  }

  // ---------------------------------------------------------------- the order

  // Among the emitted files each importer stands before what it imports.
  lemma ImporterBeforeImport(graph: Graph, files: seq<Name>, order: seq<Name>, i: nat, j: nat)
    requires Lists(files, graph.Keys) && Lists(order, graph.Keys) && Closed(graph, graph.Keys)
    requires var result := End(graph, files, order).result;
             i < |result| && j < |result| && result[i] in graph && result[j] in graph[result[i]]
    ensures i < j
  {
    hide Importers;
    var result := End(graph, files, order).result;
    assert result[i] in result[..j];
    var k :| 0 <= k < j && result[k] == result[i];
    SamePlace(result, i, k);
  }

  lemma SamePlace(s: seq<Name>, i: nat, k: nat)
    requires Distinct(s) && i < |s| && k < |s| && s[i] == s[k]
    ensures i == k
  {
  }

  // What the documentation of topological_sort promises: a file stands behind everything it imports.
  ghost predicate ImportsFirst(graph: Graph, sorted: seq<Name>) {
    forall i, j :: 0 <= i < |sorted| && 0 <= j < |sorted| && sorted[i] in graph && sorted[j] in graph[sorted[i]]
                   ==> j < i
  }

  // The promise is kept exactly for files that import nothing at all.
  lemma PromiseKeptWithoutImports(graph: Graph, files: seq<Name>, order: seq<Name>, setOrder: seq<Name>)
    requires Lists(files, graph.Keys) && Lists(order, graph.Keys) && Lists(setOrder, graph.Keys)
    requires Closed(graph, graph.Keys)
    ensures ImportsFirst(graph, Sorted(graph, files, order, setOrder)) <==> forall f :: f in graph ==> graph[f] == []
  {
    hide Importers, ImportersFirst, Cyclic, Closed, Keep, End;
    var sorted := Sorted(graph, files, order, setOrder);
    SortedIsPermutation(graph, files, order, setOrder);
    if ImportsFirst(graph, sorted) {
      NoCycleInOrder(graph, sorted);
      LeftoverIffCyclic(graph, files, order);
      NothingKept(setOrder);
      assert sorted == End(graph, files, order).result;
      if f :| f in graph && graph[f] != [] {
        assert graph[f][0] in graph[f];
        ImportBreaksPromise(graph, files, order, f, graph[f][0]);
      }
    }
  }

  // Along a walk the files of such a list fall back strictly.
  lemma {:induction false} WalkFalls(graph: Graph, sorted: seq<Name>, w: seq<Name>) returns (i: nat, j: nat)
    requires Lists(sorted, graph.Keys) && ImportsFirst(graph, sorted) && Walk(graph, w)
    ensures i < |sorted| && sorted[i] == w[0] && j < |sorted| && sorted[j] == w[|w| - 1]
    ensures |w| >= 2 ==> j < i
    decreases |w|
  {
    if |w| == 1 {
      assert w[0] in sorted;
      i :| i < |sorted| && sorted[i] == w[0];
      j := i;
    } else {
      var front := w[..|w| - 1];
      var k;
      i, k := WalkFalls(graph, sorted, front);
      assert w[|w| - 1] in sorted && w[|w| - 1] in graph[front[|front| - 1]];
      j :| j < |sorted| && sorted[j] == w[|w| - 1];
    }
  }

  lemma NoCycleInOrder(graph: Graph, sorted: seq<Name>)
    requires Lists(sorted, graph.Keys) && ImportsFirst(graph, sorted)
    ensures !Cyclic(graph)
  {
    if w :| Walk(graph, w) && |w| >= 2 && w[0] == w[|w| - 1] {
      var i, j := WalkFalls(graph, sorted, w);
      SamePlace(sorted, i, j);
    }
  }

  lemma ImportBreaksPromise(graph: Graph, files: seq<Name>, order: seq<Name>, f: Name, g: Name)
    requires Lists(files, graph.Keys) && Lists(order, graph.Keys) && Closed(graph, graph.Keys)
    requires f in graph && g in graph[f] && End(graph, files, order).remaining == {}
    ensures !ImportsFirst(graph, End(graph, files, order).result)
  {
    hide Importers, ImportersFirst, End;
    var result := End(graph, files, order).result;
    assert f in result && g in graph && g in result;
    var i :| 0 <= i < |result| && result[i] == f;
    var j :| 0 <= j < |result| && result[j] == g;
    ImporterBeforeImport(graph, files, order, i, j);
  }

  lemma {:induction false} NothingKept(s: seq<Name>)
    ensures Keep(s, {}) == []
  {
    if s != [] { NothingKept(s[1..]); }
  }

  // ---------------------------------------------------------------- from parsed files to the graph

  // The module a file declares and the modules it imports; a file that does not exist has no entry.
  datatype Parsed = Parsed(modname: Name, imports: seq<Name>)

  // When two files declare one module, the later one stands for it.
  function ModToFile(files: seq<Name>, parsed: map<Name, Parsed>): (m: map<Name, Name>)
    ensures forall name :: name in m ==> m[name] in files && m[name] in parsed && parsed[m[name]].modname == name
    ensures forall f :: f in files && f in parsed ==> parsed[f].modname in m
  {
    if files == [] then map[]
    else
      var f := files[|files| - 1];
      var before := files[..|files| - 1];
      assert files == before + [f];
      var rest := ModToFile(before, parsed);
      if f in parsed then rest[parsed[f].modname := f] else rest
  }

  lemma {:induction false} LaterFileStands(files: seq<Name>, parsed: map<Name, Parsed>, i: nat)
    requires i < |files| && files[i] in parsed
    requires forall j :: i < j < |files| && files[j] in parsed ==> parsed[files[j]].modname != parsed[files[i]].modname
    ensures parsed[files[i]].modname in ModToFile(files, parsed)
    ensures ModToFile(files, parsed)[parsed[files[i]].modname] == files[i]
  {
    if i < |files| - 1 { LaterFileStands(files[..|files| - 1], parsed, i); }
  }

  function KnownFiles(imports: seq<Name>, m: map<Name, Name>): (r: seq<Name>)
    ensures forall g :: g in r <==> exists name :: name in imports && name in m && m[name] == g
  {
    if imports == [] then []
    else
      assert imports == [imports[0]] + imports[1..];
      (if imports[0] in m then [m[imports[0]]] else []) + KnownFiles(imports[1..], m)
  }

  // The imports that no file declares leave nothing, the others their files, in the order of the import list.
  lemma {:induction false} ImportsInOrder(imports: seq<Name>, m: map<Name, Name>, i: nat)
    requires i < |imports|
    ensures KnownFiles(imports, m)
         == KnownFiles(imports[..i], m) + (if imports[i] in m then [m[imports[i]]] else [])
            + KnownFiles(imports[i + 1..], m)
  {
    if i > 0 {
      ImportsInOrder(imports[1..], m, i - 1);
      assert imports[1..][..i - 1] == imports[..i][1..];
      assert imports[1..][i..] == imports[i + 1..];
    }
  }

  function FileGraph(files: seq<Name>, parsed: map<Name, Parsed>): Graph {
    var m := ModToFile(files, parsed);
    map f | f in files :: if f in parsed && m[parsed[f].modname] == f then KnownFiles(parsed[f].imports, m) else []
  }

  // The graph handed to the sort is closed, so the whole of topological_sort returns a permutation of its files.
  lemma TopologicalSortIsPermutation(files: seq<Name>, parsed: map<Name, Parsed>, order: seq<Name>, setOrder: seq<Name>)
    requires Distinct(files) && Lists(order, set f | f in files) && Lists(setOrder, set f | f in files)
    ensures var graph := FileGraph(files, parsed);
            && graph.Keys == (set f | f in files) && Closed(graph, graph.Keys)
            && multiset(Sorted(graph, files, order, setOrder)) == multiset(files)
  {
    hide End, Keep, ModToFile, KnownFiles;
    var graph := FileGraph(files, parsed);
    assert graph.Keys == (set f | f in files);
    SortedIsPermutation(graph, files, order, setOrder);
  }
}
