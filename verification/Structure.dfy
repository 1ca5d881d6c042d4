// The shape of the node array after any successful parse, BER or DER, on any input, and what the child
// iterator makes of it. Indices and depths are right whatever the input; the positions are right exactly when no
// primitive declares contents that reach 2^64.
module Structure {
  import opened Errors
  import opened Positional
  import opened Header
  import opened Reader
  import opened Machine

  // ---------------------------------------------------------------- subtrees and the input they cover

  function End(n: Node): nat { n.start + n.encodedLength }

  // Where the contents octets of n lie; the end-of-contents octets of the indefinite form are outside.
  ghost predicate ContentRange(d: seq<byte>, n: Node, from: nat, to: nat) {
    n.start <= |d| && ReadIdentifier(d, n.start).Ok? &&
    var (id, constructed, afterId) := ReadIdentifier(d, n.start).value;
    id == n.id && constructed == n.constructed && ReadLength(d, afterId, BER).Ok? &&
    var (length, content) := ReadLength(d, afterId, BER).value;
    from == content && from <= to &&
    match length
    case Definite(v) => to == from + v == End(n)
    case Indefinite => to + 2 == End(n) && EndOfContents(d, to)
  }

  // ns is one subtree: its head, then the subtrees of its children tiling its contents.
  ghost predicate IsSubtree(d: seq<byte>, ns: seq<Node>, depth: nat)
    decreases |ns|, 0
  {
    ns != [] &&
    var n := ns[0];
    n.depth == depth && n.subtreeSize == |ns| && n.start + 2 <= End(n) <= |d| &&
    if n.constructed then
      && n.data == None && n.dataLength == 0
      && exists from: nat, to: nat :: ContentRange(d, n, from, to) && IsForest(d, ns[1..], depth + 1, from, to)
    else
      && |ns| == 1 && n.data.Some?
      && ContentRange(d, n, n.data.value, n.data.value + n.dataLength)
  }

  // ns is a row of subtrees at one depth whose encodings tile d[from..to].
  ghost predicate IsForest(d: seq<byte>, ns: seq<Node>, depth: nat, from: nat, to: nat)
    decreases |ns|, 1
  {
    if ns == [] then from == to
    else
      var n := ns[0];
      && 1 <= n.subtreeSize <= |ns| && n.start == from
      && IsSubtree(d, ns[..n.subtreeSize], depth)
      && IsForest(d, ns[n.subtreeSize..], depth, End(n), to)
  }

  lemma {:induction false} NodeIsSubtree(d: seq<byte>, off: nat, rules: Rules, depth: nat, room: nat)
    requires off <= |d| && ReadNode(d, off, rules, depth, room).Ok?
    ensures var p := ReadNode(d, off, rules, depth, room).value;
            IsSubtree(d, p.nodes, depth) && p.nodes[0].start == off && End(p.nodes[0]) == p.next
    decreases |d| - off, 0
  {
    hide ReadIdentifier, ReadLength, ReadDefinite, ReadIndefinite, IsForest;
    var (id, constructed, afterId) := ReadIdentifier(d, off).value;
    LengthAnyRules(d, afterId, rules);
    var (length, content) := ReadLength(d, afterId, rules).value;
    var p := ReadNode(d, off, rules, depth, room).value;
    if constructed {
      assert p.nodes[1..] == match length
        case Definite(v) => ReadDefinite(d, content, content + v, rules, depth + 1, room - 1).value.nodes
        case Indefinite => ReadIndefinite(d, content, rules, depth + 1, room - 1).value.nodes;
      match length
      case Definite(v) =>
        DefiniteIsForest(d, content, content + v, rules, depth + 1, room - 1);
        assert ContentRange(d, p.nodes[0], content, p.next);
      case Indefinite =>
        IndefiniteIsForest(d, content, rules, depth + 1, room - 1);
        assert ContentRange(d, p.nodes[0], content, p.next - 2);
    }
  }

  lemma LengthAnyRules(d: seq<byte>, off: nat, rules: Rules)
    requires off <= |d| && ReadLength(d, off, rules).Ok?
    ensures ReadLength(d, off, BER) == ReadLength(d, off, rules)
  {
    hide FromDigits, ToDigits;
  }

  lemma {:induction false} DefiniteIsForest(d: seq<byte>, off: nat, end: nat, rules: Rules, depth: nat, room: nat)
    requires off <= |d| && ReadDefinite(d, off, end, rules, depth, room).Ok?
    ensures IsForest(d, ReadDefinite(d, off, end, rules, depth, room).value.nodes, depth, off, end)
    decreases |d| - off, 1
  {
    hide ReadNode, IsSubtree;
    if off < end {
      var first := ReadNode(d, off, rules, depth, room).value;
      var rest := ReadDefinite(d, first.next, end, rules, depth, room - |first.nodes|).value;
      NodeIsSubtree(d, off, rules, depth, room);
      DefiniteIsForest(d, first.next, end, rules, depth, room - |first.nodes|);
      Row(d, first.nodes, rest.nodes, depth, end);
    }
  }

  lemma {:induction false} IndefiniteIsForest(d: seq<byte>, off: nat, rules: Rules, depth: nat, room: nat)
    requires off <= |d| && ReadIndefinite(d, off, rules, depth, room).Ok?
    ensures var p := ReadIndefinite(d, off, rules, depth, room).value;
            && off + 2 <= p.next && EndOfContents(d, p.next - 2)
            && IsForest(d, p.nodes, depth, off, p.next - 2)
    decreases |d| - off, 1
  {
    hide ReadNode, IsSubtree;
    if !EndOfContents(d, off) {
      var first := ReadNode(d, off, rules, depth, room).value;
      var rest := ReadIndefinite(d, first.next, rules, depth, room - |first.nodes|).value;
      NodeIsSubtree(d, off, rules, depth, room);
      IndefiniteIsForest(d, first.next, rules, depth, room - |first.nodes|);
      Row(d, first.nodes, rest.nodes, depth, rest.next - 2);
    }
  }

  lemma Row(d: seq<byte>, first: seq<Node>, rest: seq<Node>, depth: nat, to: nat)
    requires IsSubtree(d, first, depth) && IsForest(d, rest, depth, End(first[0]), to)
    ensures IsForest(d, first + rest, depth, first[0].start, to)
  {
    hide ContentRange;
    assert (first + rest)[..|first|] == first && (first + rest)[|first|..] == rest;
  }

  // ---------------------------------------------------------------- intervals and depths

  ghost predicate Laminar(ns: seq<Node>) {
    && (forall i :: 0 <= i < |ns| ==> 1 <= ns[i].subtreeSize <= |ns| - i)
    && (forall i, j :: 0 <= i < j < |ns| && j < i + ns[i].subtreeSize
          ==> j + ns[j].subtreeSize <= i + ns[i].subtreeSize && ns[j].depth > ns[i].depth)
  }

  // Into a subtree the depth goes one down.
  ghost predicate StepsDown(ns: seq<Node>) {
    forall i, j :: 0 <= i && j == i + 1 < |ns| && ns[i].subtreeSize > 1 ==> ns[j].depth == ns[i].depth + 1
  }

  // Behind a subtree it does not go down.
  ghost predicate ComesBack(ns: seq<Node>) {
    forall i, j :: 0 <= i < j < |ns| && j == i + ns[i].subtreeSize ==> ns[j].depth <= ns[i].depth
  }

  // Depths and subtree sizes are those of a pre-order listing.
  ghost predicate Nested(ns: seq<Node>) {
    Laminar(ns) && StepsDown(ns) && ComesBack(ns)
  }

  ghost predicate NoHigher(ns: seq<Node>, depth: nat) {
    forall i :: 0 <= i < |ns| ==> ns[i].depth >= depth
  }

  // Subtrees at one depth, one after the other.
  ghost predicate IsRow(ns: seq<Node>, depth: nat) {
    Nested(ns) && NoHigher(ns, depth) && (ns != [] ==> ns[0].depth == depth)
  }

  lemma JoinNested(a: seq<Node>, b: seq<Node>, depth: nat)
    requires IsRow(a, depth) && IsRow(b, depth)
    ensures IsRow(a + b, depth)
  {
    hide Laminar, StepsDown, ComesBack;
    JoinLaminar(a, b);
    JoinSteps(a, b);
    JoinReturns(a, b, depth);
  }

  lemma JoinSteps(a: seq<Node>, b: seq<Node>)
    requires Laminar(a) && StepsDown(a) && StepsDown(b)
    ensures StepsDown(a + b)
  {
    var ns := a + b;
    forall i, j | 0 <= i && j == i + 1 < |ns| && ns[i].subtreeSize > 1 ensures ns[j].depth == ns[i].depth + 1 {
      if i < |a| {
        assert ns[i] == a[i] && ns[j] == a[j];
      } else {
        assert ns[i] == b[i - |a|] && ns[j] == b[j - |a|];
      }
    }
  }

  lemma JoinReturns(a: seq<Node>, b: seq<Node>, depth: nat)
    requires Laminar(a) && ComesBack(a) && ComesBack(b) && NoHigher(a, depth) && (b != [] ==> b[0].depth == depth)
    ensures ComesBack(a + b)
  {
    var ns := a + b;
    forall i, j | 0 <= i < j < |ns| && j == i + ns[i].subtreeSize ensures ns[j].depth <= ns[i].depth {
      if j < |a| {
        assert ns[i] == a[i] && ns[j] == a[j];
      } else if i >= |a| {
        assert ns[i] == b[i - |a|] && ns[j] == b[j - |a|];
      } else {
        assert ns[i] == a[i] && ns[j] == b[0];
      }
    }
  }

  lemma CloseNested(n: Node, kids: seq<Node>)
    requires IsRow(kids, n.depth + 1) && n.subtreeSize == 1 + |kids|
    ensures IsRow([n] + kids, n.depth)
  {
    hide Laminar, StepsDown, ComesBack;
    CloseLaminar(n, kids);
    CloseSteps(n, kids);
    CloseReturns(n, kids);
  }

  lemma CloseLaminar(n: Node, kids: seq<Node>)
    requires Laminar(kids) && NoHigher(kids, n.depth + 1) && n.subtreeSize == 1 + |kids|
    ensures Laminar([n] + kids)
  {
    var ns := [n] + kids;
    forall i | 0 <= i < |ns| ensures 1 <= ns[i].subtreeSize <= |ns| - i {
      if i > 0 { assert ns[i] == kids[i - 1]; }
    }
    forall i, j | 0 <= i < j < |ns| && j < i + ns[i].subtreeSize
      ensures j + ns[j].subtreeSize <= i + ns[i].subtreeSize && ns[j].depth > ns[i].depth
    {
      assert ns[j] == kids[j - 1];
      if i > 0 { assert ns[i] == kids[i - 1]; }
    }
  }

  lemma CloseSteps(n: Node, kids: seq<Node>)
    requires StepsDown(kids) && (kids != [] ==> kids[0].depth == n.depth + 1)
    ensures StepsDown([n] + kids)
  {
    var ns := [n] + kids;
    forall i, j | 0 <= i && j == i + 1 < |ns| && ns[i].subtreeSize > 1 ensures ns[j].depth == ns[i].depth + 1 {
      assert ns[j] == kids[j - 1];
      if i > 0 { assert ns[i] == kids[i - 1]; }
    }
  }

  lemma CloseReturns(n: Node, kids: seq<Node>)
    requires ComesBack(kids) && n.subtreeSize == 1 + |kids|
    ensures ComesBack([n] + kids)
  {
    var ns := [n] + kids;
    forall i, j | 0 <= i < j < |ns| && j == i + ns[i].subtreeSize ensures ns[j].depth <= ns[i].depth {
      assert ns[i] == kids[i - 1] && ns[j] == kids[j - 1];
    }
  }

  // Every node array the parser stores, with positions that wrapped around or not.
  lemma {:induction false} NodeIsNested(d: seq<byte>, off: nat, rules: Rules, depth: nat, room: nat)
    requires off <= |d| && ReadNode64(d, off, rules, depth, room).Ok?
    ensures var p := ReadNode64(d, off, rules, depth, room).value;
            && IsRow(p.nodes, depth) && p.nodes[0].subtreeSize == |p.nodes|
            && p.nodes[0].start == off && p.nodes[0].encodedLength == Wrapped(p.next - off)
    decreases room, 0
  {
    hide ReadIdentifier, ReadLength, ReadDefinite64, ReadIndefinite64, IsRow, Stores, Wrapped;
    var (id, constructed, afterId) := ReadIdentifier(d, off).value;
    var (length, content) := ReadLength(d, afterId, rules).value;
    if !constructed {
      SingleRow(Primitive64(id, off, Wrapped(content + length.value), content, length.value, depth));
    } else if length.Definite? {
      DefiniteIsNested(d, content, content + length.value, rules, depth + 1, room - 1);
      var kids := ReadDefinite64(d, content, content + length.value, rules, depth + 1, room - 1).value;
      CloseNested(Closed64(id, off, kids.next, depth, 1 + |kids.nodes|), kids.nodes);
    } else {
      IndefiniteIsNested(d, content, rules, depth + 1, room - 1);
      var kids := ReadIndefinite64(d, content, rules, depth + 1, room - 1).value;
      CloseNested(Closed64(id, off, kids.next, depth, 1 + |kids.nodes|), kids.nodes);
    }
  }

  lemma SingleRow(n: Node)
    requires n.subtreeSize == 1
    ensures IsRow([n], n.depth)
  {
  }

  lemma {:induction false} DefiniteIsNested(d: seq<byte>, off: nat, end: nat, rules: Rules, depth: nat, room: nat)
    requires off <= |d| && ReadDefinite64(d, off, end, rules, depth, room).Ok?
    ensures IsRow(ReadDefinite64(d, off, end, rules, depth, room).value.nodes, depth)
    decreases room, 1
  {
    if off < end {
      hide ReadNode64, IsRow, Stores;
      var first := ReadNode64(d, off, rules, depth, room).value;
      var rest := ReadDefinite64(d, first.next, end, rules, depth, room - |first.nodes|).value;
      NodeIsNested(d, off, rules, depth, room);
      DefiniteIsNested(d, first.next, end, rules, depth, room - |first.nodes|);
      JoinNested(first.nodes, rest.nodes, depth);
    }
  }

  lemma {:induction false} IndefiniteIsNested(d: seq<byte>, off: nat, rules: Rules, depth: nat, room: nat)
    requires off <= |d| && ReadIndefinite64(d, off, rules, depth, room).Ok?
    ensures IsRow(ReadIndefinite64(d, off, rules, depth, room).value.nodes, depth)
    decreases room, 1
  {
    if !EndOfContents(d, off) {
      hide ReadNode64, IsRow, Stores;
      var first := ReadNode64(d, off, rules, depth, room).value;
      var rest := ReadIndefinite64(d, first.next, rules, depth, room - |first.nodes|).value;
      NodeIsNested(d, off, rules, depth, room);
      IndefiniteIsNested(d, first.next, rules, depth, room - |first.nodes|);
      JoinNested(first.nodes, rest.nodes, depth);
    }
  }

  lemma {:induction false} ForestSpan(d: seq<byte>, ns: seq<Node>, depth: nat, from: nat, to: nat)
    requires IsForest(d, ns, depth, from, to)
    ensures from <= to
    decreases |ns|
  {
    hide IsSubtree;
    if ns != [] { ForestSpan(d, ns[ns[0].subtreeSize..], depth, End(ns[0]), to); }
  }

  lemma JoinLaminar(a: seq<Node>, b: seq<Node>)
    requires Laminar(a) && Laminar(b)
    ensures Laminar(a + b)
  {
    var ns := a + b;
    forall i, j | 0 <= i < j < |ns| && j < i + ns[i].subtreeSize
      ensures j + ns[j].subtreeSize <= i + ns[i].subtreeSize && ns[j].depth > ns[i].depth
    {
      if i < |a| {
        assert ns[i] == a[i] && ns[j] == a[j];
      } else {
        assert ns[i] == b[i - |a|] && ns[j] == b[j - |a|];
      }
    }
  }

  // Every index heads a subtree, which gives its children's tiling as well.
  lemma {:induction false} SubtreeAt(d: seq<byte>, ns: seq<Node>, depth: nat, i: nat)
    requires IsSubtree(d, ns, depth) && i < |ns|
    ensures 1 <= ns[i].subtreeSize <= |ns| - i
    ensures IsSubtree(d, ns[i..i + ns[i].subtreeSize], ns[i].depth)
    decreases |ns|, 0
  {
    hide ContentRange, IsForest;
    if i == 0 {
      assert ns[0..0 + ns[0].subtreeSize] == ns;
    } else {
      var from: nat, to: nat :| ContentRange(d, ns[0], from, to) && IsForest(d, ns[1..], depth + 1, from, to);
      SubtreeInForest(d, ns[1..], depth + 1, from, to, i - 1);
      var size := ns[i].subtreeSize;
      SliceOfSuffix(ns, 1, i, size);
    }
  }

  lemma {:induction false} SubtreeInForest(d: seq<byte>, ns: seq<Node>, depth: nat, from: nat, to: nat, i: nat)
    requires IsForest(d, ns, depth, from, to) && i < |ns|
    ensures 1 <= ns[i].subtreeSize <= |ns| - i
    ensures IsSubtree(d, ns[i..i + ns[i].subtreeSize], ns[i].depth)
    decreases |ns|, 1
  {
    hide IsSubtree, ContentRange;
    var k, size := ns[0].subtreeSize, ns[i].subtreeSize;
    if i < k {
      SubtreeAt(d, ns[..k], depth, i);
      assert ns[..k][i..i + size] == ns[i..i + size];
    } else {
      SubtreeInForest(d, ns[k..], depth, End(ns[0]), to, i - k);
      SliceOfSuffix(ns, k, i, size);
    }
  }

  lemma SliceOfSuffix(ns: seq<Node>, k: nat, i: nat, n: nat)
    requires k <= i && i + n <= |ns|
    ensures ns[k..][i - k..i - k + n] == ns[i..i + n]
  {
  }

  // Every index heads a subtree whose octets are where the array says, and whose children tile its contents.
  ghost predicate Covered(d: seq<byte>, ns: seq<Node>) {
    forall i :: 0 <= i < |ns| ==>
      i + ns[i].subtreeSize <= |ns| && IsSubtree(d, ns[i..i + ns[i].subtreeSize], ns[i].depth)
  }

  lemma PlainIsCovered(d: seq<byte>, rules: Rules, capacity: nat)
    requires Parse(d, rules, capacity).Ok?
    ensures Covered(d, Parse(d, rules, capacity).value)
  {
    hide ReadNode, IsSubtree;
    var ns := Parse(d, rules, capacity).value;
    NodeIsSubtree(d, 0, rules, 1, capacity);
    forall i | 0 <= i < |ns|
      ensures i + ns[i].subtreeSize <= |ns| && IsSubtree(d, ns[i..i + ns[i].subtreeSize], ns[i].depth)
    {
      SubtreeAt(d, ns, 1, i);
    }
  }

  lemma CoveredIsInRange(d: seq<byte>, ns: seq<Node>)
    requires Covered(d, ns)
    ensures InRange(d, ns)
  {
    hide IsForest;
    forall i | 0 <= i < |ns| && ns[i].data.Some? ensures ns[i].data.value + ns[i].dataLength <= |d| {
      assert ns[i..i + ns[i].subtreeSize][0] == ns[i];
    }
  }

  // Every successful asn1_parse, under either encoding rules: one subtree over all indices that starts and ends with
  // the input, with pre-order depths; and the positions below it are right exactly when nothing overflows.
  lemma ParseStructure(d: seq<byte>, rules: Rules, capacity: nat)
    requires |d| < TWO_TO_THE_64 && Parse64(d, rules, capacity).Ok?
    ensures var ns := Parse64(d, rules, capacity).value;
            && Nested(ns) && ns[0].depth == 1 && ns[0].subtreeSize == |ns|
            && ns[0].start == 0 && End(ns[0]) == |d|
            && (Covered(d, ns) <==> !Overflows(d, rules))
  {
    hide ReadNode, ReadNode64, Parse, Overflows, Covered, InRange;
    var ns := Parse64(d, rules, capacity).value;
    NodeIsNested(d, 0, rules, 1, capacity);
    ParseAgrees(d, rules, capacity);
    if Overflows(d, rules) {
      if Covered(d, ns) { CoveredIsInRange(d, ns); }
    } else {
      PlainIsCovered(d, rules, capacity);
    }
  }

  // ---------------------------------------------------------------- the child iterator

  // asn1_next_child: the child returned, if any, and the new current index.
  function Advance(ns: seq<Node>, current: nat, end: nat, parentDepth: nat): (r: (Option<nat>, nat))
    requires end <= |ns|
    ensures r.0.Some? ==> current <= r.0.value < end && r.1 == r.0.value + ns[r.0.value].subtreeSize
    decreases end - current
  {
    if current >= end then (None, current)
    else if ns[current].depth == parentDepth + 1 then (Some(current), current + ns[current].subtreeSize)
    else Advance(ns, current + 1, end, parentDepth)
  }

  // On any array the child returned is the first node one level down, if there is one, and the index moves behind its
  // subtree.
  lemma {:induction false} NextChildIsFirst(ns: seq<Node>, current: nat, end: nat, parentDepth: nat)
    requires end <= |ns|
    ensures var (child, next) := Advance(ns, current, end, parentDepth);
            match child
            case None => forall i :: current <= i < end ==> ns[i].depth != parentDepth + 1
            case Some(k) =>
              && current <= k < end && ns[k].depth == parentDepth + 1 && next == k + ns[k].subtreeSize
              && forall i :: current <= i < k ==> ns[i].depth != parentDepth + 1
    decreases end - current
  {
    if current < end && ns[current].depth != parentDepth + 1 {
      NextChildIsFirst(ns, current + 1, end, parentDepth);
    }
  }

  // The naive scan: the indices in [lo, hi) at one depth.
  function Scan(ns: seq<Node>, depth: nat, lo: nat, hi: nat): (r: seq<nat>)
    requires hi <= |ns|
    ensures forall k :: 0 <= k < |r| ==> lo <= r[k] < hi
    decreases hi - lo
  {
    if lo >= hi then [] else (if ns[lo].depth == depth then [lo] else []) + Scan(ns, depth, lo + 1, hi)
  }

  // The iterator called until it returns NULL.
  function Drain(ns: seq<Node>, current: nat, end: nat, parentDepth: nat): seq<nat>
    requires end <= |ns| && forall i :: 0 <= i < |ns| ==> ns[i].subtreeSize >= 1
    decreases end - current
  {
    var (child, next) := Advance(ns, current, end, parentDepth);
    if child.None? then [] else [child.value] + Drain(ns, next, end, parentDepth)
  }

  // The iterator never meets a deeper node, so its skipping branch is never taken.
  ghost predicate NeverSkips(ns: seq<Node>, current: nat, end: nat, parentDepth: nat)
    requires end <= |ns| && forall i :: 0 <= i < |ns| ==> ns[i].subtreeSize >= 1
    decreases end - current
  {
    current < end ==>
      ns[current].depth == parentDepth + 1 && NeverSkips(ns, current + ns[current].subtreeSize, end, parentDepth)
  }

  lemma {:induction false} ScanSkips(ns: seq<Node>, depth: nat, lo: nat, mid: nat, hi: nat)
    requires lo <= mid <= hi <= |ns|
    requires forall i :: lo <= i < mid ==> ns[i].depth != depth
    ensures Scan(ns, depth, lo, hi) == Scan(ns, depth, mid, hi)
    decreases mid - lo
  {
    if lo < mid { ScanSkips(ns, depth, lo + 1, mid, hi); }
  }

  // The encodings of the listed nodes follow one another from "from" to "to".
  ghost predicate Tiles(ns: seq<Node>, kids: seq<nat>, from: nat, to: nat)
    requires forall k :: 0 <= k < |kids| ==> kids[k] < |ns|
    decreases |kids|
  {
    if kids == [] then from == to
    else ns[kids[0]].start == from && Tiles(ns, kids[1..], End(ns[kids[0]]), to)
  }

  lemma NextInRow(ns: seq<Node>, depth: nat, current: nat, end: nat)
    requires Laminar(ns) && current < end <= |ns| && ns[current].depth == depth + 1
    requires current + ns[current].subtreeSize <= end
    ensures var mid := current + ns[current].subtreeSize;
            && Drain(ns, current, end, depth) == [current] + Drain(ns, mid, end, depth)
            && (NeverSkips(ns, mid, end, depth) ==> NeverSkips(ns, current, end, depth))
            && Scan(ns, depth + 1, current, end) == [current] + Scan(ns, depth + 1, mid, end)
  {
    ScanSkips(ns, depth + 1, current + 1, current + ns[current].subtreeSize, end);
  }

  // The first subtree of a row and the row that follows it.
  lemma RowHead(d: seq<byte>, ns: seq<Node>, depth: nat, current: nat, end: nat, from: nat, to: nat)
    requires current < end <= |ns| && IsForest(d, ns[current..end], depth, from, to)
    ensures ns[current].depth == depth && ns[current].start == from
    ensures var mid := current + ns[current].subtreeSize;
            && current < mid <= end
            && IsSubtree(d, ns[current..mid], depth)
            && IsForest(d, ns[mid..end], depth, End(ns[current]), to)
  {
    hide ContentRange;
    var row, k := ns[current..end], ns[current].subtreeSize;
    assert row[0] == ns[current] && row[..k] == ns[current..current + k] && row[k..] == ns[current + k..end];
  }

  lemma NextTile(ns: seq<Node>, current: nat, kids: seq<nat>, to: nat)
    requires current < |ns| && forall k :: 0 <= k < |kids| ==> kids[k] < |ns|
    requires Tiles(ns, kids, End(ns[current]), to)
    ensures Tiles(ns, [current] + kids, ns[current].start, to)
  {
    assert ([current] + kids)[1..] == kids;
  }

  lemma {:induction false} DrainRow(ns: seq<Node>, depth: nat, current: nat, end: nat)
    requires Nested(ns) && current <= end <= |ns|
    requires current < end ==> ns[current].depth == depth + 1
    requires forall j :: current <= j < end ==> ns[j].depth > depth && j + ns[j].subtreeSize <= end
    ensures Drain(ns, current, end, depth) == Scan(ns, depth + 1, current, end)
    ensures NeverSkips(ns, current, end, depth)
    decreases end - current
  {
    if current < end {
      hide Drain, Scan, NeverSkips;
      DrainRow(ns, depth, current + ns[current].subtreeSize, end);
      NextInRow(ns, depth, current, end);
    }
  }

  lemma {:induction false} RowTiles(d: seq<byte>, ns: seq<Node>, depth: nat, current: nat, end: nat, from: nat, to: nat)
    requires Laminar(ns) && current <= end <= |ns|
    requires IsForest(d, ns[current..end], depth + 1, from, to)
    ensures Tiles(ns, Scan(ns, depth + 1, current, end), from, to)
    decreases end - current
  {
    hide Drain, Scan, NeverSkips, Tiles, IsSubtree, IsForest, Laminar;
    if current == end {
      NothingTiles(d, ns, depth, end, from, to);
    } else {
      var mid := current + ns[current].subtreeSize;
      RowHead(d, ns, depth + 1, current, end, from, to);
      RowTiles(d, ns, depth, mid, end, End(ns[current]), to);
      NextInRow(ns, depth, current, end);
      NextTile(ns, current, Scan(ns, depth + 1, mid, end), to);
    }
  }

  lemma NothingTiles(d: seq<byte>, ns: seq<Node>, depth: nat, end: nat, from: nat, to: nat)
    requires end <= |ns| && IsForest(d, ns[end..end], depth + 1, from, to)
    ensures Tiles(ns, Scan(ns, depth + 1, end, end), from, to)
  {
  }

  // On every array a successful parse leaves, asn1_children followed by asn1_next_child yields exactly the nodes of
  // the subtree one level below its root, in order, and skips nothing. Their encodings tile the root's contents as
  // long as nothing overflows.
  lemma IteratorYieldsChildren(d: seq<byte>, rules: Rules, capacity: nat, i: nat)
    requires |d| < TWO_TO_THE_64 && Parse64(d, rules, capacity).Ok? && i < |Parse64(d, rules, capacity).value|
    ensures var ns := Parse64(d, rules, capacity).value;
            var end := i + ns[i].subtreeSize;
            && Laminar(ns)
            && Drain(ns, i + 1, end, ns[i].depth) == Scan(ns, ns[i].depth + 1, i + 1, end)
            && NeverSkips(ns, i + 1, end, ns[i].depth)
            && (!Overflows(d, rules) && ns[i].constructed ==>
                  exists from, to ::
                    ContentRange(d, ns[i], from, to) && Tiles(ns, Scan(ns, ns[i].depth + 1, i + 1, end), from, to))
  {
    hide Parse64, ContentRange, Drain, Scan, NeverSkips, Tiles, Overflows;
    ParseStructure(d, rules, capacity);
    var ns := Parse64(d, rules, capacity).value;
    var end := i + ns[i].subtreeSize;
    DrainRow(ns, ns[i].depth, i + 1, end);
    if !Overflows(d, rules) && ns[i].constructed {
      var sub := ns[i..end];
      assert sub[0] == ns[i] && sub[1..] == ns[i + 1..end];
      var from: nat, to: nat :| ContentRange(d, ns[i], from, to) && IsForest(d, sub[1..], ns[i].depth + 1, from, to);
      RowTiles(d, ns, ns[i].depth, i + 1, end, from, to);
    }
  }
}
