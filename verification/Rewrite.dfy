// Walking a parsed node array with the child iterator and writing it out again: exact for DER input,
// and from BER to DER a rewriting that keeps the tree.
module Rewrite {
  import opened Errors
  import opened Positional
  import opened Header
  import opened Reader
  import opened Machine
  import opened Tree
  import opened Structure

  ghost predicate Walkable(d: seq<byte>, ns: seq<Node>) {
    && Laminar(ns)
    && forall i :: 0 <= i < |ns| && !ns[i].constructed ==>
         ns[i].data.Some? && ns[i].data.value + ns[i].dataLength <= |d|
  }

  function Data(d: seq<byte>, n: Node): seq<byte>
    requires n.data.Some? ==> n.data.value + n.dataLength <= |d|
  {
    if n.data.None? then [] else d[n.data.value..n.data.value + n.dataLength]
  }

  // The tree a walk with asn1_children and asn1_next_child sees below index i.
  function TreeAt(d: seq<byte>, ns: seq<Node>, i: nat): Tlv
    requires Walkable(d, ns) && i < |ns|
    decreases |ns| - i, 0
  {
    var n := ns[i];
    if n.constructed then Cons(n.id, TreesFrom(d, ns, i + 1, i + n.subtreeSize, n.depth)) else Prim(n.id, Data(d, n))
  }

  function TreesFrom(d: seq<byte>, ns: seq<Node>, current: nat, end: nat, parentDepth: nat): seq<Tlv>
    requires Walkable(d, ns) && end <= |ns|
    decreases |ns| - current, 1
  {
    var (child, next) := Advance(ns, current, end, parentDepth);
    if child.None? then [] else [TreeAt(d, ns, child.value)] + TreesFrom(d, ns, next, end, parentDepth)
  }

  // ---------------------------------------------------------------- DER: back to the input

  // The part of ns starting at index i is the flattening of t, whose encoding stands at off.
  ghost predicate Holds(d: seq<byte>, ns: seq<Node>, i: nat, t: Tlv, off: nat, depth: nat) {
    i + Size(t) <= |ns| && ns[i..i + Size(t)] == Flatten(t, off, depth) && At(d, off, Encode(t))
  }

  ghost predicate HoldsAll(d: seq<byte>, ns: seq<Node>, i: nat, ts: seq<Tlv>, off: nat, depth: nat) {
    i + SizeAll(ts) <= |ns| && ns[i..i + SizeAll(ts)] == FlattenAll(ts, off, depth) && At(d, off, EncodeAll(ts))
  }

  lemma SplitSlice(ns: seq<Node>, i: nat, a: seq<Node>, b: seq<Node>)
    requires i + |a| + |b| <= |ns| && ns[i..i + |a| + |b|] == a + b
    ensures ns[i..i + |a|] == a && ns[i + |a|..i + |a| + |b|] == b
    ensures a != [] ==> ns[i] == a[0]
  {
    var whole := ns[i..i + |a| + |b|];
    assert ns[i..i + |a|] == whole[..|a|] && ns[i + |a|..i + |a| + |b|] == whole[|a|..];
  }

  lemma {:induction false} WalkRecovers(d: seq<byte>, ns: seq<Node>, i: nat, t: Tlv, off: nat, depth: nat)
    requires Walkable(d, ns) && Holds(d, ns, i, t, off, depth)
    ensures TreeAt(d, ns, i) == t
    decreases t, 1
  {
    hide Advance, EncodeHeader, Laminar, FlattenAll;
    match t
    case Prim(id, content) =>
      AtConcat(d, off, EncodeHeader(id, false, |content|), content);
      SplitSlice(ns, i, Flatten(t, off, depth), []);
    case Cons(id, children) =>
      var header := EncodeHeader(id, true, |EncodeAll(children)|);
      AtConcat(d, off, header, EncodeAll(children));
      var head := Closed(id, off, off + |Encode(t)|, depth, Size(t));
      SplitSlice(ns, i, [head], FlattenAll(children, off + |header|, depth + 1));
      WalkRecoversAll(d, ns, i + 1, children, off + |header|, depth + 1);
  }

  lemma {:induction false} WalkRecoversAll(d: seq<byte>, ns: seq<Node>, i: nat, ts: seq<Tlv>, off: nat, depth: nat)
    requires Walkable(d, ns) && HoldsAll(d, ns, i, ts, off, depth) && depth >= 1
    ensures TreesFrom(d, ns, i, i + SizeAll(ts), depth - 1) == ts
    decreases ts, 0
  {
    hide Encode, Flatten, Size, TreeAt, Laminar, Holds, HoldsAll;
    if ts != [] {
      RowSplits(d, ns, i, ts, off, depth);
      WalkRecovers(d, ns, i, ts[0], off, depth);
      WalkRecoversAll(d, ns, i + Size(ts[0]), ts[1..], off + |Encode(ts[0])|, depth);
      assert Advance(ns, i, i + SizeAll(ts), depth - 1) == (Some(i), i + Size(ts[0]));
    }
  }

  lemma RowSplits(d: seq<byte>, ns: seq<Node>, i: nat, ts: seq<Tlv>, off: nat, depth: nat)
    requires HoldsAll(d, ns, i, ts, off, depth) && ts != []
    ensures Holds(d, ns, i, ts[0], off, depth)
    ensures HoldsAll(d, ns, i + Size(ts[0]), ts[1..], off + |Encode(ts[0])|, depth)
    ensures Size(ts[0]) <= SizeAll(ts) && i + SizeAll(ts) <= |ns|
    ensures ns[i].depth == depth && ns[i].subtreeSize == Size(ts[0])
  {
    hide Encode, Flatten, Size, EncodeAll, FlattenAll, SizeAll, At;
    UnfoldRow(ts, off, depth);
    RowSlices(ns, i, Flatten(ts[0], off, depth), FlattenAll(ts[1..], off + |Encode(ts[0])|, depth),
              FlattenAll(ts, off, depth));
    AtConcat(d, off, Encode(ts[0]), EncodeAll(ts[1..]));
    HeadOfFlatten(ts[0], off, depth);
  }

  lemma RowSlices(ns: seq<Node>, i: nat, a: seq<Node>, b: seq<Node>, row: seq<Node>)
    requires row == a + b && i + |row| <= |ns| && ns[i..i + |row|] == row
    ensures ns[i..i + |a|] == a && ns[i + |a|..i + |a| + |b|] == b
    ensures a != [] ==> ns[i] == a[0]
  {
    SplitSlice(ns, i, a, b);
  }

  lemma UnfoldRow(ts: seq<Tlv>, off: nat, depth: nat)
    requires ts != []
    ensures SizeAll(ts) == Size(ts[0]) + SizeAll(ts[1..])
    ensures EncodeAll(ts) == Encode(ts[0]) + EncodeAll(ts[1..])
    ensures FlattenAll(ts, off, depth)
         == Flatten(ts[0], off, depth) + FlattenAll(ts[1..], off + |Encode(ts[0])|, depth)
    ensures |Flatten(ts[0], off, depth)| == Size(ts[0])
    ensures |FlattenAll(ts[1..], off + |Encode(ts[0])|, depth)| == SizeAll(ts[1..])
  {
    hide Encode, Flatten, Size;
  }

  lemma HeadOfFlatten(t: Tlv, off: nat, depth: nat)
    ensures var n := Flatten(t, off, depth)[0]; n.depth == depth && n.subtreeSize == Size(t) && n.start == off
  {
  }

  lemma CoveredIsWalkable(d: seq<byte>, ns: seq<Node>)
    requires Laminar(ns) && Covered(d, ns)
    ensures Walkable(d, ns)
  {
    hide IsForest;
    forall i | 0 <= i < |ns| && !ns[i].constructed
      ensures ns[i].data.Some? && ns[i].data.value + ns[i].dataLength <= |d|
    {
      assert ns[i..i + ns[i].subtreeSize][0] == ns[i];
    }
  }

  // The array of an accepted input can be walked exactly when nothing overflows.
  lemma ParsedIsWalkable(d: seq<byte>, rules: Rules, capacity: nat)
    requires |d| < TWO_TO_THE_64 && Parse64(d, rules, capacity).Ok?
    ensures Walkable(d, Parse64(d, rules, capacity).value) <==> !Overflows(d, rules)
  {
    hide Parse, Parse64, Overflows, Covered, Laminar, StepsDown, ComesBack;
    ParseStructure(d, rules, capacity);
    ParseAgrees(d, rules, capacity);
    if !Overflows(d, rules) { CoveredIsWalkable(d, Parse64(d, rules, capacity).value); }
  }

  // Accepted in DER mode: as long as nothing overflows, writing the walked tree gives back the input octet for octet
  // exactly when every tag number of the input is minimal.
  lemma DerReserializes(d: seq<byte>, capacity: nat)
    requires |d| < TWO_TO_THE_64 && Parse64(d, DER, capacity).Ok?
    ensures var ns := Parse64(d, DER, capacity).value;
            && (Walkable(d, ns) <==> !Overflows(d, DER))
            && (!Overflows(d, DER) ==>
                  (Encodable(TreeAt(d, ns, 0)) && Encode(TreeAt(d, ns, 0)) == d <==> MinimalTags(d, ns)))
  {
    hide Parse64, Overflows, Encode, Flatten, MinimalTag, Walkable, TreeAt, MinimalTags, Nested, Covered;
    ParsedIsWalkable(d, DER, capacity);
    var ns := Parse64(d, DER, capacity).value;
    ParseStructure(d, DER, capacity);
    if !Overflows(d, DER) {
      var t := TreeAt(d, ns, 0);
      if MinimalTags(d, ns) {
        DerCodec(d, capacity, ns);
        var t' :| IsEncodingOf(d, 0, |d|, t') && Fits(t', 1, capacity) && ns == Flatten(t', 0, 1);
        assert ns[0..0 + Size(t')] == ns && d[0..|d|] == d;
        WalkRecovers(d, ns, 0, t', 0, 1);
      }
      if Encodable(t) && Encode(t) == d {
        RoundTrip(t, capacity);
        assert d[0..|d|] == d;
        FlattenedTags(d, 0, t, 1);
      }
    }
  }

  // A tag that DER mode accepts and that is not written back: the leading zero group of tag 31 is lost.
  lemma PaddedTagShrinks()
    ensures var d: seq<byte> := [0x1F, 0x80, 0x1F, 0x00];
            && Parse64(d, DER, 1).Ok? && Walkable(d, Parse64(d, DER, 1).value)
            && Encode(TreeAt(d, Parse64(d, DER, 1).value, 0)) == [0x1F, 0x1F, 0x00]
  {
    hide Parse, Parse64, Overflows, Walkable, ToDigits, EncodeIdentifier;
    var d: seq<byte>, id := [0x1F, 0x80, 0x1F, 0x00], Identifier(Universal, 31);
    PaddedTagReads(d, id);
    ParseAgrees(d, DER, 1);
    ParsedIsWalkable(d, DER, 1);
    assert TreeAt(d, Parse64(d, DER, 1).value, 0) == Prim(id, []);
    Tag31(id);
  }

  lemma PaddedTagReads(d: seq<byte>, id: Identifier)
    requires d == [0x1F, 0x80, 0x1F, 0x00] && id == Identifier(Universal, 31)
    ensures Parse(d, DER, 1) == Ok([Primitive(id, 0, 4, 0, 1)])
  {
    hide ReadIdentifier, ReadLength, ReadDefinite, ReadIndefinite;
    PaddedHeader(d, id);
    assert ReadContents(d, 0, id, false, Definite(0), 4, DER, 1, 1) == Ok(Parsed([Primitive(id, 0, 4, 0, 1)], 4));
    assert ReadNode(d, 0, DER, 1, 1) == Ok(Parsed([Primitive(id, 0, 4, 0, 1)], 4));
  }

  lemma PaddedHeader(d: seq<byte>, id: Identifier)
    requires d == [0x1F, 0x80, 0x1F, 0x00] && id == Identifier(Universal, 31)
    ensures ReadIdentifier(d, 0) == Ok((id, false, 3)) && ReadLength(d, 3, DER) == Ok((Definite(0), 4))
  {
    assert ReadBase128(d, 1, 0, 0) == ReadBase128(d, 2, 0, 1) == Ok((31, 3));
  }

  lemma Tag31(id: Identifier)
    requires id == Identifier(Universal, 31)
    ensures EncodeIdentifier(id, false) == [0x1F, 0x1F]
  {
    assert ToDigits(128, 31) == ToDigits(128, 0) + [31] == [31];
  }

  // ---------------------------------------------------------------- BER to DER

  // A node without its position: what of it a rewriting has to keep.
  datatype Shape = Shape(id: Identifier, constructed: bool, depth: nat, subtreeSize: nat, data: seq<byte>)

  function ShapeOf(d: seq<byte>, n: Node): Shape
    requires n.data.Some? ==> n.data.value + n.dataLength <= |d|
  {
    Shape(n.id, n.constructed, n.depth, n.subtreeSize, if n.constructed then [] else Data(d, n))
  }

  function Shapes(d: seq<byte>, ns: seq<Node>): (r: seq<Shape>)
    requires InRange(d, ns)
    ensures |r| == |ns| && forall i :: 0 <= i < |ns| ==> r[i] == ShapeOf(d, ns[i])
  {
    seq(|ns|, i requires 0 <= i < |ns| => ShapeOf(d, ns[i]))
  }

  function TreeShapes(t: Tlv, depth: nat): (r: seq<Shape>)
    ensures |r| == Size(t)
    decreases t, 1
  {
    match t
    case Prim(id, content) => [Shape(id, false, depth, 1, content)]
    case Cons(id, children) => [Shape(id, true, depth, Size(t), [])] + RowShapes(children, depth + 1)
  }

  function RowShapes(ts: seq<Tlv>, depth: nat): (r: seq<Shape>)
    ensures |r| == SizeAll(ts)
    decreases ts, 0
  {
    if ts == [] then [] else TreeShapes(ts[0], depth) + RowShapes(ts[1..], depth)
  }

  lemma ShapesConcat(d: seq<byte>, a: seq<Node>, b: seq<Node>)
    requires InRange(d, a) && InRange(d, b)
    ensures InRange(d, a + b) && Shapes(d, a + b) == Shapes(d, a) + Shapes(d, b)
  {
  }

  lemma {:induction false} FlattenShapes(d: seq<byte>, t: Tlv, off: nat, depth: nat)
    requires At(d, off, Encode(t))
    ensures InRange(d, Flatten(t, off, depth)) && Shapes(d, Flatten(t, off, depth)) == TreeShapes(t, depth)
    decreases t, 1
  {
    hide EncodeHeader, FlattenAll;
    match t
    case Prim(id, content) =>
      AtConcat(d, off, EncodeHeader(id, false, |content|), content);
    case Cons(id, children) =>
      var header := EncodeHeader(id, true, |EncodeAll(children)|);
      AtConcat(d, off, header, EncodeAll(children));
      var kids := FlattenAll(children, off + |header|, depth + 1);
      FlattenShapesAll(d, children, off + |header|, depth + 1);
      var head := [Closed(id, off, off + |Encode(t)|, depth, Size(t))];
      ShapesConcat(d, head, kids);
      assert Shapes(d, head) == [Shape(id, true, depth, Size(t), [])];
  }

  lemma {:induction false} FlattenShapesAll(d: seq<byte>, ts: seq<Tlv>, off: nat, depth: nat)
    requires At(d, off, EncodeAll(ts))
    ensures InRange(d, FlattenAll(ts, off, depth)) && Shapes(d, FlattenAll(ts, off, depth)) == RowShapes(ts, depth)
    decreases ts, 0
  {
    hide Encode, Flatten, Size, TreeShapes, ShapeOf;
    if ts != [] {
      AtConcat(d, off, Encode(ts[0]), EncodeAll(ts[1..]));
      var a, b := Flatten(ts[0], off, depth), FlattenAll(ts[1..], off + |Encode(ts[0])|, depth);
      FlattenShapes(d, ts[0], off, depth);
      FlattenShapesAll(d, ts[1..], off + |Encode(ts[0])|, depth);
      ShapesConcat(d, a, b);
    }
  }

  // The octets a rewritten node may take beyond those it was read from: at most six for the
  // identifier and nine for the length, against at least two.
  const GROWTH := 13

  const SIZE_LIMIT: nat := 0x2000_0000_0000_0000

  // What walking a parsed subtree gives: the same shapes, within the limits, and from an input of moderate size not
  // much larger.
  ghost predicate WalksTo(d: seq<byte>, ns: seq<Node>, depth: nat, t: Tlv, span: nat) {
    && InRange(d, ns) && Shapes(d, ns) == TreeShapes(t, depth)
    && depth + Height(t) <= MAX_DEPTH + 1
    && (|Encode(t)| < TWO_TO_THE_64 ==> Encodable(t))
    && (|d| < SIZE_LIMIT ==> |Encode(t)| <= span + GROWTH * Size(t))
  }

  ghost predicate RowWalksTo(d: seq<byte>, ns: seq<Node>, depth: nat, ts: seq<Tlv>, span: nat) {
    && InRange(d, ns) && Shapes(d, ns) == RowShapes(ts, depth)
    && depth + HeightAll(ts) <= MAX_DEPTH + 1
    && (|EncodeAll(ts)| < TWO_TO_THE_64 ==> AllEncodable(ts))
    && (|d| < SIZE_LIMIT ==> |EncodeAll(ts)| <= span + GROWTH * SizeAll(ts))
  }

  lemma HeaderSize(id: Identifier, constructed: bool, length: nat)
    requires id.number < TWO_TO_THE_32 && length < TWO_TO_THE_64
    ensures |EncodeHeader(id, constructed, length)| <= GROWTH + 2
  {
    Pow128To5();
    DigitCount(128, id.number, MAX_TAG_GROUPS);
    LengthOctetCount(length);
  }

  ghost predicate Shallow(ns: seq<Node>) {
    forall i :: 0 <= i < |ns| ==> ns[i].depth <= MAX_DEPTH
  }

  lemma ContentFacts(d: seq<byte>, n: Node, from: nat, to: nat)
    requires ContentRange(d, n, from, to)
    ensures n.id.number < TWO_TO_THE_32 && n.start + 2 <= from <= to <= End(n)
  {
  }

  lemma WalkedLeaf(d: seq<byte>, n: Node)
    requires !n.constructed && n.data.Some? && n.subtreeSize == 1 && n.depth <= MAX_DEPTH && |d| < TWO_TO_THE_64
    requires n.data.value + n.dataLength <= |d| && n.dataLength + 2 <= n.encodedLength && n.id.number < TWO_TO_THE_32
    ensures WalksTo(d, [n], n.depth, Prim(n.id, Data(d, n)), n.encodedLength)
  {
    hide EncodeHeader;
    HeaderSize(n.id, false, n.dataLength);
    assert Shapes(d, [n]) == [ShapeOf(d, n)];
  }

  lemma WalkedNode(d: seq<byte>, n: Node, kids: seq<Node>, ts: seq<Tlv>, span: nat)
    requires n.constructed && n.data.None? && n.subtreeSize == 1 + |kids| && n.depth <= MAX_DEPTH
    requires n.id.number < TWO_TO_THE_32 && span + 2 <= n.encodedLength
    requires RowWalksTo(d, kids, n.depth + 1, ts, span)
    requires |d| < SIZE_LIMIT ==> span + GROWTH * |kids| < TWO_TO_THE_64
    ensures WalksTo(d, [n] + kids, n.depth, Cons(n.id, ts), n.encodedLength)
  {
    hide EncodeHeader, RowShapes, HeightAll, EncodeAll, AllEncodable;
    if |d| < SIZE_LIMIT { HeaderSize(n.id, true, |EncodeAll(ts)|); }
    ShapesConcat(d, [n], kids);
    assert Shapes(d, [n]) == [Shape(n.id, true, n.depth, n.subtreeSize, [])];
    assert |kids| == SizeAll(ts);
    assert Shapes(d, [n] + kids) == TreeShapes(Cons(n.id, ts), n.depth);
  }

  lemma WalkedRow(d: seq<byte>, a: seq<Node>, b: seq<Node>, depth: nat, t: Tlv, ts: seq<Tlv>, span: nat, rest: nat)
    requires WalksTo(d, a, depth, t, span) && RowWalksTo(d, b, depth, ts, rest)
    ensures RowWalksTo(d, a + b, depth, [t] + ts, span + rest)
    ensures SizeAll([t] + ts) == Size(t) + SizeAll(ts)
  {
    hide TreeShapes, Encode, Encodable, Height, Size;
    assert ([t] + ts)[1..] == ts;
    ShapesConcat(d, a, b);
    assert Shapes(d, a + b) == RowShapes([t] + ts, depth);
  }

  lemma {:induction false} WalkSubtree(d: seq<byte>, ns: seq<Node>, i: nat)
    requires 2 * |ns| <= |d| < TWO_TO_THE_64
    requires Walkable(d, ns) && Shallow(ns) && i < |ns|
    requires IsSubtree(d, ns[i..i + ns[i].subtreeSize], ns[i].depth)
    ensures WalksTo(d, ns[i..i + ns[i].subtreeSize], ns[i].depth, TreeAt(d, ns, i), ns[i].encodedLength)
    decreases |ns| - i, 0
  {
    hide IsForest, ContentRange, TreesFrom, WalksTo, RowWalksTo;
    var n, end := ns[i], i + ns[i].subtreeSize;
    var sub := ns[i..end];
    assert sub[0] == n && sub[1..] == ns[i + 1..end] && sub == [n] + sub[1..];
    if n.constructed {
      var from: nat, to: nat :| ContentRange(d, n, from, to) && IsForest(d, sub[1..], n.depth + 1, from, to);
      ContentFacts(d, n, from, to);
      WalkForest(d, ns, i + 1, end, n.depth, from, to);
      WalkedNode(d, n, sub[1..], TreesFrom(d, ns, i + 1, end, n.depth), to - from);
    } else {
      ContentFacts(d, n, n.data.value, n.data.value + n.dataLength);
      WalkedLeaf(d, n);
      assert sub == [n];
    }
  }

  lemma {:induction false} WalkForest(d: seq<byte>, ns: seq<Node>, current: nat, end: nat, depth: nat, from: nat,
                                      to: nat)
    requires 2 * |ns| <= |d| < TWO_TO_THE_64 && from <= to <= |d| && depth <= MAX_DEPTH
    requires Walkable(d, ns) && Shallow(ns) && current <= end <= |ns|
    requires IsForest(d, ns[current..end], depth + 1, from, to)
    ensures RowWalksTo(d, ns[current..end], depth + 1, TreesFrom(d, ns, current, end, depth), to - from)
    decreases |ns| - current, 1
  {
    hide IsSubtree, TreeAt, TreesFrom, WalksTo, RowWalksTo;
    if current == end {
      NoTrees(d, ns, current, depth, to - from);
    } else {
      var n := ns[current];
      var mid := current + n.subtreeSize;
      RowHead(d, ns, depth + 1, current, end, from, to);
      ForestSpan(d, ns[mid..end], depth + 1, End(n), to);
      WalkSubtree(d, ns, current);
      WalkForest(d, ns, mid, end, depth, End(n), to);
      WalkedRow(d, ns[current..mid], ns[mid..end], depth + 1, TreeAt(d, ns, current), TreesFrom(d, ns, mid, end, depth),
                n.encodedLength, to - End(n));
      assert ns[current..end] == ns[current..mid] + ns[mid..end];
      NextTree(d, ns, current, end, depth);
    }
  }

  lemma NoTrees(d: seq<byte>, ns: seq<Node>, current: nat, depth: nat, span: nat)
    requires Walkable(d, ns) && current <= |ns| && depth <= MAX_DEPTH
    ensures RowWalksTo(d, ns[current..current], depth + 1, TreesFrom(d, ns, current, current, depth), span)
  {
    assert ns[current..current] == [];
  }

  lemma NextTree(d: seq<byte>, ns: seq<Node>, current: nat, end: nat, depth: nat)
    requires Walkable(d, ns) && current < end <= |ns| && ns[current].depth == depth + 1
    ensures TreesFrom(d, ns, current, end, depth)
         == [TreeAt(d, ns, current)] + TreesFrom(d, ns, current + ns[current].subtreeSize, end, depth)
  {
    hide TreeAt;
  }

  // Any input the parser accepts where nothing overflows, BER or DER: writing the walked tree out gives an input that
  // DER mode accepts with the same capacity and whose node array has the same shapes, node by node, unless it is
  // larger than any input can be. From below 2^61 octets it is not.
  lemma BerToDer(d: seq<byte>, rules: Rules, capacity: nat)
    requires |d| < TWO_TO_THE_64 && Parse64(d, rules, capacity).Ok?
    ensures var ns := Parse64(d, rules, capacity).value;
            && (Walkable(d, ns) <==> !Overflows(d, rules))
            && (Walkable(d, ns) ==>
                  var d' := Encode(TreeAt(d, ns, 0));
                  && (|d| < SIZE_LIMIT ==> |d'| < TWO_TO_THE_64)
                  && (|d'| < TWO_TO_THE_64 ==> Rewritten(d, ns, d', Parse64(d', DER, capacity))))
  {
    hide Parse, Parse64, Overflows, Walkable, Encode, TreeAt, IsSubtree, TreeShapes, Encodable, Nested;
    ParsedIsWalkable(d, rules, capacity);
    ParseStructure(d, rules, capacity);
    ParseAgrees(d, rules, capacity);
    var ns := Parse64(d, rules, capacity).value;
    if !Overflows(d, rules) {
      assert ns[0..0 + ns[0].subtreeSize] == ns;
      WalkSubtree(d, ns, 0);
      var t := TreeAt(d, ns, 0);
      assert |TreeShapes(t, 1)| == Size(t);
      if |Encode(t)| < TWO_TO_THE_64 { RewrittenTree(d, ns, t, capacity); }
    }
  }

  // The nodes of an accepted rewriting have the shapes of those it was made from.
  ghost predicate Rewritten(d: seq<byte>, ns: seq<Node>, d': seq<byte>, r: Result<seq<Node>>) {
    r.Ok? && InRange(d, ns) && InRange(d', r.value) && Shapes(d', r.value) == Shapes(d, ns)
  }

  lemma RewrittenTree(d: seq<byte>, ns: seq<Node>, t: Tlv, capacity: nat)
    requires InRange(d, ns) && Shapes(d, ns) == TreeShapes(t, 1) && Encodable(t) && |Encode(t)| < TWO_TO_THE_64
    requires Height(t) <= MAX_DEPTH && |ns| <= capacity
    ensures Rewritten(d, ns, Encode(t), Parse64(Encode(t), DER, capacity))
  {
    hide Parse64, Encode, Flatten, TreeShapes, Encodable;
    assert |TreeShapes(t, 1)| == Size(t);
    RoundTrip(t, capacity);
    assert Encode(t)[0..|Encode(t)|] == Encode(t);
    FlattenShapes(Encode(t), t, 0, 1);
  }
}
