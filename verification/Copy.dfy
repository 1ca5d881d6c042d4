// Parsing, walking the node array and writing the walked tree through the back-patching serializer: parser,
// child iterator and writer composed, with the exact condition for the input to come back octet for octet.
module Copy {
  import opened Errors
  import opened Positional
  import opened Header
  import opened Reader
  import opened Machine
  import opened Tree
  import opened Structure
  import opened Rewrite
  import opened Serializer
  import opened Parser
  import opened Calls

  ghost predicate Tagged(ns: seq<Node>) {
    forall i :: 0 <= i < |ns| ==> ns[i].id.number < TWO_TO_THE_32
  }

  lemma ParsedIsTagged(d: seq<byte>, rules: Rules, capacity: nat)
    requires |d| < TWO_TO_THE_64 && Parse64(d, rules, capacity).Ok? && !Overflows(d, rules)
    ensures Tagged(Parse64(d, rules, capacity).value)
  {
    hide Parse64, Overflows, ContentRange, IsForest, Nested;
    ParseStructure(d, rules, capacity);
    var ns := Parse64(d, rules, capacity).value;
    forall i | 0 <= i < |ns| ensures ns[i].id.number < TWO_TO_THE_32 {
      SubtreeIsTagged(d, ns[i..i + ns[i].subtreeSize], ns[i].depth);
    }
  }

  lemma SubtreeIsTagged(d: seq<byte>, ns: seq<Node>, depth: nat)
    requires IsSubtree(d, ns, depth)
    ensures ns[0].id.number < TWO_TO_THE_32
  {
    hide ContentRange, IsForest;
    var n := ns[0];
    if n.constructed {
      var from: nat, to: nat :| ContentRange(d, n, from, to);
      ContentFacts(d, n, from, to);
    } else {
      ContentFacts(d, n, n.data.value, n.data.value + n.dataLength);
    }
  }

  // The calls for a walked tree carry only tags and lengths that the C types hold.
  lemma {:induction false} WalkIsTyped(d: seq<byte>, ns: seq<Node>, i: nat)
    requires Walkable(d, ns) && Tagged(ns) && |d| < TWO_TO_THE_64 && i < |ns|
    ensures Typed(CallOf(TreeAt(d, ns, i)))
    decreases |ns| - i, 0
  {
    hide Advance, TreesFrom, CallsOf, AllTyped;
    var n := ns[i];
    if n.constructed { RowIsTyped(d, ns, i + 1, i + n.subtreeSize, n.depth); }
  }

  lemma {:induction false} RowIsTyped(d: seq<byte>, ns: seq<Node>, current: nat, end: nat, parentDepth: nat)
    requires Walkable(d, ns) && Tagged(ns) && |d| < TWO_TO_THE_64 && end <= |ns|
    ensures AllTyped(CallsOf(TreesFrom(d, ns, current, end, parentDepth)))
    decreases |ns| - current, 1
  {
    hide TreeAt, CallOf, Typed;
    var (child, next) := Advance(ns, current, end, parentDepth);
    if child.Some? {
      WalkIsTyped(d, ns, child.value);
      RowIsTyped(d, ns, next, end, parentDepth);
      var t, ts := TreeAt(d, ns, child.value), TreesFrom(d, ns, next, end, parentDepth);
      assert CallsOf([t] + ts) == [CallOf(t)] + CallsOf(ts) by { assert ([t] + ts)[1..] == ts; }
      assert ([CallOf(t)] + CallsOf(ts))[1..] == CallsOf(ts);
    }
  }

  // Where the octets stay below the range of size_t, so does every length among them.
  lemma {:induction false} TypedIsEncodable(t: Tlv)
    requires Typed(CallOf(t)) && |Encode(t)| < TWO_TO_THE_64
    ensures Encodable(t)
    decreases t, 1
  {
    hide EncodeHeader, EncodeAll, AllEncodable, AllTyped, CallsOf;
    if t.Cons? { AllTypedAreEncodable(t.children); }
  }

  lemma {:induction false} AllTypedAreEncodable(ts: seq<Tlv>)
    requires AllTyped(CallsOf(ts)) && |EncodeAll(ts)| < TWO_TO_THE_64
    ensures AllEncodable(ts)
    decreases ts, 0
  {
    hide Encode, Encodable, Typed, CallOf;
    if ts != [] {
      assert CallsOf(ts)[1..] == CallsOf(ts[1..]);
      TypedIsEncodable(ts[0]);
      AllTypedAreEncodable(ts[1..]);
    }
  }

  // Placeholders never run out below 2^32 octets.
  lemma {:induction false} SmallIsShort(t: Tlv)
    requires |Encode(t)| < TWO_TO_THE_32
    ensures Short(CallOf(t))
    decreases t, 1
  {
    hide EncodeHeader, EncodeAll, ImageAll, AllShort, CallsOf;
    if t.Cons? {
      CallImages(t.children);
      SmallAreShort(t.children);
    }
  }

  lemma {:induction false} SmallAreShort(ts: seq<Tlv>)
    requires |EncodeAll(ts)| < TWO_TO_THE_32
    ensures AllShort(CallsOf(ts))
    decreases ts, 0
  {
    hide Encode, Short, CallOf;
    if ts != [] {
      assert CallsOf(ts)[1..] == CallsOf(ts[1..]);
      SmallIsShort(ts[0]);
      SmallAreShort(ts[1..]);
    }
  }

  lemma {:induction false} NestingIsHeight(t: Tlv)
    ensures Nesting(CallOf(t)) <= Height(t)
    decreases t, 1
  {
    if t.Cons? { NestingsAreHeights(t.children); }
  }

  lemma {:induction false} NestingsAreHeights(ts: seq<Tlv>)
    ensures NestingAll(CallsOf(ts)) <= HeightAll(ts)
    decreases ts, 0
  {
    hide Nesting, CallOf, Height;
    if ts != [] {
      assert CallsOf(ts)[1..] == CallsOf(ts[1..]);
      NestingIsHeight(ts[0]);
      NestingsAreHeights(ts[1..]);
    }
  }

  // An input that DER mode accepts and where nothing overflows: the walked tree is written as the input exactly when
  // every tag number of the input is minimal, and then 200 octets beyond its size are room enough below 2^32 octets.
  lemma DerCopies(d: seq<byte>, capacity: nat)
    requires |d| < TWO_TO_THE_64 && Parse64(d, DER, capacity).Ok?
    ensures var ns := Parse64(d, DER, capacity).value;
            && (Walkable(d, ns) <==> !Overflows(d, DER))
            && (!Overflows(d, DER) ==>
                  var c := CallOf(TreeAt(d, ns, 0));
                  && Typed(c)
                  && (Image(c) == d <==> MinimalTags(d, ns))
                  && (MinimalTags(d, ns) ==>
                        Peak(c) <= |d| + 4 * MAX_DEPTH && (|d| < TWO_TO_THE_32 ==> Short(c))))
  {
    hide Parse64, Overflows, Walkable, TreeAt, CallOf, Typed, Short, Peak, Image, Encode, Encodable,
         MinimalTags, Flatten;
    ParsedIsWalkable(d, DER, capacity);
    DerReserializes(d, capacity);
    if !Overflows(d, DER) {
      ParsedIsTagged(d, DER, capacity);
      var ns := Parse64(d, DER, capacity).value;
      var t := TreeAt(d, ns, 0);
      WalkIsTyped(d, ns, 0);
      CallImage(t);
      if Encode(t) == d {
        TypedIsEncodable(t);
        RoundTrip(t, capacity);
        PeakBound(CallOf(t));
        NestingIsHeight(t);
        if |d| < TWO_TO_THE_32 { SmallIsShort(t); }
      }
    }
  }

  // What parsing d into an array of this capacity and copying it leaves in an empty buffer. A stored slice outside the
  // input is not data that asn1_serialize_primitive may be given, so such an array is not copied.
  ghost predicate Copied(d: seq<byte>, rules: Rules, capacity: nat, s: Status, after: seq<byte>, room: nat) {
    var parsed := Parse64(d, rules, capacity);
    if parsed.Err? then s == StatusOf(parsed) && after == []
    else if Overflows(d, rules) then s == Fault(TruncatedField, 0) && after == []
    else
      && Walkable(d, parsed.value)
      && var t := TreeAt(d, parsed.value, 0);
      && Ran(s, [], after, room, Peak(CallOf(t)), Short(CallOf(t)), Encode(t))
      && (rules == DER && s == Done ==> (after == d <==> MinimalTags(d, parsed.value)))
  }

  // Parse an input, walk its node array and write the tree: done exactly when the parser accepts, nothing overflows,
  // the buffer has room and the placeholders suffice, and then the buffer holds the encoding of the walked tree. Of a
  // DER input that is the input itself exactly when its tags are minimal.
  method CopyInput(d: seq<byte>, rules: Rules, result: ParseResult, w: Writer) returns (s: Status)
    requires w.Valid() && w.Contents() == [] && w.buffer.Length < TWO_TO_THE_64 && result.Valid()
    requires |d| < TWO_TO_THE_64
    modifies w`length, w.buffer, result, result.nodes
    ensures w.Valid() && result.Valid()
    ensures var parsed := Parse64(d, rules, result.nodes.Length);
            && (parsed.Ok? ==> result.Stored() == parsed.value)
            && Copied(d, rules, result.nodes.Length, s, w.Contents(), w.buffer.Length)
    ensures var parsed := Parse64(d, DER, result.nodes.Length);
            rules == DER && parsed.Ok? && !Overflows(d, DER) && MinimalTags(d, parsed.value)
            && |d| < TWO_TO_THE_32 && |d| + 4 * MAX_DEPTH <= w.buffer.Length
            ==> s == Done && w.Contents() == d
  {
    hide Parse, Parse64, Overflows, InRange, Walkable, TreeAt, CallOf, Typed, Short, Peak, Image, Encode, MinimalTags;
    ghost var parsed := Parse64(d, rules, result.nodes.Length);
    :- ParseInput(d, rules, result);
    ParseAgrees(d, rules, result.nodes.Length);
    var ns := result.nodes[..result.count];
    if !InRange(d, ns) { return Fault(TruncatedField, 0); }
    ParsedIsWalkable(d, rules, result.nodes.Length);
    ParsedIsTagged(d, rules, result.nodes.Length);
    WalkIsTyped(d, ns, 0);
    if rules == DER { DerCopies(d, result.nodes.Length); }
    CallImage(TreeAt(d, ns, 0));
    s := Run(w, CallOf(TreeAt(d, ns, 0)));
  }
}
