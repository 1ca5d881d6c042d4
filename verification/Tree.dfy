// TLV trees, their definite-length encoding, and the theorem that the parser in DER mode inverts it.
module Tree {
  import opened Errors
  import opened Positional
  import opened Header
  import opened Reader
  import opened Machine

  datatype Tlv =
    | Prim(id: Identifier, content: seq<byte>)
    | Cons(id: Identifier, children: seq<Tlv>)

  function EncodeHeader(id: Identifier, constructed: bool, length: nat): (bs: seq<byte>)
    ensures |bs| >= 2
  {
    EncodeIdentifier(id, constructed) + EncodeLength(length)
  }

  function Encode(t: Tlv): (bs: seq<byte>)
    ensures |bs| >= 2
    decreases t, 1
  {
    match t
    case Prim(id, content) => EncodeHeader(id, false, |content|) + content
    case Cons(id, children) => EncodeHeader(id, true, |EncodeAll(children)|) + EncodeAll(children)
  }

  function EncodeAll(ts: seq<Tlv>): seq<byte>
    decreases ts, 0
  {
    if ts == [] then [] else Encode(ts[0]) + EncodeAll(ts[1..])
  }

  // 32-bit tags and lengths of type size_t.
  predicate Encodable(t: Tlv)
    decreases t, 1
  {
    t.id.number < TWO_TO_THE_32 &&
    match t
    case Prim(_, content) => |content| < TWO_TO_THE_64
    case Cons(_, children) => |EncodeAll(children)| < TWO_TO_THE_64 && AllEncodable(children)
  }

  predicate AllEncodable(ts: seq<Tlv>)
    decreases ts, 0
  {
    ts != [] ==> Encodable(ts[0]) && AllEncodable(ts[1..])
  }

  function Size(t: Tlv): (n: nat)
    ensures n >= 1
    decreases t, 1
  {
    match t
    case Prim(_, _) => 1
    case Cons(_, children) => 1 + SizeAll(children)
  }

  function SizeAll(ts: seq<Tlv>): nat
    decreases ts, 0
  {
    if ts == [] then 0 else Size(ts[0]) + SizeAll(ts[1..])
  }

  // The levels of t, the root counting one.
  function Height(t: Tlv): (n: nat)
    ensures n >= 1
    decreases t, 1
  {
    match t
    case Prim(_, _) => 1
    case Cons(_, children) => 1 + HeightAll(children)
  }

  function HeightAll(ts: seq<Tlv>): nat
    decreases ts, 0
  {
    if ts == [] then 0 else Max(Height(ts[0]), HeightAll(ts[1..]))
  }

  function Max(a: nat, b: nat): nat { if a < b then b else a }

  // The pre-order node array of t when its encoding starts at off.
  function Flatten(t: Tlv, off: nat, depth: nat): (ns: seq<Node>)
    ensures |ns| == Size(t)
    decreases t, 1
  {
    match t
    case Prim(id, content) =>
      var start := off + |EncodeHeader(id, false, |content|)|;
      [Primitive(id, off, start, |content|, depth)]
    case Cons(id, children) =>
      var start := off + |EncodeHeader(id, true, |EncodeAll(children)|)|;
      [Closed(id, off, off + |Encode(t)|, depth, Size(t))] + FlattenAll(children, start, depth + 1)
  }

  function FlattenAll(ts: seq<Tlv>, off: nat, depth: nat): (ns: seq<Node>)
    ensures |ns| == SizeAll(ts)
    decreases ts, 0
  {
    if ts == [] then [] else Flatten(ts[0], off, depth) + FlattenAll(ts[1..], off + |Encode(ts[0])|, depth)
  }

  // The limits of the parser: fifty levels and the free places of the node array.
  predicate Fits(t: Tlv, depth: nat, room: nat) {
    depth + Height(t) <= MAX_DEPTH + 1 && Size(t) <= room
  }

  predicate FitsAll(ts: seq<Tlv>, depth: nat, room: nat) {
    depth + HeightAll(ts) <= MAX_DEPTH + 1 && SizeAll(ts) <= room
  }

  // ---------------------------------------------------------------- encoding, then parsing

  ghost predicate At(d: seq<byte>, off: nat, bs: seq<byte>) {
    off + |bs| <= |d| && d[off..off + |bs|] == bs
  }

  lemma AtConcat(d: seq<byte>, off: nat, a: seq<byte>, b: seq<byte>)
    ensures At(d, off, a + b) <==> At(d, off, a) && At(d, off + |a|, b)
  {
    if At(d, off, a + b) {
      assert d[off..off + |a|] == d[off..off + |a + b|][..|a|] == a;
      assert d[off + |a|..off + |a| + |b|] == d[off..off + |a + b|][|a|..] == b;
    }
    if At(d, off, a) && At(d, off + |a|, b) {
      assert d[off..off + |a + b|] == d[off..off + |a|] + d[off + |a|..off + |a| + |b|];
    }
  }

  // What the parser sees of a definite-length header.
  lemma HeaderReads(d: seq<byte>, off: nat, id: Identifier, constructed: bool, length: nat)
    requires id.number < TWO_TO_THE_32 && length < TWO_TO_THE_64
    requires At(d, off, EncodeHeader(id, constructed, length))
    ensures HeaderAt(d, off, id, constructed, length, off + |EncodeHeader(id, constructed, length)|)
    ensures MinimalTag(d, off)
  {
    var afterId := off + |EncodeIdentifier(id, constructed)|;
    AtConcat(d, off, EncodeIdentifier(id, constructed), EncodeLength(length));
    IdentifierCodec(d, off, id, constructed, afterId);
    LengthCodec(d, afterId, length, afterId + |EncodeLength(length)|);
  }

  // The header octets read in DER mode at off, with the content starting at "content".
  ghost predicate HeaderAt(d: seq<byte>, off: nat, id: Identifier, constructed: bool, length: nat, content: nat) {
    && off <= |d|
    && ReadIdentifier(d, off).Ok? && ReadIdentifier(d, off).value.0 == id
    && ReadIdentifier(d, off).value.1 == constructed
    && ReadLength(d, ReadIdentifier(d, off).value.2, DER) == Ok((Definite(length), content))
  }

  lemma PrimitiveNode(d: seq<byte>, off: nat, id: Identifier, length: nat, content: nat, depth: nat, room: nat)
    requires HeaderAt(d, off, id, false, length, content) && content + length <= |d|
    ensures ReadNode(d, off, DER, depth, room) ==
            if depth > MAX_DEPTH then Err(ExcessiveDepth, off)
            else if room == 0 then Err(CapacityExceeded, 0)
            else Ok(Parsed([Primitive(id, off, content, length, depth)], content + length))
  {
    hide ReadIdentifier, ReadLength;
  }

  lemma ConstructedNode(d: seq<byte>, off: nat, id: Identifier, length: nat, content: nat, depth: nat, room: nat)
    requires HeaderAt(d, off, id, true, length, content) && content + length <= |d|
    ensures ReadNode(d, off, DER, depth, room) ==
            if depth > MAX_DEPTH then Err(ExcessiveDepth, off)
            else if room == 0 then Err(CapacityExceeded, 0)
            else match ReadDefinite(d, content, content + length, DER, depth + 1, room - 1)
              case Ok(kids) => Ok(Parsed([Closed(id, off, kids.next, depth, 1 + |kids.nodes|)] + kids.nodes, kids.next))
              case Err(code, at) => Err(code, at)
  {
    hide ReadIdentifier, ReadLength;
  }

  // Outside the limits the error is one of those that apply.
  ghost predicate OutOfLimits(r: Result<Parsed>, tooDeep: bool, tooMany: bool) {
    r.Err? && ((r.code == ExcessiveDepth && tooDeep) || (r == Err(CapacityExceeded, 0) && tooMany))
  }

  // Reading an encoding gives its flattening if the tree is within the parser's limits, and fails otherwise.
  lemma {:induction false} EncodedReads(d: seq<byte>, off: nat, t: Tlv, depth: nat, room: nat)
    requires Encodable(t) && At(d, off, Encode(t))
    ensures var r := ReadNode(d, off, DER, depth, room);
            if Fits(t, depth, room) then r == Ok(Parsed(Flatten(t, off, depth), off + |Encode(t)|))
            else OutOfLimits(r, depth + Height(t) > MAX_DEPTH + 1, Size(t) > room)
    decreases t, 1
  {
    hide ReadNode, ReadDefinite, HeaderAt, EncodeHeader;
    match t
    case Prim(id, content) =>
      AtConcat(d, off, EncodeHeader(id, false, |content|), content);
      HeaderReads(d, off, id, false, |content|);
      PrimitiveNode(d, off, id, |content|, off + |EncodeHeader(id, false, |content|)|, depth, room);
    case Cons(id, children) =>
      var body := EncodeAll(children);
      var start := off + |EncodeHeader(id, true, |body|)|;
      AtConcat(d, off, EncodeHeader(id, true, |body|), body);
      HeaderReads(d, off, id, true, |body|);
      ConstructedNode(d, off, id, |body|, start, depth, room);
      if depth <= MAX_DEPTH && room > 0 {
        AllEncodedRead(d, start, children, depth + 1, room - 1);
      }
  }

  lemma {:induction false} AllEncodedRead(d: seq<byte>, off: nat, ts: seq<Tlv>, depth: nat, room: nat)
    requires AllEncodable(ts) && At(d, off, EncodeAll(ts)) && depth <= MAX_DEPTH + 1
    ensures var end := off + |EncodeAll(ts)|;
            var r := ReadDefinite(d, off, end, DER, depth, room);
            if FitsAll(ts, depth, room) then r == Ok(Parsed(FlattenAll(ts, off, depth), end))
            else OutOfLimits(r, depth + HeightAll(ts) > MAX_DEPTH + 1, SizeAll(ts) > room)
    decreases ts, 0
  {
    hide ReadNode, Encode, Encodable, Flatten, Size, Height;
    if ts != [] {
      AtConcat(d, off, Encode(ts[0]), EncodeAll(ts[1..]));
      EncodedReads(d, off, ts[0], depth, room);
      if Fits(ts[0], depth, room) {
        AllEncodedRead(d, off + |Encode(ts[0])|, ts[1..], depth, room - Size(ts[0]));
      }
    }
  }

  // ---------------------------------------------------------------- encodings are prefix-free

  lemma SameHeader(d: seq<byte>, off: nat, t: Tlv, u: Tlv, n: nat, m: nat)
    requires t.id.number < TWO_TO_THE_32 && u.id.number < TWO_TO_THE_32 && n < TWO_TO_THE_64 && m < TWO_TO_THE_64
    requires At(d, off, EncodeHeader(t.id, t.Cons?, n)) && At(d, off, EncodeHeader(u.id, u.Cons?, m))
    ensures t.id == u.id && t.Cons? == u.Cons? && n == m
  {
    hide EncodeHeader, MinimalTag, At;
    HeaderReads(d, off, t.id, t.Cons?, n);
    HeaderReads(d, off, u.id, u.Cons?, m);
  }

  // No encoding is the beginning of another one, whatever the heights of the trees.
  lemma {:induction false} EncodePrefixFree(d: seq<byte>, off: nat, t: Tlv, u: Tlv)
    requires Encodable(t) && Encodable(u) && At(d, off, Encode(t)) && At(d, off, Encode(u))
    ensures t == u
    decreases t, 1
  {
    hide EncodeHeader, MinimalTag, EncodeAll, AllEncodable;
    var a := if t.Prim? then t.content else EncodeAll(t.children);
    var b := if u.Prim? then u.content else EncodeAll(u.children);
    AtConcat(d, off, EncodeHeader(t.id, t.Cons?, |a|), a);
    AtConcat(d, off, EncodeHeader(u.id, u.Cons?, |b|), b);
    SameHeader(d, off, t, u, |a|, |b|);
    if t.Cons? { AllPrefixFree(d, off + |EncodeHeader(t.id, true, |a|)|, t.children, u.children); }
  }

  lemma {:induction false} AllPrefixFree(d: seq<byte>, off: nat, ts: seq<Tlv>, us: seq<Tlv>)
    requires AllEncodable(ts) && AllEncodable(us) && |EncodeAll(ts)| == |EncodeAll(us)|
    requires At(d, off, EncodeAll(ts)) && At(d, off, EncodeAll(us))
    ensures ts == us
    decreases ts, 0
  {
    hide Encode, Encodable;
    if ts != [] && us != [] {
      AtConcat(d, off, Encode(ts[0]), EncodeAll(ts[1..]));
      AtConcat(d, off, Encode(us[0]), EncodeAll(us[1..]));
      EncodePrefixFree(d, off, ts[0], us[0]);
      AllPrefixFree(d, off + |Encode(ts[0])|, ts[1..], us[1..]);
      assert ts == [ts[0]] + ts[1..] && us == [us[0]] + us[1..];
    }
  }

  // Different trees have different encodings.
  lemma EncodeInjective(t: Tlv, u: Tlv)
    requires Encodable(t) && Encodable(u) && Encode(t) == Encode(u)
    ensures t == u
  {
    hide Encode, Encodable;
    var d := Encode(t);
    assert d[0..|d|] == d;
    EncodePrefixFree(d, 0, t, u);
  }

  // ---------------------------------------------------------------- parsing, then encoding

  predicate MinimalTags(d: seq<byte>, ns: seq<Node>) {
    forall i :: 0 <= i < |ns| ==> MinimalTag(d, ns[i].start)
  }

  lemma TagsSplit(d: seq<byte>, a: seq<Node>, b: seq<Node>)
    ensures MinimalTags(d, a + b) <==> MinimalTags(d, a) && MinimalTags(d, b)
    ensures a != [] ==> (a + b)[0] == a[0]
  {
    hide MinimalTag;
    if MinimalTags(d, a + b) {
      assert forall i :: 0 <= i < |a| ==> a[i] == (a + b)[i];
      assert forall i :: 0 <= i < |b| ==> b[i] == (a + b)[|a| + i];
    }
  }

  lemma HeaderEncodes(d: seq<byte>, off: nat, id: Identifier, constructed: bool, length: nat, content: nat)
    requires HeaderAt(d, off, id, constructed, length, content) && MinimalTag(d, off)
    ensures id.number < TWO_TO_THE_32 && length < TWO_TO_THE_64
    ensures At(d, off, EncodeHeader(id, constructed, length))
    ensures content == off + |EncodeHeader(id, constructed, length)|
  {
    hide ReadIdentifier, ReadLength, EncodeIdentifier, EncodeLength;
    var afterId := ReadIdentifier(d, off).value.2;
    IdentifierCodec(d, off, id, constructed, afterId);
    LengthCodec(d, afterId, length, content);
    AtConcat(d, off, EncodeIdentifier(id, constructed), EncodeLength(length));
  }

  // An accepted node starts with a header and stays within the limits.
  lemma AcceptedNode(d: seq<byte>, off: nat, depth: nat, room: nat)
      returns (id: Identifier, constructed: bool, length: nat, content: nat)
    requires off <= |d| && ReadNode(d, off, DER, depth, room).Ok?
    ensures HeaderAt(d, off, id, constructed, length, content) && content + length <= |d|
    ensures depth <= MAX_DEPTH && room > 0
    ensures ReadNode(d, off, DER, depth, room).value.nodes[0].start == off
  {
    hide ReadIdentifier, ReadLength, ReadDefinite, ReadIndefinite;
    var (id', constructed', afterId) := ReadIdentifier(d, off).value;
    var (length', content') := ReadLength(d, afterId, DER).value;
    id, constructed, length, content := id', constructed', length'.value, content';
  }

  // What DER mode accepts with minimal tags is the encoding of a tree, and the nodes are its flattening.
  lemma {:induction false} AcceptedIsEncoding(d: seq<byte>, off: nat, depth: nat, room: nat) returns (t: Tlv)
    requires off <= |d| && ReadNode(d, off, DER, depth, room).Ok?
    requires MinimalTags(d, ReadNode(d, off, DER, depth, room).value.nodes)
    ensures Encodable(t) && Fits(t, depth, room) && At(d, off, Encode(t))
    ensures ReadNode(d, off, DER, depth, room).value == Parsed(Flatten(t, off, depth), off + |Encode(t)|)
    decreases |d| - off, 0
  {
    hide ReadNode, ReadDefinite, HeaderAt, EncodeHeader, MinimalTag, Advances;
    var id, constructed, length, content := AcceptedNode(d, off, depth, room);
    HeaderEncodes(d, off, id, constructed, length, content);
    var header := EncodeHeader(id, constructed, length);
    if constructed {
      ConstructedNode(d, off, id, length, content, depth, room);
      var kids := ReadDefinite(d, content, content + length, DER, depth + 1, room - 1).value;
      TagsSplit(d, [Closed(id, off, kids.next, depth, 1 + |kids.nodes|)], kids.nodes);
      var children := AcceptedAreEncodings(d, content, content + length, depth + 1, room - 1);
      AtConcat(d, off, header, EncodeAll(children));
      t := Cons(id, children);
    } else {
      PrimitiveNode(d, off, id, length, content, depth, room);
      AtConcat(d, off, header, d[content..content + length]);
      t := Prim(id, d[content..content + length]);
    }
  }

  lemma {:induction false} AcceptedAreEncodings(d: seq<byte>, off: nat, end: nat, depth: nat, room: nat)
      returns (ts: seq<Tlv>)
    requires off <= |d| && depth <= MAX_DEPTH + 1 && ReadDefinite(d, off, end, DER, depth, room).Ok?
    requires MinimalTags(d, ReadDefinite(d, off, end, DER, depth, room).value.nodes)
    ensures AllEncodable(ts) && FitsAll(ts, depth, room) && At(d, off, EncodeAll(ts))
    ensures ReadDefinite(d, off, end, DER, depth, room).value
         == Parsed(FlattenAll(ts, off, depth), off + |EncodeAll(ts)|)
    decreases |d| - off, 1
  {
    hide ReadNode, Encode, Encodable, Flatten, Size, Height, MinimalTags;
    if off < end {
      var first := ReadNode(d, off, DER, depth, room).value;
      var rest := ReadDefinite(d, first.next, end, DER, depth, room - |first.nodes|).value;
      TagsSplit(d, first.nodes, rest.nodes);
      var t := AcceptedIsEncoding(d, off, depth, room);
      var ts' := AcceptedAreEncodings(d, first.next, end, depth, room - |first.nodes|);
      ts := [t] + ts';
      assert ts[1..] == ts';
      AtConcat(d, off, Encode(t), EncodeAll(ts'));
    } else {
      ts := [];
    }
  }

  // ---------------------------------------------------------------- the codec theorem

  // DER parsing with minimal tags and definite-length encoding are inverse: the parser stores ns and
  // stops at next exactly when the octets up to next are the encoding of a tree within its limits
  // and ns is the pre-order flattening of that tree.
  ghost predicate IsEncodingOf(d: seq<byte>, off: nat, next: nat, t: Tlv) {
    Encodable(t) && off <= next <= |d| && d[off..next] == Encode(t)
  }

  lemma PlainNodeCodec(d: seq<byte>, off: nat, depth: nat, room: nat, ns: seq<Node>, next: nat)
    requires off <= |d|
    ensures ReadNode(d, off, DER, depth, room) == Ok(Parsed(ns, next)) && MinimalTags(d, ns)
       <==> exists t :: IsEncodingOf(d, off, next, t) && Fits(t, depth, room) && ns == Flatten(t, off, depth)
  {
    hide ReadNode, Encode, Flatten, MinimalTag;
    if ReadNode(d, off, DER, depth, room) == Ok(Parsed(ns, next)) && MinimalTags(d, ns) {
      var t := AcceptedIsEncoding(d, off, depth, room);
      assert IsEncodingOf(d, off, next, t);
    }
    if t :| IsEncodingOf(d, off, next, t) && Fits(t, depth, room) && ns == Flatten(t, off, depth) {
      EncodedReads(d, off, t, depth, room);
      FlattenedTags(d, off, t, depth);
    }
  }

  // The same of asn1_parse where nothing overflows; what overflows is no encoding.
  lemma DerNodeCodec(d: seq<byte>, off: nat, depth: nat, room: nat, ns: seq<Node>, next: nat)
    requires off <= |d| < TWO_TO_THE_64
    ensures && ReadNode64(d, off, DER, depth, room) == Ok(Parsed(ns, next)) && MinimalTags(d, ns)
            && !MeetsNode(d, off, DER, depth, room)
       <==> exists t :: IsEncodingOf(d, off, next, t) && Fits(t, depth, room) && ns == Flatten(t, off, depth)
  {
    hide ReadNode, ReadNode64, MeetsNode, IsEncodingOf, Fits, Flatten, MinimalTags;
    NodesPart(d, off, DER, depth, room);
    PlainNodeCodec(d, off, depth, room, ns, next);
  }

  lemma {:induction false} FlattenedTags(d: seq<byte>, off: nat, t: Tlv, depth: nat)
    requires Encodable(t) && At(d, off, Encode(t))
    ensures MinimalTags(d, Flatten(t, off, depth))
    decreases t, 1
  {
    hide HeaderAt, MinimalTag, EncodeHeader;
    match t
    case Prim(id, content) =>
      AtConcat(d, off, EncodeHeader(id, false, |content|), content);
      HeaderReads(d, off, id, false, |content|);
    case Cons(id, children) =>
      var header := EncodeHeader(id, true, |EncodeAll(children)|);
      AtConcat(d, off, header, EncodeAll(children));
      HeaderReads(d, off, id, true, |EncodeAll(children)|);
      AllFlattenedTags(d, off + |header|, children, depth + 1);
  }

  lemma {:induction false} AllFlattenedTags(d: seq<byte>, off: nat, ts: seq<Tlv>, depth: nat)
    requires AllEncodable(ts) && At(d, off, EncodeAll(ts))
    ensures MinimalTags(d, FlattenAll(ts, off, depth))
    decreases ts, 0
  {
    hide Encode, Encodable, Flatten, MinimalTag;
    if ts != [] {
      AtConcat(d, off, Encode(ts[0]), EncodeAll(ts[1..]));
      FlattenedTags(d, off, ts[0], depth);
      AllFlattenedTags(d, off + |Encode(ts[0])|, ts[1..], depth);
    }
  }

  lemma PlainCodec(d: seq<byte>, capacity: nat, ns: seq<Node>)
    ensures Parse(d, DER, capacity) == Ok(ns) && MinimalTags(d, ns)
       <==> exists t :: IsEncodingOf(d, 0, |d|, t) && Fits(t, 1, capacity) && ns == Flatten(t, 0, 1)
  {
    hide ReadNode, Encode, Flatten, MinimalTag;
    PlainNodeCodec(d, 0, 1, capacity, ns, |d|);
    if t :| IsEncodingOf(d, 0, |d|, t) && Fits(t, 1, capacity) && ns == Flatten(t, 0, 1) {
      assert d != [];
    }
  }

  // asn1_parse on a whole input.
  lemma DerCodec(d: seq<byte>, capacity: nat, ns: seq<Node>)
    requires |d| < TWO_TO_THE_64
    ensures Parse64(d, DER, capacity) == Ok(ns) && MinimalTags(d, ns) && !Overflows(d, DER)
       <==> exists t :: IsEncodingOf(d, 0, |d|, t) && Fits(t, 1, capacity) && ns == Flatten(t, 0, 1)
  {
    hide Parse, Parse64, Overflows, IsEncodingOf, Fits, Flatten, MinimalTags;
    ParseAgrees(d, DER, capacity);
    PlainCodec(d, capacity, ns);
  }

  lemma EncodedFits(t: Tlv, capacity: nat)
    requires Encodable(t)
    ensures !Overflows(Encode(t), DER) || |Encode(t)| >= TWO_TO_THE_64
    ensures var r := ReadNode(Encode(t), 0, DER, 1, capacity);
            if Fits(t, 1, capacity) then r == Ok(Parsed(Flatten(t, 0, 1), |Encode(t)|))
            else OutOfLimits(r, Height(t) > MAX_DEPTH, Size(t) > capacity)
  {
    hide ReadNode, ReadNode64, MeetsNode, Encode, Flatten, Reaches, InRange;
    var d := Encode(t);
    assert d[0..|d|] == d;
    EncodedReads(d, 0, t, 1, capacity);
    EncodedReads(d, 0, t, 1, |d|);
    if |d| < TWO_TO_THE_64 { NodesPart(d, 0, DER, 1, |d|); }
  }

  // Writing a tree and parsing it back gives its flattening, within the limits of depth and capacity
  // and only there; outside, an error that says which limit it is.
  lemma RoundTrip(t: Tlv, capacity: nat)
    requires Encodable(t) && |Encode(t)| < TWO_TO_THE_64
    ensures !Overflows(Encode(t), DER)
    ensures var r := Parse64(Encode(t), DER, capacity);
            if Height(t) <= MAX_DEPTH && Size(t) <= capacity then r == Ok(Flatten(t, 0, 1))
            else r.Err? && ((r.code == ExcessiveDepth && Height(t) > MAX_DEPTH)
                            || (r == Err(CapacityExceeded, 0) && Size(t) > capacity))
  {
    hide ReadNode, Parse64, Overflows, Encode, Flatten;
    EncodedFits(t, capacity);
    ParseAgrees(Encode(t), DER, capacity);
  }
}
