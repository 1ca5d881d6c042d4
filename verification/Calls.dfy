// Programs of serializer calls: any well-bracketed run of begin, primitive, raw and end. The markers
// live on the caller's stack, and inner shrinking moves bytes only behind the outer ones.
module Calls {
  import opened Errors
  import opened Positional
  import opened Header
  import opened Reader
  import opened Machine
  import opened Tree
  import opened Serializer
  import opened Parser

  datatype Call =
    | WritePrimitive(id: Identifier, data: seq<byte>)
    | WriteRaw(data: seq<byte>)
    | WriteNested(id: Identifier, body: seq<Call>)

  // The recursive definite-length encoding a run stands for.
  function Image(c: Call): seq<byte>
    decreases c, 1
  {
    match c
    case WritePrimitive(id, data) => EncodeHeader(id, false, |data|) + data
    case WriteRaw(data) => data
    case WriteNested(id, body) => EncodeHeader(id, true, |ImageAll(body)|) + ImageAll(body)
  }

  function ImageAll(cs: seq<Call>): seq<byte>
    decreases cs, 0
  {
    if cs == [] then [] else Image(cs[0]) + ImageAll(cs[1..])
  }

  // The octets of capacity a run needs: inside a nested node its full placeholder is still there.
  function Peak(c: Call): nat
    decreases c, 1
  {
    match c
    case WritePrimitive(_, _) => |Image(c)|
    case WriteRaw(data) => |data|
    case WriteNested(id, body) => |EncodeIdentifier(id, true)| + 5 + PeakAll(body)
  }

  function PeakAll(cs: seq<Call>): nat
    decreases cs, 0
  {
    if cs == [] then 0 else Max(Peak(cs[0]), |Image(cs[0])| + PeakAll(cs[1..]))
  }

  // Every nested content length fits the four octets of the placeholder.
  predicate Short(c: Call)
    decreases c, 1
  {
    c.WriteNested? ==> |ImageAll(c.body)| < TWO_TO_THE_32 && AllShort(c.body)
  }

  predicate AllShort(cs: seq<Call>)
    decreases cs, 0
  {
    cs != [] ==> Short(cs[0]) && AllShort(cs[1..])
  }

  // What the C types guarantee: 32-bit tags and size_t lengths.
  predicate Typed(c: Call)
    decreases c, 1
  {
    match c
    case WritePrimitive(id, data) => id.number < TWO_TO_THE_32 && |data| < TWO_TO_THE_64
    case WriteRaw(_) => true
    case WriteNested(id, body) => id.number < TWO_TO_THE_32 && AllTyped(body)
  }

  predicate AllTyped(cs: seq<Call>)
    decreases cs, 0
  {
    cs != [] ==> Typed(cs[0]) && AllTyped(cs[1..])
  }

  function Nesting(c: Call): nat
    decreases c, 1
  {
    if c.WriteNested? then 1 + NestingAll(c.body) else 0
  }

  function NestingAll(cs: seq<Call>): nat
    decreases cs, 0
  {
    if cs == [] then 0 else Max(Nesting(cs[0]), NestingAll(cs[1..]))
  }

  // A run never needs more than the final size plus four octets for each level of nesting.
  lemma {:induction false} PeakBound(c: Call)
    ensures Peak(c) <= |Image(c)| + 4 * Nesting(c)
    decreases c, 1
  {
    hide EncodeIdentifier, EncodeLength;
    if c.WriteNested? { PeakAllBound(c.body); }
  }

  lemma {:induction false} PeakAllBound(cs: seq<Call>)
    ensures PeakAll(cs) <= |ImageAll(cs)| + 4 * NestingAll(cs)
    decreases cs, 0
  {
    hide Image, Peak, Nesting;
    if cs != [] {
      PeakBound(cs[0]);
      PeakAllBound(cs[1..]);
    }
  }

  // ---------------------------------------------------------------- running calls

  // What a run of calls comes to: done exactly when the capacity and the placeholders suffice, and
  // then what was there is followed by the image; in no case is anything before it touched.
  ghost predicate Ran(s: Status, before: seq<byte>, after: seq<byte>, capacity: nat,
                      peak: nat, fits: bool, image: seq<byte>) {
    && (s == Done <==> |before| + peak <= capacity && fits)
    && (s == Done ==> after == before + image)
    && before <= after
  }

  lemma JoinCons(first: seq<byte>, rest: seq<seq<byte>>)
    ensures [first] + [] == [first]
    ensures Join([first] + rest) == first + Join(rest)
  {
    assert ([first] + rest)[1..] == rest;
  }

  lemma PrimitivePieces(contents: seq<byte>, capacity: nat, id: Identifier, data: seq<byte>)
    requires |contents| <= capacity
    ensures var (s, c) := Put(contents, capacity, [EncodeIdentifier(id, false), EncodeLength(|data|), data]);
            Ran(s, contents, c, capacity, Peak(WritePrimitive(id, data)), true, Image(WritePrimitive(id, data)))
  {
    hide EncodeIdentifier, EncodeLength;
    var pieces := [EncodeIdentifier(id, false), EncodeLength(|data|), data];
    PutJoins(contents, capacity, pieces);
    assert pieces == [pieces[0]] + [pieces[1], data] && [pieces[1], data] == [pieces[1]] + [data];
    JoinCons(pieces[0], [pieces[1], data]);
    JoinCons(pieces[1], [data]);
    JoinCons(data, []);
    assert Join(pieces) == pieces[0] + (pieces[1] + (data + [])) == Image(WritePrimitive(id, data));
  }

  lemma BeginPieces(contents: seq<byte>, capacity: nat, id: Identifier)
    requires |contents| <= capacity
    ensures var (s, c) := Put(contents, capacity, [EncodeIdentifier(id, true), PLACEHOLDER]);
            Ran(s, contents, c, capacity, |EncodeIdentifier(id, true)| + 5, true,
                EncodeIdentifier(id, true) + PLACEHOLDER)
  {
    hide EncodeIdentifier;
    var pieces := [EncodeIdentifier(id, true), PLACEHOLDER];
    PutJoins(contents, capacity, pieces);
    assert pieces == [pieces[0]] + [PLACEHOLDER];
    JoinCons(pieces[0], [PLACEHOLDER]);
    JoinCons(PLACEHOLDER, []);
    assert Join(pieces) == pieces[0] + (PLACEHOLDER + []) == EncodeIdentifier(id, true) + PLACEHOLDER;
  }

  lemma RawPiece(contents: seq<byte>, capacity: nat, data: seq<byte>)
    requires |contents| <= capacity
    ensures var (s, c) := Put(contents, capacity, [data]);
            Ran(s, contents, c, capacity, |data|, true, data)
  {
    PutJoins(contents, capacity, [data]);
    JoinCons(data, []);
    assert Join([data]) == data + [] == data;
  }

  // Closing a node over the octets its body left behind the placeholder.
  lemma Closes(before: seq<byte>, id: Identifier, body: seq<byte>, all: seq<byte>)
    requires all == before + (EncodeIdentifier(id, true) + PLACEHOLDER) + body
    ensures var marker := |before| + |EncodeIdentifier(id, true)|;
            && marker + 5 <= |all| && all[marker + 5..] == body
            && all[..marker] + EncodeLength(|body|) + body == before + (EncodeHeader(id, true, |body|) + body)
  {
    hide EncodeIdentifier, EncodeLength;
    var marker := |before| + |EncodeIdentifier(id, true)|;
    assert all[..marker] == before + EncodeIdentifier(id, true);
  }

  method Run(w: Writer, c: Call) returns (s: Status)
    requires w.Valid() && Typed(c) && w.buffer.Length < TWO_TO_THE_64
    modifies w`length, w.buffer
    ensures w.Valid()
    ensures Ran(s, old(w.Contents()), w.Contents(), w.buffer.Length, Peak(c), Short(c), Image(c))
    decreases c, 1
  {
    hide EncodeIdentifier, EncodeLength, Put;
    match c
    case WritePrimitive(id, data) =>
      PrimitivePieces(w.Contents(), w.buffer.Length, id, data);
      s := w.SerializePrimitive(id, data);
    case WriteRaw(data) =>
      RawPiece(w.Contents(), w.buffer.Length, data);
      s := w.WriteBytes(data);
    case WriteNested(id, body) =>
      s := RunNested(w, id, body);
  }

  method RunNested(w: Writer, id: Identifier, body: seq<Call>) returns (s: Status)
    requires w.Valid() && Typed(WriteNested(id, body)) && w.buffer.Length < TWO_TO_THE_64
    modifies w`length, w.buffer
    ensures w.Valid()
    ensures var c := WriteNested(id, body);
            Ran(s, old(w.Contents()), w.Contents(), w.buffer.Length, Peak(c), Short(c), Image(c))
    decreases body, 1
  {
    hide EncodeIdentifier, EncodeLength, Put, ImageAll, PeakAll, AllShort, Ran, Peak, Short, Image;
    BeginPieces(w.Contents(), w.buffer.Length, id);
    ghost var before := w.Contents();
    var marker;
    s, marker := w.SerializeConstructedBegin(id);
    BeginOutcome(s, before, w.Contents(), w.buffer.Length, id, body);
    if s.Fault? { return; }
    ghost var begun := w.Contents();
    s := RunAll(w, body);
    BodyOutcome(s, before, begun, w.Contents(), w.buffer.Length, id, body);
    if s.Fault? { return; }
    Closes(before, id, ImageAll(body), w.Contents());
    EndOutcome(before, w.buffer.Length, id, body);
    s := w.SerializeConstructedEnd(marker);
  }

  lemma BeginOutcome(s: Status, before: seq<byte>, after: seq<byte>, capacity: nat, id: Identifier, body: seq<Call>)
    requires Ran(s, before, after, capacity, |EncodeIdentifier(id, true)| + 5, true,
                 EncodeIdentifier(id, true) + PLACEHOLDER)
    ensures var c := WriteNested(id, body);
            if s == Done then after == before + (EncodeIdentifier(id, true) + PLACEHOLDER)
            else Ran(s, before, after, capacity, Peak(c), Short(c), Image(c))
  {
    hide EncodeIdentifier, EncodeHeader;
  }

  lemma BodyOutcome(s: Status, before: seq<byte>, begun: seq<byte>, after: seq<byte>, capacity: nat,
                    id: Identifier, body: seq<Call>)
    requires begun == before + (EncodeIdentifier(id, true) + PLACEHOLDER)
    requires Ran(s, begun, after, capacity, PeakAll(body), AllShort(body), ImageAll(body))
    ensures var c := WriteNested(id, body);
            if s == Done then after == begun + ImageAll(body) && |before| + Peak(c) <= capacity && AllShort(body)
            else Ran(s, before, after, capacity, Peak(c), Short(c), Image(c))
  {
    hide EncodeIdentifier, EncodeHeader;
    assert before <= begun <= after;
  }

  lemma EndOutcome(before: seq<byte>, capacity: nat, id: Identifier, body: seq<Call>)
    requires |before| + Peak(WriteNested(id, body)) <= capacity && AllShort(body)
    ensures var c := WriteNested(id, body);
            && Image(c) == EncodeHeader(id, true, |ImageAll(body)|) + ImageAll(body)
            && (Short(c) <==> |ImageAll(body)| < TWO_TO_THE_32)
            && (Short(c) ==> Ran(Done, before, before + Image(c), capacity, Peak(c), Short(c), Image(c)))
            && (!Short(c) ==> forall code, at, after :: before <= after ==>
                  Ran(Fault(code, at), before, after, capacity, Peak(c), Short(c), Image(c)))
  {
    hide EncodeIdentifier, EncodeHeader;
  }

  method RunAll(w: Writer, cs: seq<Call>) returns (s: Status)
    requires w.Valid() && AllTyped(cs) && w.buffer.Length < TWO_TO_THE_64
    modifies w`length, w.buffer
    ensures w.Valid()
    ensures Ran(s, old(w.Contents()), w.Contents(), w.buffer.Length, PeakAll(cs), AllShort(cs), ImageAll(cs))
    decreases cs, 0
  {
    hide Image, Peak, Short, Typed;
    s := Done;
    if cs != [] {
      ghost var before := w.Contents();
      s := Run(w, cs[0]);
      if s.Fault? { return; }
      s := RunAll(w, cs[1..]);
      assert before + Image(cs[0]) + ImageAll(cs[1..]) == before + ImageAll(cs);
    }
  }

  // ---------------------------------------------------------------- trees, end to end

  // The calls that write a tree.
  function CallOf(t: Tlv): Call
    decreases t, 1
  {
    match t
    case Prim(id, content) => WritePrimitive(id, content)
    case Cons(id, children) => WriteNested(id, CallsOf(children))
  }

  function CallsOf(ts: seq<Tlv>): seq<Call>
    decreases ts, 0
  {
    if ts == [] then [] else [CallOf(ts[0])] + CallsOf(ts[1..])
  }

  // The back-patching writer's image of a tree is its recursive encoding.
  lemma {:induction false} CallImage(t: Tlv)
    ensures Image(CallOf(t)) == Encode(t)
    ensures Encodable(t) ==> Typed(CallOf(t))
    decreases t, 1
  {
    hide EncodeHeader;
    match t
    case Prim(_, _) =>
    case Cons(_, children) => CallImages(children);
  }

  lemma {:induction false} CallImages(ts: seq<Tlv>)
    ensures ImageAll(CallsOf(ts)) == EncodeAll(ts)
    ensures AllEncodable(ts) ==> AllTyped(CallsOf(ts))
    decreases ts, 0
  {
    hide Encode, Encodable, Image, Typed;
    if ts != [] {
      CallImage(ts[0]);
      CallImages(ts[1..]);
      assert CallsOf(ts)[1..] == CallsOf(ts[1..]);
    }
  }

  // Writing a tree and parsing what was written: done exactly within the limits of the writer (capacity
  // and placeholders) and of the parser (depth and node array), and then the node array is the
  // flattening of the tree.
  method WriteThenParse(t: Tlv, w: Writer, result: ParseResult) returns (s: Status)
    requires w.Valid() && w.Contents() == [] && w.buffer.Length < TWO_TO_THE_64 && result.Valid()
    requires Encodable(t)
    modifies w`length, w.buffer, result, result.nodes
    ensures w.Valid() && result.Valid()
    ensures s == Done <==> Peak(CallOf(t)) <= w.buffer.Length && Short(CallOf(t))
                           && Height(t) <= MAX_DEPTH && Size(t) <= result.nodes.Length
    ensures s == Done ==> w.Contents() == Encode(t) && result.Stored() == Flatten(t, 0, 1)
  {
    hide Encode, Flatten, Parse64, Overflows, Image, Peak, Short, Typed;
    CallImage(t);
    :- Run(w, CallOf(t));
    assert [] + Encode(t) == Encode(t);
    RoundTrip(t, result.nodes.Length);
    s := ParseInput(w.Contents(), DER, result);
  }
}
