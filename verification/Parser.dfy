// asn1_parser.c as it runs: a reader that advances an offset, a caller-owned node array that is appended
// to and patched, and the child iterator. Every method is proved against the functions of Machine.
module Parser {
  import opened Errors
  import opened Positional
  import opened Header
  import opened Reader
  import opened Machine
  import opened Structure
  import opened Internal

  // asn1_buffer_t
  class Buffer {
    const data: seq<byte>
    var offset: nat

    constructor (data: seq<byte>)
      requires |data| < TWO_TO_THE_64
      ensures this.data == data && offset == 0 && Valid()
    {
      this.data := data;
      offset := 0;
    }

    ghost predicate Valid()
      reads this
    {
      offset <= |data| < TWO_TO_THE_64
    }

    method ReadByte() returns (b: Option<byte>)
      requires Valid()
      modifies this
      ensures Valid()
      ensures if old(offset) < |data| then b == Some(data[old(offset)]) && offset == old(offset) + 1
              else b == None && offset == old(offset)
    {
      if offset >= |data| { return None; }
      b := Some(data[offset]);
      offset := offset + 1;
    }

    method PeekByte(ahead: nat) returns (b: Option<byte>)
      ensures b == if offset + ahead < |data| then Some(data[offset + ahead]) else None
    {
      b := if offset + ahead >= |data| then None else Some(data[offset + ahead]);
    }

    // The position of the bytes stepped over; the sum of offset and count is one of size_t.
    method ReadBytes(count: nat) returns (start: Option<nat>)
      requires Valid()
      modifies this
      ensures Valid()
      ensures var next := Wrapped(old(offset) + count);
              if next <= |data| then start == Some(old(offset)) && offset == next
              else start == None && offset == old(offset)
    {
      if Wrapped(offset + count) > |data| { return None; }
      start := Some(offset);
      offset := Wrapped(offset + count);
    }
  }

  // asn1_parse_result_t
  class ParseResult {
    const nodes: array<Node>
    var count: nat

    constructor (nodes: array<Node>)
      ensures this.nodes == nodes && count == 0
    {
      this.nodes := nodes;
      count := 0;
    }

    ghost predicate Valid()
      reads this
    {
      count <= nodes.Length
    }

    ghost function Stored(): seq<Node>
      requires Valid()
      reads this, nodes
    {
      nodes[..count]
    }

    method AddNode(node: Node) returns (s: Status)
      requires Valid()
      modifies this, nodes
      ensures Valid()
      ensures if old(count) < nodes.Length then s == Done && Stored() == old(Stored()) + [node]
              else s == Fault(CapacityExceeded, 0) && Stored() == old(Stored())
    {
      if count >= nodes.Length { return Fault(CapacityExceeded, 0); }
      nodes[count] := node;
      count := count + 1;
      s := Done;
    }

    // The update of a constructed node once its children are stored.
    method CloseNode(index: nat, encodedLength: nat, ghost before: seq<Node>, ghost open: Node, ghost kids: seq<Node>)
      requires Valid() && index == |before| && Stored() == before + [open] + kids
      modifies nodes
      ensures Stored() == before + ([open.(subtreeSize := 1 + |kids|, encodedLength := encodedLength)] + kids)
    {
      nodes[index] := nodes[index].(subtreeSize := count - index, encodedLength := encodedLength);
    }
  }

  method ParseBase128Uint(buf: Buffer) returns (r: Result<nat>)
    requires buf.Valid()
    modifies buf
    ensures buf.Valid() && old(buf.offset) <= buf.offset
    ensures match ReadBase128(buf.data, old(buf.offset), 0, 0)
            case Ok((value, next)) => r == Ok(value) && buf.offset == next
            case Err(code, at) => r == Err(code, at)
  {
    ghost var spec := ReadBase128(buf.data, buf.offset, 0, 0);
    var value: nat := 0;
    var count: nat := 0;
    var more := true;
    while more
      invariant buf.Valid() && old(buf.offset) <= buf.offset
      invariant spec == if more then ReadBase128(buf.data, buf.offset, value, count) else Ok((value, buf.offset))
      decreases more, |buf.data| - buf.offset
    {
      var b := buf.ReadByte();
      if b.None? { return Err(TruncatedField, buf.offset); }
      if count >= MAX_TAG_GROUPS { return Err(InvalidObject, buf.offset); }
      value := Uint32(value * 128 + Low7(b.value));
      count := count + 1;
      more := b.value >= 128;
    }
    r := Ok(value);
  }

  method ParseIdentifier(buf: Buffer) returns (r: Result<(Identifier, bool)>)
    requires buf.Valid()
    modifies buf
    ensures buf.Valid() && old(buf.offset) <= buf.offset
    ensures match ReadIdentifier(buf.data, old(buf.offset))
            case Ok((id, constructed, next)) => r == Ok((id, constructed)) && buf.offset == next
            case Err(code, at) => r == Err(code, at)
  {
    hide ReadBase128;
    var first := buf.ReadByte();
    if first.None? { return Err(TruncatedField, buf.offset); }
    var b := first.value;
    var number := b % 32;
    if number == 31 {
      number :- ParseBase128Uint(buf);
      if number < 31 { return Err(InvalidObject, buf.offset); }
    }
    r := Ok((Identifier(ClassOf(b / 64), number), (b / 32) % 2 == 1));
  }

  method ParseLength(buf: Buffer, rules: Rules) returns (r: Result<Length>)
    requires buf.Valid()
    modifies buf
    ensures buf.Valid() && old(buf.offset) <= buf.offset
    ensures match ReadLength(buf.data, old(buf.offset), rules)
            case Ok((length, next)) => r == Ok(length) && buf.offset == next
            case Err(code, at) => r == Err(code, at)
  {
    hide ToDigits;
    var first := buf.ReadByte();
    if first.None? { return Err(TruncatedField, buf.offset); }
    if first.value == 0x80 {
      if rules.DER? { return Err(UnsupportedLength, buf.offset); }
      return Ok(Indefinite);
    }
    if first.value < 0x80 { return Ok(Definite(first.value)); }
    var n := first.value - 0x80;
    if n > MAX_LENGTH_OCTETS { return Err(UnsupportedLength, buf.offset); }
    ghost var start := buf.offset;
    var value: nat := 0;
    for i := 0 to n
      invariant buf.Valid() && buf.offset == start + i
      invariant value == FromDigits(256, buf.data[start..start + i])
    {
      var b := buf.ReadByte();
      if b.None? { return Err(TruncatedField, buf.offset); }
      assert buf.data[start..start + i + 1][..i] == buf.data[start..start + i];
      value := value * 256 + b.value;
    }
    if rules.DER? {
      if value <= 0x7F { return Err(UnsupportedLength, buf.offset); }
      var required := CountOctets(value);
      if n > required { return Err(UnsupportedLength, buf.offset); }
    }
    r := Ok(Definite(value));
  }

  // What a parsing call leaves: on success the specified nodes appended and the offset moved, on
  // failure the specified error with the nodes stored before still in place.
  ghost predicate Leaves(spec: Result<Parsed>, s: Status, before: seq<Node>, buf: Buffer, result: ParseResult)
    reads buf, result, result.nodes
  {
    && buf.Valid() && result.Valid()
    && s == StatusOf(spec)
    && match spec
       case Ok(p) => buf.offset == p.next && result.Stored() == before + p.nodes
       case Err(_, _) => before <= result.Stored()
  }

  method ParseNode(buf: Buffer, rules: Rules, depth: nat, result: ParseResult) returns (s: Status)
    requires buf.Valid() && result.Valid()
    modifies buf, result, result.nodes
    ensures Leaves(ReadNode64(buf.data, old(buf.offset), rules, depth, result.nodes.Length - old(result.count)),
                   s, old(result.Stored()), buf, result)
    decreases result.nodes.Length - result.count, 3
  {
    hide ReadIdentifier, ReadLength, ReadContents64;
    if depth > MAX_DEPTH { return Fault(ExcessiveDepth, buf.offset); }
    var start := buf.offset;
    var header := ParseIdentifier(buf);
    if header.Err? { return StatusOf(header); }
    var length := ParseLength(buf, rules);
    if length.Err? { return StatusOf(length); }
    s := ParseContents(buf, start, header.value.0, header.value.1, length.value, rules, depth, result);
  }

  // The second half of parse_node, after the header.
  method ParseContents(buf: Buffer, start: nat, id: Identifier, constructed: bool, length: Length,
                       rules: Rules, depth: nat, result: ParseResult)
      returns (s: Status)
    requires buf.Valid() && result.Valid() && start + 2 <= buf.offset && depth <= MAX_DEPTH
    modifies buf, result, result.nodes
    ensures Leaves(ReadContents64(buf.data, start, id, constructed, length, old(buf.offset), rules, depth,
                                result.nodes.Length - old(result.count)),
                   s, old(result.Stored()), buf, result)
    decreases result.nodes.Length - result.count, 2
  {
    hide ReadDefinite64, ReadIndefinite64, Stores;
    if length.Indefinite? && !constructed { return Fault(UnsupportedLength, buf.offset); }
    if constructed {
      s := ParseConstructed(buf, start, id, length, rules, depth, result);
    } else {
      var data := buf.ReadBytes(length.value);
      if data.None? { return Fault(TruncatedField, buf.offset); }
      :- result.AddNode(Node(id, false, start, Wrapped(buf.offset - start), data, length.value, depth, 1));
      s := Done;
    }
  }

  // The constructed branch: the node is stored open, and closed once its children are stored.
  method ParseConstructed(buf: Buffer, start: nat, id: Identifier, length: Length, rules: Rules, depth: nat,
                          result: ParseResult)
      returns (s: Status)
    requires buf.Valid() && result.Valid() && start + 2 <= buf.offset && depth <= MAX_DEPTH
    modifies buf, result, result.nodes
    ensures Leaves(ReadContents64(buf.data, start, id, true, length, old(buf.offset), rules, depth,
                                result.nodes.Length - old(result.count)),
                   s, old(result.Stored()), buf, result)
    decreases result.nodes.Length - result.count, 1
  {
    hide ReadDefinite64, ReadIndefinite64, Stores;
    var index := result.count;
    ghost var before := result.Stored();
    // encoded_length is not set until the node is closed
    ghost var open := Node(id, true, start, 0, None, 0, depth, 1);
    :- result.AddNode(Node(id, true, start, 0, None, 0, depth, 1));
    ghost var kids := ReadChildren(buf.data, buf.offset, length, rules, depth + 1, result.nodes.Length - result.count);
    :- ParseChildren(buf, length, rules, depth + 1, result);
    result.CloseNode(index, Wrapped(buf.offset - start), before, open, kids.value.nodes);
    s := Done;
  }

  ghost function ReadChildren(d: seq<byte>, content: nat, length: Length, rules: Rules, depth: nat,
                              room: nat): Result<Parsed>
    requires content <= |d|
  {
    if length.Indefinite? then ReadIndefinite64(d, content, rules, depth, room)
    else if |d| - content < length.value then Err(TruncatedField, content)
    else ReadDefinite64(d, content, content + length.value, rules, depth, room)
  }

  method ParseChildren(buf: Buffer, length: Length, rules: Rules, depth: nat, result: ParseResult) returns (s: Status)
    requires buf.Valid() && result.Valid()
    modifies buf, result, result.nodes
    ensures Leaves(ReadChildren(buf.data, old(buf.offset), length, rules, depth,
                                result.nodes.Length - old(result.count)), s, old(result.Stored()), buf, result)
    decreases result.nodes.Length - result.count, 5
  {
    hide ReadDefinite64, ReadIndefinite64, Leaves;
    if length.Definite? {
      if |buf.data| - buf.offset < length.value {
        StopsShort(buf, result);
        return Fault(TruncatedField, buf.offset);
      }
      s := ParseDefiniteChildren(buf, length.value, rules, depth, result);
    } else {
      s := ParseIndefiniteChildren(buf, rules, depth, result);
    }
  }

  lemma StopsShort(buf: Buffer, result: ParseResult)
    requires buf.Valid() && result.Valid()
    ensures Leaves(Err(TruncatedField, buf.offset), Fault(TruncatedField, buf.offset), result.Stored(), buf, result)
  {
  }

  method ParseDefiniteChildren(buf: Buffer, contentLength: nat, rules: Rules, depth: nat, result: ParseResult)
      returns (s: Status)
    requires buf.Valid() && result.Valid()
    modifies buf, result, result.nodes
    ensures Leaves(ReadDefinite64(buf.data, old(buf.offset), old(buf.offset) + contentLength, rules, depth,
                                result.nodes.Length - old(result.count)),
                   s, old(result.Stored()), buf, result)
    decreases result.nodes.Length - result.count, 4
  {
    hide ReadNode64, ReadDefinite64, Stores, Continues;
    var end := buf.offset + contentLength;
    ghost var before, room := result.Stored(), result.nodes.Length - result.count;
    ghost var spec := ReadDefinite64(buf.data, buf.offset, end, rules, depth, room);
    ghost var done: seq<Node> := [];
    NothingDone(spec);
    while buf.offset < end
      invariant buf.Valid() && result.Valid() && result.Stored() == before + done
      invariant Continues(spec, done, ReadDefinite64(buf.data, buf.offset, end, rules, depth, room - |done|))
      decreases result.nodes.Length - result.count
    {
      ghost var first := ReadNode64(buf.data, buf.offset, rules, depth, room - |done|);
      DefiniteStep(spec, done, buf.data, buf.offset, end, rules, depth, room - |done|);
      :- ParseNode(buf, rules, depth, result);
      done := done + first.value.nodes;
    }
    DefiniteEnds(spec, done, buf.data, buf.offset, end, rules, depth, room - |done|);
    if buf.offset != end { return Fault(InvalidObject, buf.offset); }
    s := Done;
  }

  // A loop over children that has stored "done" still has to do "rest".
  ghost predicate Continues(spec: Result<Parsed>, done: seq<Node>, rest: Result<Parsed>) {
    match rest
    case Ok(p) => spec.Ok? && spec.value.next == p.next && spec.value.nodes == done + p.nodes
    case Err(code, at) => spec == Err(code, at)
  }

  lemma AppendParsed(spec: Result<Parsed>, done: seq<Node>, first: seq<Node>, rest: Result<Parsed>,
                     whole: Result<Parsed>)
    requires Continues(spec, done, whole)
    requires match rest
             case Ok(p) => whole == Ok(Parsed(first + p.nodes, p.next))
             case Err(code, at) => whole == Err(code, at)
    ensures Continues(spec, done + first, rest)
  {
    if rest.Ok? { assert done + (first + rest.value.nodes) == done + first + rest.value.nodes; }
  }

  // One round of the definite loop.
  lemma DefiniteStep(spec: Result<Parsed>, done: seq<Node>,
                     d: seq<byte>, off: nat, end: nat, rules: Rules, depth: nat, room: nat)
    requires off < end && off <= |d| && Continues(spec, done, ReadDefinite64(d, off, end, rules, depth, room))
    ensures match ReadNode64(d, off, rules, depth, room)
            case Ok(p) => 1 <= |p.nodes| <= room && p.next <= |d|
                && Continues(spec, done + p.nodes, ReadDefinite64(d, p.next, end, rules, depth, room - |p.nodes|))
            case Err(code, at) => spec == Err(code, at)
  {
    hide ReadNode64;
    var first := ReadNode64(d, off, rules, depth, room);
    if first.Ok? {
      var n := |first.value.nodes|;
      AppendParsed(spec, done, first.value.nodes, ReadDefinite64(d, first.value.next, end, rules, depth, room - n),
                   ReadDefinite64(d, off, end, rules, depth, room));
    }
  }

  lemma DefiniteEnds(spec: Result<Parsed>, done: seq<Node>, d: seq<byte>, off: nat, end: nat, rules: Rules, depth: nat,
                     room: nat)
    requires end <= off <= |d| && Continues(spec, done, ReadDefinite64(d, off, end, rules, depth, room))
    ensures spec == if off == end then Ok(Parsed(done, off)) else Err(InvalidObject, off)
  {
    hide ReadNode64;
    assert done + [] == done;
  }

  // One round of the indefinite loop.
  lemma IndefiniteStep(spec: Result<Parsed>, done: seq<Node>,
                       d: seq<byte>, off: nat, rules: Rules, depth: nat, room: nat)
    requires off + 2 <= |d| && !EndOfContents(d, off)
    requires Continues(spec, done, ReadIndefinite64(d, off, rules, depth, room))
    ensures match ReadNode64(d, off, rules, depth, room)
            case Ok(p) => 1 <= |p.nodes| <= room && p.next <= |d|
                && Continues(spec, done + p.nodes, ReadIndefinite64(d, p.next, rules, depth, room - |p.nodes|))
            case Err(code, at) => spec == Err(code, at)
  {
    hide ReadNode64;
    var first := ReadNode64(d, off, rules, depth, room);
    if first.Ok? {
      var n := |first.value.nodes|;
      AppendParsed(spec, done, first.value.nodes, ReadIndefinite64(d, first.value.next, rules, depth, room - n),
                   ReadIndefinite64(d, off, rules, depth, room));
    }
  }

  lemma NothingDone(spec: Result<Parsed>)
    ensures Continues(spec, [], spec)
  {
    if spec.Ok? { assert [] + spec.value.nodes == spec.value.nodes; }
  }

  lemma IndefiniteEnds(spec: Result<Parsed>, done: seq<Node>, d: seq<byte>, off: nat, rules: Rules, depth: nat,
                       room: nat)
    requires off + 2 <= |d| && Continues(spec, done, ReadIndefinite64(d, off, rules, depth, room))
    ensures EndOfContents(d, off) <==> d[off] == 0 && d[off + 1] == 0
    ensures EndOfContents(d, off) ==> spec == Ok(Parsed(done, off + 2))
  {
    hide ReadNode64;
    assert done + [] == done;
  }

  lemma IndefiniteRunsOut(spec: Result<Parsed>, done: seq<Node>, d: seq<byte>, off: nat, rules: Rules, depth: nat,
                          room: nat)
    requires off <= |d| < off + 2 && Continues(spec, done, ReadIndefinite64(d, off, rules, depth, room))
    ensures spec == Err(TruncatedField, off)
  {
    hide ReadNode64;
  }

  method ParseIndefiniteChildren(buf: Buffer, rules: Rules, depth: nat, result: ParseResult) returns (s: Status)
    requires buf.Valid() && result.Valid()
    modifies buf, result, result.nodes
    ensures Leaves(ReadIndefinite64(buf.data, old(buf.offset), rules, depth, result.nodes.Length - old(result.count)),
                   s, old(result.Stored()), buf, result)
    decreases result.nodes.Length - result.count, 4
  {
    hide ReadNode64, ReadIndefinite64, Stores, Continues, EndOfContents;
    ghost var before, room := result.Stored(), result.nodes.Length - result.count;
    ghost var spec := ReadIndefinite64(buf.data, buf.offset, rules, depth, room);
    ghost var done: seq<Node> := [];
    NothingDone(spec);
    while |buf.data| - buf.offset >= 2
      invariant buf.Valid() && result.Valid() && result.Stored() == before + done
      invariant Continues(spec, done, ReadIndefinite64(buf.data, buf.offset, rules, depth, room - |done|))
      decreases result.nodes.Length - result.count
    {
      IndefiniteEnds(spec, done, buf.data, buf.offset, rules, depth, room - |done|);
      var b1 := buf.PeekByte(0);
      if b1 == Some(0) {
        var b2 := buf.PeekByte(1);
        if b2 == Some(0) {
          var _ := buf.ReadBytes(2);
          return Done;
        }
      }
      ghost var first := ReadNode64(buf.data, buf.offset, rules, depth, room - |done|);
      IndefiniteStep(spec, done, buf.data, buf.offset, rules, depth, room - |done|);
      :- ParseNode(buf, rules, depth, result);
      done := done + first.value.nodes;
    }
    IndefiniteRunsOut(spec, done, buf.data, buf.offset, rules, depth, room - |done|);
    s := Fault(TruncatedField, buf.offset);
  }

  // asn1_parse
  method ParseInput(data: seq<byte>, rules: Rules, result: ParseResult) returns (s: Status)
    requires result.Valid() && |data| < TWO_TO_THE_64
    modifies result, result.nodes
    ensures result.Valid() && s == StatusOf(Parse64(data, rules, result.nodes.Length))
    ensures s == Done ==> result.Stored() == Parse64(data, rules, result.nodes.Length).value
  {
    hide ReadNode64;
    if |data| == 0 { return Fault(TruncatedField, 0); }
    result.count := 0;
    var buf := new Buffer(data);
    :- ParseNode(buf, rules, 1, result);
    if |data| - buf.offset > 0 { return Fault(TrailingData, buf.offset); }
    s := Done;
  }

  // asn1_node_iterator_t
  class NodeIterator {
    const result: ParseResult
    const parentDepth: nat
    const endIndex: nat
    var currentIndex: nat

    ghost predicate Valid()
      reads this, result
    {
      result.Valid() && endIndex <= result.count
    }

    // asn1_children
    constructor (result: ParseResult, index: nat)
      requires result.Valid()
      requires index < result.count ==> index + result.nodes[index].subtreeSize <= result.count
      ensures this.result == result && Valid()
      ensures if index < result.count
              then parentDepth == result.nodes[index].depth && currentIndex == index + 1
                && endIndex == index + result.nodes[index].subtreeSize
              else parentDepth == currentIndex == endIndex == 0
    {
      this.result := result;
      if index >= result.count {
        parentDepth, currentIndex, endIndex := 0, 0, 0;
      } else {
        parentDepth := result.nodes[index].depth;
        currentIndex := index + 1;
        endIndex := index + result.nodes[index].subtreeSize;
      }
    }

    // asn1_next_child, returning the child's index.
    method NextChild() returns (child: Option<nat>)
      requires Valid()
      modifies this
      ensures Valid()
      ensures (child, currentIndex) == Advance(result.Stored(), old(currentIndex), endIndex, parentDepth)
    {
      ghost var ns := result.Stored();
      ghost var spec := Advance(ns, currentIndex, endIndex, parentDepth);
      while currentIndex < endIndex
        invariant Advance(ns, currentIndex, endIndex, parentDepth) == spec
        decreases endIndex - currentIndex
      {
        var node := result.nodes[currentIndex];
        if node.depth == parentDepth + 1 {
          child := Some(currentIndex);
          currentIndex := currentIndex + node.subtreeSize;
          return;
        }
        currentIndex := currentIndex + 1;
      }
      child := None;
    }
  }
}
