// What the recursive-descent parser of asn1_parser.c computes, as functions, as long as no sum of offset and length
// wraps around: the nodes it appends and the offset it stops at. "room" is the number of free places in the caller's
// node array. Machine says what it computes in every case.
module Reader {
  import opened Errors
  import opened Positional
  import opened Header

  datatype Option<+T> = None | Some(value: T)

  // asn1_node_t; pointers into the input are offsets, and data is None for a constructed node.
  datatype Node = Node(
    id: Identifier,
    constructed: bool,
    start: nat,
    encodedLength: nat,
    data: Option<nat>,
    dataLength: nat,
    depth: nat,
    subtreeSize: nat)

  datatype Parsed = Parsed(nodes: seq<Node>, next: nat)

  const MAX_DEPTH := 50

  function Primitive(id: Identifier, start: nat, content: nat, length: nat, depth: nat): Node
    requires start <= content
  {
    Node(id, false, start, content + length - start, Some(content), length, depth, 1)
  }

  function Closed(id: Identifier, start: nat, next: nat, depth: nat, size: nat): Node
    requires start <= next
  {
    Node(id, true, start, next - start, None, 0, depth, size)
  }

  // Every stored data slice lies in the input.
  predicate InRange(d: seq<byte>, ns: seq<Node>) {
    forall i :: 0 <= i < |ns| ==> ns[i].data.Some? ==> ns[i].data.value + ns[i].dataLength <= |d|
  }

  // Bounds on what a successful reading stores: at most one node per two octets, no more nodes than
  // there is room for, and no node below level fifty.
  ghost predicate Advances(p: Parsed, d: seq<byte>, off: nat, room: nat) {
    && off + 2 * |p.nodes| <= p.next <= |d| && |p.nodes| <= room && InRange(d, p.nodes)
    && forall i :: 0 <= i < |p.nodes| ==> p.nodes[i].depth <= MAX_DEPTH
  }

  function ReadNode(d: seq<byte>, off: nat, rules: Rules, depth: nat, room: nat): (r: Result<Parsed>)
    requires off <= |d|
    ensures r.Ok? ==> Advances(r.value, d, off, room) && r.value.nodes != []
    decreases |d| - off, 0
  {
    if depth > MAX_DEPTH then Err(ExcessiveDepth, off)
    else
      var (id, constructed, afterId) :- ReadIdentifier(d, off);
      var (length, content) :- ReadLength(d, afterId, rules);
      ReadContents(d, off, id, constructed, length, content, rules, depth, room)
  }

  // The second half of parse_node: the header of the node at off is read, its contents start at "content".
  function ReadContents(d: seq<byte>, off: nat, id: Identifier, constructed: bool, length: Length, content: nat,
                        rules: Rules, depth: nat, room: nat): (r: Result<Parsed>)
    requires off + 2 <= content <= |d| && depth <= MAX_DEPTH
    ensures r.Ok? ==> Advances(r.value, d, off, room) && r.value.nodes != []
    decreases |d| - content, 2
  {
    if length.Indefinite? && !constructed then Err(UnsupportedLength, content)
    else if constructed then
      if room == 0 then Err(CapacityExceeded, 0)
      else if length.Definite? && |d| - content < length.value then Err(TruncatedField, content)
      else
        var kids :- if length.Definite?
                    then ReadDefinite(d, content, content + length.value, rules, depth + 1, room - 1)
                    else ReadIndefinite(d, content, rules, depth + 1, room - 1);
        Ok(Parsed([Closed(id, off, kids.next, depth, 1 + |kids.nodes|)] + kids.nodes, kids.next))
    else if content + length.value > |d| then Err(TruncatedField, content)
    else if room == 0 then Err(CapacityExceeded, 0)
    else Ok(Parsed([Primitive(id, off, content, length.value, depth)], content + length.value))
  }

  function ReadDefinite(d: seq<byte>, off: nat, end: nat, rules: Rules, depth: nat, room: nat): (r: Result<Parsed>)
    requires off <= |d|
    ensures r.Ok? ==> Advances(r.value, d, off, room) && r.value.next == end
    decreases |d| - off, 1
  {
    if off < end then
      var first :- ReadNode(d, off, rules, depth, room);
      var rest :- ReadDefinite(d, first.next, end, rules, depth, room - |first.nodes|);
      Ok(Parsed(first.nodes + rest.nodes, rest.next))
    else if off != end then Err(InvalidObject, off)
    else Ok(Parsed([], off))
  }

  predicate EndOfContents(d: seq<byte>, off: nat) {
    off + 2 <= |d| && d[off] == 0 && d[off + 1] == 0
  }

  function ReadIndefinite(d: seq<byte>, off: nat, rules: Rules, depth: nat, room: nat): (r: Result<Parsed>)
    requires off <= |d|
    ensures r.Ok? ==> Advances(r.value, d, off + 2, room)
    decreases |d| - off, 1
  {
    if |d| - off < 2 then Err(TruncatedField, off)
    else if EndOfContents(d, off) then Ok(Parsed([], off + 2))
    else
      var first :- ReadNode(d, off, rules, depth, room);
      var rest :- ReadIndefinite(d, first.next, rules, depth, room - |first.nodes|);
      Ok(Parsed(first.nodes + rest.nodes, rest.next))
  }

  // asn1_parse on a non-null input, read without wrap-around.
  function Parse(d: seq<byte>, rules: Rules, capacity: nat): (r: Result<seq<Node>>)
    ensures r.Ok? ==> r.value != [] && |r.value| <= capacity && 2 * |r.value| <= |d| && InRange(d, r.value)
    ensures r.Ok? ==> forall i :: 0 <= i < |r.value| ==> r.value[i].depth <= MAX_DEPTH
  {
    if d == [] then Err(TruncatedField, 0)
    else
      var p :- ReadNode(d, 0, rules, 1, capacity);
      if p.next < |d| then Err(TrailingData, p.next) else Ok(p.nodes)
  }
}
