// What asn1_parser.c computes: the reading of Reader, but with offsets of type size_t, so that stepping over the
// contents of a primitive adds modulo 2^64 and may lead backwards. Every node takes a place of the node array,
// which is why even then the parser comes to an end.
module Machine {
  import opened Errors
  import opened Positional
  import opened Header
  import opened Reader
  import opened Room

  // A sum or difference of size_t values.
  function Wrapped(v: int): (r: nat)
    ensures r < TWO_TO_THE_64
    ensures 0 <= v < TWO_TO_THE_64 ==> r == v
  {
    if 0 <= v < TWO_TO_THE_64 then v else v % TWO_TO_THE_64
  }

  function Primitive64(id: Identifier, start: nat, next: nat, content: nat, length: nat, depth: nat): Node {
    Node(id, false, start, Wrapped(next - start), Some(content), length, depth, 1)
  }

  function Closed64(id: Identifier, start: nat, next: nat, depth: nat, size: nat): Node {
    Node(id, true, start, Wrapped(next - start), None, 0, depth, size)
  }

  // There was room for the nodes, none is below level fifty, and just the primitive ones have data.
  ghost predicate Stores(p: Parsed, d: seq<byte>, room: nat) {
    && p.next <= |d| && |p.nodes| <= room
    && forall i :: 0 <= i < |p.nodes| ==>
         p.nodes[i].depth <= MAX_DEPTH && (p.nodes[i].constructed <==> p.nodes[i].data.None?)
  }

  function ReadNode64(d: seq<byte>, off: nat, rules: Rules, depth: nat, room: nat): (r: Result<Parsed>)
    requires off <= |d|
    ensures r.Ok? ==> Stores(r.value, d, room) && r.value.nodes != []
    decreases room, 1
  {
    if depth > MAX_DEPTH then Err(ExcessiveDepth, off)
    else
      var (id, constructed, afterId) :- ReadIdentifier(d, off);
      var (length, content) :- ReadLength(d, afterId, rules);
      ReadContents64(d, off, id, constructed, length, content, rules, depth, room)
  }

  // The second half of parse_node.
  function ReadContents64(d: seq<byte>, off: nat, id: Identifier, constructed: bool, length: Length, content: nat,
                          rules: Rules, depth: nat, room: nat): (r: Result<Parsed>)
    requires off + 2 <= content <= |d| && depth <= MAX_DEPTH
    ensures r.Ok? ==> Stores(r.value, d, room) && r.value.nodes != []
    decreases room, 0
  {
    if length.Indefinite? && !constructed then Err(UnsupportedLength, content)
    else if constructed then
      if room == 0 then Err(CapacityExceeded, 0)
      else if length.Definite? && |d| - content < length.value then Err(TruncatedField, content)
      else
        var kids :- if length.Definite?
                    then ReadDefinite64(d, content, content + length.value, rules, depth + 1, room - 1)
                    else ReadIndefinite64(d, content, rules, depth + 1, room - 1);
        Ok(Parsed([Closed64(id, off, kids.next, depth, 1 + |kids.nodes|)] + kids.nodes, kids.next))
    else
      var next := Wrapped(content + length.value);
      if next > |d| then Err(TruncatedField, content)
      else if room == 0 then Err(CapacityExceeded, 0)
      else Ok(Parsed([Primitive64(id, off, next, content, length.value, depth)], next))
  }

  function ReadDefinite64(d: seq<byte>, off: nat, end: nat, rules: Rules, depth: nat, room: nat): (r: Result<Parsed>)
    requires off <= |d|
    ensures r.Ok? ==> Stores(r.value, d, room) && r.value.next == end
    decreases room, 2
  {
    if off < end then
      var first :- ReadNode64(d, off, rules, depth, room);
      var rest :- ReadDefinite64(d, first.next, end, rules, depth, room - |first.nodes|);
      Ok(Parsed(first.nodes + rest.nodes, rest.next))
    else if off != end then Err(InvalidObject, off)
    else Ok(Parsed([], off))
  }

  function ReadIndefinite64(d: seq<byte>, off: nat, rules: Rules, depth: nat, room: nat): (r: Result<Parsed>)
    requires off <= |d|
    ensures r.Ok? ==> Stores(r.value, d, room)
    decreases room, 2
  {
    if |d| - off < 2 then Err(TruncatedField, off)
    else if EndOfContents(d, off) then Ok(Parsed([], off + 2))
    else
      var first :- ReadNode64(d, off, rules, depth, room);
      var rest :- ReadIndefinite64(d, first.next, rules, depth, room - |first.nodes|);
      Ok(Parsed(first.nodes + rest.nodes, rest.next))
  }

  // asn1_parse on a non-null input.
  function Parse64(d: seq<byte>, rules: Rules, capacity: nat): (r: Result<seq<Node>>)
    ensures r.Ok? ==> r.value != [] && |r.value| <= capacity
    ensures r.Ok? ==> forall i :: 0 <= i < |r.value| ==>
              r.value[i].depth <= MAX_DEPTH && (r.value[i].constructed <==> r.value[i].data.None?)
  {
    if d == [] then Err(TruncatedField, 0)
    else
      var p :- ReadNode64(d, 0, rules, 1, capacity);
      if p.next < |d| then Err(TrailingData, p.next) else Ok(p.nodes)
  }

  // ---------------------------------------------------------------- where the two readings part

  // The plain reading of a node comes to a primitive whose declared contents would end at 2^64 or later.
  predicate MeetsNode(d: seq<byte>, off: nat, rules: Rules, depth: nat, room: nat)
    requires off <= |d|
    decreases |d| - off, 0
  {
    depth <= MAX_DEPTH && ReadIdentifier(d, off).Ok? &&
    var (id, constructed, afterId) := ReadIdentifier(d, off).value;
    ReadLength(d, afterId, rules).Ok? &&
    var (length, content) := ReadLength(d, afterId, rules).value;
    MeetsContents(d, constructed, length, content, rules, depth, room)
  }

  predicate MeetsContents(d: seq<byte>, constructed: bool, length: Length, content: nat, rules: Rules, depth: nat,
                          room: nat)
    requires content <= |d|
    decreases |d| - content, 2
  {
    match length
    case Definite(v) =>
      if constructed
      then room > 0 && v <= |d| - content && MeetsDefinite(d, content, content + v, rules, depth + 1, room - 1)
      else content + v >= TWO_TO_THE_64
    case Indefinite => constructed && room > 0 && MeetsIndefinite(d, content, rules, depth + 1, room - 1)
  }

  predicate MeetsDefinite(d: seq<byte>, off: nat, end: nat, rules: Rules, depth: nat, room: nat)
    requires off <= |d|
    decreases |d| - off, 1
  {
    off < end &&
    (|| MeetsNode(d, off, rules, depth, room)
     || var first := ReadNode(d, off, rules, depth, room);
        && first.Ok?
        && MeetsDefinite(d, first.value.next, end, rules, depth, room - |first.value.nodes|))
  }

  predicate MeetsIndefinite(d: seq<byte>, off: nat, rules: Rules, depth: nat, room: nat)
    requires off <= |d|
    decreases |d| - off, 1
  {
    off + 2 <= |d| && !EndOfContents(d, off) &&
    (|| MeetsNode(d, off, rules, depth, room)
     || var first := ReadNode(d, off, rules, depth, room);
        && first.Ok?
        && MeetsIndefinite(d, first.value.next, rules, depth, room - |first.value.nodes|))
  }

  // With room for every node: whether such a primitive is met at all.
  predicate Overflows(d: seq<byte>, rules: Rules) {
    MeetsNode(d, 0, rules, 1, |d|)
  }

  // The header of a primitive whose contents start at "content" and would end at 2^64 or later.
  ghost predicate Reaches(d: seq<byte>, rules: Rules, content: nat) {
    exists off, length :: ReachesFrom(d, rules, off, length, content)
  }

  ghost predicate ReachesFrom(d: seq<byte>, rules: Rules, off: nat, length: nat, content: nat) {
    && off <= |d| && ReadIdentifier(d, off).Ok? && !ReadIdentifier(d, off).value.1
    && ReadLength(d, ReadIdentifier(d, off).value.2, rules) == Ok((Definite(length), content))
    && content + length >= TWO_TO_THE_64
  }

  // How the two readings of one stretch compare, where "meets" says whether such a primitive is met.
  ghost predicate Parts(d: seq<byte>, rules: Rules, plain: Result<Parsed>, machine: Result<Parsed>, meets: bool) {
    if meets
    then && plain.Err? && plain.code == TruncatedField && Reaches(d, rules, plain.at)
         && (machine.Ok? ==> !InRange(d, machine.value.nodes))
    else machine == plain
  }

  lemma RangesSplit(d: seq<byte>, a: seq<Node>, b: seq<Node>)
    ensures InRange(d, a + b) <==> InRange(d, a) && InRange(d, b)
  {
    if InRange(d, a + b) {
      assert forall i :: 0 <= i < |a| ==> a[i] == (a + b)[i];
      assert forall i :: 0 <= i < |b| ==> b[i] == (a + b)[|a| + i];
    }
  }

  // Reading the first of a row and then the rest.
  ghost function Joined(first: Result<Parsed>, rest: Result<Parsed>): Result<Parsed> {
    if first.Err? then first
    else if rest.Err? then rest
    else Ok(Parsed(first.value.nodes + rest.value.nodes, rest.value.next))
  }

  lemma RowsPart(d: seq<byte>, rules: Rules, first: Result<Parsed>, first64: Result<Parsed>, meets: bool,
                 rest: Result<Parsed>, rest64: Result<Parsed>, later: bool)
    requires Parts(d, rules, first, first64, meets) && (!meets && first.Ok? ==> Parts(d, rules, rest, rest64, later))
    ensures Parts(d, rules, Joined(first, rest), Joined(first64, rest64), meets || (first.Ok? && later))
  {
    hide InRange, Reaches;
    if first64.Ok? && rest64.Ok? { RangesSplit(d, first64.value.nodes, rest64.value.nodes); }
  }

  lemma {:induction false} NodesPart(d: seq<byte>, off: nat, rules: Rules, depth: nat, room: nat)
    requires off <= |d| < TWO_TO_THE_64
    ensures Parts(d, rules, ReadNode(d, off, rules, depth, room), ReadNode64(d, off, rules, depth, room),
                  MeetsNode(d, off, rules, depth, room))
    decreases |d| - off, 0
  {
    hide ReadIdentifier, ReadLength, ReadContents, ReadContents64, MeetsContents;
    if depth <= MAX_DEPTH && ReadIdentifier(d, off).Ok? {
      var (id, constructed, afterId) := ReadIdentifier(d, off).value;
      if ReadLength(d, afterId, rules).Ok? {
        var (length, content) := ReadLength(d, afterId, rules).value;
        if !constructed && length.Definite? && content + length.value >= TWO_TO_THE_64 {
          assert ReachesFrom(d, rules, off, length.value, content);
        }
        ContentsPart(d, off, id, constructed, length, content, rules, depth, room);
      }
    }
  }

  lemma {:induction false} ContentsPart(d: seq<byte>, off: nat, id: Identifier, constructed: bool, length: Length,
                                        content: nat, rules: Rules, depth: nat, room: nat)
    requires off + 2 <= content <= |d| < TWO_TO_THE_64 && depth <= MAX_DEPTH
    requires !constructed && length.Definite? && content + length.value >= TWO_TO_THE_64 ==>
               Reaches(d, rules, content)
    ensures Parts(d, rules, ReadContents(d, off, id, constructed, length, content, rules, depth, room),
                  ReadContents64(d, off, id, constructed, length, content, rules, depth, room),
                  MeetsContents(d, constructed, length, content, rules, depth, room))
    decreases |d| - content, 2
  {
    hide ReadDefinite, ReadDefinite64, ReadIndefinite, ReadIndefinite64, MeetsDefinite, MeetsIndefinite, Reaches;
    if constructed && room > 0 {
      if length.Indefinite? {
        IndefinitesPart(d, content, rules, depth + 1, room - 1);
        ClosesPart(d, rules, off, id, depth, ReadIndefinite(d, content, rules, depth + 1, room - 1),
                   ReadIndefinite64(d, content, rules, depth + 1, room - 1),
                   MeetsIndefinite(d, content, rules, depth + 1, room - 1));
      } else if length.value <= |d| - content {
        var end := content + length.value;
        DefinitesPart(d, content, end, rules, depth + 1, room - 1);
        ClosesPart(d, rules, off, id, depth, ReadDefinite(d, content, end, rules, depth + 1, room - 1),
                   ReadDefinite64(d, content, end, rules, depth + 1, room - 1),
                   MeetsDefinite(d, content, end, rules, depth + 1, room - 1));
      }
    } else if !constructed && length.Definite? {
      var next := Wrapped(content + length.value);
      var node := Primitive64(id, off, next, content, length.value, depth);
      assert [node][0] == node;
    }
  }

  lemma ClosesPart(d: seq<byte>, rules: Rules, off: nat, id: Identifier, depth: nat,
                   kids: Result<Parsed>, kids64: Result<Parsed>, meets: bool)
    requires Parts(d, rules, kids, kids64, meets) && |d| < TWO_TO_THE_64 && (kids.Ok? ==> off <= kids.value.next <= |d|)
    ensures meets && kids64.Ok? ==>
              var size := 1 + |kids64.value.nodes|;
              !InRange(d, [Closed64(id, off, kids64.value.next, depth, size)] + kids64.value.nodes)
    ensures kids.Ok? ==>
              var size := 1 + |kids.value.nodes|;
              Closed64(id, off, kids.value.next, depth, size) == Closed(id, off, kids.value.next, depth, size)
  {
    hide InRange, Reaches;
    if kids64.Ok? {
      RangesSplit(d, [Closed64(id, off, kids64.value.next, depth, 1 + |kids64.value.nodes|)], kids64.value.nodes);
    }
  }

  lemma {:induction false} DefinitesPart(d: seq<byte>, off: nat, end: nat, rules: Rules, depth: nat, room: nat)
    requires off <= |d| < TWO_TO_THE_64
    ensures Parts(d, rules, ReadDefinite(d, off, end, rules, depth, room),
                  ReadDefinite64(d, off, end, rules, depth, room), MeetsDefinite(d, off, end, rules, depth, room))
    decreases |d| - off, 1
  {
    hide ReadNode, ReadNode64, MeetsNode, InRange, Reaches;
    if off < end {
      NodesPart(d, off, rules, depth, room);
      var first := ReadNode(d, off, rules, depth, room);
      var first64 := ReadNode64(d, off, rules, depth, room);
      var rest, rest64, later := first, first64, false;
      if first.Ok? {
        var next, left := first.value.next, room - |first.value.nodes|;
        DefinitesPart(d, next, end, rules, depth, left);
        rest, later := ReadDefinite(d, next, end, rules, depth, left), MeetsDefinite(d, next, end, rules, depth, left);
      }
      if first64.Ok? {
        rest64 := ReadDefinite64(d, first64.value.next, end, rules, depth, room - |first64.value.nodes|);
      }
      RowsPart(d, rules, first, first64, MeetsNode(d, off, rules, depth, room), rest, rest64, later);
    }
  }

  lemma {:induction false} IndefinitesPart(d: seq<byte>, off: nat, rules: Rules, depth: nat, room: nat)
    requires off <= |d| < TWO_TO_THE_64
    ensures Parts(d, rules, ReadIndefinite(d, off, rules, depth, room), ReadIndefinite64(d, off, rules, depth, room),
                  MeetsIndefinite(d, off, rules, depth, room))
    decreases |d| - off, 1
  {
    hide ReadNode, ReadNode64, MeetsNode, InRange, Reaches;
    if off + 2 <= |d| && !EndOfContents(d, off) {
      NodesPart(d, off, rules, depth, room);
      var first := ReadNode(d, off, rules, depth, room);
      var first64 := ReadNode64(d, off, rules, depth, room);
      var rest, rest64, later := first, first64, false;
      if first.Ok? {
        var next, left := first.value.next, room - |first.value.nodes|;
        IndefinitesPart(d, next, rules, depth, left);
        rest, later := ReadIndefinite(d, next, rules, depth, left), MeetsIndefinite(d, next, rules, depth, left);
      }
      if first64.Ok? {
        rest64 := ReadIndefinite64(d, first64.value.next, rules, depth, room - |first64.value.nodes|);
      }
      RowsPart(d, rules, first, first64, MeetsNode(d, off, rules, depth, room), rest, rest64, later);
    }
  }

  // ---------------------------------------------------------------- whole inputs

  // More room never hides such a primitive, and beyond half the octets left it makes no difference.
  lemma {:induction false} MoreRoomMeets(d: seq<byte>, off: nat, rules: Rules, depth: nat, room: nat, more: nat)
    requires off <= |d| && room <= more
    ensures MeetsNode(d, off, rules, depth, room) ==> MeetsNode(d, off, rules, depth, more)
    ensures 2 * room >= |d| - off && MeetsNode(d, off, rules, depth, more) ==> MeetsNode(d, off, rules, depth, room)
    decreases |d| - off, 0
  {
    hide ReadIdentifier, ReadLength, MeetsContents;
    if depth <= MAX_DEPTH && ReadIdentifier(d, off).Ok? {
      var (id, constructed, afterId) := ReadIdentifier(d, off).value;
      if ReadLength(d, afterId, rules).Ok? {
        var (length, content) := ReadLength(d, afterId, rules).value;
        MoreRoomMeetsContents(d, off, constructed, length, content, rules, depth, room, more);
      }
    }
  }

  lemma {:induction false} MoreRoomMeetsContents(d: seq<byte>, off: nat, constructed: bool, length: Length,
                                                 content: nat, rules: Rules, depth: nat, room: nat, more: nat)
    requires off + 2 <= content <= |d| && room <= more
    ensures MeetsContents(d, constructed, length, content, rules, depth, room) ==>
              MeetsContents(d, constructed, length, content, rules, depth, more)
    ensures 2 * room >= |d| - off && MeetsContents(d, constructed, length, content, rules, depth, more) ==>
              MeetsContents(d, constructed, length, content, rules, depth, room)
    decreases |d| - content, 2
  {
    hide MeetsDefinite, MeetsIndefinite;
    if constructed && room > 0 {
      if length.Indefinite? {
        MoreRoomMeetsIndefinite(d, content, rules, depth + 1, room - 1, more - 1);
      } else if length.value <= |d| - content {
        MoreRoomMeetsDefinite(d, content, content + length.value, rules, depth + 1, room - 1, more - 1);
      }
    }
  }

  lemma {:induction false} MoreRoomMeetsDefinite(d: seq<byte>, off: nat, end: nat, rules: Rules, depth: nat,
                                                 room: nat, more: nat)
    requires off <= |d| && room <= more
    ensures MeetsDefinite(d, off, end, rules, depth, room) ==> MeetsDefinite(d, off, end, rules, depth, more)
    ensures 2 * room >= |d| - off && MeetsDefinite(d, off, end, rules, depth, more) ==>
              MeetsDefinite(d, off, end, rules, depth, room)
    decreases |d| - off, 1
  {
    hide ReadNode, MeetsNode;
    if off < end {
      MoreRoomMeets(d, off, rules, depth, room, more);
      LessRoom(d, off, rules, depth, room, more);
      if 2 * room >= |d| - off { HalfIsEnough(d, off, rules, depth, room); }
      var first := ReadNode(d, off, rules, depth, room);
      if first.Ok? {
        var n := |first.value.nodes|;
        MoreRoomMeetsDefinite(d, first.value.next, end, rules, depth, room - n, more - n);
      }
    }
  }

  lemma {:induction false} MoreRoomMeetsIndefinite(d: seq<byte>, off: nat, rules: Rules, depth: nat,
                                                   room: nat, more: nat)
    requires off <= |d| && room <= more
    ensures MeetsIndefinite(d, off, rules, depth, room) ==> MeetsIndefinite(d, off, rules, depth, more)
    ensures 2 * room >= |d| - off && MeetsIndefinite(d, off, rules, depth, more) ==>
              MeetsIndefinite(d, off, rules, depth, room)
    decreases |d| - off, 1
  {
    hide ReadNode, MeetsNode;
    if off + 2 <= |d| && !EndOfContents(d, off) {
      MoreRoomMeets(d, off, rules, depth, room, more);
      LessRoom(d, off, rules, depth, room, more);
      if 2 * room >= |d| - off { HalfIsEnough(d, off, rules, depth, room); }
      var first := ReadNode(d, off, rules, depth, room);
      if first.Ok? {
        var n := |first.value.nodes|;
        MoreRoomMeetsIndefinite(d, first.value.next, rules, depth, room - n, more - n);
      }
    }
  }

  // Whatever the capacity: without such a primitive asn1_parse is the plain parser. With one the plain parser
  // reports that field as truncated, or the capacity, so whatever asn1_parse accepts then is wrongly accepted; that
  // is so exactly when some stored slice lies outside the input.
  lemma ParseAgrees(d: seq<byte>, rules: Rules, capacity: nat)
    requires |d| < TWO_TO_THE_64
    ensures !Overflows(d, rules) ==> Parse64(d, rules, capacity) == Parse(d, rules, capacity)
    ensures Overflows(d, rules) ==>
              || Parse(d, rules, capacity) == Err(CapacityExceeded, 0)
              || exists at :: Reaches(d, rules, at) && Parse(d, rules, capacity) == Err(TruncatedField, at)
    ensures Parse64(d, rules, capacity).Ok? ==>
              (Overflows(d, rules) <==> !InRange(d, Parse64(d, rules, capacity).value))
  {
    hide ReadNode, ReadNode64, MeetsNode, InRange, Reaches;
    NodesPart(d, 0, rules, 1, capacity);
    NodesPart(d, 0, rules, 1, |d|);
    if capacity <= |d| {
      LessRoom(d, 0, rules, 1, capacity, |d|);
      MoreRoomMeets(d, 0, rules, 1, capacity, |d|);
    } else {
      LessRoom(d, 0, rules, 1, |d|, capacity);
      MoreRoomMeets(d, 0, rules, 1, |d|, capacity);
    }
    if Overflows(d, rules) {
      NotEmpty(d, rules);
      assert Reaches(d, rules, ReadNode(d, 0, rules, 1, |d|).at);
    }
  }

  lemma NotEmpty(d: seq<byte>, rules: Rules)
    ensures Overflows(d, rules) ==> d != []
  {
  }

  // ---------------------------------------------------------------- two inputs

  lemma {:induction false} Ones(n: nat)
    ensures FromDigits(256, seq(n, _ => 255)) == Pow(256, n) - 1
  {
    if n > 0 {
      var ds := seq(n, _ => 255);
      assert ds[..n - 1] == seq(n - 1, _ => 255);
      Ones(n - 1);
    }
  }

  // Length octets FF .. FF with any last octet.
  lemma LargeLength(d: seq<byte>, off: nat, last: byte)
    requires off + 9 <= |d| && d[off..off + 9] == [0x88, 0xFF, 0xFF, 0xFF, 0xFF, 0xFF, 0xFF, 0xFF, last]
    ensures ReadLength(d, off, DER) == Ok((Definite(TWO_TO_THE_64 - 256 + last), off + 9))
  {
    hide FromDigits, ToDigits;
    var ds := d[off + 1..off + 9];
    assert d[off] == d[off..off + 9][0];
    assert ds == d[off..off + 9][1..];
    assert ds[..7] == seq(7, _ => 255);
    LargeValue(ds, last);
    ToFromDigits(256, ds);
  }

  lemma LargeValue(ds: seq<byte>, last: byte)
    requires |ds| == 8 && ds[..7] == seq(7, _ => 255) && ds[7] == last
    ensures FromDigits(256, ds) == TWO_TO_THE_64 - 256 + last
  {
    Ones(7);
    Pow256To8();
  }

  // The header of a child and what is read after it.
  lemma ChildRead(d: seq<byte>, off: nat, id: Identifier, constructed: bool, afterId: nat, length: nat, content: nat,
                  depth: nat, room: nat)
    requires off <= |d| && depth <= MAX_DEPTH && ReadIdentifier(d, off) == Ok((id, constructed, afterId))
    requires ReadLength(d, afterId, DER) == Ok((Definite(length), content))
    ensures ReadNode(d, off, DER, depth, room)
         == ReadContents(d, off, id, constructed, Definite(length), content, DER, depth, room)
    ensures ReadNode64(d, off, DER, depth, room)
         == ReadContents64(d, off, id, constructed, Definite(length), content, DER, depth, room)
  {
    hide ReadIdentifier, ReadLength, ReadContents, ReadContents64;
  }

  // A SEQUENCE with one primitive whose contents are said to end at 2^64 + 11. asn1_parse goes on at 11, in the
  // length octets it has read, finds a second child there and accepts; one stored slice has 2^64 - 1 octets.
  lemma WrapIsAccepted(d: seq<byte>, capacity: nat)
    requires d == [0x30, 0x0C, 0x04, 0x88, 0xFF, 0xFF, 0xFF, 0xFF, 0xFF, 0xFF, 0xFF, 0xFF, 0x1F, 0x00]
    requires capacity >= 3
    ensures Parse(d, DER, capacity) == Err(TruncatedField, 12)
    ensures Parse64(d, DER, capacity) == Ok([
              Closed64(Identifier(Universal, 16), 0, 14, 1, 3),
              Primitive64(Identifier(Universal, 4), 2, 11, 12, TWO_TO_THE_64 - 1, 2),
              Closed64(Identifier(Private, 31), 11, 14, 2, 1)])
  {
    hide ReadLength, ReadIdentifier, ReadNode, ReadNode64, ReadDefinite, ReadDefinite64, Closed64, Primitive64;
    WrapHeaders(d);
    assert d[3..12] == [0x88, 0xFF, 0xFF, 0xFF, 0xFF, 0xFF, 0xFF, 0xFF, 0xFF];
    LargeLength(d, 3, 0xFF);
    WrappedRow(d, capacity - 1);
    ChildRead(d, 0, Identifier(Universal, 16), true, 1, 12, 2, 1, capacity);
    var root := Closed64(Identifier(Universal, 16), 0, 14, 1, 3);
    var kids := ReadDefinite64(d, 2, 14, DER, 2, capacity - 1).value.nodes;
    assert [root] + kids == [root, kids[0], kids[1]];
  }

  lemma WrapHeaders(d: seq<byte>)
    requires d == [0x30, 0x0C, 0x04, 0x88, 0xFF, 0xFF, 0xFF, 0xFF, 0xFF, 0xFF, 0xFF, 0xFF, 0x1F, 0x00]
    ensures ReadIdentifier(d, 0) == Ok((Identifier(Universal, 16), true, 1))
    ensures ReadLength(d, 1, DER) == Ok((Definite(12), 2))
    ensures ReadIdentifier(d, 2) == Ok((Identifier(Universal, 4), false, 3))
    ensures ReadIdentifier(d, 11) == Ok((Identifier(Private, 31), true, 13))
    ensures ReadLength(d, 13, DER) == Ok((Definite(0), 14))
  {
  }

  lemma WrappedRow(d: seq<byte>, room: nat)
    requires |d| == 14 && room >= 2
    requires ReadIdentifier(d, 2) == Ok((Identifier(Universal, 4), false, 3))
    requires ReadLength(d, 3, DER) == Ok((Definite(TWO_TO_THE_64 - 1), 12))
    requires ReadIdentifier(d, 11) == Ok((Identifier(Private, 31), true, 13))
    requires ReadLength(d, 13, DER) == Ok((Definite(0), 14))
    ensures ReadDefinite(d, 2, 14, DER, 2, room) == Err(TruncatedField, 12)
    ensures ReadDefinite64(d, 2, 14, DER, 2, room) == Ok(Parsed([
              Primitive64(Identifier(Universal, 4), 2, 11, 12, TWO_TO_THE_64 - 1, 2),
              Closed64(Identifier(Private, 31), 11, 14, 2, 1)], 14))
  {
    hide ReadLength, ReadIdentifier, ReadNode, ReadNode64, Closed64, Primitive64;
    ChildRead(d, 2, Identifier(Universal, 4), false, 3, TWO_TO_THE_64 - 1, 12, 2, room);
    ChildRead(d, 11, Identifier(Private, 31), true, 13, 0, 14, 2, room - 1);
    assert ReadDefinite64(d, 14, 14, DER, 3, room - 2) == Ok(Parsed([], 14));
    assert ReadDefinite64(d, 14, 14, DER, 2, room - 2) == Ok(Parsed([], 14));
    var first := Primitive64(Identifier(Universal, 4), 2, 11, 12, TWO_TO_THE_64 - 1, 2);
    var last := Closed64(Identifier(Private, 31), 11, 14, 2, 1);
    assert [last] + [] == [last] && [first] + [last] == [first, last];
    assert ReadDefinite64(d, 11, 14, DER, 2, room - 1) == Ok(Parsed([last], 14));
  }

  // A SEQUENCE with one primitive whose contents are said to end at 2^64 + 2, where the primitive starts: it is
  // stored again and again, and asn1_parse reports the capacity, whatever it is.
  lemma NoRoomIsEnough(d: seq<byte>, capacity: nat)
    requires d == [0x30, 0x0A, 0x04, 0x88, 0xFF, 0xFF, 0xFF, 0xFF, 0xFF, 0xFF, 0xFF, 0xF6]
    ensures Parse(d, DER, |d|) == Err(TruncatedField, 12)
    ensures Parse64(d, DER, capacity) == Err(CapacityExceeded, 0)
  {
    hide ReadLength, ReadIdentifier, ReadNode, ReadNode64, ReadDefinite, ReadDefinite64;
    LoopHeaders(d);
    assert d[3..12] == [0x88, 0xFF, 0xFF, 0xFF, 0xFF, 0xFF, 0xFF, 0xFF, 0xF6];
    LargeLength(d, 3, 0xF6);
    ChildRead(d, 0, Identifier(Universal, 16), true, 1, 10, 2, 1, |d|);
    Loops(d, |d| - 1);
    ChildRead(d, 0, Identifier(Universal, 16), true, 1, 10, 2, 1, capacity);
    if capacity > 0 { Loops(d, capacity - 1); }
  }

  lemma LoopHeaders(d: seq<byte>)
    requires d == [0x30, 0x0A, 0x04, 0x88, 0xFF, 0xFF, 0xFF, 0xFF, 0xFF, 0xFF, 0xFF, 0xF6]
    ensures ReadIdentifier(d, 0) == Ok((Identifier(Universal, 16), true, 1))
    ensures ReadLength(d, 1, DER) == Ok((Definite(10), 2))
    ensures ReadIdentifier(d, 2) == Ok((Identifier(Universal, 4), false, 3))
  {
  }

  lemma {:induction false} Loops(d: seq<byte>, room: nat)
    requires |d| == 12 && ReadIdentifier(d, 2) == Ok((Identifier(Universal, 4), false, 3))
    requires ReadLength(d, 3, DER) == Ok((Definite(TWO_TO_THE_64 - 10), 12))
    ensures ReadDefinite(d, 2, 12, DER, 2, room) == Err(TruncatedField, 12)
    ensures ReadDefinite64(d, 2, 12, DER, 2, room) == Err(CapacityExceeded, 0)
  {
    hide ReadLength, ReadIdentifier, ReadNode, ReadNode64;
    ChildRead(d, 2, Identifier(Universal, 4), false, 3, TWO_TO_THE_64 - 10, 12, 2, room);
    if room > 0 { Loops(d, room - 1); }
  }

  // An input that overflows without any harm: a lone primitive whose contents are said to end at 2^64 + 9 is
  // rejected for the octet after that, whatever the capacity.
  lemma LoneWrapIsRejected(d: seq<byte>, capacity: nat)
    requires d == [0x04, 0x88, 0xFF, 0xFF, 0xFF, 0xFF, 0xFF, 0xFF, 0xFF, 0xFF] && capacity >= 1
    ensures Overflows(d, DER) && Parse64(d, DER, capacity) == Err(TrailingData, 9)
  {
    hide ReadLength, ReadIdentifier, ReadNode64;
    assert ReadIdentifier(d, 0) == Ok((Identifier(Universal, 4), false, 1)) by { LoneHeader(d); }
    assert d[1..10] == [0x88, 0xFF, 0xFF, 0xFF, 0xFF, 0xFF, 0xFF, 0xFF, 0xFF];
    LargeLength(d, 1, 0xFF);
    ChildRead(d, 0, Identifier(Universal, 4), false, 1, TWO_TO_THE_64 - 1, 10, 1, capacity);
    assert MeetsContents(d, false, Definite(TWO_TO_THE_64 - 1), 10, DER, 1, |d|);
    assert MeetsNode(d, 0, DER, 1, |d|);
  }

  lemma LoneHeader(d: seq<byte>)
    requires |d| > 0 && d[0] == 0x04
    ensures ReadIdentifier(d, 0) == Ok((Identifier(Universal, 4), false, 1))
  {
  }
}
