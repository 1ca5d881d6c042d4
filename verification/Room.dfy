// How the plain reading of Reader depends on the room left in the node array.
module Room {
  import opened Errors
  import opened Positional
  import opened Header
  import opened Reader

  // With room for half the octets left, the capacity error cannot occur.
  lemma {:induction false} HalfIsEnough(d: seq<byte>, off: nat, rules: Rules, depth: nat, room: nat)
    requires off <= |d| && 2 * room >= |d| - off
    ensures var r := ReadNode(d, off, rules, depth, room); r.Err? ==> r.code != CapacityExceeded
    decreases |d| - off, 0
  {
    hide FromDigits, ToDigits, ReadBase128, ReadDefinite, ReadIndefinite;
    if depth <= MAX_DEPTH && ReadIdentifier(d, off).Ok? {
      var (id, constructed, afterId) := ReadIdentifier(d, off).value;
      if constructed && ReadLength(d, afterId, rules).Ok? {
        var (length, content) := ReadLength(d, afterId, rules).value;
        match length
        case Definite(v) =>
          if v <= |d| - content { HalfIsEnoughForAll(d, content, content + v, rules, depth + 1, room - 1); }
        case Indefinite => HalfIsEnoughToEnd(d, content, rules, depth + 1, room - 1);
      }
    }
  }

  lemma {:induction false} HalfIsEnoughForAll(d: seq<byte>, off: nat, end: nat, rules: Rules, depth: nat, room: nat)
    requires off <= |d| && 2 * room >= |d| - off
    ensures var r := ReadDefinite(d, off, end, rules, depth, room); r.Err? ==> r.code != CapacityExceeded
    decreases |d| - off, 1
  {
    hide ReadNode;
    if off < end {
      HalfIsEnough(d, off, rules, depth, room);
      var first := ReadNode(d, off, rules, depth, room);
      if first.Ok? {
        HalfIsEnoughForAll(d, first.value.next, end, rules, depth, room - |first.value.nodes|);
      }
    }
  }

  lemma {:induction false} HalfIsEnoughToEnd(d: seq<byte>, off: nat, rules: Rules, depth: nat, room: nat)
    requires off <= |d| && 2 * room >= |d| - off
    ensures var r := ReadIndefinite(d, off, rules, depth, room); r.Err? ==> r.code != CapacityExceeded
    decreases |d| - off, 1
  {
    hide ReadNode;
    if off + 2 <= |d| && !EndOfContents(d, off) {
      HalfIsEnough(d, off, rules, depth, room);
      var first := ReadNode(d, off, rules, depth, room);
      if first.Ok? {
        HalfIsEnoughToEnd(d, first.value.next, rules, depth, room - |first.value.nodes|);
      }
    }
  }

  // How a result obtained with more room appears when there is less.
  ghost predicate Truncated(less: Result<Parsed>, room: nat, more: Result<Parsed>) {
    match more
    case Ok(p) => less == if |p.nodes| <= room then more else Err(CapacityExceeded, 0)
    case Err(_, _) => less == more || less == Err(CapacityExceeded, 0)
  }

  // Capacity decides nothing but the capacity error, and that exactly when the nodes do not fit.
  lemma {:induction false} LessRoom(d: seq<byte>, off: nat, rules: Rules, depth: nat, room: nat, more: nat)
    requires off <= |d| && room <= more
    ensures Truncated(ReadNode(d, off, rules, depth, room), room, ReadNode(d, off, rules, depth, more))
    decreases |d| - off, 0
  {
    hide ReadIdentifier, ReadLength, ReadContents, Truncated;
    if depth <= MAX_DEPTH && ReadIdentifier(d, off).Ok? {
      var (id, constructed, afterId) := ReadIdentifier(d, off).value;
      if ReadLength(d, afterId, rules).Ok? {
        var (length, content) := ReadLength(d, afterId, rules).value;
        LessRoomInside(d, off, id, constructed, length, content, rules, depth, room, more);
      }
    }
    SameError(ReadNode(d, off, rules, depth, room), room, ReadNode(d, off, rules, depth, more));
  }

  lemma SameError(less: Result<Parsed>, room: nat, more: Result<Parsed>)
    ensures less == more && less.Err? ==> Truncated(less, room, more)
  {
  }

  lemma {:induction false} LessRoomInside(d: seq<byte>, off: nat, id: Identifier, constructed: bool, length: Length,
                                          content: nat, rules: Rules, depth: nat, room: nat, more: nat)
    requires off + 2 <= content <= |d| && depth <= MAX_DEPTH && room <= more
    ensures Truncated(ReadContents(d, off, id, constructed, length, content, rules, depth, room), room,
                      ReadContents(d, off, id, constructed, length, content, rules, depth, more))
    decreases |d| - content, 2
  {
    hide ReadDefinite, ReadIndefinite, Advances;
    if constructed && room > 0 {
      if length.Indefinite? {
        LessRoomToEnd(d, content, rules, depth + 1, room - 1, more - 1);
      } else if length.value <= |d| - content {
        LessRoomForAll(d, content, content + length.value, rules, depth + 1, room - 1, more - 1);
      }
    }
  }

  lemma {:induction false} LessRoomForAll(d: seq<byte>, off: nat, end: nat, rules: Rules, depth: nat, room: nat,
                                          more: nat)
    requires off <= |d| && room <= more
    ensures Truncated(ReadDefinite(d, off, end, rules, depth, room), room,
                      ReadDefinite(d, off, end, rules, depth, more))
    decreases |d| - off, 1
  {
    hide ReadNode;
    if off < end {
      LessRoom(d, off, rules, depth, room, more);
      var first := ReadNode(d, off, rules, depth, room);
      if first.Ok? {
        var n := |first.value.nodes|;
        LessRoomForAll(d, first.value.next, end, rules, depth, room - n, more - n);
      }
    }
  }

  lemma {:induction false} LessRoomToEnd(d: seq<byte>, off: nat, rules: Rules, depth: nat, room: nat, more: nat)
    requires off <= |d| && room <= more
    ensures Truncated(ReadIndefinite(d, off, rules, depth, room), room, ReadIndefinite(d, off, rules, depth, more))
    decreases |d| - off, 1
  {
    hide ReadNode;
    if off + 2 <= |d| && !EndOfContents(d, off) {
      LessRoom(d, off, rules, depth, room, more);
      var first := ReadNode(d, off, rules, depth, room);
      if first.Ok? {
        var n := |first.value.nodes|;
        LessRoomToEnd(d, first.value.next, rules, depth, room - n, more - n);
      }
    }
  }
}
