// How the parser's outcome depends on its limits: the capacity of the node array and the encoding rules.
module Limits {
  import opened Errors
  import opened Positional
  import opened Header
  import opened Reader
  import opened Room
  import opened Machine

  // Capacity decides nothing but the capacity error, and that exactly when the nodes do not fit.
  lemma {:induction false} LessRoom64(d: seq<byte>, off: nat, rules: Rules, depth: nat, room: nat, more: nat)
    requires off <= |d| && room <= more
    ensures Truncated(ReadNode64(d, off, rules, depth, room), room, ReadNode64(d, off, rules, depth, more))
    decreases more, 1
  {
    hide ReadIdentifier, ReadLength, ReadContents64, Truncated;
    if depth <= MAX_DEPTH && ReadIdentifier(d, off).Ok? {
      var (id, constructed, afterId) := ReadIdentifier(d, off).value;
      if ReadLength(d, afterId, rules).Ok? {
        var (length, content) := ReadLength(d, afterId, rules).value;
        LessRoomInside64(d, off, id, constructed, length, content, rules, depth, room, more);
      }
    }
    SameError(ReadNode64(d, off, rules, depth, room), room, ReadNode64(d, off, rules, depth, more));
  }

  lemma {:induction false} LessRoomInside64(d: seq<byte>, off: nat, id: Identifier, constructed: bool, length: Length,
                                            content: nat, rules: Rules, depth: nat, room: nat, more: nat)
    requires off + 2 <= content <= |d| && depth <= MAX_DEPTH && room <= more
    ensures Truncated(ReadContents64(d, off, id, constructed, length, content, rules, depth, room), room,
                      ReadContents64(d, off, id, constructed, length, content, rules, depth, more))
    decreases more, 0
  {
    hide ReadDefinite64, ReadIndefinite64, Stores;
    if constructed && room > 0 {
      if length.Indefinite? {
        LessRoomToEnd64(d, content, rules, depth + 1, room - 1, more - 1);
      } else if length.value <= |d| - content {
        LessRoomForAll64(d, content, content + length.value, rules, depth + 1, room - 1, more - 1);
      }
    }
  }

  lemma {:induction false} LessRoomForAll64(d: seq<byte>, off: nat, end: nat, rules: Rules, depth: nat, room: nat,
                                            more: nat)
    requires off <= |d| && room <= more
    ensures Truncated(ReadDefinite64(d, off, end, rules, depth, room), room,
                      ReadDefinite64(d, off, end, rules, depth, more))
    decreases more, 2
  {
    hide ReadNode64;
    if off < end {
      LessRoom64(d, off, rules, depth, room, more);
      var first := ReadNode64(d, off, rules, depth, room);
      if first.Ok? {
        var n := |first.value.nodes|;
        LessRoomForAll64(d, first.value.next, end, rules, depth, room - n, more - n);
      }
    }
  }

  lemma {:induction false} LessRoomToEnd64(d: seq<byte>, off: nat, rules: Rules, depth: nat, room: nat, more: nat)
    requires off <= |d| && room <= more
    ensures Truncated(ReadIndefinite64(d, off, rules, depth, room), room, ReadIndefinite64(d, off, rules, depth, more))
    decreases more, 2
  {
    hide ReadNode64;
    if off + 2 <= |d| && !EndOfContents(d, off) {
      LessRoom64(d, off, rules, depth, room, more);
      var first := ReadNode64(d, off, rules, depth, room);
      if first.Ok? {
        var n := |first.value.nodes|;
        LessRoomToEnd64(d, first.value.next, rules, depth, room - n, more - n);
      }
    }
  }

  // Whatever DER mode accepts, BER mode accepts with the same nodes.
  lemma {:induction false} DerIsBer(d: seq<byte>, off: nat, depth: nat, room: nat)
    requires off <= |d| && ReadNode64(d, off, DER, depth, room).Ok?
    ensures ReadNode64(d, off, BER, depth, room) == ReadNode64(d, off, DER, depth, room)
    decreases room, 0
  {
    hide FromDigits, ToDigits, ReadBase128, ReadDefinite64, ReadIndefinite64;
    var (id, constructed, afterId) := ReadIdentifier(d, off).value;
    if constructed {
      var (length, content) := ReadLength(d, afterId, DER).value;
      AllDerIsBer(d, content, content + length.value, depth + 1, room - 1);
    }
  }

  lemma {:induction false} AllDerIsBer(d: seq<byte>, off: nat, end: nat, depth: nat, room: nat)
    requires off <= |d| && ReadDefinite64(d, off, end, DER, depth, room).Ok?
    ensures ReadDefinite64(d, off, end, BER, depth, room) == ReadDefinite64(d, off, end, DER, depth, room)
    decreases room, 1
  {
    hide ReadNode64;
    if off < end {
      DerIsBer(d, off, depth, room);
      var first := ReadNode64(d, off, DER, depth, room).value;
      AllDerIsBer(d, first.next, end, depth, room - |first.nodes|);
    }
  }

  // How the answer of a parser with more room appears when there is less.
  ghost predicate Cut(less: Result<seq<Node>>, room: nat, more: Result<seq<Node>>) {
    match more
    case Ok(ns) => less == if |ns| <= room then more else Err(CapacityExceeded, 0)
    case Err(_, _) => less == more || less == Err(CapacityExceeded, 0)
  }

  // asn1_parse on any input: a smaller capacity leaves the nodes of an accepted input as they are if it holds them,
  // and otherwise can only bring the capacity error about.
  lemma CapacityCuts(d: seq<byte>, rules: Rules, capacity: nat, more: nat)
    requires capacity <= more
    ensures Cut(Parse64(d, rules, capacity), capacity, Parse64(d, rules, more))
  {
    hide ReadNode64;
    LessRoom64(d, 0, rules, 1, capacity, more);
  }

  // Where nothing overflows, room for half the input rules the capacity error out, so that the answer with that room
  // is the answer for good: any capacity below the number of nodes of an accepted input gives the capacity error, and
  // for a rejected one a smaller capacity can only replace the error by that one.
  lemma ParseCapacity(d: seq<byte>, rules: Rules, capacity: nat)
    requires |d| < TWO_TO_THE_64
    ensures var full := Parse64(d, rules, |d|);
            && (capacity <= |d| ==> Cut(Parse64(d, rules, capacity), capacity, full))
            && (!Overflows(d, rules) ==>
                  && (full.Err? ==> full.code != CapacityExceeded)
                  && (full.Ok? ==> 2 * |full.value| <= |d|)
                  && Cut(Parse64(d, rules, capacity), capacity, full)
                  && (2 * capacity >= |d| ==> Parse64(d, rules, capacity) == full))
  {
    hide ReadNode, Parse64, Overflows;
    if capacity <= |d| {
      CapacityCuts(d, rules, capacity, |d|);
    } else {
      CapacityCuts(d, rules, |d|, capacity);
    }
    if !Overflows(d, rules) {
      ParseAgrees(d, rules, |d|);
      ParseAgrees(d, rules, capacity);
      HalfIsEnough(d, 0, rules, 1, |d|);
      if 2 * capacity >= |d| { HalfIsEnough(d, 0, rules, 1, capacity); }
    }
  }

  lemma ParseDerIsBer(d: seq<byte>, capacity: nat)
    requires Parse64(d, DER, capacity).Ok?
    ensures Parse64(d, BER, capacity) == Parse64(d, DER, capacity)
  {
    hide ReadNode64;
    DerIsBer(d, 0, 1, capacity);
  }
}
