// The octets on the wire as X.690 prints them, in numbers: identifier and length octets, what asn1_parse refuses and
// why, and two whole inputs with their node arrays.
module Wire {
  import opened Errors
  import opened Positional
  import opened Header
  import opened Reader
  import opened Machine

  // ---------------------------------------------------------------- identifier octets (section 8.1.2)

  // Table 1: the class by the range of the first octet; bit 6 tells constructed from primitive; the low five bits are
  // the tag number unless they are all ones.
  lemma IdentifierOctet(d: seq<byte>, off: nat)
    requires off <= |d| && ReadIdentifier(d, off).Ok?
    ensures off < |d|
    ensures var (id, constructed, next) := ReadIdentifier(d, off).value;
            && (id.tagClass == Universal <==> d[off] < 0x40)
            && (id.tagClass == Application <==> 0x40 <= d[off] < 0x80)
            && (id.tagClass == ContextSpecific <==> 0x80 <= d[off] < 0xC0)
            && (id.tagClass == Private <==> 0xC0 <= d[off])
            && (constructed <==> 0x20 <= d[off] % 0x40)
            && (d[off] % 0x20 != 0x1F ==> id.number == d[off] % 0x20 && next == off + 1)
            && (d[off] % 0x20 == 0x1F ==> id.number >= 31 && next >= off + 2)
  {
    hide ReadBase128;
  }

  // The first octet written.
  lemma WrittenIdentifierOctet(id: Identifier, constructed: bool)
    ensures var first := EncodeIdentifier(id, constructed)[0];
            && (id.tagClass == Universal <==> first < 0x40)
            && (id.tagClass == Application <==> 0x40 <= first < 0x80)
            && (id.tagClass == ContextSpecific <==> 0x80 <= first < 0xC0)
            && (id.tagClass == Private <==> 0xC0 <= first)
            && (constructed <==> 0x20 <= first % 0x40)
            && first % 0x20 == if id.number < 31 then id.number else 0x1F
    ensures id.number < 31 <==> |EncodeIdentifier(id, constructed)| == 1
  {
    hide Base128;
    LeadOctetFields(id, constructed);
  }

  // Octets read from the left, each standing for its remainder by the base.
  function Value(base: Base, bs: seq<byte>): nat {
    if bs == [] then 0 else Value(base, bs[..|bs| - 1]) * base + bs[|bs| - 1] % base
  }

  // The octets at off go on for n octets with the high bit set and end with one without it.
  ghost predicate More(d: seq<byte>, off: nat, n: nat) {
    off + n < |d| && (forall i :: off <= i < off + n ==> d[i] >= 0x80) && d[off + n] < 0x80
  }

  // A tag number takes at most five octets of seven bits each, the first octet the most significant, all but the last
  // with the high bit set; 32 bits of the number are kept. Longer ones are refused after six octets.
  lemma LongTag(d: seq<byte>, off: nat, n: nat)
    requires More(d, off, n)
    ensures n <= 4 ==>
              ReadBase128(d, off, 0, 0) == Ok((Value(128, d[off..off + n + 1]) % 0x1_0000_0000, off + n + 1))
    ensures n >= 5 ==> ReadBase128(d, off, 0, 0) == Err(InvalidObject, off + 6)
  {
    if n <= 4 {
      GroupsFrom(d, off, off, n);
      assert d[off..off] == [];
    } else {
      assert forall i :: off <= i < off + 5 ==> d[i] >= 0x80;
      TooManyGroups(d, off, 0, 0);
    }
  }

  lemma {:induction false} TooManyGroups(d: seq<byte>, off: nat, value: nat, count: nat)
    requires count <= 5 && off + 5 - count < |d| && forall i :: off <= i < off + 5 - count ==> d[i] >= 0x80
    ensures ReadBase128(d, off, value, count) == Err(InvalidObject, off + 6 - count)
    decreases 5 - count
  {
    if count < 5 { TooManyGroups(d, off + 1, Uint32(value * 128 + Low7(d[off])), count + 1); }
  }

  lemma {:induction false} GroupsFrom(d: seq<byte>, start: nat, off: nat, n: nat)
    requires start <= off && off - start + n <= 4 && More(d, off, n)
    ensures ReadBase128(d, off, Value(128, d[start..off]) % 0x1_0000_0000, off - start)
         == Ok((Value(128, d[start..off + n + 1]) % 0x1_0000_0000, off + n + 1))
    decreases n
  {
    hide Value, Uint32;
    OneMore(d, start, off);
    Truncates(Value(128, d[start..off]), d[off] % 128);
    if n > 0 {
      assert More(d, off + 1, n - 1);
      GroupsFrom(d, start, off + 1, n - 1);
    }
  }

  lemma OneMore(d: seq<byte>, start: nat, off: nat)
    requires start <= off < |d|
    ensures Value(128, d[start..off + 1]) == Value(128, d[start..off]) * 128 + d[off] % 128
  {
    assert d[start..off + 1][..off - start] == d[start..off];
  }

  lemma Truncates(v: nat, low: nat)
    ensures Uint32(v % 0x1_0000_0000 * 128 + low) == (v * 128 + low) % 0x1_0000_0000
  {
    var q, r := v / 0x1_0000_0000, v % 0x1_0000_0000;
    assert v * 128 + low == 0x1_0000_0000 * (q * 128) + (r * 128 + low);
  }

  // A number that is cut off, and one that did not need the long form.
  lemma BadTags(d: seq<byte>, off: nat)
    requires off < |d| && d[off] % 0x20 == 0x1F
    ensures |d| - off <= 6 && (forall i :: off < i < |d| ==> d[i] >= 0x80) ==>
              ReadIdentifier(d, off) == Err(TruncatedField, |d|)
    ensures off + 1 < |d| && d[off + 1] < 31 ==> ReadIdentifier(d, off) == Err(InvalidObject, off + 2)
    ensures ReadIdentifier(d, |d|) == Err(TruncatedField, |d|)
  {
    if |d| - off <= 6 && forall i :: off < i < |d| ==> d[i] >= 0x80 { CutOff(d, off + 1, 0, 0); }
  }

  lemma {:induction false} CutOff(d: seq<byte>, off: nat, value: nat, count: nat)
    requires off <= |d| && |d| - off + count <= 5 && forall i :: off <= i < |d| ==> d[i] >= 0x80
    ensures ReadBase128(d, off, value, count) == Err(TruncatedField, |d|)
    decreases |d| - off
  {
    if off < |d| { CutOff(d, off + 1, Uint32(value * 128 + Low7(d[off])), count + 1); }
  }

  // ---------------------------------------------------------------- length octets (sections 8.1.3 and 10.1)

  lemma {:induction false} ValueIsFromDigits(bs: seq<byte>)
    ensures Value(256, bs) == FromDigits(256, bs)
  {
    if bs != [] { ValueIsFromDigits(bs[..|bs| - 1]); }
  }

  // One octet up to 127; 80 for the indefinite form; otherwise the number of the octets that follow, at most eight,
  // which hold the length from the left.
  lemma LengthOctets(d: seq<byte>, off: nat)
    requires off < |d|
    ensures d[off] < 0x80 ==> forall rules :: ReadLength(d, off, rules) == Ok((Definite(d[off]), off + 1))
    ensures d[off] == 0x80 ==> ReadLength(d, off, BER) == Ok((Indefinite, off + 1))
    ensures d[off] == 0x80 ==> ReadLength(d, off, DER) == Err(UnsupportedLength, off + 1)
    ensures d[off] > 0x88 ==> forall rules :: ReadLength(d, off, rules) == Err(UnsupportedLength, off + 1)
    ensures var n := d[off] as int - 0x80;
            && (1 <= n <= 8 && off + 1 + n > |d| ==>
                  forall rules :: ReadLength(d, off, rules) == Err(TruncatedField, |d|))
            && (1 <= n <= 8 && off + 1 + n <= |d| ==>
                  ReadLength(d, off, BER) == Ok((Definite(Value(256, d[off + 1..off + 1 + n])), off + 1 + n)))
  {
    hide FromDigits, ToDigits, Value;
    var n := d[off] as int - 0x80;
    if 1 <= n <= 8 && off + 1 + n <= |d| { ValueIsFromDigits(d[off + 1..off + 1 + n]); }
  }

  // In DER mode the length must need the octets it takes: no leading zero, and none below 128 in this form.
  lemma DerLengthOctets(d: seq<byte>, off: nat)
    requires off < |d| && 0x81 <= d[off] <= 0x88 && off + 1 + (d[off] - 0x80) <= |d|
    ensures ReadLength(d, off, DER)
         == if d[off + 1] == 0 || (d[off] == 0x81 && d[off + 1] < 0x80)
            then Err(UnsupportedLength, off + 1 + (d[off] - 0x80)) else ReadLength(d, off, BER)
  {
    hide FromDigits, ToDigits;
    var n := d[off] as int - 0x80;
    var ds := d[off + 1..off + 1 + n];
    assert ds[0] == d[off + 1];
    LeadingZero(ds);
    if ds[0] != 0 {
      ToFromDigits(256, ds);
      DigitCount(256, FromDigits(256, ds), 1);
      OneDigit(ds);
    }
  }

  lemma OneDigit(ds: seq<byte>)
    requires ds != [] && ds[0] != 0
    ensures |ds| == 1 ==> FromDigits(256, ds) == ds[0]
    ensures |ds| > 1 ==> FromDigits(256, ds) > 0x7F
  {
    if |ds| == 1 {
      assert ds[..0] == [];
    } else {
      ToFromDigits(256, ds);
      DigitCount(256, FromDigits(256, ds), 1);
      assert Pow(256, 1) == 256 * Pow(256, 0) == 256;
    }
  }

  lemma NoLength(d: seq<byte>, rules: Rules)
    ensures ReadLength(d, |d|, rules) == Err(TruncatedField, |d|)
  {
  }

  // ---------------------------------------------------------------- nodes

  // The outcome for one node whose header is read, before anything below it.
  lemma NodeOutcome(d: seq<byte>, off: nat, id: Identifier, constructed: bool, afterId: nat, length: Length,
                    content: nat, rules: Rules, depth: nat, room: nat)
    requires off <= |d| < 0x1_0000_0000_0000_0000
    requires ReadIdentifier(d, off) == Ok((id, constructed, afterId))
    requires ReadLength(d, afterId, rules) == Ok((length, content))
    ensures var r := ReadNode64(d, off, rules, depth, room);
            && (depth > 50 ==> r == Err(ExcessiveDepth, off))
            && (depth <= 50 && !constructed && length.Indefinite? ==> r == Err(UnsupportedLength, content))
            && (depth <= 50 && constructed && room == 0 ==> r == Err(CapacityExceeded, 0))
            && (depth <= 50 && length.Definite? ==>
                  var end := content + length.value;
                  && (|d| < end < 0x1_0000_0000_0000_0000 && !(constructed && room == 0) ==>
                        r == Err(TruncatedField, content))
                  && (!constructed && end <= |d| && room == 0 ==> r == Err(CapacityExceeded, 0))
                  && (!constructed && end <= |d| && room > 0 ==>
                        r == Ok(Parsed([Node(id, false, off, end - off, Some(content), length.value, depth, 1)], end))))
  {
    hide ReadIdentifier, ReadLength, ReadDefinite64, ReadIndefinite64;
  }

  // A header that is refused, and a place that is too deep.
  lemma HeaderOutcome(d: seq<byte>, off: nat, rules: Rules, depth: nat, room: nat)
    requires off <= |d|
    ensures depth > 50 ==> ReadNode64(d, off, rules, depth, room) == Err(ExcessiveDepth, off)
    ensures depth <= 50 && ReadIdentifier(d, off).Err? ==>
              StatusOf(ReadNode64(d, off, rules, depth, room)) == StatusOf(ReadIdentifier(d, off))
    ensures depth <= 50 && ReadIdentifier(d, off).Ok? ==>
              var length := ReadLength(d, ReadIdentifier(d, off).value.2, rules);
              length.Err? ==> StatusOf(ReadNode64(d, off, rules, depth, room)) == StatusOf(length)
  {
    hide ReadIdentifier, ReadLength, ReadContents64;
  }

  // A constructed node over its children.
  lemma NodeOverKids(d: seq<byte>, off: nat, id: Identifier, afterId: nat, content: nat, kids: seq<Node>, next: nat,
                     indefinite: bool, rules: Rules, depth: nat, room: nat)
    requires off <= |d| < 0x1_0000_0000_0000_0000 && depth <= 50 && room > 0 && off <= next
    requires ReadIdentifier(d, off) == Ok((id, true, afterId))
    requires !indefinite ==>
               && content <= next <= |d| && ReadLength(d, afterId, rules) == Ok((Definite(next - content), content))
               && ReadDefinite64(d, content, next, rules, depth + 1, room - 1) == Ok(Parsed(kids, next))
    requires indefinite ==>
               && content <= |d| && ReadLength(d, afterId, rules) == Ok((Indefinite, content))
               && ReadIndefinite64(d, content, rules, depth + 1, room - 1) == Ok(Parsed(kids, next))
    ensures ReadNode64(d, off, rules, depth, room)
         == Ok(Parsed([Node(id, true, off, next - off, None, 0, depth, 1 + |kids|)] + kids, next))
  {
    hide ReadIdentifier, ReadLength, ReadDefinite64, ReadIndefinite64;
  }

  // The children of a definite node up to its end.
  lemma RowOutcome(d: seq<byte>, off: nat, end: nat, rules: Rules, depth: nat, room: nat)
    requires off <= |d|
    ensures off > end ==> ReadDefinite64(d, off, end, rules, depth, room) == Err(InvalidObject, off)
    ensures off == end ==> ReadDefinite64(d, off, end, rules, depth, room) == Ok(Parsed([], off))
    ensures off < end ==>
              match ReadNode64(d, off, rules, depth, room)
              case Err(code, at) => ReadDefinite64(d, off, end, rules, depth, room) == Err(code, at)
              case Ok(first) =>
                match ReadDefinite64(d, first.next, end, rules, depth, room - |first.nodes|)
                case Err(code, at) => ReadDefinite64(d, off, end, rules, depth, room) == Err(code, at)
                case Ok(rest) =>
                  ReadDefinite64(d, off, end, rules, depth, room) == Ok(Parsed(first.nodes + rest.nodes, end))
  {
    hide ReadNode64;
  }

  // The children of an indefinite node up to two zero octets (section 8.1.5).
  lemma OpenRowOutcome(d: seq<byte>, off: nat, rules: Rules, depth: nat, room: nat)
    requires off <= |d|
    ensures |d| < off + 2 ==> ReadIndefinite64(d, off, rules, depth, room) == Err(TruncatedField, off)
    ensures off + 2 <= |d| && d[off] == 0 && d[off + 1] == 0 ==>
              ReadIndefinite64(d, off, rules, depth, room) == Ok(Parsed([], off + 2))
    ensures off + 2 <= |d| && !(d[off] == 0 && d[off + 1] == 0) ==>
              match ReadNode64(d, off, rules, depth, room)
              case Err(code, at) => ReadIndefinite64(d, off, rules, depth, room) == Err(code, at)
              case Ok(first) =>
                match ReadIndefinite64(d, first.next, rules, depth, room - |first.nodes|)
                case Err(code, at) => ReadIndefinite64(d, off, rules, depth, room) == Err(code, at)
                case Ok(rest) =>
                  ReadIndefinite64(d, off, rules, depth, room) == Ok(Parsed(first.nodes + rest.nodes, rest.next))
  {
    hide ReadNode64;
  }

  // Nothing, and something behind the root; otherwise the root of what is accepted has the class and form of the first
  // octet.
  lemma InputOutcome(d: seq<byte>, rules: Rules, capacity: nat)
    ensures d == [] ==> Parse64(d, rules, capacity) == Err(TruncatedField, 0)
    ensures d != [] ==>
              match ReadNode64(d, 0, rules, 1, capacity)
              case Err(code, at) => Parse64(d, rules, capacity) == Err(code, at)
              case Ok(p) =>
                Parse64(d, rules, capacity) == if p.next < |d| then Err(TrailingData, p.next) else Ok(p.nodes)
    ensures Parse64(d, rules, capacity).Ok? ==>
              var root := Parse64(d, rules, capacity).value[0];
              && (root.id.tagClass == Universal <==> d[0] < 0x40)
              && (root.id.tagClass == Application <==> 0x40 <= d[0] < 0x80)
              && (root.id.tagClass == ContextSpecific <==> 0x80 <= d[0] < 0xC0)
              && (root.id.tagClass == Private <==> 0xC0 <= d[0])
              && (root.constructed <==> 0x20 <= d[0] % 0x40)
  {
    if Parse64(d, rules, capacity).Ok? { IdentifierOctet(d, 0); }
    hide ReadIdentifier, ReadLength, ReadDefinite64, ReadIndefinite64;
  }

  // ---------------------------------------------------------------- two inputs

  // A SEQUENCE of [0] EXPLICIT INTEGER 2, INTEGER 5 and NULL.
  const DER_EXAMPLE: seq<byte> := [0x30, 0x0A, 0xA0, 0x03, 0x02, 0x01, 0x02, 0x02, 0x01, 0x05, 0x05, 0x00]

  lemma DerExample(capacity: nat)
    requires capacity >= 5
    ensures Parse64(DER_EXAMPLE, DER, capacity) == Ok([
              Node(Identifier(Universal, 16), true, 0, 12, None, 0, 1, 5),
              Node(Identifier(ContextSpecific, 0), true, 2, 5, None, 0, 2, 2),
              Node(Identifier(Universal, 2), false, 4, 3, Some(6), 1, 3, 1),
              Node(Identifier(Universal, 2), false, 7, 3, Some(9), 1, 2, 1),
              Node(Identifier(Universal, 5), false, 10, 2, Some(12), 0, 2, 1)])
  {
    hide ReadIdentifier, ReadLength, ReadNode64, ReadDefinite64;
    var d := DER_EXAMPLE;
    var sequence, version := Identifier(Universal, 16), Identifier(ContextSpecific, 0);
    var integer, null_ := Identifier(Universal, 2), Identifier(Universal, 5);
    DerHeaders();
    NodeOutcome(d, 4, integer, false, 5, Definite(1), 6, DER, 3, capacity - 2);
    RowOutcome(d, 4, 7, DER, 3, capacity - 2);
    RowOutcome(d, 7, 7, DER, 3, capacity - 3);
    var inner := Node(integer, false, 4, 3, Some(6), 1, 3, 1);
    assert [inner] + [] == [inner];
    NodeOverKids(d, 2, version, 3, 4, [inner], 7, false, DER, 2, capacity - 1);
    NodeOutcome(d, 7, integer, false, 8, Definite(1), 9, DER, 2, capacity - 3);
    NodeOutcome(d, 10, null_, false, 11, Definite(0), 12, DER, 2, capacity - 4);
    RowOutcome(d, 2, 12, DER, 2, capacity - 1);
    RowOutcome(d, 7, 12, DER, 2, capacity - 3);
    RowOutcome(d, 10, 12, DER, 2, capacity - 4);
    RowOutcome(d, 12, 12, DER, 2, capacity - 5);
    var a, b, c := Node(version, true, 2, 5, None, 0, 2, 2), Node(integer, false, 7, 3, Some(9), 1, 2, 1),
                   Node(null_, false, 10, 2, Some(12), 0, 2, 1);
    assert [a] + [inner] == [a, inner] && [c] + [] == [c] && [b] + [c] == [b, c];
    assert [a, inner] + [b, c] == [a, inner, b, c];
    NodeOverKids(d, 0, sequence, 1, 2, [a, inner, b, c], 12, false, DER, 1, capacity);
    var root := Node(sequence, true, 0, 12, None, 0, 1, 5);
    assert [root] + [a, inner, b, c] == [root, a, inner, b, c];
  }

  lemma DerHeaders()
    ensures var d := DER_EXAMPLE;
            && ReadIdentifier(d, 0) == Ok((Identifier(Universal, 16), true, 1))
            && ReadLength(d, 1, DER) == Ok((Definite(10), 2))
            && ReadIdentifier(d, 2) == Ok((Identifier(ContextSpecific, 0), true, 3))
            && ReadLength(d, 3, DER) == Ok((Definite(3), 4))
            && ReadIdentifier(d, 4) == Ok((Identifier(Universal, 2), false, 5))
            && ReadLength(d, 5, DER) == Ok((Definite(1), 6))
            && ReadIdentifier(d, 7) == Ok((Identifier(Universal, 2), false, 8))
            && ReadLength(d, 8, DER) == Ok((Definite(1), 9))
            && ReadIdentifier(d, 10) == Ok((Identifier(Universal, 5), false, 11))
            && ReadLength(d, 11, DER) == Ok((Definite(0), 12))
  {
  }

  // A SEQUENCE of indefinite length over INTEGER 5, with a length that takes an octet too many.
  const BER_EXAMPLE: seq<byte> := [0x30, 0x80, 0x02, 0x81, 0x01, 0x05, 0x00, 0x00]

  lemma BerExample(capacity: nat)
    requires capacity >= 2
    ensures Parse64(BER_EXAMPLE, BER, capacity) == Ok([
              Node(Identifier(Universal, 16), true, 0, 8, None, 0, 1, 2),
              Node(Identifier(Universal, 2), false, 2, 4, Some(5), 1, 2, 1)])
    ensures Parse64(BER_EXAMPLE, DER, capacity) == Err(UnsupportedLength, 2)
  {
    hide ReadIdentifier, ReadLength, ReadNode64, ReadDefinite64, ReadIndefinite64;
    var d := BER_EXAMPLE;
    var sequence, integer := Identifier(Universal, 16), Identifier(Universal, 2);
    BerHeaders();
    HeaderOutcome(d, 0, DER, 1, capacity);
    NodeOutcome(d, 2, integer, false, 3, Definite(1), 5, BER, 2, capacity - 1);
    OpenRowOutcome(d, 2, BER, 2, capacity - 1);
    OpenRowOutcome(d, 6, BER, 2, capacity - 2);
    var inner := Node(integer, false, 2, 4, Some(5), 1, 2, 1);
    assert [inner] + [] == [inner];
    NodeOverKids(d, 0, sequence, 1, 2, [inner], 8, true, BER, 1, capacity);
    var root := Node(sequence, true, 0, 8, None, 0, 1, 2);
    assert [root] + [inner] == [root, inner];
  }

  lemma BerHeaders()
    ensures var d := BER_EXAMPLE;
            && ReadIdentifier(d, 0) == Ok((Identifier(Universal, 16), true, 1))
            && ReadLength(d, 1, BER) == Ok((Indefinite, 2)) && ReadLength(d, 1, DER) == Err(UnsupportedLength, 2)
            && ReadIdentifier(d, 2) == Ok((Identifier(Universal, 2), false, 3))
            && ReadLength(d, 3, BER) == Ok((Definite(1), 5))
  {
    LengthOctets(BER_EXAMPLE, 3);
    assert BER_EXAMPLE[4..5] == [1] && [1][..0] == [];
    assert Value(256, [1]) == 1;
  }
}
