// Identifier and length octets (ITU-T X.690 sections 8.1.2, 8.1.3 and 10.1), after asn1_internal.h
// and the first half of asn1_parser.c. C's shifts and masks are written as / and %.
module Header {
  import opened Errors
  import opened Positional

  datatype TagClass = Universal | Application | ContextSpecific | Private

  datatype Identifier = Identifier(tagClass: TagClass, number: nat)

  datatype Length = Definite(value: nat) | Indefinite

  datatype Rules = BER | DER

  const MAX_TAG_GROUPS := 5

  // sizeof(size_t)
  const MAX_LENGTH_OCTETS := 8

  function ClassCode(c: TagClass): (code: nat)
    ensures code < 4
  {
    match c case Universal => 0 case Application => 1 case ContextSpecific => 2 case Private => 3
  }

  function ClassOf(code: nat): TagClass
    requires code < 4
  {
    if code == 0 then Universal else if code == 1 then Application
    else if code == 2 then ContextSpecific else Private
  }

  // ---------------------------------------------------------------- encoded forms

  // Base-128 groups: every octet but the last has its top bit set.
  function Continued(ds: seq<nat>): (bs: seq<byte>)
    requires AreDigits(128, ds)
    ensures |bs| == |ds|
    ensures forall i :: 0 <= i < |ds| ==> bs[i] == if i < |ds| - 1 then 128 + ds[i] else ds[i]
  {
    seq(|ds|, i requires 0 <= i < |ds| => if i < |ds| - 1 then 128 + ds[i] else ds[i])
  }

  function Groups(v: nat): (ds: seq<nat>)
    ensures AreDigits(128, ds) && ds != []
  {
    if v == 0 then [0] else ToDigits(128, v)
  }

  function Base128(v: nat): (bs: seq<byte>)
    ensures bs != []
  {
    Continued(Groups(v))
  }

  function LeadOctet(id: Identifier, constructed: bool): byte {
    ClassCode(id.tagClass) * 64 + (if constructed then 32 else 0) + (if id.number < 31 then id.number else 31)
  }

  function EncodeIdentifier(id: Identifier, constructed: bool): (bs: seq<byte>)
    ensures bs != []
  {
    [LeadOctet(id, constructed)] + if id.number < 31 then [] else Base128(id.number)
  }

  // Meaningful below 2^64, where the count fits the lower bits of the first octet.
  function EncodeLength(n: nat): (bs: seq<byte>)
    ensures bs != []
  {
    if n <= 0x7F then [n] else [(0x80 + |ToDigits(256, n)|) % 256] + ToDigits(256, n)
  }

  lemma LengthOctetCount(n: nat)
    requires n < TWO_TO_THE_64
    ensures |ToDigits(256, n)| <= MAX_LENGTH_OCTETS
  {
    Pow256To8();
    DigitCount(256, n, 8);
  }

  // ---------------------------------------------------------------- readers

  // A conversion to uint32_t.
  function Uint32(v: nat): (r: nat)
    ensures r < TWO_TO_THE_32
  {
    if v < TWO_TO_THE_32 then v else v % TWO_TO_THE_32
  }

  // The lower seven bits.
  function Low7(b: byte): (r: nat)
    ensures r == b % 128
  {
    if b < 128 then b else b - 128
  }

  // parse_base128_uint from the middle of its loop: value so far and groups read so far.
  function ReadBase128(d: seq<byte>, off: nat, value: nat, count: nat): (r: Result<(nat, nat)>)
    requires off <= |d|
    ensures r.Ok? ==> off < r.value.1 <= |d| && r.value.0 < TWO_TO_THE_32
    ensures r.Err? ==> r.code == TruncatedField || r.code == InvalidObject
    decreases |d| - off
  {
    if off == |d| then Err(TruncatedField, off)
    else if count >= MAX_TAG_GROUPS then Err(InvalidObject, off + 1)
    else
      var value' := Uint32(value * 128 + Low7(d[off]));
      if d[off] >= 128 then ReadBase128(d, off + 1, value', count + 1) else Ok((value', off + 1))
  }

  function ReadIdentifier(d: seq<byte>, off: nat): (r: Result<(Identifier, bool, nat)>)
    requires off <= |d|
    ensures r.Ok? ==> off < r.value.2 <= |d| && r.value.0.number < TWO_TO_THE_32
    ensures r.Err? ==> r.code == TruncatedField || r.code == InvalidObject
  {
    if off == |d| then Err(TruncatedField, off)
    else
      var first := d[off];
      var constructed := (first / 32) % 2 == 1;
      if first % 32 == 31 then
        var (number, next) :- ReadBase128(d, off + 1, 0, 0);
        if number < 31 then Err(InvalidObject, next)
        else Ok((Identifier(ClassOf(first / 64), number), constructed, next))
      else
        Ok((Identifier(ClassOf(first / 64), first % 32), constructed, off + 1))
  }

  // With at most eight length octets the value cannot overflow size_t, so none of the readings wraps.
  function ReadLength(d: seq<byte>, off: nat, rules: Rules): (r: Result<(Length, nat)>)
    requires off <= |d|
    ensures r.Ok? ==> off < r.value.1 <= |d|
    ensures r.Ok? && rules.DER? ==> r.value.0.Definite?
  {
    if off == |d| then Err(TruncatedField, off)
    else
      var first, start := d[off], off + 1;
      if first == 0x80 then
        if rules.DER? then Err(UnsupportedLength, start) else Ok((Indefinite, start))
      else if first < 0x80 then
        Ok((Definite(first), start))
      else
        var n := first - 0x80;
        if n > MAX_LENGTH_OCTETS then Err(UnsupportedLength, start)
        else if |d| - start < n then Err(TruncatedField, |d|)
        else
          var v := FromDigits(256, d[start..start + n]);
          if rules.DER? && v <= 0x7F then Err(UnsupportedLength, start + n)
          else if rules.DER? && n > |ToDigits(256, v)| then Err(UnsupportedLength, start + n)
          else Ok((Definite(v), start + n))
  }

  // ---------------------------------------------------------------- identifier octets: both directions

  // Whether the base-128 number at off is written with a first group that is neither zero nor, in a five-group
  // number, beyond 32 bits.
  predicate MinimalNumber(d: seq<byte>, off: nat)
    requires off < |d|
  {
    && d[off] != 0x80
    && (off + 4 < |d| && d[off + 1] >= 128 && d[off + 2] >= 128 && d[off + 3] >= 128 ==> d[off] <= 0x8F)
  }

  // Whether the identifier at off has a tag number written that way.
  predicate MinimalTag(d: seq<byte>, off: nat) {
    off < |d| && d[off] % 32 == 31 && off + 1 < |d| ==> MinimalNumber(d, off + 1)
  }

  ghost predicate GroupsAt(d: seq<byte>, off: nat, ds: seq<nat>) {
    && AreDigits(128, ds) && off + |ds| <= |d|
    && forall i :: 0 <= i < |ds| ==> d[off + i] == if i < |ds| - 1 then 128 + ds[i] else ds[i]
  }

  lemma SliceGroups(d: seq<byte>, off: nat, ds: seq<nat>)
    requires AreDigits(128, ds) && off + |ds| <= |d|
    ensures d[off..off + |ds|] == Continued(ds) <==> GroupsAt(d, off, ds)
  {
    if d[off..off + |ds|] == Continued(ds) {
      forall i | 0 <= i < |ds| ensures d[off + i] == Continued(ds)[i] {
        assert d[off + i] == d[off..off + |ds|][i];
      }
    }
  }

  // Reading continuation groups gives their value, as long as it fits 32 bits; "seen" are the
  // digits already read.
  lemma {:induction false} ReadGroups(d: seq<byte>, off: nat, seen: seq<nat>, ds: seq<nat>)
    requires GroupsAt(d, off, ds) && ds != []
    requires |seen| + |ds| <= MAX_TAG_GROUPS && FromDigits(128, seen + ds) < TWO_TO_THE_32
    ensures ReadBase128(d, off, FromDigits(128, seen), |seen|) == Ok((FromDigits(128, seen + ds), off + |ds|))
    decreases |ds|
  {
    hide ReadBase128, FromDigits;
    var seen', rest := seen + [ds[0]], ds[1..];
    assert seen' + rest == seen + ds;
    PrefixValue(128, seen', rest);
    ReadOneGroup(d, off, seen, ds[0], rest == []);
    if rest == [] {
      assert seen + ds == seen';
    } else {
      assert GroupsAt(d, off + 1, rest) by { assert forall i :: 0 <= i < |rest| ==> rest[i] == ds[i + 1]; }
      ReadGroups(d, off + 1, seen', rest);
    }
  }

  lemma ReadOneGroup(d: seq<byte>, off: nat, seen: seq<nat>, digit: nat, last: bool)
    requires off < |d| && digit < 128 && d[off] == (if last then digit else 128 + digit)
    requires |seen| < MAX_TAG_GROUPS && FromDigits(128, seen + [digit]) < TWO_TO_THE_32
    ensures ReadBase128(d, off, FromDigits(128, seen), |seen|)
         == if last then Ok((FromDigits(128, seen + [digit]), off + 1))
            else ReadBase128(d, off + 1, FromDigits(128, seen + [digit]), |seen + [digit]|)
  {
    assert (seen + [digit])[..|seen|] == seen;
  }

  lemma OneGroup(ds: seq<nat>)
    requires |ds| == 1
    ensures FromDigits(128, ds) == ds[0] && Pow(128, 1) == 128
  {
    assert FromDigits(128, ds[..0]) == 0;
    assert Pow(128, 0) == 1;
  }

  lemma SplitLead(ds: seq<nat>)
    requires ds != []
    ensures FromDigits(128, ds) == ds[0] * Pow(128, |ds| - 1) + FromDigits(128, ds[1..])
  {
    assert ds == [ds[0]] + ds[1..];
    FromDigitsConcat(128, [ds[0]], ds[1..]);
    OneGroup([ds[0]]);
  }

  // The base-128 digits an accepted tag number was written with.
  lemma {:induction false} GroupsRead(d: seq<byte>, off: nat, value: nat, count: nat) returns (ds: seq<nat>)
    requires off <= |d| && ReadBase128(d, off, value, count).Ok?
    ensures GroupsAt(d, off, ds) && ds != [] && count + |ds| <= MAX_TAG_GROUPS
    ensures off + |ds| == ReadBase128(d, off, value, count).value.1
    decreases |d| - off
  {
    if d[off] >= 128 {
      var rest := GroupsRead(d, off + 1, Uint32(value * 128 + Low7(d[off])), count + 1);
      ds := [Low7(d[off])] + rest;
      assert forall i :: 0 < i < |ds| ==> ds[i] == rest[i - 1];
    } else {
      ds := [d[off] as nat];
    }
  }

  // The leading digit of a five-group number decides whether it fits 32 bits.
  lemma FiveGroups(ds: seq<nat>)
    requires AreDigits(128, ds) && 1 <= |ds| <= 5
    ensures FromDigits(128, ds) < TWO_TO_THE_32 <==> |ds| < 5 || ds[0] < 16
  {
    Pow128To5();
    if |ds| < 5 {
      FromDigitsBound(128, ds);
      PowMonotone(128, |ds|, 4);
    } else {
      SplitLead(ds);
      FromDigitsBound(128, ds[1..]);
    }
  }

  // parse_identifier inverts asn1_encode_identifier on every class, form and 32-bit tag, and what it
  // accepts is such an encoding exactly when the tag number is written minimally.
  lemma IdentifierCodec(d: seq<byte>, off: nat, id: Identifier, constructed: bool, next: nat)
    requires off <= |d|
    ensures off <= next <= |d| && id.number < TWO_TO_THE_32 && d[off..next] == EncodeIdentifier(id, constructed)
       <==> ReadIdentifier(d, off) == Ok((id, constructed, next)) && MinimalTag(d, off)
  {
    if off <= next <= |d| && id.number < TWO_TO_THE_32 && d[off..next] == EncodeIdentifier(id, constructed) {
      EncodedIdentifierReads(d, off, id, constructed, next);
    }
    if ReadIdentifier(d, off) == Ok((id, constructed, next)) && MinimalTag(d, off) {
      ReadIdentifierEncodes(d, off, id, constructed, next);
    }
  }

  lemma LeadOctetFields(id: Identifier, constructed: bool)
    ensures var b := LeadOctet(id, constructed);
            && ClassOf(b / 64) == id.tagClass
            && ((b / 32) % 2 == 1) == constructed
            && b % 32 == if id.number < 31 then id.number else 31
  {
  }

  lemma MinimalGroups(d: seq<byte>, off: nat, ds: seq<nat>)
    requires GroupsAt(d, off, ds) && 1 <= |ds| <= 5
    ensures MinimalNumber(d, off) ==> (|ds| > 1 ==> ds[0] != 0) && (|ds| == 5 ==> ds[0] < 16)
    ensures (|ds| > 1 ==> ds[0] != 0) && (|ds| == 5 ==> ds[0] < 16) ==> MinimalNumber(d, off)
  {
    assert ds[0] < 128;
    assert |ds| > 1 ==> ds[1] < 128;
    assert |ds| > 2 ==> ds[2] < 128;
    assert |ds| > 3 ==> ds[3] < 128;
  }

  lemma EncodedIdentifierReads(d: seq<byte>, off: nat, id: Identifier, constructed: bool, next: nat)
    requires off <= next <= |d| && id.number < TWO_TO_THE_32 && d[off..next] == EncodeIdentifier(id, constructed)
    ensures ReadIdentifier(d, off) == Ok((id, constructed, next)) && MinimalTag(d, off)
  {
    hide ReadBase128, FromDigits, ToDigits;
    assert d[off] == LeadOctet(id, constructed) by { assert d[off] == d[off..next][0]; }
    LeadOctetFields(id, constructed);
    if id.number >= 31 {
      var ds := ToDigits(128, id.number);
      assert GroupsAt(d, off + 1, ds) by {
        assert d[off + 1..next] == Base128(id.number) by { assert d[off + 1..next] == d[off..next][1..]; }
        SliceGroups(d, off + 1, ds);
      }
      TagGroups(id.number);
      ReadWholeGroups(d, off + 1, ds);
      MinimalGroups(d, off + 1, ds);
    }
  }

  lemma TagGroups(number: nat)
    requires 0 < number < TWO_TO_THE_32
    ensures var ds := ToDigits(128, number);
            FromDigits(128, ds) == number && 1 <= |ds| <= 5 && (|ds| == 5 ==> ds[0] < 16)
  {
    Pow128To5();
    DigitCount(128, number, 5);
    FromToDigits(128, number);
    FiveGroups(ToDigits(128, number));
  }

  // A number that fits 32 bits is read back whole.
  lemma ReadWholeGroups(d: seq<byte>, off: nat, ds: seq<nat>)
    requires GroupsAt(d, off, ds) && 1 <= |ds| <= 5 && (|ds| == 5 ==> ds[0] < 16)
    ensures ReadBase128(d, off, 0, 0) == Ok((FromDigits(128, ds), off + |ds|))
  {
    assert [] + ds == ds;
    FiveGroups(ds);
    ReadGroups(d, off, [], ds);
  }

  lemma CanonicalGroups(ds: seq<nat>)
    requires AreDigits(128, ds) && ds != [] && (|ds| > 1 ==> ds[0] != 0)
    ensures Groups(FromDigits(128, ds)) == ds
  {
    if |ds| == 1 { OneGroup(ds); }
    if ds[0] != 0 { ToFromDigits(128, ds); }
  }

  lemma NumberEncodes(d: seq<byte>, off: nat)
    requires off < |d| && MinimalNumber(d, off) && ReadBase128(d, off, 0, 0).Ok?
    ensures var (number, next) := ReadBase128(d, off, 0, 0).value;
            number < TWO_TO_THE_32 && d[off..next] == Base128(number)
  {
    var ds := GroupsRead(d, off, 0, 0);
    MinimalGroups(d, off, ds);
    ReadWholeGroups(d, off, ds);
    FiveGroups(ds);
    CanonicalGroups(ds);
    SliceGroups(d, off, ds);
  }

  lemma ReadIdentifierEncodes(d: seq<byte>, off: nat, id: Identifier, constructed: bool, next: nat)
    requires off <= |d| && ReadIdentifier(d, off) == Ok((id, constructed, next)) && MinimalTag(d, off)
    ensures off <= next <= |d| && d[off..next] == EncodeIdentifier(id, constructed)
  {
    if d[off] % 32 == 31 {
      NumberEncodes(d, off + 1);
      assert d[off..next] == [d[off]] + d[off + 1..next];
    } else {
      assert d[off..next] == [d[off]];
    }
    LeadOctetOf(d[off], id, constructed);
  }

  lemma LeadOctetOf(b: byte, id: Identifier, constructed: bool)
    requires id.tagClass == ClassOf(b / 64) && constructed == ((b / 32) % 2 == 1)
    requires b % 32 == if id.number < 31 then id.number else 31
    ensures b == LeadOctet(id, constructed)
  {
    assert b == (b / 64) * 64 + ((b / 32) % 2) * 32 + b % 32;
  }

  // ---------------------------------------------------------------- length octets: both directions

  // In DER mode parse_length accepts exactly the outputs of asn1_encode_length and returns the value.
  lemma LengthCodec(d: seq<byte>, off: nat, v: nat, next: nat)
    requires off <= |d|
    ensures off <= next <= |d| && v < TWO_TO_THE_64 && d[off..next] == EncodeLength(v)
       <==> ReadLength(d, off, DER) == Ok((Definite(v), next))
  {
    if off <= next <= |d| && v < TWO_TO_THE_64 && d[off..next] == EncodeLength(v) {
      EncodedLengthReads(d, off, v, next);
    }
    if ReadLength(d, off, DER) == Ok((Definite(v), next)) {
      ReadLengthEncodes(d, off, v, next);
    }
  }

  lemma EncodedLengthReads(d: seq<byte>, off: nat, v: nat, next: nat)
    requires off <= next <= |d| && v < TWO_TO_THE_64 && d[off..next] == EncodeLength(v)
    ensures ReadLength(d, off, DER) == Ok((Definite(v), next))
  {
    hide FromDigits, ToDigits;
    assert d[off] == d[off..next][0];
    if v > 0x7F {
      LengthOctetCount(v);
      assert d[off + 1..next] == d[off..next][1..] == ToDigits(256, v);
      FromToDigits(256, v);
    }
  }

  lemma ReadLengthEncodes(d: seq<byte>, off: nat, v: nat, next: nat)
    requires off <= |d| && ReadLength(d, off, DER) == Ok((Definite(v), next))
    ensures off <= next <= |d| && v < TWO_TO_THE_64 && d[off..next] == EncodeLength(v)
  {
    hide FromDigits, ToDigits;
    if d[off] < 0x80 {
      assert d[off..next] == [d[off]];
    } else {
      var ds := d[off + 1..next];
      LongLength(ds);
      assert d[off..next] == [d[off]] + ds;
    }
  }

  lemma LongLength(ds: seq<byte>)
    requires 1 <= |ds| <= MAX_LENGTH_OCTETS && |ds| <= |ToDigits(256, FromDigits(256, ds))|
    ensures FromDigits(256, ds) < TWO_TO_THE_64 && ToDigits(256, FromDigits(256, ds)) == ds
  {
    FromDigitsBound(256, ds);
    Pow256To8();
    PowMonotone(256, |ds|, 8);
    LeadingZero(ds);
    ToFromDigits(256, ds);
  }

  lemma LeadingZero(ds: seq<byte>)
    requires ds != []
    ensures ds[0] == 0 ==> |ToDigits(256, FromDigits(256, ds))| < |ds|
  {
    if ds[0] == 0 {
      assert ds == [0] + ds[1..];
      FromDigitsConcat(256, [0], ds[1..]);
      assert FromDigits(256, [0]) == 0 by { assert [0][..0] == []; }
      FromDigitsBound(256, ds[1..]);
      DigitCount(256, FromDigits(256, ds), |ds| - 1);
    }
  }
}
