// INTEGER in asn1_types.c (ITU-T X.690 section 8.3): the 64-bit readers and serializers.
module Types {
  import opened Errors
  import opened Positional
  import opened Header
  import opened Reader
  import opened Rewrite
  import opened Serializer

  const ID_BOOLEAN := Identifier(Universal, 1)
  const ID_INTEGER := Identifier(Universal, 2)
  const ID_OCTET_STRING := Identifier(Universal, 4)
  const ID_OID := Identifier(Universal, 6)
  const ID_SEQUENCE := Identifier(Universal, 16)

  const INT64_MIN: int := -0x8000_0000_0000_0000
  const INT64_MAX: int := 0x7FFF_FFFF_FFFF_FFFF

  // ---------------------------------------------------------------- INTEGER: two's complement

  // The shortest two's-complement octets of v.
  function Twos(v: int): (bs: seq<byte>)
    ensures bs != []
    decreases if v < 0 then -v else v
  {
    if -128 <= v < 128 then [v % 256] else Twos(v / 256) + [v % 256]
  }

  // The value of two's-complement octets.
  function SignedValue(bs: seq<byte>): int
    requires bs != []
  {
    if |bs| == 1 then (if bs[0] < 128 then bs[0] else bs[0] - 256)
    else SignedValue(bs[..|bs| - 1]) * 256 + bs[|bs| - 1]
  }

  // X.690 section 8.3.2: the first nine bits are not all equal.
  predicate MinimalInteger(bs: seq<byte>) {
    bs != [] && (|bs| > 1 ==> !(bs[0] == 0 && bs[1] < 128) && !(bs[0] == 255 && bs[1] >= 128))
  }

  lemma {:induction false} TwosValue(v: int)
    ensures SignedValue(Twos(v)) == v && MinimalInteger(Twos(v))
    decreases if v < 0 then -v else v
  {
    if !(-128 <= v < 128) {
      TwosValue(v / 256);
      assert Twos(v)[..|Twos(v)| - 1] == Twos(v / 256);
      if |Twos(v)| == 2 { assert Twos(v / 256) == [(v / 256) % 256]; }
    }
  }

  lemma {:induction false} ValueTwos(bs: seq<byte>)
    requires MinimalInteger(bs)
    ensures Twos(SignedValue(bs)) == bs
  {
    if |bs| > 1 {
      var front, last := bs[..|bs| - 1], bs[|bs| - 1];
      ValueTwos(front);
      var q := SignedValue(front);
      assert (q * 256 + last) / 256 == q && (q * 256 + last) % 256 == last;
      assert bs == front + [last];
    }
  }

  lemma {:induction false} SignedRange(bs: seq<byte>, n: nat)
    requires 1 <= |bs| <= n
    ensures -128 * Pow(256, n - 1) <= SignedValue(bs) < 128 * Pow(256, n - 1)
    decreases |bs|
  {
    PowMonotone(256, 0, n - 1);
    if |bs| > 1 { SignedRange(bs[..|bs| - 1], n - 1); }
  }

  lemma Int64Range(bs: seq<byte>)
    requires 1 <= |bs| <= 8
    ensures INT64_MIN <= SignedValue(bs) <= INT64_MAX
  {
    SignedRange(bs, 8);
    Pow256To8();
    assert Pow(256, 8) == 256 * Pow(256, 7);
  }

  lemma Int64Octets(v: int)
    requires INT64_MIN <= v <= INT64_MAX
    ensures |Twos(v)| <= 8
  {
    Pow256To8();
    assert Pow(256, 8) == 256 * Pow(256, 7);
    TwosLength(v, 8);
  }

  lemma {:induction false} TwosLength(v: int, n: nat)
    requires n >= 1 && -128 * Pow(256, n - 1) <= v < 128 * Pow(256, n - 1)
    ensures |Twos(v)| <= n
    decreases n
  {
    if !(-128 <= v < 128) { TwosLength(v / 256, n - 1); }
  }

  // ---------------------------------------------------------------- INTEGER: the readers

  ghost predicate ValidNode(d: seq<byte>, n: Node) {
    && (!n.constructed ==> n.data.Some?)
    && (n.data.Some? ==> n.data.value + n.dataLength <= |d|)
  }

  // asn1_parse_integer_bytes
  function IntegerBytes(d: seq<byte>, n: Node): (r: Result<seq<byte>>)
    requires ValidNode(d, n)
    ensures r.Ok? ==> r.value != [] && r.value == Data(d, n)
  {
    if n.id != ID_INTEGER then Err(UnexpectedFieldType, 0)
    else if n.constructed then Err(InvalidObject, 0)
    else if n.dataLength == 0 then Err(InvalidIntegerEncoding, 0)
    else Ok(Data(d, n))
  }

  // What asn1_parse_int64 returns: the value of at most eight minimal octets.
  function ReadInt64(d: seq<byte>, n: Node): Result<int>
    requires ValidNode(d, n)
  {
    var bs :- IntegerBytes(d, n);
    if |bs| > 8 || !MinimalInteger(bs) then Err(InvalidIntegerEncoding, 0) else Ok(SignedValue(bs))
  }

  method ParseInt64(d: seq<byte>, n: Node) returns (r: Result<int>)
    requires ValidNode(d, n)
    ensures r == ReadInt64(d, n)
    ensures r.Ok? ==> INT64_MIN <= r.value <= INT64_MAX
  {
    var bytes :- IntegerBytes(d, n);
    var negative := bytes[0] >= 128;
    if |bytes| > 8 { return Err(InvalidIntegerEncoding, 0); }
    if |bytes| > 1 {
      if (bytes[0] == 0 && bytes[1] < 128) || (bytes[0] == 0xFF && bytes[1] >= 128) {
        return Err(InvalidIntegerEncoding, 0);
      }
    }
    var result: int := if negative then -1 else 0;
    for i := 0 to |bytes|
      invariant result == if i == 0 then (if negative then -1 else 0) else SignedValue(bytes[..i])
      invariant INT64_MIN <= result <= INT64_MAX
    {
      assert bytes[..i + 1][..i] == bytes[..i];
      result := result * 256 + bytes[i];
      assert result == SignedValue(bytes[..i + 1]);
      Int64Range(bytes[..i + 1]);
    }
    assert bytes[..|bytes|] == bytes;
    r := Ok(result);
  }

  // What asn1_parse_uint64 returns: redundant leading octets are not rejected.
  function ReadUint64(d: seq<byte>, n: Node): Result<nat>
    requires ValidNode(d, n)
  {
    var bs :- IntegerBytes(d, n);
    if bs[0] >= 128 || |bs| > 9 || (|bs| == 9 && bs[0] != 0) then Err(InvalidIntegerEncoding, 0)
    else Ok(FromDigits(256, bs))
  }

  method ParseUint64(d: seq<byte>, n: Node) returns (r: Result<nat>)
    requires ValidNode(d, n)
    ensures r == ReadUint64(d, n)
    ensures r.Ok? ==> r.value < TWO_TO_THE_64
  {
    var bytes :- IntegerBytes(d, n);
    if bytes[0] >= 128 { return Err(InvalidIntegerEncoding, 0); }
    if |bytes| > 9 || (|bytes| == 9 && bytes[0] != 0) { return Err(InvalidIntegerEncoding, 0); }
    var result: nat := 0;
    for i := 0 to |bytes|
      invariant result == FromDigits(256, bytes[..i])
    {
      assert bytes[..i + 1][..i] == bytes[..i];
      result := result * 256 + bytes[i];
      Uint64Fits(bytes, i + 1);
    }
    assert bytes[..|bytes|] == bytes;
    Uint64Fits(bytes, |bytes|);
    r := Ok(result);
  }

  // The unsigned accumulator never reaches 2^64.
  lemma Uint64Fits(bs: seq<byte>, i: nat)
    requires i <= |bs| <= 9 && (|bs| == 9 ==> bs[0] == 0)
    ensures FromDigits(256, bs[..i]) < TWO_TO_THE_64
  {
    Pow256To8();
    var p := bs[..i];
    if i <= 8 {
      FromDigitsBound(256, p);
      PowMonotone(256, i, 8);
    } else {
      assert p == [0] + p[1..];
      FromDigitsConcat(256, [0], p[1..]);
      assert FromDigits(256, [0]) == 0 by { assert [0][..0] == []; }
      FromDigitsBound(256, p[1..]);
    }
  }

  lemma {:induction false} UnsignedIsSigned(bs: seq<byte>)
    requires bs != [] && bs[0] < 128
    ensures SignedValue(bs) == FromDigits(256, bs)
  {
    if |bs| == 1 {
      assert bs[..0] == [];
    } else {
      UnsignedIsSigned(bs[..|bs| - 1]);
    }
  }

  // ---------------------------------------------------------------- INTEGER: the writers

  // C's v >> (8 * k), arithmetic for negative v.
  function Shr8(v: int, k: nat): int {
    if k == 0 then v else Shr8(v, k - 1) / 256
  }

  lemma {:induction false} Shr8Range(v: int, k: nat)
    requires -128 * Pow(256, k) <= v < 256 * Pow(256, k)
    ensures -128 <= Shr8(v, k) < 256
    ensures v < 128 * Pow(256, k) ==> Shr8(v, k) < 128
    ensures v >= 0 ==> Shr8(v, k) >= 0
    ensures v < 0 ==> Shr8(v, k) < 0
    decreases k
  {
    if k > 0 {
      Shr8Range(v / 256, k - 1);
      Shr8Front(v, k - 1);
    }
  }

  lemma {:induction false} Shr8Front(v: int, k: nat)
    ensures Shr8(v / 256, k) == Shr8(v, k + 1)
  {
    if k > 0 { Shr8Front(v, k - 1); }
  }

  // The octets of the non-negative branch, shared with asn1_serialize_uint64.
  method UnsignedOctets(value: nat) returns (buf: seq<byte>)
    requires value < TWO_TO_THE_64
    ensures buf == Twos(value)
  {
    buf := [];
    var k := 7;
    Pow256To8();
    assert Pow(256, 8) == 256 * Pow(256, 7);
    Shr8Range(value, 7);
    while k > 0 && Shr8(value, k) == 0
      invariant 0 <= k <= 7 && 0 <= Shr8(value, k) < 256
      decreases k
    {
      k := k - 1;
    }
    ghost var top := k;
    if Shr8(value, k) >= 128 { buf := [0]; }
    while k >= 0
      invariant -1 <= k <= top
      invariant k == top ==> buf == if Shr8(value, top) >= 128 then [0] else []
      invariant k < top ==> buf == Twos(Shr8(value, k + 1)) && (Shr8(value, k + 1) > 0 || k + 1 == top == 0)
      invariant 0 <= Shr8(value, top) < 256 && (Shr8(value, top) > 0 || top == 0)
    {
      assert k < top ==> Shr8(value, k + 1) == Shr8(value, k) / 256;
      buf := buf + [Shr8(value, k) % 256];
      k := k - 1;
    }
  }

  method NegativeOctets(value: int) returns (buf: seq<byte>)
    requires INT64_MIN <= value < 0
    ensures buf == Twos(value)
  {
    buf := [];
    var k := 7;
    Pow256To8();
    assert Pow(256, 8) == 256 * Pow(256, 7);
    Shr8Range(value, 7);
    while k > 0 && Shr8(value, k) % 256 == 0xFF && Shr8(value, k - 1) % 256 >= 128
      invariant 0 <= k <= 7 && -128 <= Shr8(value, k) < 0
      decreases k
    {
      assert Shr8(value, k) == Shr8(value, k - 1) / 256;
      k := k - 1;
    }
    ghost var top := k;
    while k >= 0
      invariant -1 <= k <= top
      invariant -128 <= Shr8(value, top) < 0
      invariant k == top ==> buf == []
      invariant top > 0 ==> Shr8(value, top - 1) < -128
      invariant k < top ==> buf == Twos(Shr8(value, k + 1))
      invariant k < top - 1 ==> Shr8(value, k + 1) < -128
    {
      assert k < top ==> Shr8(value, k + 1) == Shr8(value, k) / 256;
      buf := buf + [Shr8(value, k) % 256];
      k := k - 1;
    }
  }

  lemma IntegerTag()
    ensures EncodeIdentifier(ID_INTEGER, false) == [0x02]
  {
  }

  // asn1_serialize_int64
  method SerializeInt64(w: Writer, value: int) returns (s: Status)
    requires w.Valid() && INT64_MIN <= value <= INT64_MAX
    modifies w`length, w.buffer
    ensures w.Valid() && (s, w.Contents()) ==
              Put(old(w.Contents()), w.buffer.Length,
                  [[0x02], EncodeLength(|Twos(value)|), Twos(value)])
  {
    hide EncodeIdentifier, EncodeLength, Put, Twos;
    IntegerTag();
    Int64Octets(value);
    var buf;
    if value >= 0 {
      buf := UnsignedOctets(value);
    } else {
      buf := NegativeOctets(value);
    }
    s := w.SerializePrimitive(ID_INTEGER, buf);
  }

  // asn1_serialize_uint64; for a value of both types, the same octets as asn1_serialize_int64.
  method SerializeUint64(w: Writer, value: nat) returns (s: Status)
    requires w.Valid() && value < TWO_TO_THE_64
    modifies w`length, w.buffer
    ensures w.Valid() && (s, w.Contents()) ==
              Put(old(w.Contents()), w.buffer.Length,
                  [[0x02], EncodeLength(|Twos(value)|), Twos(value)])
  {
    hide EncodeIdentifier, EncodeLength, Put, Twos;
    IntegerTag();
    Pow256To8();
    assert Pow(256, 8) == 256 * Pow(256, 7);
    TwosLength(value, 9);
    var buf := UnsignedOctets(value);
    s := w.SerializePrimitive(ID_INTEGER, buf);
  }

  // asn1_parse_int64 and asn1_serialize_int64 are inverse: an INTEGER node holds v exactly when its
  // contents are the octets written for v.
  lemma Int64Codec(d: seq<byte>, n: Node, v: int)
    requires ValidNode(d, n)
    ensures ReadInt64(d, n) == Ok(v)
       <==> && n.id == Identifier(Universal, 2) && !n.constructed && Data(d, n) == Twos(v)
            && -0x8000_0000_0000_0000 <= v <= 0x7FFF_FFFF_FFFF_FFFF
  {
    if ReadInt64(d, n) == Ok(v) {
      ValueTwos(Data(d, n));
      Int64Range(Data(d, n));
    }
    if n.id == ID_INTEGER && !n.constructed && INT64_MIN <= v <= INT64_MAX && Data(d, n) == Twos(v) {
      TwosValue(v);
      Int64Octets(v);
    }
  }

  // asn1_parse_uint64 reads back what asn1_serialize_uint64 writes, but what it accepts is what would be
  // written exactly when the octets are minimal.
  lemma Uint64Codec(d: seq<byte>, n: Node, v: nat)
    requires ValidNode(d, n) && n.id == ID_INTEGER && !n.constructed
    ensures v < TWO_TO_THE_64 && Data(d, n) == Twos(v) <==> ReadUint64(d, n) == Ok(v) && MinimalInteger(Data(d, n))
  {
    var bs := Data(d, n);
    if v < TWO_TO_THE_64 && bs == Twos(v) {
      TwosValue(v);
      Pow256To8();
      assert Pow(256, 8) == 256 * Pow(256, 7);
      TwosLength(v, 9);
      LeadOfTwos(v);
      UnsignedIsSigned(bs);
      if |bs| == 9 { NineOctets(bs); }
    }
    if ReadUint64(d, n) == Ok(v) && MinimalInteger(bs) {
      UnsignedIsSigned(bs);
      ValueTwos(bs);
      Uint64Fits(bs, |bs|);
      assert bs[..|bs|] == bs;
    }
  }

  lemma {:induction false} LeadOfTwos(v: nat)
    ensures Twos(v)[0] < 128
    decreases v
  {
    if v >= 128 { LeadOfTwos(v / 256); }
  }

  lemma NineOctets(bs: seq<byte>)
    requires |bs| == 9 && FromDigits(256, bs) < TWO_TO_THE_64
    ensures bs[0] == 0
  {
    Pow256To8();
    assert bs == [bs[0]] + bs[1..];
    FromDigitsConcat(256, [bs[0]], bs[1..]);
    assert FromDigits(256, [bs[0]]) == bs[0] by { assert [bs[0]][..0] == []; }
  }

  // A padded content that asn1_parse_uint64 accepts.
  lemma Uint64AcceptsPadding()
    ensures var d := [0x02, 0x02, 0x00, 0x05];
            var n := Primitive(ID_INTEGER, 0, 2, 2, 1);
            ReadUint64(d, n) == Ok(5) && ReadInt64(d, n).Err?
  {
    var d: seq<byte> := [0x02, 0x02, 0x00, 0x05];
    assert d[2..4] == [0, 5] && [0, 5][..1] == [0] && [0][..0] == [];
    assert FromDigits(256, [0]) == 0;
    assert FromDigits(256, [0, 5]) == 5;
  }
}
