// The octets of the types as X.690 and the emitted code print them, in numbers: tags, BOOLEAN, EXPLICIT tagging, the
// values of contents octets, and what the readers and the emitted decoders refuse and why.
module WireTypes {
  import opened Arithmetic
  import opened Errors
  import opened Positional
  import opened Header
  import opened Reader
  import opened Tree
  import opened Structure
  import opened Rewrite
  import opened Types
  import opened Bits
  import opened Oid
  import opened Schema

  // ---------------------------------------------------------------- what is written

  lemma Tags()
    ensures EncodeIdentifier(ID_BOOLEAN, false) == [0x01] && EncodeIdentifier(ID_INTEGER, false) == [0x02]
    ensures EncodeIdentifier(ID_BIT_STRING, false) == [0x03] && EncodeIdentifier(ID_OCTET_STRING, false) == [0x04]
    ensures EncodeIdentifier(ID_OID, false) == [0x06] && EncodeIdentifier(ID_SEQUENCE, true) == [0x30]
  {
  }

  lemma ContextTags(n: nat)
    requires n < 31
    ensures EncodeIdentifier(ContextTag(n), true) == [0xA0 + n]
  {
  }

  lemma BooleanOctets(b: bool)
    ensures Encode(EncodeValue(Boolean, VBool(b)).value) == [0x01, 0x01, if b then 0xFF else 0x00]
  {
    hide EncodeIdentifier;
    Tags();
    ShortLengths(1);
  }

  lemma ShortLengths(n: nat)
    requires n < 128
    ensures EncodeLength(n) == [n]
  {
  }

  lemma IntegerOctets(i: int)
    requires -0x8000_0000_0000_0000 <= i <= 0x7FFF_FFFF_FFFF_FFFF
    ensures WellTyped(Integer, VInt(i)) && 1 <= |Twos(i)| <= 8
    ensures Encode(EncodeValue(Integer, VInt(i)).value) == [0x02, |Twos(i)|] + Twos(i)
  {
    hide EncodeIdentifier, Twos;
    Tags();
    Int64Octets(i);
    ShortLengths(|Twos(i)|);
  }

  lemma StringOctets(bs: seq<byte>)
    requires |bs| <= 2048
    ensures WellTyped(OctetString, VOctets(bs))
    ensures Encode(EncodeValue(OctetString, VOctets(bs)).value) == [0x04] + EncodeLength(|bs|) + bs
  {
    hide EncodeIdentifier, EncodeLength;
    Tags();
  }

  lemma BitStringOctets(bs: BitString)
    ensures Encoding(bs) == [0x03] + EncodeLength(1 + |bs.bytes|) + [bs.unused] + bs.bytes
  {
    hide EncodeIdentifier, EncodeLength;
    Tags();
  }

  lemma OidOctetsWritten(arcs: seq<nat>)
    requires IsOid(arcs) && WriteOid(arcs).Ok?
    ensures var c := WriteOid(arcs).value;
            Encode(EncodeValue(ObjectId, VOid(arcs)).value) == [0x06] + EncodeLength(|c|) + c
  {
    hide EncodeIdentifier, EncodeLength, WriteOid, IsOid;
    Tags();
  }

  lemma SequenceOctets(ts: seq<Tlv>)
    ensures Encode(Cons(ID_SEQUENCE, ts)) == [0x30] + EncodeLength(|EncodeAll(ts)|) + EncodeAll(ts)
  {
    hide EncodeIdentifier, EncodeLength, EncodeAll;
    Tags();
  }

  // A SEQUENCE or SEQUENCE OF is 30, its length and the encodings of its parts in their order.
  lemma StructOctets(ty: Type, v: Value)
    requires (ty.Seq? || ty.SeqOf?) && WellTyped(ty, v) && EncodeValue(ty, v).Ok?
    ensures var ts := if ty.Seq? then EncodeFields(ty.fields, v.fields) else EncodeElements(ty.element, v.elements);
            && ts.Ok?
            && Encode(EncodeValue(ty, v).value) == [0x30] + EncodeLength(|EncodeAll(ts.value)|) + EncodeAll(ts.value)
  {
    hide EncodeIdentifier, EncodeLength, EncodeAll, Encode;
    var ts := if ty.Seq? then EncodeFields(ty.fields, v.fields) else EncodeElements(ty.element, v.elements);
    SequenceOctets(ts.value);
  }

  lemma ElementsInOrder(ty: Type, v: Value, vs: seq<Value>)
    requires AllWellTyped(ty, [v] + vs) && EncodeElements(ty, [v] + vs).Ok?
    ensures WellTyped(ty, v) && AllWellTyped(ty, vs) && EncodeValue(ty, v).Ok? && EncodeElements(ty, vs).Ok?
    ensures EncodeAll(EncodeElements(ty, [v] + vs).value)
         == Encode(EncodeValue(ty, v).value) + EncodeAll(EncodeElements(ty, vs).value)
  {
    hide Encode, EncodeValue, WellTyped;
    assert ([v] + vs)[1..] == vs;
    var t, ts := EncodeValue(ty, v).value, EncodeElements(ty, vs).value;
    assert ([t] + ts)[1..] == ts;
  }

  // A field tagged [n] EXPLICIT is A0 + n, a length, and the value as it would stand without the tag.
  lemma ExplicitOctets(f: Field, v: Value)
    requires f.tag.Some? && f.tag.value < 31 && FieldWellTyped(f, Some(v)) && EncodeField(f, v).Ok?
    ensures EncodeValue(f.ty, v).Ok?
    ensures var inner := Encode(EncodeValue(f.ty, v).value);
            Encode(EncodeField(f, v).value) == [0xA0 + f.tag.value] + EncodeLength(|inner|) + inner
  {
    hide EncodeIdentifier, EncodeLength, EncodeValue, WellTyped;
    ContextTags(f.tag.value);
    var t := EncodeValue(f.ty, v).value;
    assert [t][1..] == [];
    assert EncodeAll([t]) == Encode(t) + [] == Encode(t);
  }

  lemma FieldsInOrder(f: Field, fs: seq<Field>, v: Option<Value>, vs: seq<Option<Value>>)
    requires FieldsWellTyped([f] + fs, [v] + vs) && EncodeFields([f] + fs, [v] + vs).Ok?
    ensures FieldWellTyped(f, v) && FieldsWellTyped(fs, vs) && EncodeFields(fs, vs).Ok?
    ensures v.Some? ==> EncodeField(f, v.value).Ok?
    ensures EncodeAll(EncodeFields([f] + fs, [v] + vs).value)
         == (if v.Some? then Encode(EncodeField(f, v.value).value) else []) + EncodeAll(EncodeFields(fs, vs).value)
  {
    hide Encode, EncodeField, FieldWellTyped;
    assert ([f] + fs)[1..] == fs && ([v] + vs)[1..] == vs;
    var ts := EncodeFields(fs, vs).value;
    if v.Some? {
      var t := EncodeField(f, v.value).value;
      assert ([t] + ts)[1..] == ts;
    } else {
      assert [] + EncodeAll(ts) == EncodeAll(ts);
    }
  }

  // ---------------------------------------------------------------- what is read

  // The readers look at class, number and form of the node.
  lemma ReadersLookAtTags(d: seq<byte>, n: Node)
    requires ValidNode(d, n)
    ensures var expected := Identifier(Universal, 1);
            && (n.id != expected ==> ReadBoolean(d, n) == Err(UnexpectedFieldType, 0))
            && (n.id == expected && n.constructed ==> ReadBoolean(d, n) == Err(InvalidObject, 0))
    ensures var expected := Identifier(Universal, 2);
            && (n.id != expected ==> ReadInt64(d, n) == Err(UnexpectedFieldType, 0) == ReadUint64(d, n))
            && (n.id == expected && n.constructed ==> ReadInt64(d, n) == Err(InvalidObject, 0) == ReadUint64(d, n))
    ensures var expected := Identifier(Universal, 3);
            && (n.id != expected ==> ReadBitString(d, n) == Err(UnexpectedFieldType, 0))
            && (n.id == expected && n.constructed ==> ReadBitString(d, n) == Err(InvalidObject, 0))
    ensures var expected := Identifier(Universal, 4);
            && (n.id != expected ==> ReadOctets(d, n) == Err(UnexpectedFieldType, 0))
            && (n.id == expected && n.constructed ==> ReadOctets(d, n) == Err(InvalidObject, 0))
    ensures var expected := Identifier(Universal, 6);
            && (n.id != expected ==> ReadOid(d, n) == Err(UnexpectedFieldType, 0))
            && (n.id == expected && n.constructed ==> ReadOid(d, n) == Err(InvalidObject, 0))
  {
    hide SignedValue, FromDigits, ReadOidContent;
  }

  // Two's complement from the left (section 8.3.3), and the number without a sign.
  lemma {:induction false} SignedFromTheLeft(bs: seq<byte>, x: byte)
    ensures SignedValue([x]) == if x < 0x80 then x else x - 0x100
    ensures bs != [] ==> SignedValue(bs + [x]) == SignedValue(bs) * 0x100 + x
    ensures FromDigits(256, []) == 0 && FromDigits(256, bs + [x]) == FromDigits(256, bs) * 0x100 + x
  {
    assert (bs + [x])[..|bs|] == bs;
  }

  lemma IntegerContents(d: seq<byte>, n: Node)
    requires ValidNode(d, n) && n.id == Identifier(Universal, 2) && !n.constructed && n.dataLength == |Data(d, n)|
    ensures var bs := Data(d, n);
            && ReadInt64(d, n)
               == (if |bs| == 0 || |bs| > 8 then Err(InvalidIntegerEncoding, 0)
                   else if |bs| >= 2 && ((bs[0] == 0x00 && bs[1] < 0x80) || (bs[0] == 0xFF && bs[1] >= 0x80))
                   then Err(InvalidIntegerEncoding, 0)
                   else Ok(SignedValue(bs)))
            && ReadUint64(d, n)
               == (if |bs| == 0 || bs[0] >= 0x80 || |bs| > 9 || (|bs| == 9 && bs[0] != 0x00)
                   then Err(InvalidIntegerEncoding, 0) else Ok(FromDigits(256, bs)))
  {
    hide SignedValue, FromDigits;
  }

  lemma BooleanContents(d: seq<byte>, n: Node)
    requires ValidNode(d, n) && n.id == Identifier(Universal, 1) && !n.constructed && n.dataLength == |Data(d, n)|
    ensures Data(d, n) == [0x00] <==> ReadBoolean(d, n) == Ok(false)
    ensures Data(d, n) == [0xFF] <==> ReadBoolean(d, n) == Ok(true)
    ensures Data(d, n) != [0x00] && Data(d, n) != [0xFF] ==> ReadBoolean(d, n) == Err(InvalidBoolean, 0)
  {
    var bs := Data(d, n);
    if |bs| == 1 { assert bs == [bs[0]]; }
  }

  lemma StringContents(d: seq<byte>, n: Node)
    requires ValidNode(d, n) && n.id == Identifier(Universal, 4) && !n.constructed
    ensures ReadOctets(d, n) == Ok(if |Data(d, n)| > 2048 then Data(d, n)[..2048] else Data(d, n))
  {
  }

  // The first octet counts the unused bits at the end; bit 8 of the next octet is the first bit (section 8.6.2).
  lemma BitStringContents(d: seq<byte>, n: Node)
    requires ValidNode(d, n) && n.id == Identifier(Universal, 3) && !n.constructed && n.dataLength == |Data(d, n)|
    ensures var c := Data(d, n);
            if c == [] || c[0] > 7 || (|c| == 1 && c[0] != 0) || (|c| > 1 && c[|c| - 1] % PowerOfTwo(c[0]) != 0)
            then ReadBitString(d, n) == Err(InvalidObject, 0)
            else ReadBitString(d, n) == Ok(BitString(c[1..], c[0]))
  {
    var c := Data(d, n);
    if c != [] && c[0] <= 7 { PowersOfTwo(c[0]); }
  }

  function PowerOfTwo(n: nat): (p: nat)
    ensures p >= 1
  {
    match n
    case 0 => 1 case 1 => 2 case 2 => 4 case 3 => 8 case 4 => 16 case 5 => 32 case 6 => 64 case _ => 128
  }

  lemma PowersOfTwo(n: nat)
    requires n <= 7
    ensures Two(n) == PowerOfTwo(n)
  {
    assert Two(4) == 16 && Two(3) == 8;
  }

  lemma BitsFromTheLeft(b: byte, bytes: seq<byte>)
    ensures Unpacked([b]) == [b / 128 % 2 == 1, b / 64 % 2 == 1, b / 32 % 2 == 1, b / 16 % 2 == 1,
                              b / 8 % 2 == 1, b / 4 % 2 == 1, b / 2 % 2 == 1, b % 2 == 1]
    ensures Unpacked(bytes + [b]) == Unpacked(bytes) + Unpacked([b])
  {
    hide BitsOf;
    assert (bytes + [b])[..|bytes|] == bytes && [b][..0] == [];
    EightBits(b);
    assert [] + BitsOf(b, 8) == BitsOf(b, 8);
  }

  lemma EightBits(b: byte)
    ensures BitsOf(b, 8) == [b / 128 % 2 == 1, b / 64 % 2 == 1, b / 32 % 2 == 1, b / 16 % 2 == 1,
                             b / 8 % 2 == 1, b / 4 % 2 == 1, b / 2 % 2 == 1, b % 2 == 1]
  {
    hide BitsOf;
    FourBits(b / 16);
    BitsSplit(b);
    assert b / 16 / 8 == b / 128 && b / 16 / 4 == b / 64 && b / 16 / 2 == b / 32;
  }

  lemma FourBits(b: nat)
    ensures BitsOf(b, 4) == [b / 8 % 2 == 1, b / 4 % 2 == 1, b / 2 % 2 == 1, b % 2 == 1]
  {
    assert BitsOf(b / 16, 0) == [];
    assert BitsOf(b / 8, 1) == [b / 8 % 2 == 1] && BitsOf(b / 4, 2) == BitsOf(b / 8, 1) + [b / 4 % 2 == 1];
    assert BitsOf(b / 2, 3) == BitsOf(b / 4, 2) + [b / 2 % 2 == 1];
  }

  lemma BitsSplit(b: nat)
    ensures BitsOf(b, 8) == BitsOf(b / 16, 4) + [b / 8 % 2 == 1, b / 4 % 2 == 1, b / 2 % 2 == 1, b % 2 == 1]
  {
    assert BitsOf(b / 8, 5) == BitsOf(b / 16, 4) + [b / 8 % 2 == 1];
    assert BitsOf(b / 4, 6) == BitsOf(b / 8, 5) + [b / 4 % 2 == 1];
    assert BitsOf(b / 2, 7) == BitsOf(b / 4, 6) + [b / 2 % 2 == 1];
  }

  // ---------------------------------------------------------------- object identifiers

  // What is not written: fewer than two arcs, a root arc above 2, a second arc above 39 under the root arcs 0 and 1,
  // and contents of more than 128 octets.
  lemma OidRefusals(arcs: seq<nat>)
    ensures |arcs| < 2 || arcs[0] > 2 || (arcs[0] < 2 && arcs[1] > 39) <==> WriteOid(arcs) == Err(InvalidOid, 0)
    ensures |arcs| >= 2 && arcs[0] <= 2 && (arcs[0] < 2 ==> arcs[1] <= 39) ==>
              var c := [(arcs[0] * 40 + arcs[1]) % 256] + ArcOctets(arcs[2..]);
              WriteOid(arcs) == if |c| > 128 then Err(BufferTooSmall, 0) else Ok(c)
    ensures IsOid(arcs) <==> |arcs| <= 32 && forall i :: 0 <= i < |arcs| ==> arcs[i] < 0x1_0000_0000
  {
    hide ArcOctets;
  }

  // What is not read: empty contents, a number that does not end or takes more than five octets, and a 33rd arc.
  lemma OidContents(c: seq<byte>)
    ensures c == [] ==> ReadOidContent(c) == Err(InvalidOid, 0)
    ensures c != [] ==>
              match ReadArcs(c, 1, 2)
              case Err(_, _) => ReadOidContent(c) == Err(InvalidOid, 0)
              case Ok(rest) => ReadOidContent(c) == Ok([c[0] / 40, c[0] % 40] + rest)
  {
    if c != [] { ArcErrors(c, 1, 2); }
  }

  lemma {:induction false} ArcErrors(c: seq<byte>, i: nat, count: nat)
    requires i <= |c|
    ensures ReadArcs(c, i, count).Err? ==> ReadArcs(c, i, count) == Err(InvalidOid, 0)
    ensures i < |c| && count >= 32 ==> ReadArcs(c, i, count) == Err(InvalidOid, 0)
    decreases |c| - i
  {
    hide ReadBase128;
    if i < |c| && ReadBase128(c, i, 0, 0).Ok? { ArcErrors(c, ReadBase128(c, i, 0, 0).value.1, count + 1); }
  }

  // The object identifier 1.2.840.113549.
  lemma OidExample()
    ensures WriteOid([1, 2, 840, 113549]) == Ok([0x2A, 0x86, 0x48, 0x86, 0xF7, 0x0D])
    ensures ReadOidContent([0x2A, 0x86, 0x48, 0x86, 0xF7, 0x0D]) == Ok([1, 2, 840, 113549])
  {
    hide ReadArcs, Base128, ArcOctets;
    var arcs: seq<nat> := [1, 2, 840, 113549];
    assert arcs[2..] == [840, 113549];
    ExampleGroups();
    TwoArcs(840, 113549);
    assert [0x86, 0x48] + [0x86, 0xF7, 0x0D] == [0x86, 0x48, 0x86, 0xF7, 0x0D];
    assert OidContent(arcs) == [0x2A] + [0x86, 0x48, 0x86, 0xF7, 0x0D] == [0x2A, 0x86, 0x48, 0x86, 0xF7, 0x0D];
    OidRoundTrip(arcs);
  }

  lemma TwoArcs(a: nat, b: nat)
    ensures ArcOctets([a, b]) == Base128(a) + Base128(b)
  {
    hide Base128;
    assert [a, b][1..] == [b] && [b][1..] == [];
    assert ArcOctets([b]) == Base128(b) + [] == Base128(b);
  }

  lemma ExampleGroups()
    ensures Base128(840) == [0x86, 0x48] && Base128(113549) == [0x86, 0xF7, 0x0D]
  {
    assert ToDigits(128, 6) == [] + [6];
    assert ToDigits(128, 840) == ToDigits(128, 6) + [72];
    assert ToDigits(128, 887) == ToDigits(128, 6) + [119];
    assert ToDigits(128, 113549) == ToDigits(128, 887) + [13];
  }

  // ---------------------------------------------------------------- the emitted decoders

  // A SEQUENCE or SEQUENCE OF must be constructed; its tag is not looked at.
  lemma StructMustBeConstructed(ty: Type, d: seq<byte>, ns: seq<Node>, i: nat)
    requires Decodable(d, ns) && i < |ns| && (ty.Seq? || ty.SeqOf?) && !ns[i].constructed
    ensures DecodeValue(ty, d, ns, i) == Err(InvalidObject, 0)
  {
  }

  // The loop over elements stops after 32 of them, or when there is none left.
  lemma ElementLoop(ty: Type, d: seq<byte>, ns: seq<Node>, current: nat, end: nat, parentDepth: nat, count: nat)
    requires Decodable(d, ns) && end <= |ns|
    ensures var (child, next) := Advance(ns, current, end, parentDepth);
            var r := DecodeElements(ty, d, ns, current, end, parentDepth, count);
            && (count >= 32 || child.None? ==> r == Ok([]))
            && (count < 32 && child.Some? && DecodeValue(ty, d, ns, child.value).Err? ==> r.Err?)
  {
    hide DecodeValue;
  }

  // Fields and the children left for them: behind the last field anything is passed over; a field that is not optional
  // must be there and fit.
  lemma FieldLoop(fs: seq<Field>, d: seq<byte>, ns: seq<Node>, current: nat, end: nat, parentDepth: nat,
                  pending: Option<nat>)
    requires Decodable(d, ns) && end <= |ns| && (pending.Some? ==> pending.value < |ns|)
    ensures fs == [] ==> DecodeFields(fs, d, ns, current, end, parentDepth, pending) == Ok([])
    ensures fs != [] && !fs[0].optional ==>
              var child := if pending.Some? then pending else Advance(ns, current, end, parentDepth).0;
              var r := DecodeFields(fs, d, ns, current, end, parentDepth, pending);
              && (child.None? ==> r == Err(TruncatedField, 0))
              && (child.Some? && !Matches(fs[0], ns[child.value].id) ==> r == Err(UnexpectedFieldType, 0))
  {
    hide DecodeField, Matches;
  }

  // A tagged field fits context tag n, an untagged one its own universal tag; a reference to a SEQUENCE fits anything.
  lemma FieldFits(f: Field, id: Identifier)
    ensures f.tag.Some? ==> (Matches(f, id) <==> id == Identifier(ContextSpecific, f.tag.value))
    ensures f.tag.None? && f.ty.Seq? ==> Matches(f, id)
    ensures f.tag.None? && !f.ty.Seq? ==>
              (Matches(f, id) <==>
                 id == Identifier(Universal, match f.ty case Boolean => 1 case Integer => 2 case OctetString => 4
                                                        case ObjectId => 6 case _ => 16))
  {
  }

  // The value of a field tagged EXPLICIT is the first node inside; there must be one.
  lemma ExplicitField(f: Field, d: seq<byte>, ns: seq<Node>, i: nat)
    requires Decodable(d, ns) && i < |ns| && f.tag.Some?
    ensures var child := Advance(ns, i + 1, i + ns[i].subtreeSize, ns[i].depth).0;
            DecodeField(f, d, ns, i)
            == if child.None? then Err(TruncatedField, 0) else DecodeValue(f.ty, d, ns, child.value)
  {
    hide DecodeValue;
  }

  // 2048 octets of a string and 32 elements of a list are what the emitted structures hold.
  lemma Holds2048And32(v: Value, element: Type)
    ensures WellTyped(OctetString, v) <==> v.VOctets? && |v.bytes| <= 2048
    ensures WellTyped(SeqOf(element), v) ==> v.VList? && |v.elements| <= 32
    ensures WellTyped(Integer, v) <==> v.VInt? && -0x8000_0000_0000_0000 <= v.i <= 0x7FFF_FFFF_FFFF_FFFF
  {
  }
}
