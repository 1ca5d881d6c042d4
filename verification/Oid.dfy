// OBJECT IDENTIFIER contents (ITU-T X.690 section 8.19) as asn1_types.c reads and writes them.
module Oid {
  import opened Errors
  import opened Positional
  import opened Header
  import opened Reader
  import opened Rewrite
  import opened Internal
  import opened Serializer
  import opened Types

  const MAX_COMPONENTS := 32
  const MAX_CONTENT := 128

  // ---------------------------------------------------------------- reading

  // The arcs from position i on, when count of them are already stored. A group number is read as a tag
  // number is; either way it fails, the error is the same.
  function ReadArcs(c: seq<byte>, i: nat, count: nat): (r: Result<seq<nat>>)
    requires i <= |c|
    decreases |c| - i
  {
    if i == |c| then Ok([])
    else match ReadBase128(c, i, 0, 0)
      case Err(_, _) => Err(InvalidOid, 0)
      case Ok((arc, next)) =>
        if count >= MAX_COMPONENTS then Err(InvalidOid, 0)
        else
          var rest :- ReadArcs(c, next, count + 1);
          Ok([arc] + rest)
  }

  function ReadOidContent(c: seq<byte>): Result<seq<nat>> {
    if c == [] then Err(InvalidOid, 0)
    else
      var arcs :- ReadArcs(c, 1, 2);
      Ok([c[0] / 40, c[0] % 40] + arcs)
  }

  function ReadOid(d: seq<byte>, n: Node): Result<seq<nat>>
    requires ValidNode(d, n)
  {
    if n.id != ID_OID then Err(UnexpectedFieldType, 0)
    else if n.constructed then Err(InvalidObject, 0)
    else ReadOidContent(Data(d, n))
  }

  method ParseOid(d: seq<byte>, n: Node) returns (r: Result<seq<nat>>)
    requires ValidNode(d, n)
    ensures r == ReadOid(d, n)
  {
    hide ReadBase128;
    if n.id != ID_OID { return Err(UnexpectedFieldType, 0); }
    if n.constructed { return Err(InvalidObject, 0); }
    if n.dataLength == 0 { return Err(InvalidOid, 0); }
    var c := Data(d, n);
    var components: seq<nat> := [c[0] / 40, c[0] % 40];
    var i := 1;
    ghost var spec := ReadOidContent(c);
    while i < |c|
      invariant 1 <= i <= |c|
      invariant match ReadArcs(c, i, |components|)
                case Ok(rest) => spec == Ok(components + rest)
                case Err(code, at) => spec == Err(code, at)
    {
      var arc := ParseArc(c, i);
      if arc.Err? { return Err(arc.code, arc.at); }
      if |components| >= MAX_COMPONENTS { return Err(InvalidOid, 0); }
      ghost var rest := ReadArcs(c, arc.value.1, |components| + 1);
      if rest.Ok? {
        assert components + ([arc.value.0] + rest.value) == components + [arc.value.0] + rest.value;
      }
      components := components + [arc.value.0];
      i := arc.value.1;
    }
    assert components + [] == components;
    r := Ok(components);
  }

  // The inner loop: one base-128 number.
  method ParseArc(c: seq<byte>, start: nat) returns (r: Result<(nat, nat)>)
    requires start < |c|
    ensures r == match ReadBase128(c, start, 0, 0) case Ok(v) => Ok(v) case Err(_, _) => Err(InvalidOid, 0)
  {
    var value: nat, count: nat, i := 0, 0, start;
    while true
      invariant start <= i <= |c|
      invariant ReadBase128(c, start, 0, 0) == ReadBase128(c, i, value, count)
      decreases |c| - i
    {
      if i >= |c| { return Err(InvalidOid, 0); }
      if count >= MAX_TAG_GROUPS { return Err(InvalidOid, 0); }
      var b := c[i];
      i := i + 1;
      value := Uint32(value * 128 + Low7(b));
      count := count + 1;
      if b < 128 { break; }
    }
    r := Ok((value, i));
  }

  // ---------------------------------------------------------------- writing

  predicate IsOid(arcs: seq<nat>) {
    |arcs| <= MAX_COMPONENTS && forall i :: 0 <= i < |arcs| ==> arcs[i] < TWO_TO_THE_32
  }

  function ArcOctets(arcs: seq<nat>): seq<byte> {
    if arcs == [] then [] else Base128(arcs[0]) + ArcOctets(arcs[1..])
  }

  // Both leading arcs in one octet.
  function LeadArcs(first: nat, second: nat): byte {
    (first * 40 + second) % 256
  }

  function OidContent(arcs: seq<nat>): (c: seq<byte>)
    requires |arcs| >= 2
    ensures c != []
  {
    [LeadArcs(arcs[0], arcs[1])] + ArcOctets(arcs[2..])
  }

  function WriteOid(arcs: seq<nat>): Result<seq<byte>> {
    if |arcs| < 2 then Err(InvalidOid, 0)
    else if arcs[0] > 2 || (arcs[0] < 2 && arcs[1] > 39) then Err(InvalidOid, 0)
    else if |OidContent(arcs)| > MAX_CONTENT then Err(BufferTooSmall, 0)
    else Ok(OidContent(arcs))
  }

  lemma {:induction false} ArcsAppend(a: seq<nat>, arc: nat)
    ensures ArcOctets(a + [arc]) == ArcOctets(a) + Base128(arc)
  {
    if a == [] {
      assert ([arc])[1..] == [];
    } else {
      assert (a + [arc])[1..] == a[1..] + [arc];
      ArcsAppend(a[1..], arc);
    }
  }

  lemma {:induction false} ArcsPrefix(arcs: seq<nat>, i: nat)
    requires i <= |arcs|
    ensures ArcOctets(arcs[..i]) <= ArcOctets(arcs)
  {
    if i > 0 {
      assert arcs[..i][1..] == arcs[1..][..i - 1];
      ArcsPrefix(arcs[1..], i - 1);
    }
  }

  // asn1_serialize_oid up to its final write: the local buffer it fills.
  method OidOctets(arcs: seq<nat>) returns (r: Result<seq<byte>>)
    requires IsOid(arcs)
    ensures r == WriteOid(arcs)
  {
    hide Base128;
    if |arcs| < 2 { return Err(InvalidOid, 0); }
    if arcs[0] > 2 || (arcs[0] < 2 && arcs[1] > 39) { return Err(InvalidOid, 0); }
    var buf: seq<byte> := [(arcs[0] * 40 + arcs[1]) % 256];
    var temp := new byte[MAX_TAG_GROUPS];
    for i := 2 to |arcs|
      invariant buf == [(arcs[0] * 40 + arcs[1]) % 256] + ArcOctets(arcs[2..][..i - 2])
      invariant |buf| <= MAX_CONTENT
      invariant fresh(temp)
    {
      var tempLen := ReversedGroups(arcs[i], temp);
      ghost var before := buf;
      ghost var groups := Base128(arcs[i]);
      assert arcs[2..][..i - 1] == arcs[2..][..i - 2] + [arcs[2..][i - 2]];
      ArcsAppend(arcs[2..][..i - 2], arcs[i]);
      ArcsPrefix(arcs[2..], i - 1);
      var j := tempLen;
      while j > 0
        invariant 0 <= j <= tempLen == |groups| && buf == before + groups[..tempLen - j] && |buf| <= MAX_CONTENT
        invariant forall k :: 0 <= k < tempLen ==> temp[k] == groups[tempLen - 1 - k]
      {
        if |buf| >= MAX_CONTENT { return Err(BufferTooSmall, 0); }
        buf := buf + [temp[j - 1]];
        j := j - 1;
      }
      assert groups[..tempLen] == groups;
    }
    assert arcs[2..][..|arcs| - 2] == arcs[2..];
    r := Ok(buf);
  }

  method SerializeOid(w: Writer, arcs: seq<nat>) returns (s: Status)
    requires w.Valid() && IsOid(arcs)
    modifies w`length, w.buffer
    ensures w.Valid()
    ensures (s, w.Contents()) == match WriteOid(arcs)
            case Err(code, at) => (Fault(code, at), old(w.Contents()))
            case Ok(c) => Put(old(w.Contents()), w.buffer.Length,
                              [EncodeIdentifier(ID_OID, false), EncodeLength(|c|), c])
  {
    hide OidContent, EncodeIdentifier, EncodeLength, Put;
    var c := OidOctets(arcs);
    if c.Err? { return StatusOf(c); }
    s := w.SerializePrimitive(ID_OID, c.value);
  }

  // ---------------------------------------------------------------- the round trip

  // Every arc from position i on is written with the least number of groups and fits 32 bits.
  predicate MinimalArcs(c: seq<byte>, i: nat)
    requires i <= |c|
    decreases |c| - i
  {
    i < |c| && ReadBase128(c, i, 0, 0).Ok? ==>
      MinimalNumber(c, i) && MinimalArcs(c, ReadBase128(c, i, 0, 0).value.1)
  }

  lemma {:induction false} ArcsRead(c: seq<byte>, i: nat, arcs: seq<nat>, count: nat)
    requires forall k :: 0 <= k < |arcs| ==> arcs[k] < TWO_TO_THE_32
    requires i <= |c| && c[i..] == ArcOctets(arcs) && count + |arcs| <= MAX_COMPONENTS
    ensures ReadArcs(c, i, count) == Ok(arcs) && MinimalArcs(c, i)
    decreases |arcs|
  {
    hide Base128, ReadBase128;
    if arcs != [] {
      var next := i + |Base128(arcs[0])|;
      assert c[i..next] == c[i..][..|Base128(arcs[0])|] == Base128(arcs[0]);
      assert c[next..] == c[i..][|Base128(arcs[0])|..] == ArcOctets(arcs[1..]);
      NumberReads(c, i, arcs[0]);
      ArcsRead(c, next, arcs[1..], count + 1);
      assert [arcs[0]] + arcs[1..] == arcs;
    }
  }

  // A 32-bit number written in base 128 is read back.
  lemma NumberReads(c: seq<byte>, i: nat, v: nat)
    requires v < TWO_TO_THE_32 && i + |Base128(v)| <= |c| && c[i..i + |Base128(v)|] == Base128(v)
    ensures ReadBase128(c, i, 0, 0) == Ok((v, i + |Base128(v)|)) && MinimalNumber(c, i)
  {
    hide ReadBase128, FromDigits, ToDigits;
    SliceGroups(c, i, Groups(v));
    if v == 0 {
      OneGroup([0]);
    } else {
      TagGroups(v);
    }
    MinimalGroups(c, i, Groups(v));
    ReadWholeGroups(c, i, Groups(v));
  }

  // What asn1_parse_oid makes of what asn1_serialize_oid wrote: the same arcs exactly when the second
  // arc is at most 39. Under the root arcs 0 and 1 the writer checks that; under 2 it does not.
  lemma OidRoundTrip(arcs: seq<nat>)
    requires IsOid(arcs) && WriteOid(arcs).Ok?
    ensures ReadOidContent(WriteOid(arcs).value) == Ok(arcs) <==> arcs[1] <= 39
  {
    hide ArcOctets, ReadArcs, Base128, ReadBase128;
    var c := OidContent(arcs);
    assert c[1..] == ArcOctets(arcs[2..]);
    ArcsRead(c, 1, arcs[2..], 2);
    assert arcs == [arcs[0], arcs[1]] + arcs[2..];
    if arcs[1] > 39 { assert c[0] % 40 <= 39; }
  }

  lemma {:induction false} ArcsWritten(c: seq<byte>, i: nat, count: nat)
    requires i <= |c| && ReadArcs(c, i, count).Ok? && MinimalArcs(c, i) && count <= MAX_COMPONENTS
    ensures var arcs := ReadArcs(c, i, count).value;
            && ArcOctets(arcs) == c[i..] && count + |arcs| <= MAX_COMPONENTS
            && forall k :: 0 <= k < |arcs| ==> arcs[k] < TWO_TO_THE_32
    decreases |c| - i
  {
    hide Base128, ReadBase128, MinimalNumber;
    if i < |c| {
      var (arc, next) := ReadBase128(c, i, 0, 0).value;
      var rest := ReadArcs(c, next, count + 1).value;
      NumberEncodes(c, i);
      ArcsWritten(c, next, count + 1);
      assert ([arc] + rest)[1..] == rest;
      assert c[i..] == c[i..next] + c[next..];
    }
  }

  // The contents that asn1_parse_oid accepts and asn1_serialize_oid writes back unchanged: a first octet below 120,
  // arcs written minimally, and at most 128 octets.
  lemma OidCodec(c: seq<byte>, arcs: seq<nat>)
    ensures ReadOidContent(c) == Ok(arcs) && c[0] < 120 && MinimalArcs(c, 1) && |c| <= MAX_CONTENT
       <==> IsOid(arcs) && WriteOid(arcs) == Ok(c) && arcs[1] <= 39
  {
    hide ArcOctets, ReadArcs, OidContent, MinimalArcs, IsOid;
    if IsOid(arcs) && WriteOid(arcs) == Ok(c) && arcs[1] <= 39 { WrittenContentReads(c, arcs); }
    if ReadOidContent(c) == Ok(arcs) && c[0] < 120 && MinimalArcs(c, 1) && |c| <= MAX_CONTENT {
      ReadContentWrites(c, arcs);
    }
  }

  lemma WrittenContentReads(c: seq<byte>, arcs: seq<nat>)
    requires IsOid(arcs) && WriteOid(arcs) == Ok(c) && arcs[1] <= 39
    ensures ReadOidContent(c) == Ok(arcs) && c[0] < 120 && MinimalArcs(c, 1) && |c| <= MAX_CONTENT
  {
    hide ArcOctets, ReadArcs, MinimalArcs, ReadOidContent;
    OidRoundTrip(arcs);
    assert c[1..] == ArcOctets(arcs[2..]);
    ArcsRead(c, 1, arcs[2..], 2);
  }

  lemma ReadContentWrites(c: seq<byte>, arcs: seq<nat>)
    requires ReadOidContent(c) == Ok(arcs) && c[0] < 120 && MinimalArcs(c, 1) && |c| <= MAX_CONTENT
    ensures IsOid(arcs) && WriteOid(arcs) == Ok(c) && arcs[1] <= 39
  {
    hide ArcOctets, ReadArcs, MinimalArcs, ReadOidContent, WriteOid, LeadArcs, IsOid;
    var rest := ContentArcs(c, arcs);
    ArcsWritten(c, 1, 2);
    FirstOctet(c[0]);
    assert c == [LeadArcs(c[0] / 40, c[0] % 40)] + ArcOctets(rest);
    FirstArcs(c[0] / 40, c[0] % 40, rest, c);
  }

  lemma ContentArcs(c: seq<byte>, arcs: seq<nat>) returns (rest: seq<nat>)
    requires ReadOidContent(c) == Ok(arcs)
    ensures c != [] && ReadArcs(c, 1, 2) == Ok(rest) && arcs == [c[0] / 40, c[0] % 40] + rest
  {
    hide ReadArcs;
    rest := ReadArcs(c, 1, 2).value;
  }

  lemma FirstOctet(b: byte)
    requires b < 120
    ensures b / 40 <= 2 && b % 40 <= 39 && LeadArcs(b / 40, b % 40) == b
  {
  }

  lemma FirstArcs(first: nat, second: nat, rest: seq<nat>, c: seq<byte>)
    requires first <= 2 && second <= 39 && 2 + |rest| <= MAX_COMPONENTS
    requires forall k :: 0 <= k < |rest| ==> rest[k] < TWO_TO_THE_32
    requires c == [LeadArcs(first, second)] + ArcOctets(rest) && |c| <= MAX_CONTENT
    ensures var arcs := [first, second] + rest;
            IsOid(arcs) && arcs[1] <= 39 && WriteOid(arcs) == Ok(c)
  {
    hide ArcOctets, LeadArcs, OidContent, IsOid;
    var arcs: seq<nat> := [first, second] + rest;
    LeadContent(arcs, first, second, rest);
    SmallArcs(arcs, first, second, rest);
  }

  lemma SmallArcs(arcs: seq<nat>, first: nat, second: nat, rest: seq<nat>)
    requires arcs == [first, second] + rest && first <= 2 && second <= 39 && 2 + |rest| <= MAX_COMPONENTS
    requires forall k :: 0 <= k < |rest| ==> rest[k] < TWO_TO_THE_32
    ensures IsOid(arcs)
  {
    forall i | 0 <= i < |arcs| ensures arcs[i] < TWO_TO_THE_32 {
      if i >= 2 { assert arcs[i] == rest[i - 2]; }
    }
  }

  lemma LeadContent(arcs: seq<nat>, first: nat, second: nat, rest: seq<nat>)
    requires arcs == [first, second] + rest
    ensures OidContent(arcs) == [LeadArcs(first, second)] + ArcOctets(rest)
  {
    hide ArcOctets, LeadArcs;
    assert arcs[2..] == rest;
  }

  // An object identifier of the arc joint-iso-itu-t that does not survive: 2.100.3 comes back as 4.20.3.
  lemma SecondArcLost()
    ensures WriteOid([2, 100, 3]).Ok? && ReadOidContent(WriteOid([2, 100, 3]).value) == Ok([4, 20, 3])
  {
    var arcs: seq<nat> := [2, 100, 3];
    var c := OidContent(arcs);
    assert arcs[2..] == [3] && [3][1..] == [];
    assert ArcOctets([3]) == [3] by { assert Base128(3) == [3] by { assert ToDigits(128, 3) == [3]; } }
    assert c == [180, 3] && c[1..] == [3];
    ArcsRead(c, 1, [3], 2);
    assert [4, 20] + [3] == [4, 20, 3];
  }
}
