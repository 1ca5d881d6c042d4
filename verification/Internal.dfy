// The header encoders of asn1_internal.h as they run, filling caller-supplied buffers.
module Internal {
  import opened Positional
  import opened Header

  // The shared inner loop: base-128 groups of value, lowest first, all but the first flagged.
  method ReversedGroups(value: nat, temp: array<byte>) returns (len: nat)
    requires value < TWO_TO_THE_32 && temp.Length == MAX_TAG_GROUPS
    modifies temp
    ensures len == |Base128(value)| <= MAX_TAG_GROUPS
    ensures forall j :: 0 <= j < len ==> temp[j] == Base128(value)[len - 1 - j]
  {
    hide ToDigits, Groups;
    GroupCount(value);
    NextGroup(value);
    var tag: nat := value / 128;
    temp[0] := value % 128;
    len := 1;
    ghost var ds: seq<nat> := [value % 128];
    while tag > 0
      invariant 1 <= len == |ds| && Groups(value) == ToDigits(128, tag) + ds
      invariant len <= MAX_TAG_GROUPS
      invariant forall j :: 0 <= j < len ==> temp[j] == if j == 0 then ds[len - 1] else 128 + ds[len - 1 - j]
    {
      NextGroup(tag);
      temp[len] := 0x80 + tag % 128;
      ds := [tag % 128] + ds;
      len := len + 1;
      tag := tag / 128;
    }
    assert ds == Groups(value);
  }

  lemma NextGroup(v: nat)
    ensures Groups(v) == ToDigits(128, v / 128) + [v % 128]
    ensures v > 0 ==> ToDigits(128, v) == ToDigits(128, v / 128) + [v % 128]
  {
  }

  lemma GroupCount(value: nat)
    requires value < TWO_TO_THE_32
    ensures |Groups(value)| <= MAX_TAG_GROUPS
  {
    Pow128To5();
    DigitCount(128, value, MAX_TAG_GROUPS);
  }

  method EncodeIdentifierInto(buf: array<byte>, id: Identifier, constructed: bool) returns (written: nat)
    requires id.number < TWO_TO_THE_32 && buf.Length >= 1 + MAX_TAG_GROUPS
    modifies buf
    ensures written == |EncodeIdentifier(id, constructed)| <= buf.Length
    ensures buf[..written] == EncodeIdentifier(id, constructed)
  {
    buf[0] := LeadOctet(id, constructed);
    if id.number < 31 {
      assert buf[..1] == [buf[0]];
      return 1;
    }
    hide ToDigits, Groups;
    var temp := new byte[MAX_TAG_GROUPS];
    var len := ReversedGroups(id.number, temp);
    for i := 0 to len
      invariant buf[0] == LeadOctet(id, constructed)
      invariant forall j :: 0 <= j < len ==> temp[j] == Base128(id.number)[len - 1 - j]
      invariant forall k :: 1 <= k < 1 + i ==> buf[k] == Base128(id.number)[k - 1]
    {
      buf[1 + i] := temp[len - 1 - i];
    }
    written := 1 + len;
    assert buf[..written] == [buf[0]] + buf[1..written];
  }

  method IdentifierBytesNeeded(id: Identifier) returns (bytes: nat)
    requires id.number < TWO_TO_THE_32
    ensures forall constructed :: bytes == |EncodeIdentifier(id, constructed)|
  {
    if id.number < 31 { return 1; }
    bytes := 1;
    var temp := id.number;
    while temp > 0
      invariant bytes + |ToDigits(128, temp)| == 1 + |ToDigits(128, id.number)|
    {
      bytes := bytes + 1;
      temp := temp / 128;
    }
  }

  // The counting loop shared by parse_length, asn1_encode_length and asn1_length_bytes_needed.
  method CountOctets(value: nat) returns (count: nat)
    ensures count == |ToDigits(256, value)|
  {
    count := 0;
    var temp := value;
    while temp > 0
      invariant count + |ToDigits(256, temp)| == |ToDigits(256, value)|
    {
      count := count + 1;
      temp := temp / 256;
    }
  }

  method LengthBytesNeeded(length: nat) returns (bytes: nat)
    ensures bytes == |EncodeLength(length)|
  {
    if length <= 0x7F { return 1; }
    bytes := CountOctets(length);
    bytes := bytes + 1;
  }

  method EncodeLengthInto(buf: array<byte>, length: nat) returns (written: nat)
    requires length < TWO_TO_THE_64 && buf.Length >= 1 + MAX_LENGTH_OCTETS
    modifies buf
    ensures written == |EncodeLength(length)| <= buf.Length && buf[..written] == EncodeLength(length)
  {
    hide ToDigits;
    if length <= 0x7F {
      buf[0] := length;
      assert buf[..1] == [buf[0]];
      return 1;
    }
    var bytes := CountOctets(length);
    LengthOctetCount(length);
    buf[0] := 0x80 + bytes;
    FillOctets(buf, length, bytes);
    written := bytes + 1;
    assert buf[..written] == [buf[0]] + buf[1..written];
  }

  // The loop of asn1_encode_length that stores the octets from the last one down.
  method FillOctets(buf: array<byte>, length: nat, bytes: nat)
    requires bytes == |ToDigits(256, length)| < buf.Length
    modifies buf
    ensures buf[0] == old(buf[0]) && buf[1..bytes + 1] == ToDigits(256, length)
  {
    hide ToDigits;
    var rest := length;
    var i := bytes;
    ghost var ds: seq<nat> := [];
    while i > 0
      invariant 0 <= i <= bytes && buf[0] == old(buf[0])
      invariant |ToDigits(256, rest)| == i && |ds| == bytes - i
      invariant ToDigits(256, length) == ToDigits(256, rest) + ds
      invariant forall k :: i < k <= bytes ==> buf[k] == ds[k - i - 1]
    {
      NextOctet(rest);
      buf[i] := rest % 256;
      ds := [rest % 256] + ds;
      rest := rest / 256;
      i := i - 1;
    }
    assert ds == ToDigits(256, length);
  }

  lemma NextOctet(v: nat)
    requires v > 0
    ensures ToDigits(256, v) == ToDigits(256, v / 256) + [v % 256]
  {
  }

  lemma ShortLength(n: nat)
    ensures |EncodeLength(n)| <= 5 <==> n < TWO_TO_THE_32
  {
    Pow256To8();
    DigitCount(256, n, 4);
  }
}
