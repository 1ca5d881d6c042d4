// BIT STRING as asn1_types.c reads and writes it (X.690 section 8.6): the octets behind a count of unused bits, and
// the sequences of bits they stand for.
module Bits {
  import opened Arithmetic
  import opened Errors
  import opened Positional
  import opened Header
  import opened Reader
  import opened Rewrite
  import opened Types
  import opened Serializer

  // asn1_bit_string_t
  datatype BitString = BitString(bytes: seq<byte>, unused: byte)

  const ID_BIT_STRING := Identifier(Universal, 3)

  // asn1_parse_bit_string
  function ReadBitString(d: seq<byte>, n: Node): Result<BitString>
    requires ValidNode(d, n)
  {
    if n.id != ID_BIT_STRING then Err(UnexpectedFieldType, 0)
    else if n.constructed then Err(InvalidObject, 0)
    else if n.dataLength == 0 then Err(InvalidObject, 0)
    else
      var content := Data(d, n);
      var unused := content[0];
      if unused > 7 then Err(InvalidObject, 0)
      else if n.dataLength == 1 && unused != 0 then Err(InvalidObject, 0)
      else if unused > 0 && n.dataLength > 1 && content[|content| - 1] % Two(unused) != 0 then Err(InvalidObject, 0)
      else Ok(BitString(content[1..], unused))
  }

  // asn1_serialize_bit_string, which checks nothing about the unused bits.
  method SerializeBitString(w: Writer, bs: BitString) returns (s: Status)
    requires w.Valid() && 1 + |bs.bytes| < TWO_TO_THE_64
    modifies w`length, w.buffer
    ensures w.Valid() && (s == Done <==> |old(w.Contents())| + |Encoding(bs)| <= w.buffer.Length)
    ensures s == Done ==> w.Contents() == old(w.Contents()) + Encoding(bs)
    ensures old(w.Contents()) <= w.Contents()
  {
    hide EncodeIdentifier, EncodeLength, Put;
    ghost var before, capacity := w.Contents(), w.buffer.Length;
    ghost var id, length := EncodeIdentifier(ID_BIT_STRING, false), EncodeLength(1 + |bs.bytes|);
    assert Encoding(bs) == id + length + [bs.unused] + bs.bytes;
    PutOne(w.Contents(), capacity, id);
    :- w.WriteIdentifier(ID_BIT_STRING, false);
    PutOne(w.Contents(), capacity, length);
    :- w.WriteLength(1 + |bs.bytes|);
    PutOne(w.Contents(), capacity, [bs.unused]);
    :- w.WriteBytes([bs.unused]);
    PutOne(w.Contents(), capacity, bs.bytes);
    if |bs.bytes| > 0 {
      :- w.WriteBytes(bs.bytes);
    }
    assert w.Contents() == before + id + length + [bs.unused] + bs.bytes == before + Encoding(bs);
    s := Done;
  }

  lemma PutOne(contents: seq<byte>, capacity: nat, piece: seq<byte>)
    requires |contents| <= capacity
    ensures var (s, c) := Put(contents, capacity, [piece]);
            && (s == Done <==> |contents| + |piece| <= capacity)
            && (s == Done ==> c == contents + piece)
            && contents <= c
  {
  }

  function Encoding(bs: BitString): seq<byte> {
    EncodeIdentifier(ID_BIT_STRING, false) + EncodeLength(1 + |bs.bytes|) + [bs.unused] + bs.bytes
  }

  // ---------------------------------------------------------------- the bits

  function Number(bits: seq<bool>): nat {
    if bits == [] then 0 else 2 * Number(bits[..|bits| - 1]) + if bits[|bits| - 1] then 1 else 0
  }

  function BitsOf(v: nat, n: nat): (bits: seq<bool>)
    ensures |bits| == n
  {
    if n == 0 then [] else BitsOf(v / 2, n - 1) + [v % 2 == 1]
  }

  lemma {:induction false} NumberOfBits(v: nat, n: nat)
    requires v < Two(n)
    ensures Number(BitsOf(v, n)) == v
  {
    if n > 0 {
      NumberOfBits(v / 2, n - 1);
      assert BitsOf(v, n)[..n - 1] == BitsOf(v / 2, n - 1);
    }
  }

  lemma {:induction false} BitsOfNumber(bits: seq<bool>)
    ensures Number(bits) < Two(|bits|) && BitsOf(Number(bits), |bits|) == bits
  {
    if bits != [] {
      var front, last := bits[..|bits| - 1], bits[|bits| - 1];
      BitsOfNumber(front);
      assert Number(bits) / 2 == Number(front);
      assert bits == front + [last];
    }
  }

  function Falses(n: nat): (bits: seq<bool>)
    ensures |bits| == n
  {
    seq(n, _ => false)
  }

  // The lowest k bits are zero exactly when 2^k divides the number.
  lemma {:induction false} LowBits(v: nat, n: nat, k: nat)
    requires k <= n
    ensures BitsOf(v, n)[n - k..] == Falses(k) <==> v % Two(k) == 0
  {
    if k > 0 {
      var bits, front := BitsOf(v, n), BitsOf(v / 2, n - 1);
      LowBits(v / 2, n - 1, k - 1);
      Halve(v, Two(k - 1));
      assert bits[n - k..] == front[n - k..] + [v % 2 == 1];
      assert Falses(k) == Falses(k - 1) + [false];
      LastDiffers(front[n - k..], Falses(k - 1), v % 2 == 1, false);
    }
  }

  lemma LastDiffers(a: seq<bool>, b: seq<bool>, x: bool, y: bool)
    ensures a + [x] == b + [y] <==> a == b && x == y
  {
    if a + [x] == b + [y] {
      assert (a + [x])[..|a|] == a && (b + [y])[..|b|] == b && (a + [x])[|a|] == x && (b + [y])[|b|] == y;
    }
  }

  lemma Halve(v: nat, p: nat)
    requires p >= 1
    ensures v % (2 * p) == 0 <==> v % 2 == 0 && v / 2 % p == 0
  {
    var q, r := v / 2 / p, v / 2 % p;
    assert v == 2 * (p * q + r) + v % 2 == 2 * p * q + (2 * r + v % 2);
    Remainder(v, q, 2 * r + v % 2, 2 * p);
  }

  // ---------------------------------------------------------------- bits in octets

  function Unpacked(bytes: seq<byte>): (bits: seq<bool>)
    ensures |bits| == 8 * |bytes|
  {
    if bytes == [] then [] else Unpacked(bytes[..|bytes| - 1]) + BitsOf(bytes[|bytes| - 1], 8)
  }

  function Packed(bits: seq<bool>, n: nat): (bytes: seq<byte>)
    requires |bits| == 8 * n
    ensures |bytes| == n
    decreases n
  {
    if n == 0 then []
    else
      var last := bits[8 * (n - 1)..];
      BitsOfNumber(last);
      TwoTo8();
      Packed(bits[..8 * (n - 1)], n - 1) + [Number(last)]
  }

  lemma TwoTo8()
    ensures Two(8) == 256
  {
    assert Two(4) == 16;
  }

  lemma {:induction false} PackUnpacked(bytes: seq<byte>)
    ensures Packed(Unpacked(bytes), |bytes|) == bytes
  {
    hide BitsOf, Number, Two;
    if bytes != [] {
      var n := |bytes|;
      var bits := Unpacked(bytes);
      TwoTo8();
      NumberOfBits(bytes[n - 1], 8);
      assert bits[..8 * (n - 1)] == Unpacked(bytes[..n - 1]) && bits[8 * (n - 1)..] == BitsOf(bytes[n - 1], 8);
      PackUnpacked(bytes[..n - 1]);
    }
  }

  lemma {:induction false} UnpackPacked(bits: seq<bool>, n: nat)
    requires |bits| == 8 * n
    ensures Unpacked(Packed(bits, n)) == bits
    decreases n
  {
    hide BitsOf, Number, Two;
    if n > 0 {
      var bytes := Packed(bits, n);
      BitsOfNumber(bits[8 * (n - 1)..]);
      assert bytes[..n - 1] == Packed(bits[..8 * (n - 1)], n - 1);
      UnpackPacked(bits[..8 * (n - 1)], n - 1);
    }
  }

  // The bits a bit string stands for, and the form DER prescribes for a sequence of bits.
  function Meaning(bs: BitString): seq<bool>
    requires bs.unused <= 8 * |bs.bytes|
  {
    Unpacked(bs.bytes)[..8 * |bs.bytes| - bs.unused]
  }

  function UnusedFor(length: nat): (k: nat)
    ensures k < 8 && (length + k) % 8 == 0
  {
    (8 - length % 8) % 8
  }

  function Canonical(bits: seq<bool>): BitString {
    var k := UnusedFor(|bits|);
    BitString(Packed(bits + Falses(k), (|bits| + k) / 8), k)
  }

  // What a caller of the serializer must respect.
  predicate WellFormed(bs: BitString) {
    && bs.unused <= 7
    && (bs.bytes == [] ==> bs.unused == 0)
    && (bs.bytes != [] ==> bs.bytes[|bs.bytes| - 1] % Two(bs.unused) == 0)
  }

  // The well-formed bit strings are the canonical forms, one for each sequence of bits.
  lemma CanonicalForms(bits: seq<bool>)
    ensures WellFormed(Canonical(bits)) && Meaning(Canonical(bits)) == bits
  {
    hide BitsOf, Two, Packed;
    var k := UnusedFor(|bits|);
    var all := bits + Falses(k);
    var bs := Canonical(bits);
    UnpackPacked(all, |all| / 8);
    assert all[..|bits|] == bits;
    if bs.bytes != [] {
      var last := bs.bytes[|bs.bytes| - 1];
      assert BitsOf(last, 8) == all[|all| - 8..];
      assert BitsOf(last, 8)[8 - k..] == Falses(k);
      LowBits(last, 8, k);
    }
  }

  lemma WellFormedIsCanonical(bs: BitString)
    requires bs.unused <= 7 && bs.unused <= 8 * |bs.bytes|
    ensures Canonical(Meaning(bs)) == bs <==> WellFormed(bs)
  {
    hide BitsOf, Two, Packed;
    var all, bits := Unpacked(bs.bytes), Meaning(bs);
    assert UnusedFor(|bits|) == bs.unused;
    PackUnpacked(bs.bytes);
    if WellFormed(bs) && bs.bytes != [] {
      var last := bs.bytes[|bs.bytes| - 1];
      LowBits(last, 8, bs.unused);
      assert all[|all| - 8..] == BitsOf(last, 8);
      assert all == bits + all[|bits|..] && all[|bits|..] == BitsOf(last, 8)[8 - bs.unused..];
    } else if WellFormed(bs) {
      assert bits + Falses(0) == all;
    }
    CanonicalForms(bits);
  }

  // The serializer's output is read back exactly when it was given a well-formed bit string.
  lemma WrittenBitsRead(d: seq<byte>, n: Node, bs: BitString)
    requires ValidNode(d, n)
    ensures ReadBitString(d, n) == Ok(bs)
       <==> n.id == ID_BIT_STRING && !n.constructed && Data(d, n) == [bs.unused] + bs.bytes && WellFormed(bs)
  {
    var content := Data(d, n);
    if content != [] { assert content == [content[0]] + content[1..]; }
    assert ([bs.unused] + bs.bytes)[1..] == bs.bytes;
    assert Two(0) == 1;
  }

  // The accepted contents correspond one to one to the sequences of bits.
  lemma BitStringCodec(d: seq<byte>, n: Node, bits: seq<bool>)
    requires ValidNode(d, n)
    ensures ReadBitString(d, n) == Ok(Canonical(bits))
       <==> n.id == ID_BIT_STRING && !n.constructed && Data(d, n) == [Canonical(bits).unused] + Canonical(bits).bytes
    ensures ReadBitString(d, n).Ok? ==>
              var bs := ReadBitString(d, n).value;
              bs.unused <= 8 * |bs.bytes| && bs == Canonical(Meaning(bs))
  {
    hide Canonical, Meaning, ReadBitString, Two;
    CanonicalForms(bits);
    WrittenBitsRead(d, n, Canonical(bits));
    if ReadBitString(d, n).Ok? {
      var bs := ReadBitString(d, n).value;
      WrittenBitsRead(d, n, bs);
      WellFormedIsCanonical(bs);
    }
  }
}
