// The base64 decoder of cert_parser.rs (RFC 4648 section 4): six bits at a time into a buffer, eight bits at a
// time out of it.
module Base64 {
  import opened Arithmetic
  import opened Positional
  import opened Reader

  type Sextet = x: int | 0 <= x < 64

  datatype Answer = Decoded(bytes: seq<byte>) | Invalid(letter: byte)

  // ---------------------------------------------------------------- letters

  // u8::is_ascii_whitespace
  predicate IsSpace(c: byte) {
    c == 9 || c == 10 || c == 12 || c == 13 || c == 32
  }

  const PAD: byte := 61

  function Letter(v: Sextet): byte {
    if v < 26 then 'A' as int + v
    else if v < 52 then 'a' as int + (v - 26)
    else if v < 62 then '0' as int + (v - 52)
    else if v == 62 then '+' as int
    else '/' as int
  }

  function ValueOf(c: byte): Option<Sextet> {
    if 'A' as int <= c <= 'Z' as int then Some(c - 'A' as int)
    else if 'a' as int <= c <= 'z' as int then Some(c - 'a' as int + 26)
    else if '0' as int <= c <= '9' as int then Some(c - '0' as int + 52)
    else if c == '+' as int then Some(62)
    else if c == '/' as int then Some(63)
    else None
  }

  lemma LettersHaveValues(v: Sextet, c: byte)
    ensures ValueOf(c) == Some(v) <==> c == Letter(v)
    ensures !IsSpace(Letter(v)) && Letter(v) != PAD
  {
  }

  const CAPITALS: string := "ABCDEFGHIJKLMNOPQRSTUVWXYZ"
  const SMALL: string := "abcdefghijklmnopqrstuvwxyz"
  const DIGITS: string := "0123456789"

  // The alphabet of base64_decode, which is table 1 of RFC 4648.
  const ALPHABET: string := CAPITALS + SMALL + DIGITS + "+/"

  // Letter v is the one at place v of the alphabet.
  lemma LetterInAlphabet(v: Sextet)
    ensures |ALPHABET| == 64 && ALPHABET[v] as int == Letter(v)
  {
    if v < 26 {
      Capital(v);
    } else if v < 52 {
      SmallLetter(v - 26);
    } else if v < 62 {
      Digit(v - 52);
    }
  }

  lemma Capital(v: nat)
    requires v < 26
    ensures |CAPITALS| == 26 && CAPITALS[v] as int == Letter(v)
  {
  }

  lemma SmallLetter(v: nat)
    requires v < 26
    ensures |SMALL| == 26 && SMALL[v] as int == Letter(v + 26)
  {
  }

  lemma Digit(v: nat)
    requires v < 10
    ensures |DIGITS| == 10 && DIGITS[v] as int == Letter(v + 52)
  {
  }

  // A byte has the value v exactly when it stands at place v of the alphabet.
  lemma ValueInAlphabet(c: byte, v: Sextet)
    ensures |ALPHABET| == 64 && (ValueOf(c) == Some(v) <==> ALPHABET[v] as int == c)
  {
    hide Letter, ValueOf, ALPHABET;
    LetterInAlphabet(v);
    LettersHaveValues(v, c);
  }

  // The position of c in the alphabet.
  method Position(c: byte) returns (r: Option<Sextet>)
    ensures r == ValueOf(c)
  {
    hide Letter, ValueOf, ALPHABET;
    LetterInAlphabet(0);
    var i := 0;
    while i < 64
      invariant 0 <= i <= 64
      invariant forall v: Sextet :: v < i ==> Letter(v) != c
    {
      LettersHaveValues(i, c);
      LetterInAlphabet(i);
      if ALPHABET[i] as int == c { return Some(i); }
      i := i + 1;
    }
    NoLetter(c);
    r := None;
  }

  lemma NoLetter(c: byte)
    requires forall v: Sextet :: Letter(v) != c
    ensures ValueOf(c) == None
  {
    if ValueOf(c).Some? { LettersHaveValues(ValueOf(c).value, c); }
  }

  // ---------------------------------------------------------------- the bit buffer

  datatype State = State(buffer: nat, bits: nat, output: seq<byte>)

  predicate Fits(s: State) {
    && (s.bits == 0 || s.bits == 2 || s.bits == 4 || s.bits == 6)
    && s.buffer < Two(s.bits)
  }

  // buffer << 6 | value, and eight bits out as soon as there are eight.
  function Push(s: State, v: Sextet): (t: State)
    requires Fits(s)
    ensures Fits(t)
    ensures |s.output| * 8 + s.bits + 6 == |t.output| * 8 + t.bits
  {
    var buffer := s.buffer * 64 + v;
    var bits := s.bits + 6;
    Twos();
    if bits >= 8 then
      var left := bits - 8;
      State(buffer % Two(left), left, s.output + [buffer / Two(left) % 256])
    else State(buffer, bits, s.output)
  }

  // base64_decode from some point on.
  function Decode(input: seq<byte>, s: State): Answer
    requires Fits(s)
  {
    if input == [] || input[0] == PAD then Decoded(s.output)
    else if IsSpace(input[0]) then Decode(input[1..], s)
    else if ValueOf(input[0]).None? then Invalid(input[0])
    else Decode(input[1..], Push(s, ValueOf(input[0]).value))
  }

  const START: State := State(0, 0, [])

  method Base64Decode(input: seq<byte>) returns (r: Answer)
    ensures r == Decode(input, START)
  {
    hide ValueOf, IsSpace;
    var output: seq<byte> := [];
    var buffer: nat := 0;
    var bits: nat := 0;
    Twos();
    var i := 0;
    while i < |input|
      invariant 0 <= i <= |input|
      invariant Fits(State(buffer, bits, output))
      invariant Decode(input[i..], State(buffer, bits, output)) == Decode(input, START)
    {
      var c := input[i];
      assert input[i..][0] == c && input[i..][1..] == input[i + 1..];
      if c == PAD { break; }
      i := i + 1;
      if IsSpace(c) { continue; }
      var value := Position(c);
      if value.None? { return Invalid(c); }
      ghost var next := Push(State(buffer, bits, output), value.value);
      buffer := buffer * 64 + value.value;
      bits := bits + 6;
      if bits >= 8 {
        bits := bits - 8;
        output := output + [buffer / Two(bits) % 256];
        buffer := buffer % Two(bits);
      }
      assert next == State(buffer, bits, output);
    }
    r := Decoded(output);
  }

  // ---------------------------------------------------------------- nothing is lost

  // The digits ds appended to the number acc.
  function Number(base: nat, acc: nat, ds: seq<nat>): nat {
    if ds == [] then acc else Number(base, acc, ds[..|ds| - 1]) * base + ds[|ds| - 1]
  }

  function Feed(s: State, vs: seq<Sextet>): (t: State)
    requires Fits(s)
    ensures Fits(t)
    ensures |s.output| * 8 + s.bits + 6 * |vs| == |t.output| * 8 + t.bits
  {
    if vs == [] then s else Push(Feed(s, vs[..|vs| - 1]), vs[|vs| - 1])
  }

  // The bytes, shifted to make room for the buffer, together with the buffer.
  function Held(s: State): nat {
    Number(256, 0, s.output) * Two(s.bits) + s.buffer
  }

  lemma TakeByte(n: nat, x: nat, k: nat)
    requires (k == 1 || k == 4 || k == 16) && x < 256 * k
    ensures (n * 256 + x / k % 256) * k + x % k == n * (256 * k) + x
  {
    if k == 1 {} else if k == 4 {} else {}
  }

  lemma Appended(ds: seq<nat>, d: nat)
    ensures Number(256, 0, ds + [d]) == Number(256, 0, ds) * 256 + d
  {
    assert (ds + [d])[..|ds|] == ds;
  }

  lemma Twos()
    ensures Two(0) == 1 && Two(2) == 4 && Two(4) == 16 && Two(6) == 64
  {
  }

  lemma PushConserves(s: State, v: Sextet)
    requires Fits(s)
    ensures Held(Push(s, v)) == 64 * Held(s) + v
  {
    hide Number, Two;
    Twos();
    var n := Number(256, 0, s.output);
    var x := s.buffer * 64 + v;
    if s.bits == 0 {
    } else if s.bits == 2 {
      TakeByte(n, x, 1);
      Appended(s.output, x / 1 % 256);
    } else if s.bits == 4 {
      TakeByte(n, x, 4);
      Appended(s.output, x / 4 % 256);
    } else {
      TakeByte(n, x, 16);
      Appended(s.output, x / 16 % 256);
    }
  }

  // At every moment the bytes and the buffer together are the number the sextets spell.
  lemma {:induction false} FeedConserves(vs: seq<Sextet>)
    ensures Held(Feed(START, vs)) == Number(64, 0, vs)
  {
    if vs == [] {
      assert Two(0) == 1;
    } else {
      FeedConserves(vs[..|vs| - 1]);
      PushConserves(Feed(START, vs[..|vs| - 1]), vs[|vs| - 1]);
    }
  }

  // ---------------------------------------------------------------- whitespace, padding, strange letters

  // What counts: the letters before the first padding sign.
  function Squeezed(input: seq<byte>): seq<byte> {
    if input == [] || input[0] == PAD then []
    else (if IsSpace(input[0]) then [] else [input[0]]) + Squeezed(input[1..])
  }

  function Values(letters: seq<byte>): Option<seq<Sextet>> {
    if letters == [] then Some([])
    else
      var rest := Values(letters[1..]);
      if ValueOf(letters[0]).Some? && rest.Some? then Some([ValueOf(letters[0]).value] + rest.value) else None
  }

  lemma {:induction false} FeedFirst(s: State, v: Sextet, vs: seq<Sextet>)
    requires Fits(s)
    ensures Feed(s, [v] + vs) == Feed(Push(s, v), vs)
  {
    var all := [v] + vs;
    if vs == [] {
      assert all[..|all| - 1] == [];
    } else {
      assert all[..|all| - 1] == [v] + vs[..|vs| - 1];
      FeedFirst(s, v, vs[..|vs| - 1]);
    }
  }

  // Decoding succeeds exactly when every letter that counts is in the alphabet, and then depends on nothing else.
  lemma {:induction false} DecodeFeeds(input: seq<byte>, s: State)
    requires Fits(s)
    ensures var vs := Values(Squeezed(input));
            && (Decode(input, s).Decoded? <==> vs.Some?)
            && (vs.Some? ==> Decode(input, s) == Decoded(Feed(s, vs.value).output))
  {
    hide IsSpace, ValueOf, Push;
    if input != [] && input[0] != PAD {
      var rest := Squeezed(input[1..]);
      if IsSpace(input[0]) {
        assert Squeezed(input) == rest;
        DecodeFeeds(input[1..], s);
      } else {
        assert Squeezed(input)[1..] == rest;
        if ValueOf(input[0]).Some? {
          var v := ValueOf(input[0]).value;
          DecodeFeeds(input[1..], Push(s, v));
          if Values(rest).Some? { FeedFirst(s, v, Values(rest).value); }
        }
      }
    }
  }

  // ---------------------------------------------------------------- the standard encoding

  // The four sextets of three bytes, and the three bytes of four sextets.
  function Q0(a: byte): Sextet { a / 4 }

  function Q1(a: byte, b: byte): Sextet { a % 4 * 16 + b / 16 }

  function Q2(b: byte, c: byte): Sextet { b % 16 * 4 + c / 64 }

  function Q3(c: byte): Sextet { c % 64 }

  function B0(p: Sextet, q: Sextet): byte { p * 4 + q / 16 }

  function B1(q: Sextet, r: Sextet): byte { q % 16 * 16 + r / 4 }

  function B2(r: Sextet, s: Sextet): byte { r % 4 * 64 + s }

  // Section 4 of RFC 4648: three bytes make four sextets, a shorter last group is filled with zero bits.
  function Sextets(bs: seq<byte>): seq<Sextet> {
    if bs == [] then []
    else if |bs| == 1 then [Q0(bs[0]), Q1(bs[0], 0)]
    else if |bs| == 2 then [Q0(bs[0]), Q1(bs[0], bs[1]), Q2(bs[1], 0)]
    else [Q0(bs[0]), Q1(bs[0], bs[1]), Q2(bs[1], bs[2]), Q3(bs[2])] + Sextets(bs[3..])
  }

  // The last group is not a single letter, and its filling bits are zero.
  predicate Canonical(vs: seq<Sextet>) {
    var n := |vs|;
    n % 4 != 1 && (n % 4 == 2 ==> vs[n - 1] % 16 == 0) && (n % 4 == 3 ==> vs[n - 1] % 4 == 0)
  }

  // Section 4 read backwards: what each group of sextets holds; the filling bits are dropped.
  function Bytes(vs: seq<Sextet>): seq<byte> {
    if |vs| < 2 then []
    else if |vs| == 2 then [B0(vs[0], vs[1])]
    else if |vs| == 3 then [B0(vs[0], vs[1]), B1(vs[1], vs[2])]
    else [B0(vs[0], vs[1]), B1(vs[1], vs[2]), B2(vs[2], vs[3])] + Bytes(vs[4..])
  }

  lemma BytesMeet(a: byte, b: byte, c: byte)
    ensures B0(Q0(a), Q1(a, b)) == a && B1(Q1(a, b), Q2(b, c)) == b && B2(Q2(b, c), Q3(c)) == c
    ensures Q1(a, 0) % 16 == 0 && Q2(b, 0) % 4 == 0
  {
  }

  lemma SextetsMeet(p: Sextet, q: Sextet, r: Sextet, s: Sextet)
    ensures Q0(B0(p, q)) == p && Q1(B0(p, q), B1(q, r)) == q && Q2(B1(q, r), B2(r, s)) == r && Q3(B2(r, s)) == s
    ensures Q1(B0(p, q), 0) == q <==> q % 16 == 0
    ensures Q2(B1(q, r), 0) == r <==> r % 4 == 0
  {
  }

  // Encoding is injective, and it reaches exactly the canonical sextets.
  lemma {:induction false} BytesOfSextets(bs: seq<byte>)
    ensures Bytes(Sextets(bs)) == bs && Canonical(Sextets(bs))
  {
    hide Q0, Q1, Q2, Q3, B0, B1, B2;
    if |bs| == 1 {
      BytesMeet(bs[0], 0, 0);
    } else if |bs| == 2 {
      BytesMeet(bs[0], bs[1], 0);
    } else if |bs| >= 3 {
      var vs := Sextets(bs);
      var rest := Sextets(bs[3..]);
      BytesMeet(bs[0], bs[1], bs[2]);
      assert vs[4..] == rest;
      BytesOfSextets(bs[3..]);
      assert bs == [bs[0], bs[1], bs[2]] + bs[3..];
      CanonicalTail(vs);
    }
  }

  lemma CanonicalTail(vs: seq<Sextet>)
    requires |vs| >= 4
    ensures Canonical(vs) <==> Canonical(vs[4..])
  {
    assert (|vs| - 4) % 4 == |vs| % 4;
  }

  lemma {:induction false} SextetsOfBytes(vs: seq<Sextet>)
    ensures Sextets(Bytes(vs)) == vs <==> Canonical(vs)
  {
    hide Q0, Q1, Q2, Q3, B0, B1, B2;
    if |vs| == 2 {
      SextetsMeet(vs[0], vs[1], 0, 0);
    } else if |vs| == 3 {
      SextetsMeet(vs[0], vs[1], vs[2], 0);
    } else if |vs| >= 4 {
      var bs := Bytes(vs);
      SextetsMeet(vs[0], vs[1], vs[2], vs[3]);
      assert bs[3..] == Bytes(vs[4..]);
      SextetsOfBytes(vs[4..]);
      var ws := Sextets(bs);
      assert ws == [vs[0], vs[1], vs[2], vs[3]] + Sextets(bs[3..]);
      assert vs == [vs[0], vs[1], vs[2], vs[3]] + vs[4..];
      Splits(ws, vs);
      CanonicalTail(vs);
    }
  }

  lemma Splits(ws: seq<Sextet>, vs: seq<Sextet>)
    requires |ws| >= 4 && |vs| >= 4 && ws[..4] == vs[..4]
    ensures ws == vs <==> ws[4..] == vs[4..]
  {
    assert ws == ws[..4] + ws[4..] && vs == vs[..4] + vs[4..];
  }

  // ---------------------------------------------------------------- the buffer decodes the groups

  lemma PushFirst(out: seq<byte>, v: Sextet)
    ensures Push(State(0, 0, out), v) == State(v, 6, out)
  {
    assert Two(0) == 1;
  }

  lemma PushSecond(out: seq<byte>, a: Sextet, v: Sextet)
    ensures Two(6) == 64 && Push(State(a, 6, out), v) == State(v % 16, 4, out + [B0(a, v)])
  {
    SecondSplits(a, v);
    Twos();
    hide Two, B0;
  }

  lemma SecondSplits(a: Sextet, v: Sextet)
    ensures (a * 64 + v) % 16 == v % 16 && (a * 64 + v) / 16 % 256 == B0(a, v)
  {
    assert a * 64 + v == 16 * (a * 4 + v / 16) + v % 16;
  }

  lemma PushThird(out: seq<byte>, b: Sextet, v: Sextet)
    ensures Two(4) == 16 && Push(State(b % 16, 4, out), v) == State(v % 4, 2, out + [B1(b, v)])
  {
    assert Two(2) == 4;
  }

  lemma PushFourth(out: seq<byte>, c: Sextet, v: Sextet)
    ensures Two(2) == 4 && Push(State(c % 4, 2, out), v) == State(0, 0, out + [B2(c, v)])
  {
    Twos();
    hide Two;
  }

  lemma {:induction false} FeedIsBytes(out: seq<byte>, vs: seq<Sextet>)
    requires Fits(State(0, 0, out))
    ensures Feed(State(0, 0, out), vs).output == out + Bytes(vs)
    decreases |vs|
  {
    hide Push, B0, B1, B2;
    if vs != [] {
      var s0 := State(0, 0, out);
      FeedHead(s0, vs);
      PushFirst(out, vs[0]);
      if |vs| > 1 {
        var s1 := State(vs[0], 6, out);
        FeedHead(s1, vs[1..]);
        PushSecond(out, vs[0], vs[1]);
        if |vs| > 2 {
          var s2 := Push(s1, vs[1]);
          FeedHead(s2, vs[2..]);
          PushThird(s2.output, vs[1], vs[2]);
          if |vs| > 3 {
            var s3 := Push(s2, vs[2]);
            FeedHead(s3, vs[3..]);
            PushFourth(s3.output, vs[2], vs[3]);
            FeedIsBytes(Push(s3, vs[3]).output, vs[4..]);
          }
        }
      }
    }
  }

  lemma FeedHead(s: State, vs: seq<Sextet>)
    requires Fits(s) && vs != []
    ensures Feed(s, vs) == Feed(Push(s, vs[0]), vs[1..])
  {
    hide Push;
    FeedFirst(s, vs[0], vs[1..]);
    assert vs == [vs[0]] + vs[1..];
  }

  // ---------------------------------------------------------------- the decoder and the encoding

  function Letters(vs: seq<Sextet>): seq<byte> {
    if vs == [] then [] else [Letter(vs[0])] + Letters(vs[1..])
  }

  function Padding(bs: seq<byte>): seq<byte> {
    if |bs| % 3 == 1 then [PAD, PAD] else if |bs| % 3 == 2 then [PAD] else []
  }

  function Spaceless(text: seq<byte>): seq<byte> {
    if text == [] then [] else (if IsSpace(text[0]) then [] else [text[0]]) + Spaceless(text[1..])
  }

  lemma {:induction false} LettersSpell(letters: seq<byte>, vs: seq<Sextet>)
    ensures Values(letters) == Some(vs) <==> letters == Letters(vs)
    decreases |letters|
  {
    hide Letter, ValueOf;
    if letters != [] && vs != [] {
      LettersHaveValues(vs[0], letters[0]);
      LettersSpell(letters[1..], vs[1..]);
      assert letters == [letters[0]] + letters[1..] && vs == [vs[0]] + vs[1..];
      assert Letters(vs)[1..] == Letters(vs[1..]);
    }
  }

  lemma {:induction false} SqueezesSpaceless(text: seq<byte>)
    ensures Squeezed(text) == Squeezed(Spaceless(text))
  {
    hide IsSpace;
    NoSpacePad();
    if text != [] {
      SqueezesSpaceless(text[1..]);
      if IsSpace(text[0]) {
        assert Spaceless(text) == Spaceless(text[1..]) && Squeezed(text) == Squeezed(text[1..]);
      } else {
        assert Spaceless(text)[1..] == Spaceless(text[1..]);
      }
    }
  }

  lemma NoSpacePad()
    ensures !IsSpace(PAD)
  {
  }

  lemma {:induction false} SqueezesLetters(vs: seq<Sextet>, rest: seq<byte>)
    requires rest == [] || rest[0] == PAD
    ensures Squeezed(Letters(vs) + rest) == Letters(vs)
  {
    hide Letter, IsSpace;
    var text := Letters(vs) + rest;
    if vs == [] {
      assert text == rest;
    } else {
      LettersHaveValues(vs[0], 0);
      assert text[1..] == Letters(vs[1..]) + rest;
      SqueezesLetters(vs[1..], rest);
    }
  }

  // Decoding the standard encoding gives the bytes back, wherever whitespace was inserted and whether or not it
  // is padded.
  lemma EncodingDecodes(bs: seq<byte>, text: seq<byte>, padded: bool)
    requires Spaceless(text) == Letters(Sextets(bs)) + if padded then Padding(bs) else []
    ensures Decode(text, START) == Decoded(bs)
  {
    hide Decode, Squeezed, Spaceless, Letters, Sextets, Bytes, Canonical;
    SqueezesSpaceless(text);
    SqueezesLetters(Sextets(bs), if padded then Padding(bs) else []);
    LettersSpell(Squeezed(text), Sextets(bs));
    DecodeFeeds(text, START);
    FeedIsBytes([], Sextets(bs));
    BytesOfSextets(bs);
  }

  // Of all texts that decode to bs, those that count the letters of its encoding are the ones with zero filling bits.
  lemma Base64Codec(text: seq<byte>, bs: seq<byte>)
    ensures Squeezed(text) == Letters(Sextets(bs)) <==>
      var vs := Values(Squeezed(text));
      Decode(text, START) == Decoded(bs) && vs.Some? && Canonical(vs.value)
  {
    hide Decode, Squeezed, Letters, Sextets, Bytes, Canonical;
    LettersSpell(Squeezed(text), Sextets(bs));
    DecodeFeeds(text, START);
    BytesOfSextets(bs);
    var vs := Values(Squeezed(text));
    if vs.Some? {
      FeedIsBytes([], vs.value);
      assert [] + Bytes(vs.value) == Bytes(vs.value);
      SextetsOfBytes(vs.value);
    }
  }

  // A text with a filling bit that is not zero: "QR" is decoded like "QQ", the encoding of the same byte.
  lemma FillingBitsDropped()
    ensures var text: seq<byte> := ['Q' as int, 'R' as int];
            Decode(text, START) == Decoded([65]) && Letters(Sextets([65])) == ['Q' as int, 'Q' as int]
  {
    hide Push, ValueOf, Decode, Fits;
    var s: Sextet, t: Sextet := 16, 17;
    var text: seq<byte>, last: seq<byte> := ['Q' as int, 'R' as int], ['R' as int];
    TwoPushes();
    assert text == [Letter(s)] + last && last == [Letter(t)] + [];
    DecodeLetter(s, last, START);
    DecodeLetter(t, [], State(16, 6, []));
    assert Decode([], State(1, 4, [65])) == Decoded([65]) by { EmptyDecodes(State(1, 4, [65])); }
    assert Decode(last, State(16, 6, [])) == Decoded([65]);
    assert Sextets([65]) == [s, s] && [s, s][1..] == [s];
  }

  lemma EmptyDecodes(s: State)
    requires Fits(s)
    ensures Decode([], s) == Decoded(s.output)
  {
  }

  lemma DecodeLetter(v: Sextet, rest: seq<byte>, s: State)
    requires Fits(s)
    ensures Decode([Letter(v)] + rest, s) == Decode(rest, Push(s, v))
  {
    hide Push, Letter, ValueOf, IsSpace;
    LettersHaveValues(v, Letter(v));
    assert ([Letter(v)] + rest)[1..] == rest;
  }

  lemma TwoPushes()
    ensures Fits(START) && Push(START, 16) == State(16, 6, [])
    ensures Fits(State(16, 6, [])) && Push(State(16, 6, []), 17) == State(1, 4, [65])
  {
    Twos();
  }

  // ---------------------------------------------------------------- the decoder octet by octet

  // What one octet does: five of them are passed over, an equals sign ends the text, the octet at place v of the
  // alphabet adds six bits, and any other is refused.
  lemma FirstOctet(c: byte, rest: seq<byte>, s: State)
    requires Fits(s)
    ensures c in {9, 10, 12, 13, 32} ==> Decode([c] + rest, s) == Decode(rest, s)
    ensures c == '=' as int ==> Decode([c] + rest, s) == Decoded(s.output)
    ensures |ALPHABET| == 64
    ensures forall v: Sextet :: ALPHABET[v] as int == c ==> Decode([c] + rest, s) == Decode(rest, Push(s, v))
    ensures c !in {9, 10, 12, 13, 32, 61} && (forall v: Sextet :: ALPHABET[v] as int != c) ==>
              Decode([c] + rest, s) == Invalid(c)
  {
    hide Push, Letter, ValueOf, ALPHABET;
    assert ([c] + rest)[1..] == rest;
    LetterInAlphabet(0);
    forall v: Sextet
      ensures ValueOf(c) == Some(v) <==> ALPHABET[v] as int == c
      ensures ALPHABET[v] as int == c ==> !IsSpace(c) && c != PAD
    {
      ValueInAlphabet(c, v);
      LetterInAlphabet(v);
      LettersHaveValues(v, c);
    }
    if ValueOf(c).Some? { ValueInAlphabet(c, ValueOf(c).value); }
  }

  // The letters of the standard encoding, by their places in the alphabet.
  lemma {:induction false} LettersInAlphabet(vs: seq<Sextet>)
    ensures |Letters(vs)| == |vs| && |ALPHABET| == 64
    ensures forall i :: 0 <= i < |vs| ==> Letters(vs)[i] == ALPHABET[vs[i]] as int
  {
    hide Letter, ALPHABET;
    LetterInAlphabet(0);
    if vs != [] {
      LetterInAlphabet(vs[0]);
      LettersInAlphabet(vs[1..]);
    }
  }

  // The padding completes the last group of four letters.
  lemma {:induction false} PaddingCompletes(bs: seq<byte>)
    ensures (|Sextets(bs)| + |Padding(bs)|) % 4 == 0 && |Padding(bs)| <= 2
    ensures forall c :: c in Padding(bs) ==> c == '=' as int
  {
    if |bs| >= 3 { PaddingCompletes(bs[3..]); }
  }

  // Three bytes from four letters, by bits: "++++" is 111110 four times.
  lemma FourPluses()
    ensures var plus := '+' as int; Decode([plus, plus, plus, plus], START) == Decoded([0xFB, 0xEF, 0xBE])
  {
    hide Decode, Push, Fits;
    var v: Sextet, plus: byte := 62, '+' as int;
    PlusPushes();
    assert Letter(v) == plus;
    assert [plus, plus, plus, plus] == [Letter(v)] + [plus, plus, plus];
    assert [plus, plus, plus] == [Letter(v)] + [plus, plus] && [plus, plus] == [Letter(v)] + [plus];
    assert [plus] == [Letter(v)] + [];
    DecodeLetter(v, [plus, plus, plus], START);
    DecodeLetter(v, [plus, plus], State(62, 6, []));
    DecodeLetter(v, [plus], State(14, 4, [0xFB]));
    DecodeLetter(v, [], State(2, 2, [0xFB, 0xEF]));
    EmptyDecodes(State(0, 0, [0xFB, 0xEF, 0xBE]));
  }

  lemma PlusPushes()
    ensures Fits(START) && Push(START, 62) == State(62, 6, [])
    ensures Fits(State(62, 6, [])) && Push(State(62, 6, []), 62) == State(14, 4, [0xFB])
    ensures Fits(State(14, 4, [0xFB])) && Push(State(14, 4, [0xFB]), 62) == State(2, 2, [0xFB, 0xEF])
    ensures Fits(State(2, 2, [0xFB, 0xEF])) && Push(State(2, 2, [0xFB, 0xEF]), 62) == State(0, 0, [0xFB, 0xEF, 0xBE])
    ensures Fits(State(0, 0, [0xFB, 0xEF, 0xBE]))
  {
    Twos();
    hide Two, B0, B1, B2, Push;
    PushFirst([], 62);
    PushSecond([], 62, 62);
    PushThird([0xFB], 62, 62);
    PushFourth([0xFB, 0xEF], 62, 62);
    PlusBytes();
    assert [] + [0xFB] == [0xFB] && [0xFB] + [0xEF] == [0xFB, 0xEF] && [0xFB, 0xEF] + [0xBE] == [0xFB, 0xEF, 0xBE];
  }

  lemma PlusBytes()
    ensures B0(62, 62) == 0xFB && B1(62, 62) == 0xEF && B2(62, 62) == 0xBE
  {
  }
}
