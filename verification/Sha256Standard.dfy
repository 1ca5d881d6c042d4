// FIPS 180-4 without the functions that the two programs share: the logical functions by their shifts, the constants as
// the fractional parts of roots of primes, the length octets, and the worked example of the message "abc".
module Sha256Standard {
  import opened Sha256

  // ---------------------------------------------------------------- the functions of section 4.1.2

  function Sum3(a: bv32, b: bv32, c: bv32): bv32 { a ^ b ^ c }

  lemma Rotations(x: bv32)
    ensures Rotr(x, 2) == (x >> 2) | (x << 30) && Rotr(x, 6) == (x >> 6) | (x << 26)
    ensures Rotr(x, 7) == (x >> 7) | (x << 25) && Rotr(x, 11) == (x >> 11) | (x << 21)
    ensures Rotr(x, 13) == (x >> 13) | (x << 19) && Rotr(x, 17) == (x >> 17) | (x << 15)
    ensures Rotr(x, 18) == (x >> 18) | (x << 14) && Rotr(x, 19) == (x >> 19) | (x << 13)
    ensures Rotr(x, 22) == (x >> 22) | (x << 10) && Rotr(x, 25) == (x >> 25) | (x << 7)
  {
  }

  lemma EpsOfRotations(x: bv32)
    ensures Ep0(x) == Sum3(Rotr(x, 2), Rotr(x, 13), Rotr(x, 22)) && Ep1(x) == Sum3(Rotr(x, 6), Rotr(x, 11), Rotr(x, 25))
  {
    hide Rotr, Sig0, Sig1;
  }

  lemma SigsOfRotations(x: bv32)
    ensures Sig0(x) == Sum3(Rotr(x, 7), Rotr(x, 18), x >> 3) && Sig1(x) == Sum3(Rotr(x, 17), Rotr(x, 19), x >> 10)
  {
    hide Rotr, Ep0, Ep1;
  }

  // Rotations by 2, 13 and 22; by 6, 11 and 25; by 7 and 18 with a shift by 3; by 17 and 19 with a shift by 10.
  lemma Sigmas(x: bv32)
    ensures Ep0(x) == Sum3((x >> 2) | (x << 30), (x >> 13) | (x << 19), (x >> 22) | (x << 10))
    ensures Ep1(x) == Sum3((x >> 6) | (x << 26), (x >> 11) | (x << 21), (x >> 25) | (x << 7))
    ensures Sig0(x) == Sum3((x >> 7) | (x << 25), (x >> 18) | (x << 14), x >> 3)
    ensures Sig1(x) == Sum3((x >> 17) | (x << 15), (x >> 19) | (x << 13), x >> 10)
  {
    hide Rotr, Ep0, Ep1, Sig0, Sig1, Sum3;
    Rotations(x);
    EpsOfRotations(x);
    SigsOfRotations(x);
  }

  // Ch takes the bits of y where x has ones and those of z elsewhere, Maj those that two of the three have.
  lemma Choice(x: bv32, y: bv32, z: bv32)
    ensures Ch(x, y, z) == (x & y) | (!x & z)
  {
  }

  lemma Majority(x: bv32, y: bv32, z: bv32)
    ensures Maj(x, y, z) == (x & y) | (y & z) | (z & x)
  {
  }

  // ---------------------------------------------------------------- the constants of sections 4.2.2 and 5.3.3

  // The first 32 bits of the fractional part of the cube root of p, whose whole part is n.
  ghost predicate CubeRoot(k: nat, n: nat, p: nat) {
    var r := n * 0x1_0000_0000 + k;
    r * r * r <= p * 0x1_0000_0000_0000_0000_0000_0000 < (r + 1) * (r + 1) * (r + 1)
  }

  ghost predicate SquareRoot(k: nat, n: nat, p: nat) {
    var r := n * 0x1_0000_0000 + k;
    r * r <= p * 0x1_0000_0000_0000_0000 < (r + 1) * (r + 1)
  }

  lemma Roots0()
    ensures Constants()[0] == 0x428a2f98 && CubeRoot(0x428a2f98, 1, 2)
    ensures Constants()[1] == 0x71374491 && CubeRoot(0x71374491, 1, 3)
    ensures Constants()[2] == 0xb5c0fbcf && CubeRoot(0xb5c0fbcf, 1, 5)
    ensures Constants()[3] == 0xe9b5dba5 && CubeRoot(0xe9b5dba5, 1, 7)
  {
  }

  lemma Roots1()
    ensures Constants()[4] == 0x3956c25b && CubeRoot(0x3956c25b, 2, 11)
    ensures Constants()[5] == 0x59f111f1 && CubeRoot(0x59f111f1, 2, 13)
    ensures Constants()[6] == 0x923f82a4 && CubeRoot(0x923f82a4, 2, 17)
    ensures Constants()[7] == 0xab1c5ed5 && CubeRoot(0xab1c5ed5, 2, 19)
  {
  }

  lemma Roots2()
    ensures Constants()[8] == 0xd807aa98 && CubeRoot(0xd807aa98, 2, 23)
    ensures Constants()[9] == 0x12835b01 && CubeRoot(0x12835b01, 3, 29)
    ensures Constants()[10] == 0x243185be && CubeRoot(0x243185be, 3, 31)
    ensures Constants()[11] == 0x550c7dc3 && CubeRoot(0x550c7dc3, 3, 37)
  {
  }

  lemma Roots3()
    ensures Constants()[12] == 0x72be5d74 && CubeRoot(0x72be5d74, 3, 41)
    ensures Constants()[13] == 0x80deb1fe && CubeRoot(0x80deb1fe, 3, 43)
    ensures Constants()[14] == 0x9bdc06a7 && CubeRoot(0x9bdc06a7, 3, 47)
    ensures Constants()[15] == 0xc19bf174 && CubeRoot(0xc19bf174, 3, 53)
  {
  }

  lemma Roots4()
    ensures Constants()[16] == 0xe49b69c1 && CubeRoot(0xe49b69c1, 3, 59)
    ensures Constants()[17] == 0xefbe4786 && CubeRoot(0xefbe4786, 3, 61)
    ensures Constants()[18] == 0x0fc19dc6 && CubeRoot(0x0fc19dc6, 4, 67)
    ensures Constants()[19] == 0x240ca1cc && CubeRoot(0x240ca1cc, 4, 71)
  {
  }

  lemma Roots5()
    ensures Constants()[20] == 0x2de92c6f && CubeRoot(0x2de92c6f, 4, 73)
    ensures Constants()[21] == 0x4a7484aa && CubeRoot(0x4a7484aa, 4, 79)
    ensures Constants()[22] == 0x5cb0a9dc && CubeRoot(0x5cb0a9dc, 4, 83)
    ensures Constants()[23] == 0x76f988da && CubeRoot(0x76f988da, 4, 89)
  {
  }

  lemma Roots6()
    ensures Constants()[24] == 0x983e5152 && CubeRoot(0x983e5152, 4, 97)
    ensures Constants()[25] == 0xa831c66d && CubeRoot(0xa831c66d, 4, 101)
    ensures Constants()[26] == 0xb00327c8 && CubeRoot(0xb00327c8, 4, 103)
    ensures Constants()[27] == 0xbf597fc7 && CubeRoot(0xbf597fc7, 4, 107)
  {
  }

  lemma Roots7()
    ensures Constants()[28] == 0xc6e00bf3 && CubeRoot(0xc6e00bf3, 4, 109)
    ensures Constants()[29] == 0xd5a79147 && CubeRoot(0xd5a79147, 4, 113)
    ensures Constants()[30] == 0x06ca6351 && CubeRoot(0x06ca6351, 5, 127)
    ensures Constants()[31] == 0x14292967 && CubeRoot(0x14292967, 5, 131)
  {
  }

  lemma Roots8()
    ensures Constants()[32] == 0x27b70a85 && CubeRoot(0x27b70a85, 5, 137)
    ensures Constants()[33] == 0x2e1b2138 && CubeRoot(0x2e1b2138, 5, 139)
    ensures Constants()[34] == 0x4d2c6dfc && CubeRoot(0x4d2c6dfc, 5, 149)
    ensures Constants()[35] == 0x53380d13 && CubeRoot(0x53380d13, 5, 151)
  {
  }

  lemma Roots9()
    ensures Constants()[36] == 0x650a7354 && CubeRoot(0x650a7354, 5, 157)
    ensures Constants()[37] == 0x766a0abb && CubeRoot(0x766a0abb, 5, 163)
    ensures Constants()[38] == 0x81c2c92e && CubeRoot(0x81c2c92e, 5, 167)
    ensures Constants()[39] == 0x92722c85 && CubeRoot(0x92722c85, 5, 173)
  {
  }

  lemma Roots10()
    ensures Constants()[40] == 0xa2bfe8a1 && CubeRoot(0xa2bfe8a1, 5, 179)
    ensures Constants()[41] == 0xa81a664b && CubeRoot(0xa81a664b, 5, 181)
    ensures Constants()[42] == 0xc24b8b70 && CubeRoot(0xc24b8b70, 5, 191)
    ensures Constants()[43] == 0xc76c51a3 && CubeRoot(0xc76c51a3, 5, 193)
  {
  }

  lemma Roots11()
    ensures Constants()[44] == 0xd192e819 && CubeRoot(0xd192e819, 5, 197)
    ensures Constants()[45] == 0xd6990624 && CubeRoot(0xd6990624, 5, 199)
    ensures Constants()[46] == 0xf40e3585 && CubeRoot(0xf40e3585, 5, 211)
    ensures Constants()[47] == 0x106aa070 && CubeRoot(0x106aa070, 6, 223)
  {
  }

  lemma Roots12()
    ensures Constants()[48] == 0x19a4c116 && CubeRoot(0x19a4c116, 6, 227)
    ensures Constants()[49] == 0x1e376c08 && CubeRoot(0x1e376c08, 6, 229)
    ensures Constants()[50] == 0x2748774c && CubeRoot(0x2748774c, 6, 233)
    ensures Constants()[51] == 0x34b0bcb5 && CubeRoot(0x34b0bcb5, 6, 239)
  {
  }

  lemma Roots13()
    ensures Constants()[52] == 0x391c0cb3 && CubeRoot(0x391c0cb3, 6, 241)
    ensures Constants()[53] == 0x4ed8aa4a && CubeRoot(0x4ed8aa4a, 6, 251)
    ensures Constants()[54] == 0x5b9cca4f && CubeRoot(0x5b9cca4f, 6, 257)
    ensures Constants()[55] == 0x682e6ff3 && CubeRoot(0x682e6ff3, 6, 263)
  {
  }

  lemma Roots14()
    ensures Constants()[56] == 0x748f82ee && CubeRoot(0x748f82ee, 6, 269)
    ensures Constants()[57] == 0x78a5636f && CubeRoot(0x78a5636f, 6, 271)
    ensures Constants()[58] == 0x84c87814 && CubeRoot(0x84c87814, 6, 277)
    ensures Constants()[59] == 0x8cc70208 && CubeRoot(0x8cc70208, 6, 281)
  {
  }

  lemma Roots15()
    ensures Constants()[60] == 0x90befffa && CubeRoot(0x90befffa, 6, 283)
    ensures Constants()[61] == 0xa4506ceb && CubeRoot(0xa4506ceb, 6, 293)
    ensures Constants()[62] == 0xbef9a3f7 && CubeRoot(0xbef9a3f7, 6, 307)
    ensures Constants()[63] == 0xc67178f2 && CubeRoot(0xc67178f2, 6, 311)
  {
  }

  // The first 64 primes, eight in a row.
  function PrimeRow(row: nat): (s: seq<nat>)
    requires row < 8
    ensures |s| == 8
  {
    match row
    case 0 => [2, 3, 5, 7, 11, 13, 17, 19]
    case 1 => [23, 29, 31, 37, 41, 43, 47, 53]
    case 2 => [59, 61, 67, 71, 73, 79, 83, 89]
    case 3 => [97, 101, 103, 107, 109, 113, 127, 131]
    case 4 => [137, 139, 149, 151, 157, 163, 167, 173]
    case 5 => [179, 181, 191, 193, 197, 199, 211, 223]
    case 6 => [227, 229, 233, 239, 241, 251, 257, 263]
    case _ => [269, 271, 277, 281, 283, 293, 307, 311]
  }

  function WholeRoot(p: nat): nat {
    if p < 8 then 1 else if p < 27 then 2 else if p < 64 then 3 else if p < 125 then 4 else if p < 216 then 5 else 6
  }

  // All of them: constant t belongs to prime number t.
  lemma CubeRoots(t: nat)
    requires t < 64
    ensures var p := PrimeRow(t / 8)[t % 8]; CubeRoot(Constants()[t] as nat, WholeRoot(p), p)
  {
    hide CubeRoot, Constants;
    if t < 4 {
      Roots0();
      if t == 0 {} else if t == 1 {} else if t == 2 {} else {}
    } else if t < 8 {
      Roots1();
      if t == 4 {} else if t == 5 {} else if t == 6 {} else {}
    } else if t < 12 {
      Roots2();
      if t == 8 {} else if t == 9 {} else if t == 10 {} else {}
    } else if t < 16 {
      Roots3();
      if t == 12 {} else if t == 13 {} else if t == 14 {} else {}
    } else if t < 20 {
      Roots4();
      if t == 16 {} else if t == 17 {} else if t == 18 {} else {}
    } else if t < 24 {
      Roots5();
      if t == 20 {} else if t == 21 {} else if t == 22 {} else {}
    } else if t < 28 {
      Roots6();
      if t == 24 {} else if t == 25 {} else if t == 26 {} else {}
    } else if t < 32 {
      Roots7();
      if t == 28 {} else if t == 29 {} else if t == 30 {} else {}
    } else if t < 36 {
      Roots8();
      if t == 32 {} else if t == 33 {} else if t == 34 {} else {}
    } else if t < 40 {
      Roots9();
      if t == 36 {} else if t == 37 {} else if t == 38 {} else {}
    } else if t < 44 {
      Roots10();
      if t == 40 {} else if t == 41 {} else if t == 42 {} else {}
    } else if t < 48 {
      Roots11();
      if t == 44 {} else if t == 45 {} else if t == 46 {} else {}
    } else if t < 52 {
      Roots12();
      if t == 48 {} else if t == 49 {} else if t == 50 {} else {}
    } else if t < 56 {
      Roots13();
      if t == 52 {} else if t == 53 {} else if t == 54 {} else {}
    } else if t < 60 {
      Roots14();
      if t == 56 {} else if t == 57 {} else if t == 58 {} else {}
    } else {
      Roots15();
      if t == 60 {} else if t == 61 {} else if t == 62 {} else {}
    }
  }

  lemma InitialState()
    ensures INITIAL[0] == 0x6a09e667 && SquareRoot(0x6a09e667, 1, 2)
    ensures INITIAL[1] == 0xbb67ae85 && SquareRoot(0xbb67ae85, 1, 3)
    ensures INITIAL[2] == 0x3c6ef372 && SquareRoot(0x3c6ef372, 2, 5)
    ensures INITIAL[3] == 0xa54ff53a && SquareRoot(0xa54ff53a, 2, 7)
    ensures INITIAL[4] == 0x510e527f && SquareRoot(0x510e527f, 3, 11)
    ensures INITIAL[5] == 0x9b05688c && SquareRoot(0x9b05688c, 3, 13)
    ensures INITIAL[6] == 0x1f83d9ab && SquareRoot(0x1f83d9ab, 4, 17)
    ensures INITIAL[7] == 0x5be0cd19 && SquareRoot(0x5be0cd19, 4, 19)
  {
  }

  // ---------------------------------------------------------------- the computation of section 6.2.2

  // The message schedule, for every chunk: the bytes of a chunk four at a time, then the recurrence.
  lemma ScheduleWords(m: Chunk, t: nat)
    requires t < 64
    ensures t < 16 ==> W(m, t) == (m[4 * t] as bv32 << 24) | (m[4 * t + 1] as bv32 << 16)
                                  | (m[4 * t + 2] as bv32 << 8) | m[4 * t + 3] as bv32
    ensures t >= 16 ==> W(m, t) == Sig1(W(m, t - 2)) + W(m, t - 7) + Sig0(W(m, t - 15)) + W(m, t - 16)
  {
    hide W, Sig0, Sig1;
    if t < 16 { FirstWords(m, t); } else { LaterWords(m, t); }
  }

  // The working variables, for every state and chunk: T1 and T2, and the variables that move on.
  lemma WorkingVariables(h: State, m: Chunk, t: nat)
    requires t < 64
    ensures Steps(h, m, 0) == Vars(h[0], h[1], h[2], h[3], h[4], h[5], h[6], h[7])
    ensures var v := Steps(h, m, t);
            var t1 := Add(Add(Add(Add(v.h, Ep1(v.e)), Ch(v.e, v.f, v.g)), Constants()[t]), W(m, t));
            var t2 := Add(Ep0(v.a), Maj(v.a, v.b, v.c));
            Steps(h, m, t + 1) == Vars(Add(t1, t2), v.a, v.b, v.c, Add(v.d, t1), v.e, v.f, v.g)
  {
    hide W, Constants, Ep0, Ep1, Ch, Maj, Add;
    var v := Steps(h, m, t);
    assert Steps(h, m, t + 1) == Step(v, Constants()[t], W(m, t));
  }

  // The state goes through the chunks one after the other, and the variables are added to it.
  lemma ChunksInOrder(s: seq<bv8>, n: nat)
    requires 64 * n + 64 <= |s|
    ensures Absorbed(s, 0) == INITIAL
    ensures var h := Absorbed(s, n);
            var v := Steps(h, s[64 * n..64 * n + 64], 64);
            Absorbed(s, n + 1) == [Add(h[0], v.a), Add(h[1], v.b), Add(h[2], v.c), Add(h[3], v.d),
                                   Add(h[4], v.e), Add(h[5], v.f), Add(h[6], v.g), Add(h[7], v.h)]
  {
    hide Steps, Add, INITIAL, Absorbed;
    AbsorbedNext(s, n);
  }

  lemma AbsorbedNext(s: seq<bv8>, n: nat)
    requires 64 * n + 64 <= |s|
    ensures Absorbed(s, 0) == INITIAL
    ensures Absorbed(s, n + 1) == Compress(Absorbed(s, n), s[64 * n..64 * n + 64])
  {
    hide Compress, INITIAL;
    assert 64 * (n + 1) == 64 * n + 64;
  }

  // Section 5.1.1: the message, 80, zeros, and the number of bits, up to the next whole chunk.
  lemma PaddedByBytes(msg: seq<bv8>)
    ensures var p := Padded(msg);
            && msg <= p && |p| == 64 * ((|msg| + 72) / 64) && p[|msg|] == 0x80
            && (forall i :: |msg| < i < |p| - 8 ==> p[i] == 0)
            && p[|p| - 8..] == LengthBytes(8 * |msg|)
  {
    hide LengthBytes;
    var n := |msg| % 64;
    assert |msg| + 1 + Filler(|msg|) + 8 == 64 * ((|msg| + 72) / 64) by {
      assert |msg| == 64 * (|msg| / 64) + n;
    }
  }

  // ---------------------------------------------------------------- the message "abc"

  const ABC: seq<bv8> := [0x61, 0x62, 0x63]

  // The chunk that the three bytes are padded to: a one bit, zeros, and the length in bits.
  ghost predicate IsChunk(c: Chunk) {
    && c[0] == 0x61 && c[1] == 0x62 && c[2] == 0x63 && c[3] == 0x80
    && (forall i :: 4 <= i < 63 ==> c[i] == 0) && c[63] == 24
  }

  lemma AbcPadded()
    ensures |Padded(ABC)| == 64 && IsChunk(Padded(ABC))
  {
    hide LengthBytes;
    LengthOctets(24);
    assert Filler(3) == 52;
  }

  lemma ShrEight(v: nat, bits: nat)
    ensures Shr(v, bits + 8) == Shr(v, bits) / 256
  {
    var a, b, c, d := Shr(v, bits + 1), Shr(v, bits + 2), Shr(v, bits + 3), Shr(v, bits + 4);
    var e, f, g := Shr(v, bits + 5), Shr(v, bits + 6), Shr(v, bits + 7);
    assert a == Shr(v, bits) / 2 && b == a / 2 && c == b / 2 && d == c / 2 && e == d / 2 && f == e / 2 && g == f / 2;
    assert Shr(v, bits + 8) == g / 2;
  }

  // The length octets, the most significant first.
  lemma LengthOctets(v: nat)
    ensures var b := v / 256;
            var c := b / 256;
            var d := c / 256;
            var e := d / 256;
            var f := e / 256;
            var g := f / 256;
            var h := g / 256;
            LengthBytes(v) == [LowByte(h), LowByte(g), LowByte(f), LowByte(e),
                               LowByte(d), LowByte(c), LowByte(b), LowByte(v)]
  {
    hide Shr, LengthBytes, LowByte;
    OctetsOf(v);
    ShrNone(v);
    ShrEight(v, 0);
    ShrEight(v, 8);
    ShrEight(v, 16);
    ShrEight(v, 24);
    ShrEight(v, 32);
    ShrEight(v, 40);
    ShrEight(v, 48);
  }

  lemma LowByteIs(n: nat)
    ensures LowByte(n) == (n % 256) as bv8
  {
  }

  lemma OctetsOf(v: nat)
    ensures LengthBytes(v) == [LowByte(Shr(v, 56)), LowByte(Shr(v, 48)), LowByte(Shr(v, 40)), LowByte(Shr(v, 32)),
                               LowByte(Shr(v, 24)), LowByte(Shr(v, 16)), LowByte(Shr(v, 8)), LowByte(Shr(v, 0))]
  {
    hide Shr, LowByte;
  }

  lemma ShrNone(v: nat)
    ensures Shr(v, 0) == v
  {
  }

  lemma Words0(c: Chunk)
    requires IsChunk(c)
    ensures W(c, 0) == 0x61626380 && W(c, 15) == 24
    ensures forall t :: 1 <= t < 15 ==> W(c, t) == 0
  {
    hide W;
    FirstWords(c, 0);
    FirstWords(c, 15);
    forall t | 1 <= t < 15 ensures W(c, t) == 0 { FirstWords(c, t); }
  }

  // The next word of the schedule from known ones.
  lemma NextWord(c: Chunk, t: nat, a: bv32, b: bv32, d: bv32, e: bv32, w: bv32)
    requires 16 <= t < 64 && W(c, t - 2) == a && W(c, t - 7) == b && W(c, t - 15) == d && W(c, t - 16) == e
    requires Sum4(Sig1(a), b, Sig0(d), e) == w
    ensures W(c, t) == w
  {
    hide W, Sum4, Sig0, Sig1;
    LaterWords(c, t);
  }

  lemma Words1(c: Chunk)
    requires IsChunk(c)
    ensures W(c, 16) == 0x61626380 && W(c, 17) == 0x000f0000
    ensures W(c, 18) == 0x7da86405 && W(c, 19) == 0x600003c6
    ensures W(c, 20) == 0x3e9d7b78 && W(c, 21) == 0x0183fc00
    ensures W(c, 22) == 0x12dcbfdb && W(c, 23) == 0xe2e2c38e
  {
    hide W;
    Words0(c);
    NextWord(c, 16, 0x00000000, 0x00000000, 0x00000000, 0x61626380, 0x61626380);
    NextWord(c, 17, 0x00000018, 0x00000000, 0x00000000, 0x00000000, 0x000f0000);
    NextWord(c, 18, 0x61626380, 0x00000000, 0x00000000, 0x00000000, 0x7da86405);
    NextWord(c, 19, 0x000f0000, 0x00000000, 0x00000000, 0x00000000, 0x600003c6);
    NextWord(c, 20, 0x7da86405, 0x00000000, 0x00000000, 0x00000000, 0x3e9d7b78);
    NextWord(c, 21, 0x600003c6, 0x00000000, 0x00000000, 0x00000000, 0x0183fc00);
    NextWord(c, 22, 0x3e9d7b78, 0x00000018, 0x00000000, 0x00000000, 0x12dcbfdb);
    NextWord(c, 23, 0x0183fc00, 0x61626380, 0x00000000, 0x00000000, 0xe2e2c38e);
  }

  lemma Words2(c: Chunk)
    requires IsChunk(c)
    ensures W(c, 24) == 0xc8215c1a && W(c, 25) == 0xb73679a2
    ensures W(c, 26) == 0xe5bc3909 && W(c, 27) == 0x32663c5b
    ensures W(c, 28) == 0x9d209d67 && W(c, 29) == 0xec8726cb
    ensures W(c, 30) == 0x702138a4 && W(c, 31) == 0xd3b7973b
  {
    hide W;
    Words0(c);
    Words1(c);
    NextWord(c, 24, 0x12dcbfdb, 0x000f0000, 0x00000000, 0x00000000, 0xc8215c1a);
    NextWord(c, 25, 0xe2e2c38e, 0x7da86405, 0x00000000, 0x00000000, 0xb73679a2);
    NextWord(c, 26, 0xc8215c1a, 0x600003c6, 0x00000000, 0x00000000, 0xe5bc3909);
    NextWord(c, 27, 0xb73679a2, 0x3e9d7b78, 0x00000000, 0x00000000, 0x32663c5b);
    NextWord(c, 28, 0xe5bc3909, 0x0183fc00, 0x00000000, 0x00000000, 0x9d209d67);
    NextWord(c, 29, 0x32663c5b, 0x12dcbfdb, 0x00000000, 0x00000000, 0xec8726cb);
    NextWord(c, 30, 0x9d209d67, 0xe2e2c38e, 0x00000018, 0x00000000, 0x702138a4);
    NextWord(c, 31, 0xec8726cb, 0xc8215c1a, 0x61626380, 0x00000018, 0xd3b7973b);
  }

  lemma Words3(c: Chunk)
    requires IsChunk(c)
    ensures W(c, 32) == 0x93f5997f && W(c, 33) == 0x3b68ba73
    ensures W(c, 34) == 0xaff4ffc1 && W(c, 35) == 0xf10a5c62
    ensures W(c, 36) == 0x0a8b3996 && W(c, 37) == 0x72af830a
    ensures W(c, 38) == 0x9409e33e && W(c, 39) == 0x24641522
  {
    hide W;
    Words0(c);
    Words1(c);
    Words2(c);
    NextWord(c, 32, 0x702138a4, 0xb73679a2, 0x000f0000, 0x61626380, 0x93f5997f);
    NextWord(c, 33, 0xd3b7973b, 0xe5bc3909, 0x7da86405, 0x000f0000, 0x3b68ba73);
    NextWord(c, 34, 0x93f5997f, 0x32663c5b, 0x600003c6, 0x7da86405, 0xaff4ffc1);
    NextWord(c, 35, 0x3b68ba73, 0x9d209d67, 0x3e9d7b78, 0x600003c6, 0xf10a5c62);
    NextWord(c, 36, 0xaff4ffc1, 0xec8726cb, 0x0183fc00, 0x3e9d7b78, 0x0a8b3996);
    NextWord(c, 37, 0xf10a5c62, 0x702138a4, 0x12dcbfdb, 0x0183fc00, 0x72af830a);
    NextWord(c, 38, 0x0a8b3996, 0xd3b7973b, 0xe2e2c38e, 0x12dcbfdb, 0x9409e33e);
    NextWord(c, 39, 0x72af830a, 0x93f5997f, 0xc8215c1a, 0xe2e2c38e, 0x24641522);
  }

  lemma Words4(c: Chunk)
    requires IsChunk(c)
    ensures W(c, 40) == 0x9f47bf94 && W(c, 41) == 0xf0a64f5a
    ensures W(c, 42) == 0x3e246a79 && W(c, 43) == 0x27333ba3
    ensures W(c, 44) == 0x0c4763f2 && W(c, 45) == 0x840abf27
    ensures W(c, 46) == 0x7a290d5d && W(c, 47) == 0x065c43da
  {
    hide W;
    Words0(c);
    Words2(c);
    Words3(c);
    NextWord(c, 40, 0x9409e33e, 0x3b68ba73, 0xb73679a2, 0xc8215c1a, 0x9f47bf94);
    NextWord(c, 41, 0x24641522, 0xaff4ffc1, 0xe5bc3909, 0xb73679a2, 0xf0a64f5a);
    NextWord(c, 42, 0x9f47bf94, 0xf10a5c62, 0x32663c5b, 0xe5bc3909, 0x3e246a79);
    NextWord(c, 43, 0xf0a64f5a, 0x0a8b3996, 0x9d209d67, 0x32663c5b, 0x27333ba3);
    NextWord(c, 44, 0x3e246a79, 0x72af830a, 0xec8726cb, 0x9d209d67, 0x0c4763f2);
    NextWord(c, 45, 0x27333ba3, 0x9409e33e, 0x702138a4, 0xec8726cb, 0x840abf27);
    NextWord(c, 46, 0x0c4763f2, 0x24641522, 0xd3b7973b, 0x702138a4, 0x7a290d5d);
    NextWord(c, 47, 0x840abf27, 0x9f47bf94, 0x93f5997f, 0xd3b7973b, 0x065c43da);
  }

  lemma Words5(c: Chunk)
    requires IsChunk(c)
    ensures W(c, 48) == 0xfb3e89cb && W(c, 49) == 0xcc7617db
    ensures W(c, 50) == 0xb9e66c34 && W(c, 51) == 0xa9993667
    ensures W(c, 52) == 0x84badedd && W(c, 53) == 0xc21462bc
    ensures W(c, 54) == 0x1487472c && W(c, 55) == 0xb20f7a99
  {
    hide W;
    Words0(c);
    Words3(c);
    Words4(c);
    NextWord(c, 48, 0x7a290d5d, 0xf0a64f5a, 0x3b68ba73, 0x93f5997f, 0xfb3e89cb);
    NextWord(c, 49, 0x065c43da, 0x3e246a79, 0xaff4ffc1, 0x3b68ba73, 0xcc7617db);
    NextWord(c, 50, 0xfb3e89cb, 0x27333ba3, 0xf10a5c62, 0xaff4ffc1, 0xb9e66c34);
    NextWord(c, 51, 0xcc7617db, 0x0c4763f2, 0x0a8b3996, 0xf10a5c62, 0xa9993667);
    NextWord(c, 52, 0xb9e66c34, 0x840abf27, 0x72af830a, 0x0a8b3996, 0x84badedd);
    NextWord(c, 53, 0xa9993667, 0x7a290d5d, 0x9409e33e, 0x72af830a, 0xc21462bc);
    NextWord(c, 54, 0x84badedd, 0x065c43da, 0x24641522, 0x9409e33e, 0x1487472c);
    NextWord(c, 55, 0xc21462bc, 0xfb3e89cb, 0x9f47bf94, 0x24641522, 0xb20f7a99);
  }

  lemma Words6(c: Chunk)
    requires IsChunk(c)
    ensures W(c, 56) == 0xef57b9cd && W(c, 57) == 0xebe6b238
    ensures W(c, 58) == 0x9fe3095e && W(c, 59) == 0x78bc8d4b
    ensures W(c, 60) == 0xa43fcf15 && W(c, 61) == 0x668b2ff8
    ensures W(c, 62) == 0xeeaba2cc && W(c, 63) == 0x12b1edeb
  {
    hide W;
    Words0(c);
    Words4(c);
    Words5(c);
    NextWord(c, 56, 0x1487472c, 0xcc7617db, 0xf0a64f5a, 0x9f47bf94, 0xef57b9cd);
    NextWord(c, 57, 0xb20f7a99, 0xb9e66c34, 0x3e246a79, 0xf0a64f5a, 0xebe6b238);
    NextWord(c, 58, 0xef57b9cd, 0xa9993667, 0x27333ba3, 0x3e246a79, 0x9fe3095e);
    NextWord(c, 59, 0xebe6b238, 0x84badedd, 0x0c4763f2, 0x27333ba3, 0x78bc8d4b);
    NextWord(c, 60, 0x9fe3095e, 0xc21462bc, 0x840abf27, 0x0c4763f2, 0xa43fcf15);
    NextWord(c, 61, 0x78bc8d4b, 0x1487472c, 0x7a290d5d, 0x840abf27, 0x668b2ff8);
    NextWord(c, 62, 0xa43fcf15, 0xb20f7a99, 0x065c43da, 0x7a290d5d, 0xeeaba2cc);
    NextWord(c, 63, 0x668b2ff8, 0xef57b9cd, 0xfb3e89cb, 0x065c43da, 0x12b1edeb);
  }

  // The next step from known variables: two of them are new, the others move on.
  lemma NextStep(m: Chunk, t: nat, a: bv32, b: bv32, c: bv32, d: bv32, e: bv32, f: bv32, g: bv32, h: bv32,
                 k: bv32, w: bv32, x: bv32, y: bv32)
    requires t < 64 && Steps(INITIAL, m, t) == Vars(a, b, c, d, e, f, g, h) && Constants()[t] == k && W(m, t) == w
    requires Step(Vars(a, b, c, d, e, f, g, h), k, w) == Vars(x, a, b, c, y, e, f, g)
    ensures Steps(INITIAL, m, t + 1) == Vars(x, a, b, c, y, e, f, g)
  {
    hide Step, W, Constants, INITIAL;
  }

  lemma Steps0(c: Chunk)
    requires IsChunk(c)
    ensures Steps(INITIAL, c, 8) == Vars(0x85a07b5f, 0xe5030380, 0x2b4209f5, 0x04409a6a,
                                          0x0c657a79, 0x9b27a401, 0x714260ad, 0x43ada245)
  {
    hide Steps, W, Constants;
    InitialVars(c);
    Words0(c);
    Roots0();
    Roots1();
    NextStep(c, 0, 0x6a09e667, 0xbb67ae85, 0x3c6ef372, 0xa54ff53a,
             0x510e527f, 0x9b05688c, 0x1f83d9ab, 0x5be0cd19,
             0x428a2f98, 0x61626380, 0x5d6aebcd, 0xfa2a4622);
    NextStep(c, 1, 0x5d6aebcd, 0x6a09e667, 0xbb67ae85, 0x3c6ef372,
             0xfa2a4622, 0x510e527f, 0x9b05688c, 0x1f83d9ab,
             0x71374491, 0x00000000, 0x5a6ad9ad, 0x78ce7989);
    NextStep(c, 2, 0x5a6ad9ad, 0x5d6aebcd, 0x6a09e667, 0xbb67ae85,
             0x78ce7989, 0xfa2a4622, 0x510e527f, 0x9b05688c,
             0xb5c0fbcf, 0x00000000, 0xc8c347a7, 0xf92939eb);
    NextStep(c, 3, 0xc8c347a7, 0x5a6ad9ad, 0x5d6aebcd, 0x6a09e667,
             0xf92939eb, 0x78ce7989, 0xfa2a4622, 0x510e527f,
             0xe9b5dba5, 0x00000000, 0xd550f666, 0x24e00850);
    NextStep(c, 4, 0xd550f666, 0xc8c347a7, 0x5a6ad9ad, 0x5d6aebcd,
             0x24e00850, 0xf92939eb, 0x78ce7989, 0xfa2a4622,
             0x3956c25b, 0x00000000, 0x04409a6a, 0x43ada245);
    NextStep(c, 5, 0x04409a6a, 0xd550f666, 0xc8c347a7, 0x5a6ad9ad,
             0x43ada245, 0x24e00850, 0xf92939eb, 0x78ce7989,
             0x59f111f1, 0x00000000, 0x2b4209f5, 0x714260ad);
    NextStep(c, 6, 0x2b4209f5, 0x04409a6a, 0xd550f666, 0xc8c347a7,
             0x714260ad, 0x43ada245, 0x24e00850, 0xf92939eb,
             0x923f82a4, 0x00000000, 0xe5030380, 0x9b27a401);
    NextStep(c, 7, 0xe5030380, 0x2b4209f5, 0x04409a6a, 0xd550f666,
             0x9b27a401, 0x714260ad, 0x43ada245, 0x24e00850,
             0xab1c5ed5, 0x00000000, 0x85a07b5f, 0x0c657a79);
  }

  lemma Steps1(c: Chunk)
    requires IsChunk(c)
    ensures Steps(INITIAL, c, 16) == Vars(0xb0fa238e, 0xc0645fde, 0xd932eb16, 0x87912990,
                                           0x07590dcd, 0x0b92f20c, 0x745a48de, 0x1e578218)
  {
    hide Steps, W, Constants;
    Steps0(c);
    Words0(c);
    Roots2();
    Roots3();
    NextStep(c, 8, 0x85a07b5f, 0xe5030380, 0x2b4209f5, 0x04409a6a,
             0x0c657a79, 0x9b27a401, 0x714260ad, 0x43ada245,
             0xd807aa98, 0x00000000, 0x8e04ecb9, 0x32ca2d8c);
    NextStep(c, 9, 0x8e04ecb9, 0x85a07b5f, 0xe5030380, 0x2b4209f5,
             0x32ca2d8c, 0x0c657a79, 0x9b27a401, 0x714260ad,
             0x12835b01, 0x00000000, 0x8c87346b, 0x1cc92596);
    NextStep(c, 10, 0x8c87346b, 0x8e04ecb9, 0x85a07b5f, 0xe5030380,
             0x1cc92596, 0x32ca2d8c, 0x0c657a79, 0x9b27a401,
             0x243185be, 0x00000000, 0x4798a3f4, 0x436b23e8);
    NextStep(c, 11, 0x4798a3f4, 0x8c87346b, 0x8e04ecb9, 0x85a07b5f,
             0x436b23e8, 0x1cc92596, 0x32ca2d8c, 0x0c657a79,
             0x550c7dc3, 0x00000000, 0xf71fc5a9, 0x816fd6e9);
    NextStep(c, 12, 0xf71fc5a9, 0x4798a3f4, 0x8c87346b, 0x8e04ecb9,
             0x816fd6e9, 0x436b23e8, 0x1cc92596, 0x32ca2d8c,
             0x72be5d74, 0x00000000, 0x87912990, 0x1e578218);
    NextStep(c, 13, 0x87912990, 0xf71fc5a9, 0x4798a3f4, 0x8c87346b,
             0x1e578218, 0x816fd6e9, 0x436b23e8, 0x1cc92596,
             0x80deb1fe, 0x00000000, 0xd932eb16, 0x745a48de);
    NextStep(c, 14, 0xd932eb16, 0x87912990, 0xf71fc5a9, 0x4798a3f4,
             0x745a48de, 0x1e578218, 0x816fd6e9, 0x436b23e8,
             0x9bdc06a7, 0x00000000, 0xc0645fde, 0x0b92f20c);
    NextStep(c, 15, 0xc0645fde, 0xd932eb16, 0x87912990, 0xf71fc5a9,
             0x0b92f20c, 0x745a48de, 0x1e578218, 0x816fd6e9,
             0xc19bf174, 0x00000018, 0xb0fa238e, 0x07590dcd);
  }

  lemma Steps2(c: Chunk)
    requires IsChunk(c)
    ensures Steps(INITIAL, c, 24) == Vars(0xc5d53d8d, 0xa7a3623f, 0xc2606d6d, 0x9dc68b63,
                                           0xaa47c347, 0x49f5114a, 0xe1257970, 0x8ada8930)
  {
    hide Steps, W, Constants;
    Steps1(c);
    Words1(c);
    Roots4();
    Roots5();
    NextStep(c, 16, 0xb0fa238e, 0xc0645fde, 0xd932eb16, 0x87912990,
             0x07590dcd, 0x0b92f20c, 0x745a48de, 0x1e578218,
             0xe49b69c1, 0x61626380, 0x21da9a9b, 0x8034229c);
    NextStep(c, 17, 0x21da9a9b, 0xb0fa238e, 0xc0645fde, 0xd932eb16,
             0x8034229c, 0x07590dcd, 0x0b92f20c, 0x745a48de,
             0xefbe4786, 0x000f0000, 0xc2fbd9d1, 0x846ee454);
    NextStep(c, 18, 0xc2fbd9d1, 0x21da9a9b, 0xb0fa238e, 0xc0645fde,
             0x846ee454, 0x8034229c, 0x07590dcd, 0x0b92f20c,
             0x0fc19dc6, 0x7da86405, 0xfe777bbf, 0xcc899961);
    NextStep(c, 19, 0xfe777bbf, 0xc2fbd9d1, 0x21da9a9b, 0xb0fa238e,
             0xcc899961, 0x846ee454, 0x8034229c, 0x07590dcd,
             0x240ca1cc, 0x600003c6, 0xe1f20c33, 0xb0638179);
    NextStep(c, 20, 0xe1f20c33, 0xfe777bbf, 0xc2fbd9d1, 0x21da9a9b,
             0xb0638179, 0xcc899961, 0x846ee454, 0x8034229c,
             0x2de92c6f, 0x3e9d7b78, 0x9dc68b63, 0x8ada8930);
    NextStep(c, 21, 0x9dc68b63, 0xe1f20c33, 0xfe777bbf, 0xc2fbd9d1,
             0x8ada8930, 0xb0638179, 0xcc899961, 0x846ee454,
             0x4a7484aa, 0x0183fc00, 0xc2606d6d, 0xe1257970);
    NextStep(c, 22, 0xc2606d6d, 0x9dc68b63, 0xe1f20c33, 0xfe777bbf,
             0xe1257970, 0x8ada8930, 0xb0638179, 0xcc899961,
             0x5cb0a9dc, 0x12dcbfdb, 0xa7a3623f, 0x49f5114a);
    NextStep(c, 23, 0xa7a3623f, 0xc2606d6d, 0x9dc68b63, 0xe1f20c33,
             0x49f5114a, 0xe1257970, 0x8ada8930, 0xb0638179,
             0x76f988da, 0xe2e2c38e, 0xc5d53d8d, 0xaa47c347);
  }

  lemma Steps3(c: Chunk)
    requires IsChunk(c)
    ensures Steps(INITIAL, c, 32) == Vars(0x73b33bf5, 0xea992a22, 0xa0060b30, 0x363482c9,
                                           0xba591112, 0x0109ab3a, 0xade79437, 0x6112a3b7)
  {
    hide Steps, W, Constants;
    Steps2(c);
    Words2(c);
    Roots6();
    Roots7();
    NextStep(c, 24, 0xc5d53d8d, 0xa7a3623f, 0xc2606d6d, 0x9dc68b63,
             0xaa47c347, 0x49f5114a, 0xe1257970, 0x8ada8930,
             0x983e5152, 0xc8215c1a, 0x1c2c2838, 0x2823ef91);
    NextStep(c, 25, 0x1c2c2838, 0xc5d53d8d, 0xa7a3623f, 0xc2606d6d,
             0x2823ef91, 0xaa47c347, 0x49f5114a, 0xe1257970,
             0xa831c66d, 0xb73679a2, 0xcde8037d, 0x14383d8e);
    NextStep(c, 26, 0xcde8037d, 0x1c2c2838, 0xc5d53d8d, 0xa7a3623f,
             0x14383d8e, 0x2823ef91, 0xaa47c347, 0x49f5114a,
             0xb00327c8, 0xe5bc3909, 0xb62ec4bc, 0xc74c6516);
    NextStep(c, 27, 0xb62ec4bc, 0xcde8037d, 0x1c2c2838, 0xc5d53d8d,
             0xc74c6516, 0x14383d8e, 0x2823ef91, 0xaa47c347,
             0xbf597fc7, 0x32663c5b, 0x77d37528, 0xedffbff8);
    NextStep(c, 28, 0x77d37528, 0xb62ec4bc, 0xcde8037d, 0x1c2c2838,
             0xedffbff8, 0xc74c6516, 0x14383d8e, 0x2823ef91,
             0xc6e00bf3, 0x9d209d67, 0x363482c9, 0x6112a3b7);
    NextStep(c, 29, 0x363482c9, 0x77d37528, 0xb62ec4bc, 0xcde8037d,
             0x6112a3b7, 0xedffbff8, 0xc74c6516, 0x14383d8e,
             0xd5a79147, 0xec8726cb, 0xa0060b30, 0xade79437);
    NextStep(c, 30, 0xa0060b30, 0x363482c9, 0x77d37528, 0xb62ec4bc,
             0xade79437, 0x6112a3b7, 0xedffbff8, 0xc74c6516,
             0x06ca6351, 0x702138a4, 0xea992a22, 0x0109ab3a);
    NextStep(c, 31, 0xea992a22, 0xa0060b30, 0x363482c9, 0x77d37528,
             0x0109ab3a, 0xade79437, 0x6112a3b7, 0xedffbff8,
             0x14292967, 0xd3b7973b, 0x73b33bf5, 0xba591112);
  }

  lemma Steps4(c: Chunk)
    requires IsChunk(c)
    ensures Steps(INITIAL, c, 40) == Vars(0x79ea687a, 0x6dc57a8a, 0x34df1604, 0x41a65cb1,
                                           0x1efbc0a0, 0xf0781bc8, 0xa507a53d, 0x0772a26b)
  {
    hide Steps, W, Constants;
    Steps3(c);
    Words3(c);
    Roots8();
    Roots9();
    NextStep(c, 32, 0x73b33bf5, 0xea992a22, 0xa0060b30, 0x363482c9,
             0xba591112, 0x0109ab3a, 0xade79437, 0x6112a3b7,
             0x27b70a85, 0x93f5997f, 0x98e12507, 0x9cd9f5f6);
    NextStep(c, 33, 0x98e12507, 0x73b33bf5, 0xea992a22, 0xa0060b30,
             0x9cd9f5f6, 0xba591112, 0x0109ab3a, 0xade79437,
             0x2e1b2138, 0x3b68ba73, 0xfe604df5, 0x59249dd3);
    NextStep(c, 34, 0xfe604df5, 0x98e12507, 0x73b33bf5, 0xea992a22,
             0x59249dd3, 0x9cd9f5f6, 0xba591112, 0x0109ab3a,
             0x4d2c6dfc, 0xaff4ffc1, 0xa9a7738c, 0x085f3833);
    NextStep(c, 35, 0xa9a7738c, 0xfe604df5, 0x98e12507, 0x73b33bf5,
             0x085f3833, 0x59249dd3, 0x9cd9f5f6, 0xba591112,
             0x53380d13, 0xf10a5c62, 0x65a0cfe4, 0xf4b002d6);
    NextStep(c, 36, 0x65a0cfe4, 0xa9a7738c, 0xfe604df5, 0x98e12507,
             0xf4b002d6, 0x085f3833, 0x59249dd3, 0x9cd9f5f6,
             0x650a7354, 0x0a8b3996, 0x41a65cb1, 0x0772a26b);
    NextStep(c, 37, 0x41a65cb1, 0x65a0cfe4, 0xa9a7738c, 0xfe604df5,
             0x0772a26b, 0xf4b002d6, 0x085f3833, 0x59249dd3,
             0x766a0abb, 0x72af830a, 0x34df1604, 0xa507a53d);
    NextStep(c, 38, 0x34df1604, 0x41a65cb1, 0x65a0cfe4, 0xa9a7738c,
             0xa507a53d, 0x0772a26b, 0xf4b002d6, 0x085f3833,
             0x81c2c92e, 0x9409e33e, 0x6dc57a8a, 0xf0781bc8);
    NextStep(c, 39, 0x6dc57a8a, 0x34df1604, 0x41a65cb1, 0x65a0cfe4,
             0xf0781bc8, 0xa507a53d, 0x0772a26b, 0xf4b002d6,
             0x92722c85, 0x24641522, 0x79ea687a, 0x1efbc0a0);
  }

  lemma Steps5(c: Chunk)
    requires IsChunk(c)
    ensures Steps(INITIAL, c, 48) == Vars(0x4172328d, 0xa14c14b0, 0x72ab4b91, 0x26628815,
                                           0xfecf0bc6, 0xd57b94a9, 0xb7755da1, 0xa80f11f0)
  {
    hide Steps, W, Constants;
    Steps4(c);
    Words4(c);
    Roots10();
    Roots11();
    NextStep(c, 40, 0x79ea687a, 0x6dc57a8a, 0x34df1604, 0x41a65cb1,
             0x1efbc0a0, 0xf0781bc8, 0xa507a53d, 0x0772a26b,
             0xa2bfe8a1, 0x9f47bf94, 0xd6670766, 0x26352d63);
    NextStep(c, 41, 0xd6670766, 0x79ea687a, 0x6dc57a8a, 0x34df1604,
             0x26352d63, 0x1efbc0a0, 0xf0781bc8, 0xa507a53d,
             0xa81a664b, 0xf0a64f5a, 0xdf46652f, 0x838b2711);
    NextStep(c, 42, 0xdf46652f, 0xd6670766, 0x79ea687a, 0x6dc57a8a,
             0x838b2711, 0x26352d63, 0x1efbc0a0, 0xf0781bc8,
             0xc24b8b70, 0x3e246a79, 0x17aa0dfe, 0xdecd4715);
    NextStep(c, 43, 0x17aa0dfe, 0xdf46652f, 0xd6670766, 0x79ea687a,
             0xdecd4715, 0x838b2711, 0x26352d63, 0x1efbc0a0,
             0xc76c51a3, 0x27333ba3, 0x9d4baf93, 0xfda24c2e);
    NextStep(c, 44, 0x9d4baf93, 0x17aa0dfe, 0xdf46652f, 0xd6670766,
             0xfda24c2e, 0xdecd4715, 0x838b2711, 0x26352d63,
             0xd192e819, 0x0c4763f2, 0x26628815, 0xa80f11f0);
    NextStep(c, 45, 0x26628815, 0x9d4baf93, 0x17aa0dfe, 0xdf46652f,
             0xa80f11f0, 0xfda24c2e, 0xdecd4715, 0x838b2711,
             0xd6990624, 0x840abf27, 0x72ab4b91, 0xb7755da1);
    NextStep(c, 46, 0x72ab4b91, 0x26628815, 0x9d4baf93, 0x17aa0dfe,
             0xb7755da1, 0xa80f11f0, 0xfda24c2e, 0xdecd4715,
             0xf40e3585, 0x7a290d5d, 0xa14c14b0, 0xd57b94a9);
    NextStep(c, 47, 0xa14c14b0, 0x72ab4b91, 0x26628815, 0x9d4baf93,
             0xd57b94a9, 0xb7755da1, 0xa80f11f0, 0xfda24c2e,
             0x106aa070, 0x065c43da, 0x4172328d, 0xfecf0bc6);
  }

  lemma Steps6(c: Chunk)
    requires IsChunk(c)
    ensures Steps(INITIAL, c, 56) == Vars(0x38cc9913, 0x3ec45cdb, 0xf5702fdb, 0x101fd28f,
                                           0x54cb266b, 0xe50e1b4f, 0x9f4787c3, 0x529e7d00)
  {
    hide Steps, W, Constants;
    Steps5(c);
    Words5(c);
    Roots12();
    Roots13();
    NextStep(c, 48, 0x4172328d, 0xa14c14b0, 0x72ab4b91, 0x26628815,
             0xfecf0bc6, 0xd57b94a9, 0xb7755da1, 0xa80f11f0,
             0x19a4c116, 0xfb3e89cb, 0x05757ceb, 0xbd714038);
    NextStep(c, 49, 0x05757ceb, 0x4172328d, 0xa14c14b0, 0x72ab4b91,
             0xbd714038, 0xfecf0bc6, 0xd57b94a9, 0xb7755da1,
             0x1e376c08, 0xcc7617db, 0xf11bfaa8, 0x6e5c390c);
    NextStep(c, 50, 0xf11bfaa8, 0x05757ceb, 0x4172328d, 0xa14c14b0,
             0x6e5c390c, 0xbd714038, 0xfecf0bc6, 0xd57b94a9,
             0x2748774c, 0xb9e66c34, 0x7a0508a1, 0x52f1ccf7);
    NextStep(c, 51, 0x7a0508a1, 0xf11bfaa8, 0x05757ceb, 0x4172328d,
             0x52f1ccf7, 0x6e5c390c, 0xbd714038, 0xfecf0bc6,
             0x34b0bcb5, 0xa9993667, 0x886e7a22, 0x49231c1e);
    NextStep(c, 52, 0x886e7a22, 0x7a0508a1, 0xf11bfaa8, 0x05757ceb,
             0x49231c1e, 0x52f1ccf7, 0x6e5c390c, 0xbd714038,
             0x391c0cb3, 0x84badedd, 0x101fd28f, 0x529e7d00);
    NextStep(c, 53, 0x101fd28f, 0x886e7a22, 0x7a0508a1, 0xf11bfaa8,
             0x529e7d00, 0x49231c1e, 0x52f1ccf7, 0x6e5c390c,
             0x4ed8aa4a, 0xc21462bc, 0xf5702fdb, 0x9f4787c3);
    NextStep(c, 54, 0xf5702fdb, 0x101fd28f, 0x886e7a22, 0x7a0508a1,
             0x9f4787c3, 0x529e7d00, 0x49231c1e, 0x52f1ccf7,
             0x5b9cca4f, 0x1487472c, 0x3ec45cdb, 0xe50e1b4f);
    NextStep(c, 55, 0x3ec45cdb, 0xf5702fdb, 0x101fd28f, 0x886e7a22,
             0xe50e1b4f, 0x9f4787c3, 0x529e7d00, 0x49231c1e,
             0x682e6ff3, 0xb20f7a99, 0x38cc9913, 0x54cb266b);
  }

  lemma Steps7(c: Chunk)
    requires IsChunk(c)
    ensures Steps(INITIAL, c, 64) == Vars(0x506e3058, 0xd39a2165, 0x04d24d6c, 0xb85e2ce9,
                                           0x5ef50f24, 0xfb121210, 0x948d25b6, 0x961f4894)
  {
    hide Steps, W, Constants;
    Steps6(c);
    Words6(c);
    Roots14();
    Roots15();
    NextStep(c, 56, 0x38cc9913, 0x3ec45cdb, 0xf5702fdb, 0x101fd28f,
             0x54cb266b, 0xe50e1b4f, 0x9f4787c3, 0x529e7d00,
             0x748f82ee, 0xef57b9cd, 0xfcd1887b, 0x9b5e906c);
    NextStep(c, 57, 0xfcd1887b, 0x38cc9913, 0x3ec45cdb, 0xf5702fdb,
             0x9b5e906c, 0x54cb266b, 0xe50e1b4f, 0x9f4787c3,
             0x78a5636f, 0xebe6b238, 0xc062d46f, 0x7e44008e);
    NextStep(c, 58, 0xc062d46f, 0xfcd1887b, 0x38cc9913, 0x3ec45cdb,
             0x7e44008e, 0x9b5e906c, 0x54cb266b, 0xe50e1b4f,
             0x84c87814, 0x9fe3095e, 0xffb70472, 0x6d83bfc6);
    NextStep(c, 59, 0xffb70472, 0xc062d46f, 0xfcd1887b, 0x38cc9913,
             0x6d83bfc6, 0x7e44008e, 0x9b5e906c, 0x54cb266b,
             0x8cc70208, 0x78bc8d4b, 0xb6ae8fff, 0xb21bad3d);
    NextStep(c, 60, 0xb6ae8fff, 0xffb70472, 0xc062d46f, 0xfcd1887b,
             0xb21bad3d, 0x6d83bfc6, 0x7e44008e, 0x9b5e906c,
             0x90befffa, 0xa43fcf15, 0xb85e2ce9, 0x961f4894);
    NextStep(c, 61, 0xb85e2ce9, 0xb6ae8fff, 0xffb70472, 0xc062d46f,
             0x961f4894, 0xb21bad3d, 0x6d83bfc6, 0x7e44008e,
             0xa4506ceb, 0x668b2ff8, 0x04d24d6c, 0x948d25b6);
    NextStep(c, 62, 0x04d24d6c, 0xb85e2ce9, 0xb6ae8fff, 0xffb70472,
             0x948d25b6, 0x961f4894, 0xb21bad3d, 0x6d83bfc6,
             0xbef9a3f7, 0xeeaba2cc, 0xd39a2165, 0xfb121210);
    NextStep(c, 63, 0xd39a2165, 0x04d24d6c, 0xb85e2ce9, 0xb6ae8fff,
             0xfb121210, 0x948d25b6, 0x961f4894, 0xb21bad3d,
             0xc67178f2, 0x12b1edeb, 0x506e3058, 0x5ef50f24);
  }

  lemma InitialVars(c: Chunk)
    ensures Steps(INITIAL, c, 0) == Vars(0x6a09e667, 0xbb67ae85, 0x3c6ef372, 0xa54ff53a,
                                        0x510e527f, 0x9b05688c, 0x1f83d9ab, 0x5be0cd19)
  {
  }

  lemma AbcCompressed(c: Chunk)
    requires IsChunk(c)
    ensures Compress(INITIAL, c) == [0xba7816bf, 0x8f01cfea, 0x414140de, 0x5dae2223,
                                     0xb00361a3, 0x96177a9c, 0xb410ff61, 0xf20015ad]
  {
    hide Steps;
    Steps7(c);
  }

  // The digest of "abc".
  lemma AbcDigest()
    ensures Digest(ABC) == [0xba, 0x78, 0x16, 0xbf, 0x8f, 0x01, 0xcf, 0xea,
                            0x41, 0x41, 0x40, 0xde, 0x5d, 0xae, 0x22, 0x23,
                            0xb0, 0x03, 0x61, 0xa3, 0x96, 0x17, 0x7a, 0x9c,
                            0xb4, 0x10, 0xff, 0x61, 0xf2, 0x00, 0x15, 0xad]
  {
    hide Compress, Padded, INITIAL, WordByte, StateBytes, Absorbed;
    AbcPadded();
    var p := Padded(ABC);
    AbcCompressed(p);
    OneChunk(p);
    AbcOutput();
  }

  lemma OneChunk(p: Chunk)
    ensures Absorbed(p, 1) == Compress(INITIAL, p)
  {
    hide Compress;
    assert p[0..64] == p;
    assert Absorbed(p, 0) == INITIAL;
  }

  lemma AbcOutput()
    ensures StateBytes([0xba7816bf, 0x8f01cfea, 0x414140de, 0x5dae2223,
                        0xb00361a3, 0x96177a9c, 0xb410ff61, 0xf20015ad])
         == [0xba, 0x78, 0x16, 0xbf, 0x8f, 0x01, 0xcf, 0xea,
             0x41, 0x41, 0x40, 0xde, 0x5d, 0xae, 0x22, 0x23,
             0xb0, 0x03, 0x61, 0xa3, 0x96, 0x17, 0x7a, 0x9c,
             0xb4, 0x10, 0xff, 0x61, 0xf2, 0x00, 0x15, 0xad]
  {
    hide WordByte;
    Output0();
    Output1();
    Output2();
    Output3();
    Output4();
    Output5();
    Output6();
    Output7();
  }

  lemma Output0()
    ensures WordByte(0xba7816bf, 0) == 0xba && WordByte(0xba7816bf, 1) == 0x78
    ensures WordByte(0xba7816bf, 2) == 0x16 && WordByte(0xba7816bf, 3) == 0xbf
  {
  }

  lemma Output1()
    ensures WordByte(0x8f01cfea, 0) == 0x8f && WordByte(0x8f01cfea, 1) == 0x01
    ensures WordByte(0x8f01cfea, 2) == 0xcf && WordByte(0x8f01cfea, 3) == 0xea
  {
  }

  lemma Output2()
    ensures WordByte(0x414140de, 0) == 0x41 && WordByte(0x414140de, 1) == 0x41
    ensures WordByte(0x414140de, 2) == 0x40 && WordByte(0x414140de, 3) == 0xde
  {
  }

  lemma Output3()
    ensures WordByte(0x5dae2223, 0) == 0x5d && WordByte(0x5dae2223, 1) == 0xae
    ensures WordByte(0x5dae2223, 2) == 0x22 && WordByte(0x5dae2223, 3) == 0x23
  {
  }

  lemma Output4()
    ensures WordByte(0xb00361a3, 0) == 0xb0 && WordByte(0xb00361a3, 1) == 0x03
    ensures WordByte(0xb00361a3, 2) == 0x61 && WordByte(0xb00361a3, 3) == 0xa3
  {
  }

  lemma Output5()
    ensures WordByte(0x96177a9c, 0) == 0x96 && WordByte(0x96177a9c, 1) == 0x17
    ensures WordByte(0x96177a9c, 2) == 0x7a && WordByte(0x96177a9c, 3) == 0x9c
  {
  }

  lemma Output6()
    ensures WordByte(0xb410ff61, 0) == 0xb4 && WordByte(0xb410ff61, 1) == 0x10
    ensures WordByte(0xb410ff61, 2) == 0xff && WordByte(0xb410ff61, 3) == 0x61
  {
  }

  lemma Output7()
    ensures WordByte(0xf20015ad, 0) == 0xf2 && WordByte(0xf20015ad, 1) == 0x00
    ensures WordByte(0xf20015ad, 2) == 0x15 && WordByte(0xf20015ad, 3) == 0xad
  {
  }
}
