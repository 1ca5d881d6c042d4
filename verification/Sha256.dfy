// SHA-256 (FIPS 180-4 section 6.2): the digest as a function of the message, the streaming context of
// c99_client.c and the one-shot hash of main.swift, both proved to compute it.
module Sha256 {

  // ---------------------------------------------------------------- words

  function Add(x: bv32, y: bv32): bv32 { x + y }

  function Rotr(x: bv32, n: bv8): bv32
    requires 0 < n < 32
  {
    (x >> n) | (x << (32 - n))
  }

  function Ch(x: bv32, y: bv32, z: bv32): bv32 { (x & y) ^ (!x & z) }

  function Maj(x: bv32, y: bv32, z: bv32): bv32 { (x & y) ^ (x & z) ^ (y & z) }

  function Ep0(x: bv32): bv32 { Rotr(x, 2) ^ Rotr(x, 13) ^ Rotr(x, 22) }

  function Ep1(x: bv32): bv32 { Rotr(x, 6) ^ Rotr(x, 11) ^ Rotr(x, 25) }

  function Sig0(x: bv32): bv32 { Rotr(x, 7) ^ Rotr(x, 18) ^ (x >> 3) }

  function Sig1(x: bv32): bv32 { Rotr(x, 17) ^ Rotr(x, 19) ^ (x >> 10) }

  function WordOf(b0: bv8, b1: bv8, b2: bv8, b3: bv8): bv32 {
    (b0 as bv32 << 24) | (b1 as bv32 << 16) | (b2 as bv32 << 8) | b3 as bv32
  }

  function LowByte(n: nat): bv8 {
    (n % 256) as bv8
  }

  // Byte i of a word, the most significant first.
  function WordByte(v: bv32, i: nat): bv8
    requires i < 4
  {
    ((v >> (24 - 8 * i)) & 0xff) as bv8
  }

  function Sum4(a: bv32, b: bv32, c: bv32, d: bv32): bv32 { a + b + c + d }

  // The two programs add the four terms of the message schedule in opposite orders.
  lemma SumsAgree(a: bv32, b: bv32, c: bv32, d: bv32)
    ensures Sum4(d, c, b, a) == Sum4(a, b, c, d)
  {
  }

  // Eight constants of a row.
  type Octad = s: seq<bv32> | |s| == 8 witness [0, 0, 0, 0, 0, 0, 0, 0]

  function ConstantRow(row: nat): Octad
    requires row < 8
  {
    match row
    case 0 =>
      [0x428a2f98, 0x71374491, 0xb5c0fbcf, 0xe9b5dba5,
       0x3956c25b, 0x59f111f1, 0x923f82a4, 0xab1c5ed5]
    case 1 =>
      [0xd807aa98, 0x12835b01, 0x243185be, 0x550c7dc3,
       0x72be5d74, 0x80deb1fe, 0x9bdc06a7, 0xc19bf174]
    case 2 =>
      [0xe49b69c1, 0xefbe4786, 0x0fc19dc6, 0x240ca1cc,
       0x2de92c6f, 0x4a7484aa, 0x5cb0a9dc, 0x76f988da]
    case 3 =>
      [0x983e5152, 0xa831c66d, 0xb00327c8, 0xbf597fc7,
       0xc6e00bf3, 0xd5a79147, 0x06ca6351, 0x14292967]
    case 4 =>
      [0x27b70a85, 0x2e1b2138, 0x4d2c6dfc, 0x53380d13,
       0x650a7354, 0x766a0abb, 0x81c2c92e, 0x92722c85]
    case 5 =>
      [0xa2bfe8a1, 0xa81a664b, 0xc24b8b70, 0xc76c51a3,
       0xd192e819, 0xd6990624, 0xf40e3585, 0x106aa070]
    case 6 =>
      [0x19a4c116, 0x1e376c08, 0x2748774c, 0x34b0bcb5,
       0x391c0cb3, 0x4ed8aa4a, 0x5b9cca4f, 0x682e6ff3]
    case _ =>
      [0x748f82ee, 0x78a5636f, 0x84c87814, 0x8cc70208,
       0x90befffa, 0xa4506ceb, 0xbef9a3f7, 0xc67178f2]
  }

  function Constants(): (k: seq<bv32>)
    ensures |k| == 64
  {
    seq(64, t requires 0 <= t < 64 => ConstantRow(t / 8)[t % 8])
  }

  // ---------------------------------------------------------------- the compression function

  type State = s: seq<bv32> | |s| == 8 witness [0, 0, 0, 0, 0, 0, 0, 0]

  type Chunk = s: seq<bv8> | |s| == 64 witness seq(64, _ => 0)

  datatype Vars = Vars(a: bv32, b: bv32, c: bv32, d: bv32, e: bv32, f: bv32, g: bv32, h: bv32)

  function W(chunk: Chunk, t: nat): bv32
    requires t < 64
  {
    if t < 16 then WordOf(chunk[4 * t], chunk[4 * t + 1], chunk[4 * t + 2], chunk[4 * t + 3])
    else Sum4(Sig1(W(chunk, t - 2)), W(chunk, t - 7), Sig0(W(chunk, t - 15)), W(chunk, t - 16))
  }

  lemma FirstWords(chunk: Chunk, t: nat)
    requires t < 16
    ensures W(chunk, t) == WordOf(chunk[4 * t], chunk[4 * t + 1], chunk[4 * t + 2], chunk[4 * t + 3])
  {
    hide WordOf;
  }

  lemma LaterWords(chunk: Chunk, t: nat)
    requires 16 <= t < 64
    ensures W(chunk, t) == Sum4(Sig1(W(chunk, t - 2)), W(chunk, t - 7), Sig0(W(chunk, t - 15)), W(chunk, t - 16))
  {
    hide Sum4, Sig0, Sig1;
  }

  function Step(v: Vars, k: bv32, w: bv32): Vars {
    var t1 := Add(Add(Add(Add(v.h, Ep1(v.e)), Ch(v.e, v.f, v.g)), k), w);
    var t2 := Add(Ep0(v.a), Maj(v.a, v.b, v.c));
    Vars(Add(t1, t2), v.a, v.b, v.c, Add(v.d, t1), v.e, v.f, v.g)
  }

  function Steps(h: State, chunk: Chunk, t: nat): Vars
    requires t <= 64
  {
    hide Step, W, Constants;
    if t == 0 then Vars(h[0], h[1], h[2], h[3], h[4], h[5], h[6], h[7])
    else Step(Steps(h, chunk, t - 1), Constants()[t - 1], W(chunk, t - 1))
  }

  function Plus(h: State, v: Vars): State {
    [Add(h[0], v.a), Add(h[1], v.b), Add(h[2], v.c), Add(h[3], v.d),
     Add(h[4], v.e), Add(h[5], v.f), Add(h[6], v.g), Add(h[7], v.h)]
  }

  function Compress(h: State, chunk: Chunk): State {
    Plus(h, Steps(h, chunk, 64))
  }

  // ---------------------------------------------------------------- the digest of a message

  const INITIAL: State := [0x6a09e667, 0xbb67ae85, 0x3c6ef372, 0xa54ff53a,
                           0x510e527f, 0x9b05688c, 0x1f83d9ab, 0x5be0cd19]

  // The state after the first n chunks of s.
  function Absorbed(s: seq<bv8>, n: nat): State
    requires 64 * n <= |s|
  {
    hide Compress;
    if n == 0 then INITIAL else Compress(Absorbed(s, n - 1), s[64 * (n - 1)..64 * n])
  }

  function Zeros(n: nat): seq<bv8> {
    seq(n, _ => 0)
  }

  // v >> bits
  function Shr(v: nat, bits: nat): nat {
    if bits == 0 then v else Shr(v, bits - 1) / 2
  }

  // A number as eight bytes, the most significant first.
  function LengthBytes(v: nat): (s: seq<bv8>)
    ensures |s| == 8
  {
    seq(8, i requires 0 <= i < 8 => LowByte(Shr(v, 56 - 8 * i)))
  }

  // Section 5.1.1: one bit, as few zeros as lead up to eight bytes before the end of a chunk, the length in bits.
  function Filler(length: nat): (n: nat)
    ensures (length + 1 + n) % 64 == 56 && n < 64
  {
    (119 - length % 64) % 64
  }

  function Padded(msg: seq<bv8>): (s: seq<bv8>)
    ensures |s| % 64 == 0
  {
    msg + [0x80] + Zeros(Filler(|msg|)) + LengthBytes(8 * |msg|)
  }

  function StateBytes(h: State): (s: seq<bv8>)
    ensures |s| == 32
  {
    seq(32, n requires 0 <= n < 32 => WordByte(h[n / 4], n % 4))
  }

  function Digest(msg: seq<bv8>): (s: seq<bv8>)
    ensures |s| == 32
  {
    hide StateBytes, Absorbed, Padded;
    StateBytes(Absorbed(Padded(msg), |Padded(msg)| / 64))
  }

  lemma {:induction false} AbsorbsPrefix(s: seq<bv8>, more: seq<bv8>, n: nat)
    requires 64 * n <= |s|
    ensures Absorbed(s + more, n) == Absorbed(s, n)
  {
    hide Compress;
    if n > 0 {
      AbsorbsPrefix(s, more, n - 1);
      assert (s + more)[64 * (n - 1)..64 * n] == s[64 * (n - 1)..64 * n];
    }
  }

  // The last chunks, for a message that ends r bytes into a chunk.
  function LastChunk(rest: seq<bv8>, length: nat): Chunk
    requires |rest| < 56
  {
    rest + [0x80] + Zeros(55 - |rest|) + LengthBytes(8 * length)
  }

  function LateChunk(rest: seq<bv8>): Chunk
    requires 56 <= |rest| < 64
  {
    rest + [0x80] + Zeros(63 - |rest|)
  }

  function LengthChunk(length: nat): Chunk {
    Zeros(56) + LengthBytes(8 * length)
  }

  // The n bytes of a + b from place i on, when they are what is left of a and the beginning of b.
  lemma Seam(a: seq<bv8>, b: seq<bv8>, c: seq<bv8>, i: nat, n: nat)
    requires i <= |a| && |a| + |b| == i + n
    ensures (a + (b + c))[i..i + n] == a[i..] + b
    ensures (a + (b + c))[i + n..] == c
  {
  }

  lemma DigestOfShort(msg: seq<bv8>, q: nat)
    requires 64 * q <= |msg| < 64 * q + 56
    ensures Digest(msg) == StateBytes(Compress(Absorbed(msg, q), LastChunk(msg[64 * q..], |msg|)))
  {
    hide Compress, LengthBytes, StateBytes, Absorbed, Filler, Zeros;
    var r := |msg| - 64 * q;
    FillerAt(|msg|, q, r);
    var tail := [0x80] + Zeros(55 - r) + LengthBytes(8 * |msg|);
    PaddedIs(msg, 55 - r);
    AbsorbsPrefix(msg, tail, q);
    Seam(msg, tail, [], 64 * q, 64);
    assert tail + [] == tail;
    assert msg[64 * q..] + tail == LastChunk(msg[64 * q..], |msg|);
    NextChunk(msg + tail, q);
  }

  lemma FillerAt(length: nat, q: nat, r: nat)
    requires length == 64 * q + r && r < 64
    ensures Filler(length) == if r < 56 then 55 - r else 119 - r
  {
  }

  lemma PaddedIs(msg: seq<bv8>, n: nat)
    requires Filler(|msg|) == n
    ensures |Zeros(n)| == n
    ensures Padded(msg) == msg + ([0x80] + Zeros(n) + LengthBytes(8 * |msg|))
  {
    hide Filler, LengthBytes;
  }

  lemma NextChunk(s: seq<bv8>, q: nat)
    requires 64 * q + 64 <= |s|
    ensures Absorbed(s, q + 1) == Compress(Absorbed(s, q), s[64 * q..64 * q + 64])
  {
    hide Compress;
  }

  lemma DigestOfLong(msg: seq<bv8>, q: nat)
    requires 64 * q + 56 <= |msg| < 64 * q + 64
    ensures Digest(msg)
         == StateBytes(Compress(Compress(Absorbed(msg, q), LateChunk(msg[64 * q..])), LengthChunk(|msg|)))
  {
    hide Compress, LengthBytes, StateBytes, Absorbed, Filler, Zeros;
    var r := |msg| - 64 * q;
    FillerAt(|msg|, q, r);
    var first, second := [0x80] + Zeros(63 - r), Zeros(56) + LengthBytes(8 * |msg|);
    PaddedIs(msg, 119 - r);
    ZerosSplit(63 - r, 56);
    assert [0x80] + Zeros(119 - r) + LengthBytes(8 * |msg|) == first + second;
    AbsorbsPrefix(msg, first + second, q);
    Seam(msg, first, second, 64 * q, 64);
    var all := msg + (first + second);
    assert msg[64 * q..] + first == LateChunk(msg[64 * q..]);
    assert all[64 * (q + 1)..64 * (q + 1) + 64] == all[64 * q + 64..] == LengthChunk(|msg|);
    NextChunk(all, q);
    NextChunk(all, q + 1);
  }

  lemma ZerosSplit(m: nat, n: nat)
    ensures |Zeros(m)| == m && |Zeros(n)| == n && Zeros(m + n) == Zeros(m) + Zeros(n)
  {
  }

  // ---------------------------------------------------------------- the streaming context

  class Context {
    const data: array<bv8>
    var datalen: nat
    var bitlen: nat
    const state: array<bv32>

    ghost predicate Valid()
      reads this
    {
      data.Length == 64 && state.Length == 8 && datalen <= 64
    }

    // The bytes of msg went in, q chunks of them through the compression function.
    ghost predicate HoldsAt(msg: seq<bv8>, q: nat)
      reads this, data, state
    {
      && Valid()
      && datalen < 64
      && |msg| == 64 * q + datalen
      && bitlen == 512 * q
      && state[..] == Absorbed(msg, q)
      && data[..datalen] == msg[64 * q..]
    }

    ghost predicate Holds(msg: seq<bv8>)
      reads this, data, state
    {
      exists q: nat :: HoldsAt(msg, q)
    }

    constructor ()
      ensures Valid() && fresh(data) && fresh(state)
    {
      data := new bv8[64];
      datalen := 0;
      bitlen := 0;
      state := new bv32[8];
    }

    // sha256_init
    method Init()
      requires Valid()
      modifies this, state
      ensures Holds([])
    {
      datalen := 0;
      bitlen := 0;
      SetState(INITIAL);
      assert HoldsAt([], 0);
    }

    // sha256_transform
    method Transform()
      requires Valid()
      modifies state
      ensures state[..] == Compress(old(state[..]), data[..])
    {
      hide Step, W, Constants, Add;
      ghost var before := state[..];
      ghost var chunk := data[..];
      var m := MessageSchedule();
      ghost var words := m[..];
      var a, b, c, d, e, f, g, h := state[0], state[1], state[2], state[3], state[4], state[5], state[6], state[7];
      for i := 0 to 64
        invariant Vars(a, b, c, d, e, f, g, h) == Steps(before, chunk, i)
        invariant state[..] == before && m[..] == words
      {
        var t1 := Add(Add(Add(Add(h, Ep1(e)), Ch(e, f, g)), Constants()[i]), m[i]);
        var t2 := Add(Ep0(a), Maj(a, b, c));
        StepIs(Vars(a, b, c, d, e, f, g, h), Constants()[i], m[i]);
        assert words[i] == W(chunk, i);
        h := g;
        g := f;
        f := e;
        e := Add(d, t1);
        d := c;
        c := b;
        b := a;
        a := Add(t1, t2);
      }
      SetState([Add(state[0], a), Add(state[1], b), Add(state[2], c), Add(state[3], d),
                Add(state[4], e), Add(state[5], f), Add(state[6], g), Add(state[7], h)]);
    }

    method SetState(h: State)
      requires Valid()
      modifies state
      ensures state[..] == h
    {
      state[0] := h[0];
      state[1] := h[1];
      state[2] := h[2];
      state[3] := h[3];
      state[4] := h[4];
      state[5] := h[5];
      state[6] := h[6];
      state[7] := h[7];
    }

    method MessageSchedule() returns (m: array<bv32>)
      requires Valid()
      ensures fresh(m) && m.Length == 64
      ensures forall t :: 0 <= t < 64 ==> m[t] == W(data[..], t)
    {
      hide W, WordOf, Sig0, Sig1, Sum4;
      m := new bv32[64];
      var j := 0;
      for i := 0 to 16
        invariant j == 4 * i
        invariant forall t :: 0 <= t < i ==> m[t] == W(data[..], t)
      {
        FirstWords(data[..], i);
        m[i] := WordOf(data[j], data[j + 1], data[j + 2], data[j + 3]);
        j := j + 4;
      }
      for i := 16 to 64
        invariant forall t :: 0 <= t < i ==> m[t] == W(data[..], t)
      {
        LaterWords(data[..], i);
        m[i] := Sum4(Sig1(m[i - 2]), m[i - 7], Sig0(m[i - 15]), m[i - 16]);
      }
    }

    // sha256_update
    method Update(input: seq<bv8>, ghost msg: seq<bv8>)
      requires Holds(msg) && |input| < 0x1_0000_0000 && |msg| + |input| < 0x2000_0000_0000_0000
      modifies this, data, state
      ensures Holds(msg + input)
    {
      hide Compress, Absorbed;
      ghost var q: nat :| HoldsAt(msg, q);
      assert msg + input[..0] == msg;
      for i := 0 to |input|
        invariant HoldsAt(msg + input[..i], q)
      {
        q := PutByte(input[i], msg + input[..i], q);
        assert msg + input[..i] + [input[i]] == msg + input[..i + 1];
      }
      assert input[..|input|] == input;
    }

    method PutByte(byte: bv8, ghost msg: seq<bv8>, ghost q: nat) returns (ghost chunks: nat)
      requires HoldsAt(msg, q) && |msg| + 1 < 0x2000_0000_0000_0000
      modifies this, data, state
      ensures HoldsAt(msg + [byte], chunks)
    {
      hide Compress;
      ghost var now := msg + [byte];
      chunks := q;
      AbsorbsPrefix(msg, [byte], q);
      data[datalen] := byte;
      datalen := datalen + 1;
      assert data[..datalen] == now[64 * q..];
      if datalen == 64 {
        assert data[..] == now[64 * q..64 * (q + 1)];
        Transform();
        bitlen := (bitlen + 512) % 0x1_0000_0000_0000_0000;
        datalen := 0;
        chunks := q + 1;
      }
    }

    // sha256_final
    method Final(hash: array<bv8>, ghost msg: seq<bv8>)
      requires Holds(msg) && |msg| < 0x2000_0000_0000_0000
      requires hash.Length == 32 && hash != data
      modifies this, data, state, hash
      ensures hash[..] == Digest(msg)
    {
      hide Compress, Absorbed, LengthBytes, Digest, StateBytes;
      ghost var q: nat :| HoldsAt(msg, q);
      ghost var rest := data[..datalen];
      var i := datalen;
      data[i] := 0x80;
      i := i + 1;
      if datalen < 56 {
        ClearTo(i, 56);
        DigestOfShort(msg, q);
      } else {
        ClearTo(i, 64);
        assert data[..] == LateChunk(rest);
        Transform();
        ClearTo(0, 56);
        DigestOfLong(msg, q);
      }
      bitlen := (bitlen + datalen * 8) % 0x1_0000_0000_0000_0000;
      PutLength();
      assert datalen < 56 ==> data[..] == LastChunk(rest, |msg|);
      assert datalen >= 56 ==> data[..] == LengthChunk(|msg|);
      Transform();
      CopyOut(hash);
    }

    // Zeros from place i up to n.
    method ClearTo(start: nat, n: nat)
      requires Valid() && start <= n <= 64
      modifies data
      ensures data[..] == old(data[..start]) + Zeros(n - start) + old(data[n..])
    {
      var i := start;
      while i < n
        invariant start <= i <= n
        invariant forall j :: 0 <= j < 64 ==> data[j] == if start <= j < i then 0 else old(data[j])
      {
        data[i] := 0x00;
        i := i + 1;
      }
    }

    method PutLength()
      requires Valid()
      modifies data
      ensures data[..] == old(data[..56]) + LengthBytes(bitlen)
    {
      hide LowByte, Shr;
      data[63], data[62], data[61], data[60] :=
        LowByte(Shr(bitlen, 0)), LowByte(Shr(bitlen, 8)), LowByte(Shr(bitlen, 16)), LowByte(Shr(bitlen, 24));
      data[59], data[58], data[57], data[56] :=
        LowByte(Shr(bitlen, 32)), LowByte(Shr(bitlen, 40)), LowByte(Shr(bitlen, 48)), LowByte(Shr(bitlen, 56));
    }

    method CopyOut(hash: array<bv8>)
      requires Valid() && hash.Length == 32
      modifies hash
      ensures hash[..] == StateBytes(state[..])
    {
      hide WordByte;
      for i := 0 to 4
        invariant forall k: nat, j: nat :: k < 8 && j < i ==> Cell(hash[..], k, j) == WordByte(state[k], j)
      {
        CopyFour(hash, i, 0);
        CopyFour(hash, i, 4);
      }
      AllCells(hash[..], state[..]);
    }

    // Byte i of the four words from k on.
    method CopyFour(hash: array<bv8>, i: nat, k: nat)
      requires Valid() && hash.Length == 32 && i < 4 && k <= 4
      modifies hash
      ensures forall m: nat, j: nat :: m < 8 && j < 4 && !(j == i && k <= m < k + 4) ==>
                Cell(hash[..], m, j) == old(Cell(hash[..], m, j))
      ensures forall m: nat :: k <= m < k + 4 ==> Cell(hash[..], m, i) == WordByte(state[m], i)
    {
      hide WordByte, Cell;
      var a, b, c, d := WordByte(state[k], i), WordByte(state[k + 1], i), WordByte(state[k + 2], i),
                        WordByte(state[k + 3], i);
      ghost var was := hash[..];
      hash[4 * k + i] := a;
      hash[4 * k + i + 4] := b;
      hash[4 * k + i + 8] := c;
      hash[4 * k + i + 12] := d;
      assert hash[..] == was[4 * k + i := a][4 * k + i + 4 := b][4 * k + i + 8 := c][4 * k + i + 12 := d];
      FourCells(was, i, k, a, b, c, d);
    }
  }

  // Byte j of word k.
  function Cell(s: seq<bv8>, k: nat, j: nat): bv8
    requires |s| == 32 && k < 8 && j < 4
  {
    s[4 * k + j]
  }

  lemma FourCells(s: seq<bv8>, i: nat, k: nat, a: bv8, b: bv8, c: bv8, d: bv8)
    requires |s| == 32 && i < 4 && k <= 4
    ensures var t := s[4 * k + i := a][4 * k + i + 4 := b][4 * k + i + 8 := c][4 * k + i + 12 := d];
            && (forall m: nat, j: nat :: m < 8 && j < 4 && !(j == i && k <= m < k + 4) ==>
                  Cell(t, m, j) == Cell(s, m, j))
            && Cell(t, k, i) == a && Cell(t, k + 1, i) == b && Cell(t, k + 2, i) == c && Cell(t, k + 3, i) == d
  {
  }

  lemma AllCells(s: seq<bv8>, h: State)
    requires |s| == 32
    requires forall k: nat, j: nat :: k < 8 && j < 4 ==> Cell(s, k, j) == WordByte(h[k], j)
    ensures s == StateBytes(h)
  {
    hide WordByte;
    forall n | 0 <= n < 32 ensures s[n] == StateBytes(h)[n] {
      assert s[n] == Cell(s, n / 4, n % 4);
    }
  }

  lemma StepIs(v: Vars, k: bv32, w: bv32)
    ensures var t1 := Add(Add(Add(Add(v.h, Ep1(v.e)), Ch(v.e, v.f, v.g)), k), w);
            var t2 := Add(Ep0(v.a), Maj(v.a, v.b, v.c));
            Step(v, k, w) == Vars(Add(t1, t2), v.a, v.b, v.c, Add(v.d, t1), v.e, v.f, v.g)
  {
    hide Add, Ep0, Ep1, Ch, Maj;
  }

  // ---------------------------------------------------------------- the one-shot hash

  lemma FillerIsLeast(length: nat, n: nat)
    requires n <= Filler(length)
    ensures (length + 1 + n) % 64 == 56 <==> n == Filler(length)
  {
  }

  method Pad(input: seq<bv8>) returns (msg: seq<bv8>)
    requires |input| < 0x2000_0000_0000_0000
    ensures msg == Padded(input)
  {
    hide LowByte, Shr, Filler;
    msg := input;
    var originalLength := |msg|;
    msg := msg + [0x80];
    ghost var n: nat := 0;
    FillerIsLeast(|input|, 0);
    while |msg| % 64 != 56
      invariant n <= Filler(|input|) && msg == input + [0x80] + Zeros(n)
      decreases Filler(|input|) - n
    {
      FillerIsLeast(|input|, n);
      msg := msg + [0x00];
      n := n + 1;
    }
    FillerIsLeast(|input|, n);
    var bitLength := originalLength * 8;
    ghost var front := msg;
    var i: int := 56;
    while i >= 0
      invariant -8 <= i <= 56 && i % 8 == 0
      invariant msg == front + LengthBytes(8 * |input|)[..7 - i / 8]
    {
      msg := msg + [LowByte(Shr(bitLength, i))];
      i := i - 8;
    }
    assert LengthBytes(8 * |input|)[..8] == LengthBytes(8 * |input|);
  }

  method CompressChunk(before: State, msg: seq<bv8>, chunkStart: nat) returns (h: State)
    requires chunkStart + 64 <= |msg|
    ensures h == Compress(before, msg[chunkStart..chunkStart + 64])
  {
    hide Step, W, Constants, Add;
    h := before;
    ghost var chunk := msg[chunkStart..chunkStart + 64];
    var w := Extend(msg, chunkStart);
    var a, b, c, d := h[0], h[1], h[2], h[3];
    var e, f, g, hh := h[4], h[5], h[6], h[7];
    for i := 0 to 64
      invariant Vars(a, b, c, d, e, f, g, hh) == Steps(before, chunk, i)
    {
      var bigS1 := Ep1(e);
      var ch := Ch(e, f, g);
      var temp1 := Add(Add(Add(Add(hh, bigS1), ch), Constants()[i]), w[i]);
      var bigS0 := Ep0(a);
      var maj := Maj(a, b, c);
      var temp2 := Add(bigS0, maj);
      StepIs(Vars(a, b, c, d, e, f, g, hh), Constants()[i], w[i]);
      hh := g;
      g := f;
      f := e;
      e := Add(d, temp1);
      d := c;
      c := b;
      b := a;
      a := Add(temp1, temp2);
    }
    h := [Add(h[0], a), Add(h[1], b), Add(h[2], c), Add(h[3], d),
          Add(h[4], e), Add(h[5], f), Add(h[6], g), Add(h[7], hh)];
  }

  method Extend(msg: seq<bv8>, chunkStart: nat) returns (words: seq<bv32>)
    requires chunkStart + 64 <= |msg|
    ensures |words| == 64
    ensures forall t :: 0 <= t < 64 ==> words[t] == W(msg[chunkStart..chunkStart + 64], t)
  {
    hide W, WordOf, Sig0, Sig1, Sum4;
    ghost var chunk := msg[chunkStart..chunkStart + 64];
    var w: array<bv32> := new bv32[64](_ => 0);
    for i := 0 to 16
      invariant forall t :: 0 <= t < i ==> w[t] == W(chunk, t)
    {
      var offset := chunkStart + i * 4;
      FirstWords(chunk, i);
      w[i] := WordOf(msg[offset], msg[offset + 1], msg[offset + 2], msg[offset + 3]);
    }
    for i := 16 to 64
      invariant forall t :: 0 <= t < i ==> w[t] == W(chunk, t)
    {
      var s0 := Sig0(w[i - 15]);
      var s1 := Sig1(w[i - 2]);
      SumsAgree(s1, w[i - 7], s0, w[i - 16]);
      LaterWords(chunk, i);
      w[i] := Sum4(w[i - 16], s0, w[i - 7], s1);
    }
    words := w[..];
  }

  // sha256
  method OneShot(input: seq<bv8>) returns (result: seq<bv8>)
    requires |input| < 0x2000_0000_0000_0000
    ensures result == Digest(input)
  {
    hide Compress, Padded, WordByte;
    var h: State := INITIAL;
    var msg := Pad(input);
    var chunkStart := 0;
    ghost var n: nat := 0;
    while chunkStart < |msg|
      invariant chunkStart == 64 * n <= |msg|
      invariant h == Absorbed(msg, n)
    {
      h := CompressChunk(h, msg, chunkStart);
      NextChunk(msg, n);
      chunkStart := chunkStart + 64;
      n := n + 1;
    }
    result := Output(h);
  }

  method Output(h: State) returns (result: seq<bv8>)
    ensures result == StateBytes(h)
  {
    hide WordByte;
    result := [];
    for k := 0 to 8
      invariant |result| == 4 * k
      invariant forall n :: 0 <= n < 4 * k ==> result[n] == WordByte(h[n / 4], n % 4)
    {
      var v := h[k];
      result := result + [WordByte(v, 0)];
      result := result + [WordByte(v, 1)];
      result := result + [WordByte(v, 2)];
      result := result + [WordByte(v, 3)];
    }
  }

  // ---------------------------------------------------------------- any split of the message

  function Joined(chunks: seq<seq<bv8>>): seq<bv8> {
    if chunks == [] then [] else Joined(chunks[..|chunks| - 1]) + chunks[|chunks| - 1]
  }

  lemma {:induction false} JoinedGrows(chunks: seq<seq<bv8>>, n: nat)
    requires n <= |chunks|
    ensures |Joined(chunks[..n])| <= |Joined(chunks)|
  {
    if n < |chunks| {
      var front := chunks[..|chunks| - 1];
      JoinedGrows(front, n);
      assert front[..n] == chunks[..n];
    } else {
      assert chunks[..n] == chunks;
    }
  }

  // However the message is cut into updates, the context ends with the digest the one-shot hash gives.
  method Stream(chunks: seq<seq<bv8>>) returns (hash: seq<bv8>, once: seq<bv8>)
    requires forall i :: 0 <= i < |chunks| ==> |chunks[i]| < 0x1_0000_0000
    requires |Joined(chunks)| < 0x2000_0000_0000_0000
    ensures hash == once == Digest(Joined(chunks))
  {
    hide Digest, Absorbed, Compress, Padded;
    var ctx := new Context();
    ctx.Init();
    for i := 0 to |chunks|
      invariant ctx.Holds(Joined(chunks[..i])) && fresh(ctx) && fresh(ctx.data) && fresh(ctx.state)
    {
      JoinedGrows(chunks, i + 1);
      assert chunks[..i + 1][..i] == chunks[..i] && chunks[..i + 1][i] == chunks[i];
      ctx.Update(chunks[i], Joined(chunks[..i]));
    }
    assert chunks[..|chunks|] == chunks;
    var out := new bv8[32];
    ctx.Final(out, Joined(chunks));
    hash := out[..];
    once := OneShot(Joined(chunks));
  }
}
