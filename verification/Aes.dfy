// The AES-128 block cipher of CMSCLI.swift: the rounds of FIPS 197 sections 5.1 to 5.3 on the state array,
// and the proof that each direction undoes the other.
module Aes {
  import opened Bitwise
  import opened Galois
  import opened Sbox

  type Block = s: seq<bv8> | |s| == 16 witness seq(16, _ => 0)

  // ---------------------------------------------------------------- the steps of a round

  function AddKey(s: Block, key: Block): Block {
    seq(16, i requires 0 <= i < 16 => Xor(s[i], key[i]))
  }

  function SubBytes(s: Block): Block {
    seq(16, i requires 0 <= i < 16 => Sub(s[i]))
  }

  function InvSubBytes(s: Block): Block {
    seq(16, i requires 0 <= i < 16 => InvSub(s[i]))
  }

  // The byte in row r and column c of the state is number r + 4c; these are r columns further right and left.
  function Right(i: nat): (k: nat)
    requires i < 16
    ensures k < 16
  {
    var r, c := i % 4, i / 4;
    r + 4 * ((c + r) % 4)
  }

  function Left(i: nat): (k: nat)
    requires i < 16
    ensures k < 16
  {
    var r, c := i % 4, i / 4;
    r + 4 * ((c + 4 - r) % 4)
  }

  // Row r moves r columns to the left.
  function ShiftRows(s: Block): Block {
    seq(16, i requires 0 <= i < 16 => s[Right(i)])
  }

  function InvShiftRows(s: Block): Block {
    seq(16, i requires 0 <= i < 16 => s[Left(i)])
  }

  function ColumnAt(s: Block, c: nat): Column
    requires c < 4
  {
    Column(s[4 * c], s[4 * c + 1], s[4 * c + 2], s[4 * c + 3])
  }

  function Bytes(c: Column): (s: seq<bv8>)
    ensures |s| == 4
  {
    [c.b0, c.b1, c.b2, c.b3]
  }

  function MixAll(m: Column, s: Block): Block {
    Bytes(Mix(m, ColumnAt(s, 0))) + Bytes(Mix(m, ColumnAt(s, 1)))
    + Bytes(Mix(m, ColumnAt(s, 2))) + Bytes(Mix(m, ColumnAt(s, 3)))
  }

  // ---------------------------------------------------------------- every step has an inverse

  lemma AddKeyInverts(s: Block, key: Block)
    ensures AddKey(AddKey(s, key), key) == s
  {
    hide Xor;
    forall i | 0 <= i < 16 ensures AddKey(AddKey(s, key), key)[i] == s[i] {
      XorMoves(s[i], key[i], key[i]);
      SelfCancels(key[i]);
      NothingAdded(s[i]);
    }
  }

  lemma SubBytesInverts(s: Block)
    ensures InvSubBytes(SubBytes(s)) == s && SubBytes(InvSubBytes(s)) == s
  {
    hide Sub, InvSub;
    forall i | 0 <= i < 16 ensures InvSubBytes(SubBytes(s))[i] == s[i] && SubBytes(InvSubBytes(s))[i] == s[i] {
      SubInverse(s[i]);
      InvSubInverse(s[i]);
    }
  }

  lemma ColumnsMeet(i: nat)
    requires i < 16
    ensures Right(Left(i)) == i && Left(Right(i)) == i
  {
    hide Left, Right;
    var r, c := i % 4, i / 4;
    Place(r, c);
    Place(r, (c + r) % 4);
    Place(r, (c + 4 - r) % 4);
    TurnsBack(r, c);
  }

  lemma Place(r: nat, c: nat)
    requires r < 4 && c < 4
    ensures (r + 4 * c) % 4 == r && (r + 4 * c) / 4 == c
    ensures Right(r + 4 * c) == r + 4 * ((c + r) % 4)
    ensures Left(r + 4 * c) == r + 4 * ((c + 4 - r) % 4)
  {
    assert (r + 4 * c) / 4 == c;
  }

  lemma TurnsBack(r: nat, c: nat)
    requires r < 4 && c < 4
    ensures ((c + r) % 4 + 4 - r) % 4 == c && ((c + 4 - r) % 4 + r) % 4 == c
  {
    if r == 0 {} else if r == 1 {} else if r == 2 {} else {}
  }

  lemma ShiftRowsInverts(s: Block)
    ensures InvShiftRows(ShiftRows(s)) == s && ShiftRows(InvShiftRows(s)) == s
  {
    hide Left, Right;
    forall i | 0 <= i < 16 ensures InvShiftRows(ShiftRows(s))[i] == s[i] && ShiftRows(InvShiftRows(s))[i] == s[i] {
      ColumnsMeet(i);
    }
  }

  lemma MixAllInverts(s: Block)
    ensures MixAll(UNMIX, MixAll(MIX, s)) == s && MixAll(MIX, MixAll(UNMIX, s)) == s
  {
    hide Mix;
    MixedColumns(MIX, s);
    MixedColumns(UNMIX, s);
    MixingInverts(ColumnAt(s, 0));
    MixingInverts(ColumnAt(s, 1));
    MixingInverts(ColumnAt(s, 2));
    MixingInverts(ColumnAt(s, 3));
    FourColumns(s);
  }

  lemma MixedColumns(m: Column, s: Block)
    ensures forall c: nat :: c < 4 ==> ColumnAt(MixAll(m, s), c) == Mix(m, ColumnAt(s, c))
  {
    hide Mix;
  }

  lemma FourColumns(s: Block)
    ensures s == Bytes(ColumnAt(s, 0)) + Bytes(ColumnAt(s, 1)) + Bytes(ColumnAt(s, 2)) + Bytes(ColumnAt(s, 3))
  {
  }

  // ---------------------------------------------------------------- the cipher

  const ZERO: Block := seq(16, _ => 0)

  // One round key before the first round and one after each of the ten.
  type Schedule = k: seq<Block> | |k| == 11 witness seq(11, _ => ZERO)

  function Round(s: Block, key: Block): Block {
    AddKey(MixAll(MIX, ShiftRows(SubBytes(s))), key)
  }

  function InvRound(s: Block, key: Block): Block {
    MixAll(UNMIX, AddKey(InvSubBytes(InvShiftRows(s)), key))
  }

  // The state after the first n rounds.
  function Rounds(keys: Schedule, block: Block, n: nat): Block
    requires n <= 9
  {
    if n == 0 then AddKey(block, keys[0])
    else Round(Rounds(keys, block, n - 1), keys[n])
  }

  function Encrypted(keys: Schedule, block: Block): Block {
    AddKey(ShiftRows(SubBytes(Rounds(keys, block, 9))), keys[10])
  }

  // Rounds n down to 1 of the other direction.
  function Unwound(keys: Schedule, s: Block, n: nat): Block
    requires n <= 9
    decreases n
  {
    if n == 0 then s else Unwound(keys, InvRound(s, keys[n]), n - 1)
  }

  function Decrypted(keys: Schedule, block: Block): Block {
    AddKey(InvSubBytes(InvShiftRows(Unwound(keys, AddKey(block, keys[10]), 9))), keys[0])
  }

  lemma {:induction false} UnwindsRounds(keys: Schedule, block: Block, n: nat)
    requires n <= 9
    ensures Unwound(keys, ShiftRows(SubBytes(Rounds(keys, block, n))), n) == ShiftRows(SubBytes(AddKey(block, keys[0])))
  {
    hide AddKey, MixAll, ShiftRows, SubBytes, InvShiftRows, InvSubBytes;
    if n > 0 {
      var before := ShiftRows(SubBytes(Rounds(keys, block, n - 1)));
      ShiftRowsInverts(SubBytes(Rounds(keys, block, n)));
      SubBytesInverts(Rounds(keys, block, n));
      AddKeyInverts(MixAll(MIX, before), keys[n]);
      MixAllInverts(before);
      UnwindsRounds(keys, block, n - 1);
    }
  }

  lemma {:induction false} RoundsRewind(keys: Schedule, s: Block, n: nat)
    requires n <= 9
    ensures var block := AddKey(InvSubBytes(InvShiftRows(Unwound(keys, s, n))), keys[0]);
            ShiftRows(SubBytes(Rounds(keys, block, n))) == s
    decreases n
  {
    hide AddKey, MixAll, ShiftRows, SubBytes, InvShiftRows, InvSubBytes;
    ShiftRowsInverts(s);
    SubBytesInverts(InvShiftRows(s));
    if n == 0 {
      AddKeyInverts(InvSubBytes(InvShiftRows(s)), keys[0]);
    } else {
      var bare := AddKey(InvSubBytes(InvShiftRows(s)), keys[n]);
      AddKeyInverts(InvSubBytes(InvShiftRows(s)), keys[n]);
      MixAllInverts(bare);
      RoundsRewind(keys, MixAll(UNMIX, bare), n - 1);
    }
  }

  // Under every schedule both directions are permutations of the blocks, and each other's inverse.
  lemma BlockInversion(keys: Schedule, block: Block)
    ensures Decrypted(keys, Encrypted(keys, block)) == block
    ensures Encrypted(keys, Decrypted(keys, block)) == block
  {
    hide AddKey, MixAll, ShiftRows, SubBytes, InvShiftRows, InvSubBytes, Rounds, Unwound;
    var last := ShiftRows(SubBytes(Rounds(keys, block, 9)));
    AddKeyInverts(last, keys[10]);
    UnwindsRounds(keys, block, 9);
    ShiftRowsInverts(SubBytes(AddKey(block, keys[0])));
    SubBytesInverts(AddKey(block, keys[0]));
    AddKeyInverts(block, keys[0]);
    RoundsRewind(keys, AddKey(block, keys[10]), 9);
    AddKeyInverts(block, keys[10]);
  }

  // ---------------------------------------------------------------- the steps in place

  method AddRoundKey(state: array<bv8>, roundKey: Block)
    requires state.Length == 16
    modifies state
    ensures state[..] == AddKey(old(state[..]), roundKey)
  {
    for i := 0 to 16
      invariant forall j :: i <= j < 16 ==> state[j] == old(state[j])
      invariant forall j :: 0 <= j < i ==> state[j] == Xor(old(state[j]), roundKey[j])
    {
      state[i] := state[i] ^ roundKey[i];
    }
  }

  method SubstituteBytes(state: array<bv8>)
    requires state.Length == 16
    modifies state
    ensures state[..] == SubBytes(old(state[..]))
  {
    hide Sub;
    for i := 0 to 16
      invariant forall j :: i <= j < 16 ==> state[j] == old(state[j])
      invariant forall j :: 0 <= j < i ==> state[j] == Sub(old(state[j]))
    {
      state[i] := Sub(state[i]);
    }
  }

  method InvSubstituteBytes(state: array<bv8>)
    requires state.Length == 16
    modifies state
    ensures state[..] == InvSubBytes(old(state[..]))
  {
    hide InvSub;
    for i := 0 to 16
      invariant forall j :: i <= j < 16 ==> state[j] == old(state[j])
      invariant forall j :: 0 <= j < i ==> state[j] == InvSub(old(state[j]))
    {
      state[i] := InvSub(state[i]);
    }
  }

  method Store(state: array<bv8>, block: Block)
    requires state.Length == 16
    modifies state
    ensures state[..] == block
  {
    for i := 0 to 16
      invariant forall j :: 0 <= j < i ==> state[j] == block[j]
    {
      state[i] := block[i];
    }
  }

  // The moves as the code lists them.
  lemma Moves()
    ensures Right(0) == 0 && Right(1) == 5 && Right(2) == 10 && Right(3) == 15
    ensures Right(4) == 4 && Right(5) == 9 && Right(6) == 14 && Right(7) == 3
    ensures Right(8) == 8 && Right(9) == 13 && Right(10) == 2 && Right(11) == 7
    ensures Right(12) == 12 && Right(13) == 1 && Right(14) == 6 && Right(15) == 11
    ensures Left(0) == 0 && Left(1) == 13 && Left(2) == 10 && Left(3) == 7
    ensures Left(4) == 4 && Left(5) == 1 && Left(6) == 14 && Left(7) == 11
    ensures Left(8) == 8 && Left(9) == 5 && Left(10) == 2 && Left(11) == 15
    ensures Left(12) == 12 && Left(13) == 9 && Left(14) == 6 && Left(15) == 3
  {
  }

  method RotateRows(state: array<bv8>)
    requires state.Length == 16
    modifies state
    ensures state[..] == ShiftRows(old(state[..]))
  {
    hide Left, Right;
    var tmp := [state[0], state[5], state[10], state[15],
                state[4], state[9], state[14], state[3],
                state[8], state[13], state[2], state[7],
                state[12], state[1], state[6], state[11]];
    Store(state, tmp);
    Moves();
    assert tmp == ShiftRows(old(state[..]));
  }

  method InvRotateRows(state: array<bv8>)
    requires state.Length == 16
    modifies state
    ensures state[..] == InvShiftRows(old(state[..]))
  {
    hide Left, Right;
    var tmp := [state[0], state[13], state[10], state[7],
                state[4], state[1], state[14], state[11],
                state[8], state[5], state[2], state[15],
                state[12], state[9], state[6], state[3]];
    Store(state, tmp);
    Moves();
    assert tmp == InvShiftRows(old(state[..]));
  }

  lemma ColumnsMixed(m: Column, s: Block, t: Block)
    requires forall c: nat :: c < 4 ==> ColumnAt(t, c) == Mix(m, ColumnAt(s, c))
    ensures t == MixAll(m, s)
  {
    hide Mix;
    FourColumns(t);
  }

  // Four terms added from the left.
  function Sum(w: bv8, x: bv8, y: bv8, z: bv8): bv8 {
    w ^ x ^ y ^ z
  }

  // The sums as the code writes them.
  lemma MixSums(a: Column)
    ensures var m := Mix(MIX, a);
            && m.b0 == Sum(Mul(2, a.b0), Mul(3, a.b1), a.b2, a.b3)
            && m.b1 == Sum(a.b0, Mul(2, a.b1), Mul(3, a.b2), a.b3)
            && m.b2 == Sum(a.b0, a.b1, Mul(2, a.b2), Mul(3, a.b3))
            && m.b3 == Sum(Mul(3, a.b0), a.b1, a.b2, Mul(2, a.b3))
  {
    hide Mul, Xor4, Sum;
    TimesZeroLeft(a.b0);
    TimesZeroLeft(a.b1);
    TimesZeroLeft(a.b2);
    TimesZeroLeft(a.b3);
    PlainSum(Mul(2, a.b0), Mul(3, a.b1), a.b2, a.b3);
    PlainSum(a.b0, Mul(2, a.b1), Mul(3, a.b2), a.b3);
    PlainSum(a.b0, a.b1, Mul(2, a.b2), Mul(3, a.b3));
    PlainSum(Mul(3, a.b0), a.b1, a.b2, Mul(2, a.b3));
  }

  lemma UnmixSums(a: Column)
    ensures var m := Mix(UNMIX, a);
            && m.b0 == Sum(Mul(0x0e, a.b0), Mul(0x0b, a.b1), Mul(0x0d, a.b2), Mul(0x09, a.b3))
            && m.b1 == Sum(Mul(0x09, a.b0), Mul(0x0e, a.b1), Mul(0x0b, a.b2), Mul(0x0d, a.b3))
            && m.b2 == Sum(Mul(0x0d, a.b0), Mul(0x09, a.b1), Mul(0x0e, a.b2), Mul(0x0b, a.b3))
            && m.b3 == Sum(Mul(0x0b, a.b0), Mul(0x0d, a.b1), Mul(0x09, a.b2), Mul(0x0e, a.b3))
  {
    hide Mul, Xor4, Sum;
    PlainSum(Mul(0x0e, a.b0), Mul(0x0b, a.b1), Mul(0x0d, a.b2), Mul(0x09, a.b3));
    PlainSum(Mul(0x09, a.b0), Mul(0x0e, a.b1), Mul(0x0b, a.b2), Mul(0x0d, a.b3));
    PlainSum(Mul(0x0d, a.b0), Mul(0x09, a.b1), Mul(0x0e, a.b2), Mul(0x0b, a.b3));
    PlainSum(Mul(0x0b, a.b0), Mul(0x0d, a.b1), Mul(0x09, a.b2), Mul(0x0e, a.b3));
  }

  lemma PlainSum(w: bv8, x: bv8, y: bv8, z: bv8)
    ensures Xor4(w, x, y, z) == Sum(w, x, y, z)
  {
  }

  method MixColumn(a0: bv8, a1: bv8, a2: bv8, a3: bv8) returns (s0: bv8, s1: bv8, s2: bv8, s3: bv8)
    ensures Column(s0, s1, s2, s3) == Mix(MIX, Column(a0, a1, a2, a3))
  {
    hide Mix, Mul, Sum;
    MixSums(Column(a0, a1, a2, a3));
    var two0 := GmulEnc(0x02, a0);
    var two1 := GmulEnc(0x02, a1);
    var two2 := GmulEnc(0x02, a2);
    var two3 := GmulEnc(0x02, a3);
    var three0 := GmulEnc(0x03, a0);
    var three1 := GmulEnc(0x03, a1);
    var three2 := GmulEnc(0x03, a2);
    var three3 := GmulEnc(0x03, a3);
    s0 := Sum(two0, three1, a2, a3);
    s1 := Sum(a0, two1, three2, a3);
    s2 := Sum(a0, a1, two2, three3);
    s3 := Sum(three0, a1, a2, two3);
  }

  method InvMixColumn(a0: bv8, a1: bv8, a2: bv8, a3: bv8) returns (s0: bv8, s1: bv8, s2: bv8, s3: bv8)
    ensures Column(s0, s1, s2, s3) == Mix(UNMIX, Column(a0, a1, a2, a3))
  {
    hide Mix, Mul, Sum;
    UnmixSums(Column(a0, a1, a2, a3));
    var e0 := Gmul(0x0e, a0);
    var e1 := Gmul(0x0e, a1);
    var e2 := Gmul(0x0e, a2);
    var e3 := Gmul(0x0e, a3);
    var b0 := Gmul(0x0b, a0);
    var b1 := Gmul(0x0b, a1);
    var b2 := Gmul(0x0b, a2);
    var b3 := Gmul(0x0b, a3);
    var d0 := Gmul(0x0d, a0);
    var d1 := Gmul(0x0d, a1);
    var d2 := Gmul(0x0d, a2);
    var d3 := Gmul(0x0d, a3);
    var n0 := Gmul(0x09, a0);
    var n1 := Gmul(0x09, a1);
    var n2 := Gmul(0x09, a2);
    var n3 := Gmul(0x09, a3);
    s0 := Sum(e0, b1, d2, n3);
    s1 := Sum(n0, e1, b2, d3);
    s2 := Sum(d0, n1, e2, b3);
    s3 := Sum(b0, d1, n2, e3);
  }

  method PutColumn(state: array<bv8>, c: nat, column: Column)
    requires state.Length == 16 && c < 4
    modifies state
    ensures forall k: nat :: k < 4 ==> ColumnAt(state[..], k) == if k == c then column else ColumnAt(old(state[..]), k)
  {
    var i := c * 4;
    state[i] := column.b0;
    state[i + 1] := column.b1;
    state[i + 2] := column.b2;
    state[i + 3] := column.b3;
  }

  method MixColumns(state: array<bv8>)
    requires state.Length == 16
    modifies state
    ensures state[..] == MixAll(MIX, old(state[..]))
  {
    hide Mix, MixAll;
    ghost var before := state[..];
    for c := 0 to 4
      invariant forall k: nat :: c <= k < 4 ==> ColumnAt(state[..], k) == ColumnAt(before, k)
      invariant forall k: nat :: k < c ==> ColumnAt(state[..], k) == Mix(MIX, ColumnAt(before, k))
    {
      var i := c * 4;
      assert ColumnAt(state[..], c) == ColumnAt(before, c);
      var s0, s1, s2, s3 := MixColumn(state[i], state[i + 1], state[i + 2], state[i + 3]);
      PutColumn(state, c, Column(s0, s1, s2, s3));
    }
    ColumnsMixed(MIX, before, state[..]);
  }

  method InvMixColumns(state: array<bv8>)
    requires state.Length == 16
    modifies state
    ensures state[..] == MixAll(UNMIX, old(state[..]))
  {
    hide Mix, MixAll;
    ghost var before := state[..];
    for c := 0 to 4
      invariant forall k: nat :: c <= k < 4 ==> ColumnAt(state[..], k) == ColumnAt(before, k)
      invariant forall k: nat :: k < c ==> ColumnAt(state[..], k) == Mix(UNMIX, ColumnAt(before, k))
    {
      var i := c * 4;
      assert ColumnAt(state[..], c) == ColumnAt(before, c);
      var s0, s1, s2, s3 := InvMixColumn(state[i], state[i + 1], state[i + 2], state[i + 3]);
      PutColumn(state, c, Column(s0, s1, s2, s3));
    }
    ColumnsMixed(UNMIX, before, state[..]);
  }

  // ---------------------------------------------------------------- the two directions

  method EncryptBlock(keys: Schedule, input: Block) returns (output: Block)
    ensures output == Encrypted(keys, input)
  {
    hide AddKey, SubBytes, ShiftRows, MixAll;
    var state := new bv8[16];
    Store(state, input);
    AddRoundKey(state, keys[0]);
    var round := 1;
    while round <= 9
      invariant 1 <= round <= 10
      invariant state[..] == Rounds(keys, input, round - 1)
    {
      SubstituteBytes(state);
      RotateRows(state);
      MixColumns(state);
      AddRoundKey(state, keys[round]);
      round := round + 1;
    }
    SubstituteBytes(state);
    RotateRows(state);
    AddRoundKey(state, keys[10]);
    output := state[..];
  }

  method DecryptBlock(keys: Schedule, input: Block) returns (output: Block)
    ensures output == Decrypted(keys, input)
  {
    hide AddKey, InvSubBytes, InvShiftRows, MixAll;
    var state := new bv8[16];
    Store(state, input);
    AddRoundKey(state, keys[10]);
    var round := 9;
    while round >= 1
      invariant 0 <= round <= 9
      invariant Unwound(keys, state[..], round) == Unwound(keys, AddKey(input, keys[10]), 9)
    {
      InvRotateRows(state);
      InvSubstituteBytes(state);
      AddRoundKey(state, keys[round]);
      InvMixColumns(state);
      round := round - 1;
    }
    InvRotateRows(state);
    InvSubstituteBytes(state);
    AddRoundKey(state, keys[0]);
    output := state[..];
  }

  // ---------------------------------------------------------------- the key schedule

  function RotWord(w: Column): Column {
    Column(w.b1, w.b2, w.b3, w.b0)
  }

  function SubWord(w: Column): Column {
    Column(Sub(w.b0), Sub(w.b1), Sub(w.b2), Sub(w.b3))
  }

  // The round constant: the powers of x in the field.
  function Rcon(i: nat): bv8
    requires i > 0
  {
    if i == 1 then 1 else Xtime(Rcon(i - 1))
  }

  // What word i adds to the word four places before it (FIPS 197 section 5.2).
  function Step(i: nat, previous: Column): Column
    requires i >= 4
  {
    if i % 4 != 0 then previous
    else
      var t := SubWord(RotWord(previous));
      t.(b0 := Xor(t.b0, Rcon(i / 4)))
  }

  function Word(key: Block, i: nat): Column {
    if i < 4 then ColumnAt(key, i) else Plus(Word(key, i - 4), Step(i, Word(key, i - 1)))
  }

  function RoundKey(key: Block, round: nat): Block {
    Bytes(Word(key, 4 * round)) + Bytes(Word(key, 4 * round + 1))
    + Bytes(Word(key, 4 * round + 2)) + Bytes(Word(key, 4 * round + 3))
  }

  function Keys(key: Block): Schedule {
    seq(11, round requires 0 <= round < 11 => RoundKey(key, round))
  }

  // rcon
  const RCON: seq<bv8> := [0x00, 0x01, 0x02, 0x04, 0x08, 0x10, 0x20, 0x40, 0x80, 0x1b, 0x36]

  lemma RconTable(i: nat)
    requires 1 <= i <= 10
    ensures RCON[i] == Rcon(i)
  {
    assert Rcon(2) == 0x02 && Rcon(3) == 0x04 && Rcon(4) == 0x08;
    assert Rcon(5) == 0x10 && Rcon(6) == 0x20 && Rcon(7) == 0x40;
    assert Rcon(8) == 0x80 && Rcon(9) == 0x1b && Rcon(10) == 0x36;
  }

  function WordAt(w: seq<bv8>, i: nat): Column
    requires 4 * i + 4 <= |w|
  {
    Column(w[4 * i], w[4 * i + 1], w[4 * i + 2], w[4 * i + 3])
  }

  // Write word n as the sum of the word four places before it and temp.
  method PutWord(w: array<bv8>, start: nat, temp: Column, ghost n: nat)
    requires 4 <= n < 44 && start == 4 * n && w.Length == 176
    modifies w
    ensures forall k: nat :: k < 44 && k != n ==> WordAt(w[..], k) == WordAt(old(w[..]), k)
    ensures WordAt(w[..], n) == Plus(WordAt(old(w[..]), n - 4), temp)
  {
    hide Xor;
    var t := Bytes(temp);
    var bytesGenerated := start;
    for i := 0 to 4
      invariant bytesGenerated == 4 * n + i
      invariant forall j :: 0 <= j < 176 && !(4 * n <= j < bytesGenerated) ==> w[j] == old(w[j])
      invariant forall j :: 0 <= j < i ==> w[4 * n + j] == Xor(old(w[4 * n - 16 + j]), t[j])
    {
      XorIs(w[bytesGenerated - 16], t[i]);
      w[bytesGenerated] := w[bytesGenerated - 16] ^ t[i];
      bytesGenerated := bytesGenerated + 1;
    }
    assert w[4 * n] == Xor(old(w[4 * n - 16]), t[0]) && w[4 * n + 1] == Xor(old(w[4 * n - 15]), t[1]);
    assert w[4 * n + 2] == Xor(old(w[4 * n - 14]), t[2]) && w[4 * n + 3] == Xor(old(w[4 * n - 13]), t[3]);
  }

  lemma XorIs(a: bv8, b: bv8)
    ensures Xor(a, b) == a ^ b
  {
  }

  lemma FourWords(w: seq<bv8>, r: nat)
    requires |w| == 176 && r < 11
    ensures w[16 * r..16 * r + 16] == Bytes(WordAt(w, 4 * r)) + Bytes(WordAt(w, 4 * r + 1))
                                      + Bytes(WordAt(w, 4 * r + 2)) + Bytes(WordAt(w, 4 * r + 3))
  {
  }

  lemma Phase(n: nat, rconIter: nat)
    requires 4 * rconIter - 4 < n <= 4 * rconIter
    ensures (4 * n) % 16 == 0 <==> n == 4 * rconIter
    ensures n % 4 == 0 <==> n == 4 * rconIter
    ensures n == 4 * rconIter ==> n / 4 == rconIter
  {
  }

  method NextTemp(previous: Column, bytesGenerated: nat, rconIter: nat, ghost n: nat) returns (temp: Column, next: nat)
    requires 4 <= n < 44 && bytesGenerated == 4 * n
    requires 4 * rconIter - 4 < n <= 4 * rconIter
    ensures temp == Step(n, previous)
    ensures 4 * next - 4 < n + 1 <= 4 * next
  {
    hide Sub, Xor, Rcon;
    Phase(n, rconIter);
    temp, next := previous, rconIter;
    if bytesGenerated % 16 == 0 {
      temp := RotWord(temp);
      temp := SubWord(temp);
      RconTable(rconIter);
      XorIs(temp.b0, RCON[rconIter]);
      temp := temp.(b0 := temp.b0 ^ RCON[rconIter]);
      next := rconIter + 1;
    }
  }

  // The first n words are in place.
  ghost predicate Filled(w: seq<bv8>, key: Block, n: nat)
    requires |w| == 176 && n <= 44
  {
    forall k: nat :: k < n ==> WordAt(w, k) == Word(key, k)
  }

  lemma FirstWords(w: seq<bv8>, key: Block)
    requires |w| == 176 && forall j :: 0 <= j < 16 ==> w[j] == key[j]
    ensures Filled(w, key, 4)
  {
  }

  lemma NextFilled(before: seq<bv8>, after: seq<bv8>, key: Block, n: nat)
    requires |before| == |after| == 176 && 4 <= n < 44 && Filled(before, key, n)
    requires forall k: nat :: k < 44 && k != n ==> WordAt(after, k) == WordAt(before, k)
    requires WordAt(after, n) == Plus(WordAt(before, n - 4), Step(n, WordAt(before, n - 1)))
    ensures Filled(after, key, n + 1)
  {
    hide WordAt, Plus, Step;
  }

  // Every index into the table of round constants is in range, and the eleven round keys are those of the standard.
  method ExpandKey(key: Block) returns (roundKeys: seq<Block>)
    ensures roundKeys == Keys(key)
  {
    hide Filled, Word, Sub, Xor, Rcon, Bytes, Plus, Step;
    var w: array<bv8> := new bv8[176](_ => 0);
    for i := 0 to 16
      invariant forall j :: 0 <= j < i ==> w[j] == key[j]
    {
      w[i] := key[i];
    }
    var bytesGenerated := 16;
    var rconIter := 1;
    ghost var n: nat := 4;
    assert Filled(w[..], key, 4) by { FirstWords(w[..], key); }
    while bytesGenerated < 176
      invariant 4 <= n <= 44 && bytesGenerated == 4 * n
      invariant 4 * rconIter - 4 < n <= 4 * rconIter
      invariant Filled(w[..], key, n)
    {
      ghost var before := w[..];
      var temp := Column(w[bytesGenerated - 4], w[bytesGenerated - 3], w[bytesGenerated - 2], w[bytesGenerated - 1]);
      temp, rconIter := NextTemp(temp, bytesGenerated, rconIter, n);
      PutWord(w, bytesGenerated, temp, n);
      NextFilled(before, w[..], key, n);
      bytesGenerated := bytesGenerated + 4;
      n := n + 1;
    }
    assert n == 44;
    roundKeys := Slices(key, w[..]);
  }

  method Slices(key: Block, w: seq<bv8>) returns (roundKeys: seq<Block>)
    requires |w| == 176 && Filled(w, key, 44)
    ensures roundKeys == Keys(key)
  {
    hide Word, WordAt, Bytes;
    roundKeys := [];
    var i := 0;
    ghost var r: nat := 0;
    while i < 176
      invariant r <= 11 && i == 16 * r && |roundKeys| == r
      invariant forall k: nat :: k < r ==> roundKeys[k] == RoundKey(key, k)
    {
      FourWords(w, r);
      roundKeys := roundKeys + [w[i..i + 16]];
      i := i + 16;
      r := r + 1;
    }
  }
}
