// FIPS 197 column by column: the key schedule and the rounds by the places of the bytes, and the worked example of its
// appendices A.1 and B.
module AesStandard {
  import opened Bitwise
  import opened Galois
  import opened Sbox
  import opened Aes

  // ---------------------------------------------------------------- the key schedule

  const ROUND_CONSTANTS: seq<bv8> := [0x01, 0x02, 0x04, 0x08, 0x10, 0x20, 0x40, 0x80, 0x1b, 0x36]

  // The first word of a round key: the last word before it is rotated to the left and substituted.
  function FirstOf(first: Column, last: Column, constant: bv8): Column {
    Column(Xor(Xor(first.b0, Sub(last.b1)), constant), Xor(first.b1, Sub(last.b2)), Xor(first.b2, Sub(last.b3)),
           Xor(first.b3, Sub(last.b0)))
  }

  // Section 5.2 on the round keys, for every key.
  lemma KeyByColumn(key: Block, r: nat)
    requires 1 <= r <= 10
    ensures Keys(key)[0] == key
    ensures var before, now := Keys(key)[r - 1], Keys(key)[r];
            && ColumnAt(now, 0) == FirstOf(ColumnAt(before, 0), ColumnAt(before, 3), ROUND_CONSTANTS[r - 1])
            && ColumnAt(now, 1) == Plus(ColumnAt(before, 1), ColumnAt(now, 0))
            && ColumnAt(now, 2) == Plus(ColumnAt(before, 2), ColumnAt(now, 1))
            && ColumnAt(now, 3) == Plus(ColumnAt(before, 3), ColumnAt(now, 2))
  {
    hide Keys, Word, FirstOf, Plus, Rcon, RCON;
    KeyComesFirst(key);
    WordsOf(key, r - 1);
    WordsOf(key, r);
    Constant(r);
    FirstWord(key, r);
    LaterWord(key, 4 * r + 1);
    LaterWord(key, 4 * r + 2);
    LaterWord(key, 4 * r + 3);
  }

  lemma Constant(r: nat)
    requires 1 <= r <= 10
    ensures Rcon(r) == ROUND_CONSTANTS[r - 1]
  {
    hide Rcon;
    RconTable(r);
  }

  lemma KeyComesFirst(key: Block)
    ensures Keys(key)[0] == key
  {
    hide Word, Keys;
    WordsOf(key, 0);
    FirstWords4(key);
    SameColumns(Keys(key)[0], key);
  }

  lemma SameColumns(s: Block, t: Block)
    requires ColumnAt(s, 0) == ColumnAt(t, 0) && ColumnAt(s, 1) == ColumnAt(t, 1)
    requires ColumnAt(s, 2) == ColumnAt(t, 2) && ColumnAt(s, 3) == ColumnAt(t, 3)
    ensures s == t
  {
    assert forall j :: 0 <= j < 16 ==> s[j] == t[j];
  }

  lemma FirstWords4(key: Block)
    ensures Word(key, 0) == ColumnAt(key, 0) && Word(key, 1) == ColumnAt(key, 1)
    ensures Word(key, 2) == ColumnAt(key, 2) && Word(key, 3) == ColumnAt(key, 3)
  {
  }

  // The bytes of a round key are those of its four words.
  lemma WordsOf(key: Block, r: nat)
    requires r <= 10
    ensures var k := Keys(key)[r];
            && ColumnAt(k, 0) == Word(key, 4 * r) && ColumnAt(k, 1) == Word(key, 4 * r + 1)
            && ColumnAt(k, 2) == Word(key, 4 * r + 2) && ColumnAt(k, 3) == Word(key, 4 * r + 3)
  {
    hide Word;
    FourColumnsOf(Word(key, 4 * r), Word(key, 4 * r + 1), Word(key, 4 * r + 2), Word(key, 4 * r + 3));
  }

  lemma FourColumnsOf(w: Column, x: Column, y: Column, z: Column)
    ensures var k := Bytes(w) + Bytes(x) + Bytes(y) + Bytes(z);
            ColumnAt(k, 0) == w && ColumnAt(k, 1) == x && ColumnAt(k, 2) == y && ColumnAt(k, 3) == z
  {
  }

  lemma FirstWord(key: Block, r: nat)
    requires 1 <= r <= 10
    ensures Word(key, 4 * r) == FirstOf(Word(key, 4 * (r - 1)), Word(key, 4 * (r - 1) + 3), Rcon(r))
  {
    hide Sub, Rcon, Xor;
    var old4, last := Word(key, 4 * r - 4), Word(key, 4 * r - 1);
    assert Word(key, 4 * r) == Plus(old4, Step(4 * r, last));
    assert 4 * r / 4 == r && 4 * r % 4 == 0;
    XorMoves(old4.b0, Sub(last.b1), Rcon(r));
  }

  lemma LaterWord(key: Block, i: nat)
    requires i >= 4 && i % 4 != 0
    ensures Word(key, i) == Plus(Word(key, i - 4), Word(key, i - 1))
  {
    hide Xor, Sub;
  }

  // ---------------------------------------------------------------- the rounds

  // The bytes that end up in column c: row i of the state is shifted by i columns to the left.
  function Diagonal(s: Block, c: nat): Column
    requires c < 4
  {
    Column(s[4 * c], s[(4 * c + 5) % 16], s[(4 * c + 10) % 16], s[(4 * c + 15) % 16])
  }

  // Four bytes times 2, 3, 1 and 1.
  function Row(a: bv8, b: bv8, c: bv8, d: bv8): bv8 {
    Xor(Xor(Xtime(a), Xor(Xtime(b), b)), Xor(c, d))
  }

  function Times(a: Column): Column {
    Column(Row(a.b0, a.b1, a.b2, a.b3), Row(a.b1, a.b2, a.b3, a.b0), Row(a.b2, a.b3, a.b0, a.b1),
           Row(a.b3, a.b0, a.b1, a.b2))
  }

  function Subbed(a: Column): Column {
    Column(Sub(a.b0), Sub(a.b1), Sub(a.b2), Sub(a.b3))
  }

  // Sections 5.1.1 to 5.1.4 on one column of one round, for every state and round key; the last round does not mix.
  lemma RoundByColumn(s: Block, key: Block, c: nat)
    requires c < 4
    ensures ColumnAt(Round(s, key), c) == Plus(Times(Subbed(Diagonal(s, c))), ColumnAt(key, c))
    ensures ColumnAt(AddKey(ShiftRows(SubBytes(s)), key), c) == Plus(Subbed(Diagonal(s, c)), ColumnAt(key, c))
  {
    hide Mul, Mix, Times, Subbed, MixAll, AddKey, ShiftRows, SubBytes, Plus, Diagonal;
    var shifted := ShiftRows(SubBytes(s));
    ShiftedColumn(s, c);
    AddedColumn(shifted, key, c);
    AddedColumn(MixAll(MIX, shifted), key, c);
    FourColumnsOf(Mix(MIX, ColumnAt(shifted, 0)), Mix(MIX, ColumnAt(shifted, 1)), Mix(MIX, ColumnAt(shifted, 2)),
                  Mix(MIX, ColumnAt(shifted, 3)));
    MixedColumn(shifted, c);
    TimesMix(ColumnAt(shifted, c));
  }

  lemma ShiftedColumn(s: Block, c: nat)
    requires c < 4
    ensures ColumnAt(ShiftRows(SubBytes(s)), c) == Subbed(Diagonal(s, c))
  {
    hide Sub, ShiftRows, SubBytes, Right;
    Places(c);
    ShiftedByte(s, 4 * c);
    ShiftedByte(s, 4 * c + 1);
    ShiftedByte(s, 4 * c + 2);
    ShiftedByte(s, 4 * c + 3);
  }

  lemma ShiftedByte(s: Block, i: nat)
    requires i < 16
    ensures ShiftRows(SubBytes(s))[i] == Sub(s[Right(i)])
  {
    hide Sub, Right;
  }

  lemma Places(c: nat)
    requires c < 4
    ensures Right(4 * c) == 4 * c && Right(4 * c + 1) == (4 * c + 5) % 16
    ensures Right(4 * c + 2) == (4 * c + 10) % 16 && Right(4 * c + 3) == (4 * c + 15) % 16
  {
    if c == 0 {} else if c == 1 {} else if c == 2 {} else {}
  }

  lemma AddedColumn(s: Block, key: Block, c: nat)
    requires c < 4
    ensures ColumnAt(AddKey(s, key), c) == Plus(ColumnAt(s, c), ColumnAt(key, c))
  {
    hide Xor;
  }

  lemma MixedColumn(s: Block, c: nat)
    requires c < 4
    ensures ColumnAt(MixAll(MIX, s), c) == Mix(MIX, ColumnAt(s, c))
  {
    hide Mix;
    if c == 0 {} else if c == 1 {} else if c == 2 {} else {}
  }

  lemma TimesMix(a: Column)
    ensures Mix(MIX, a) == Times(a)
  {
    hide Mix, Mul, Sum, Xtime, Row;
    MixSums(a);
    ByTwoAndThree(a.b0);
    ByTwoAndThree(a.b1);
    ByTwoAndThree(a.b2);
    ByTwoAndThree(a.b3);
    SumOf(a.b0, a.b1, a.b2, a.b3);
    SumOf(a.b1, a.b2, a.b3, a.b0);
    SumOf(a.b2, a.b3, a.b0, a.b1);
    SumOf(a.b3, a.b0, a.b1, a.b2);
  }

  lemma SumOf(a: bv8, b: bv8, c: bv8, d: bv8)
    ensures var two, three := Xtime(a), Xor(Xtime(b), b);
            && Row(a, b, c, d) == Sum(two, three, c, d) == Sum(d, two, three, c)
            && Row(a, b, c, d) == Sum(c, d, two, three) == Sum(three, c, d, two)
  {
    hide Xtime, Sum, Xor;
    AnyOrder(Xtime(a), Xor(Xtime(b), b), c, d);
  }

  lemma AnyOrder(w: bv8, x: bv8, y: bv8, z: bv8)
    ensures var all := Xor(Xor(w, x), Xor(y, z));
            Sum(w, x, y, z) == all && Sum(z, w, x, y) == all && Sum(y, z, w, x) == all && Sum(x, y, z, w) == all
  {
    hide Sum, Xor;
    PlainSum(w, x, y, z);
    LastFirst(w, x, y, z);
    LastFirst(z, w, x, y);
    LastFirst(y, z, w, x);
  }

  lemma LastFirst(w: bv8, x: bv8, y: bv8, z: bv8)
    ensures Sum(z, w, x, y) == Sum(w, x, y, z)
  {
  }

  // ---------------------------------------------------------------- the worked example

  ghost predicate Columns(s: Block, w: Column, x: Column, y: Column, z: Column) {
    ColumnAt(s, 0) == w && ColumnAt(s, 1) == x && ColumnAt(s, 2) == y && ColumnAt(s, 3) == z
  }

  const KEY: Block := [0x2b, 0x7e, 0x15, 0x16, 0x28, 0xae, 0xd2, 0xa6, 0xab, 0xf7, 0x15, 0x88, 0x09, 0xcf, 0x4f, 0x3c]
  const PLAIN: Block := [0x32, 0x43, 0xf6, 0xa8, 0x88, 0x5a, 0x30, 0x8d, 0x31, 0x31, 0x98, 0xa2, 0xe0, 0x37, 0x07, 0x34]
  const CIPHER: Block :=
    [0x39, 0x25, 0x84, 0x1d, 0x02, 0xdc, 0x09, 0xfb, 0xdc, 0x11, 0x85, 0x97, 0x19, 0x6a, 0x0b, 0x32]

  // The next round key.
  lemma NextKey(r: nat, w: Column, x: Column, y: Column, z: Column, a: Column, b: Column, c: Column, d: Column)
    requires 1 <= r <= 10 && Columns(Keys(KEY)[r - 1], w, x, y, z)
    requires a == FirstOf(w, z, ROUND_CONSTANTS[r - 1]) && b == Plus(x, a) && c == Plus(y, b) && d == Plus(z, c)
    ensures Columns(Keys(KEY)[r], a, b, c, d)
  {
    hide Keys, FirstOf, Plus, ROUND_CONSTANTS;
    KeyByColumn(KEY, r);
  }

  lemma Diagonals(s: Block, w: Column, x: Column, y: Column, z: Column)
    requires Columns(s, w, x, y, z)
    ensures Diagonal(s, 0) == Column(w.b0, x.b1, y.b2, z.b3) && Diagonal(s, 1) == Column(x.b0, y.b1, z.b2, w.b3)
    ensures Diagonal(s, 2) == Column(y.b0, z.b1, w.b2, x.b3) && Diagonal(s, 3) == Column(z.b0, w.b1, x.b2, y.b3)
  {
  }

  // The next state.
  lemma NextState(r: nat, w: Column, x: Column, y: Column, z: Column, a: Column, b: Column, c: Column, d: Column,
                  k: Column, l: Column, m: Column, n: Column)
    requires 1 <= r <= 9 && Columns(Rounds(Keys(KEY), PLAIN, r - 1), w, x, y, z) && Columns(Keys(KEY)[r], k, l, m, n)
    requires a == Plus(Times(Subbed(Column(w.b0, x.b1, y.b2, z.b3))), k)
    requires b == Plus(Times(Subbed(Column(x.b0, y.b1, z.b2, w.b3))), l)
    requires c == Plus(Times(Subbed(Column(y.b0, z.b1, w.b2, x.b3))), m)
    requires d == Plus(Times(Subbed(Column(z.b0, w.b1, x.b2, y.b3))), n)
    ensures Columns(Rounds(Keys(KEY), PLAIN, r), a, b, c, d)
  {
    hide Keys, Round, Times, Subbed, Plus, Diagonal, ColumnAt;
    var s := Rounds(Keys(KEY), PLAIN, r - 1);
    Diagonals(s, w, x, y, z);
    RoundByColumn(s, Keys(KEY)[r], 0);
    RoundByColumn(s, Keys(KEY)[r], 1);
    RoundByColumn(s, Keys(KEY)[r], 2);
    RoundByColumn(s, Keys(KEY)[r], 3);
  }

  // Appendix A.1: the words w[4] to w[43].
  lemma ExampleKey0()
    ensures Columns(Keys(KEY)[0], Column(0x2b, 0x7e, 0x15, 0x16), Column(0x28, 0xae, 0xd2, 0xa6),
                                  Column(0xab, 0xf7, 0x15, 0x88), Column(0x09, 0xcf, 0x4f, 0x3c))
  {
    hide Keys;
    KeyByColumn(KEY, 1);
  }

  lemma ExampleKey1()
    ensures Columns(Keys(KEY)[1], Column(0xa0, 0xfa, 0xfe, 0x17), Column(0x88, 0x54, 0x2c, 0xb1),
                                  Column(0x23, 0xa3, 0x39, 0x39), Column(0x2a, 0x6c, 0x76, 0x05))
  {
    hide Keys;
    ExampleKey0();
    NextKey(1, Column(0x2b, 0x7e, 0x15, 0x16), Column(0x28, 0xae, 0xd2, 0xa6),
            Column(0xab, 0xf7, 0x15, 0x88), Column(0x09, 0xcf, 0x4f, 0x3c),
            Column(0xa0, 0xfa, 0xfe, 0x17), Column(0x88, 0x54, 0x2c, 0xb1),
            Column(0x23, 0xa3, 0x39, 0x39), Column(0x2a, 0x6c, 0x76, 0x05));
  }

  lemma ExampleKey2()
    ensures Columns(Keys(KEY)[2], Column(0xf2, 0xc2, 0x95, 0xf2), Column(0x7a, 0x96, 0xb9, 0x43),
                                  Column(0x59, 0x35, 0x80, 0x7a), Column(0x73, 0x59, 0xf6, 0x7f))
  {
    hide Keys;
    ExampleKey1();
    NextKey(2, Column(0xa0, 0xfa, 0xfe, 0x17), Column(0x88, 0x54, 0x2c, 0xb1),
            Column(0x23, 0xa3, 0x39, 0x39), Column(0x2a, 0x6c, 0x76, 0x05),
            Column(0xf2, 0xc2, 0x95, 0xf2), Column(0x7a, 0x96, 0xb9, 0x43),
            Column(0x59, 0x35, 0x80, 0x7a), Column(0x73, 0x59, 0xf6, 0x7f));
  }

  lemma ExampleKey3()
    ensures Columns(Keys(KEY)[3], Column(0x3d, 0x80, 0x47, 0x7d), Column(0x47, 0x16, 0xfe, 0x3e),
                                  Column(0x1e, 0x23, 0x7e, 0x44), Column(0x6d, 0x7a, 0x88, 0x3b))
  {
    hide Keys;
    ExampleKey2();
    NextKey(3, Column(0xf2, 0xc2, 0x95, 0xf2), Column(0x7a, 0x96, 0xb9, 0x43),
            Column(0x59, 0x35, 0x80, 0x7a), Column(0x73, 0x59, 0xf6, 0x7f),
            Column(0x3d, 0x80, 0x47, 0x7d), Column(0x47, 0x16, 0xfe, 0x3e),
            Column(0x1e, 0x23, 0x7e, 0x44), Column(0x6d, 0x7a, 0x88, 0x3b));
  }

  lemma ExampleKey4()
    ensures Columns(Keys(KEY)[4], Column(0xef, 0x44, 0xa5, 0x41), Column(0xa8, 0x52, 0x5b, 0x7f),
                                  Column(0xb6, 0x71, 0x25, 0x3b), Column(0xdb, 0x0b, 0xad, 0x00))
  {
    hide Keys;
    ExampleKey3();
    NextKey(4, Column(0x3d, 0x80, 0x47, 0x7d), Column(0x47, 0x16, 0xfe, 0x3e),
            Column(0x1e, 0x23, 0x7e, 0x44), Column(0x6d, 0x7a, 0x88, 0x3b),
            Column(0xef, 0x44, 0xa5, 0x41), Column(0xa8, 0x52, 0x5b, 0x7f),
            Column(0xb6, 0x71, 0x25, 0x3b), Column(0xdb, 0x0b, 0xad, 0x00));
  }

  lemma ExampleKey5()
    ensures Columns(Keys(KEY)[5], Column(0xd4, 0xd1, 0xc6, 0xf8), Column(0x7c, 0x83, 0x9d, 0x87),
                                  Column(0xca, 0xf2, 0xb8, 0xbc), Column(0x11, 0xf9, 0x15, 0xbc))
  {
    hide Keys;
    ExampleKey4();
    NextKey(5, Column(0xef, 0x44, 0xa5, 0x41), Column(0xa8, 0x52, 0x5b, 0x7f),
            Column(0xb6, 0x71, 0x25, 0x3b), Column(0xdb, 0x0b, 0xad, 0x00),
            Column(0xd4, 0xd1, 0xc6, 0xf8), Column(0x7c, 0x83, 0x9d, 0x87),
            Column(0xca, 0xf2, 0xb8, 0xbc), Column(0x11, 0xf9, 0x15, 0xbc));
  }

  lemma ExampleKey6()
    ensures Columns(Keys(KEY)[6], Column(0x6d, 0x88, 0xa3, 0x7a), Column(0x11, 0x0b, 0x3e, 0xfd),
                                  Column(0xdb, 0xf9, 0x86, 0x41), Column(0xca, 0x00, 0x93, 0xfd))
  {
    hide Keys;
    ExampleKey5();
    NextKey(6, Column(0xd4, 0xd1, 0xc6, 0xf8), Column(0x7c, 0x83, 0x9d, 0x87),
            Column(0xca, 0xf2, 0xb8, 0xbc), Column(0x11, 0xf9, 0x15, 0xbc),
            Column(0x6d, 0x88, 0xa3, 0x7a), Column(0x11, 0x0b, 0x3e, 0xfd),
            Column(0xdb, 0xf9, 0x86, 0x41), Column(0xca, 0x00, 0x93, 0xfd));
  }

  lemma ExampleKey7()
    ensures Columns(Keys(KEY)[7], Column(0x4e, 0x54, 0xf7, 0x0e), Column(0x5f, 0x5f, 0xc9, 0xf3),
                                  Column(0x84, 0xa6, 0x4f, 0xb2), Column(0x4e, 0xa6, 0xdc, 0x4f))
  {
    hide Keys;
    ExampleKey6();
    NextKey(7, Column(0x6d, 0x88, 0xa3, 0x7a), Column(0x11, 0x0b, 0x3e, 0xfd),
            Column(0xdb, 0xf9, 0x86, 0x41), Column(0xca, 0x00, 0x93, 0xfd),
            Column(0x4e, 0x54, 0xf7, 0x0e), Column(0x5f, 0x5f, 0xc9, 0xf3),
            Column(0x84, 0xa6, 0x4f, 0xb2), Column(0x4e, 0xa6, 0xdc, 0x4f));
  }

  lemma ExampleKey8()
    ensures Columns(Keys(KEY)[8], Column(0xea, 0xd2, 0x73, 0x21), Column(0xb5, 0x8d, 0xba, 0xd2),
                                  Column(0x31, 0x2b, 0xf5, 0x60), Column(0x7f, 0x8d, 0x29, 0x2f))
  {
    hide Keys;
    ExampleKey7();
    NextKey(8, Column(0x4e, 0x54, 0xf7, 0x0e), Column(0x5f, 0x5f, 0xc9, 0xf3),
            Column(0x84, 0xa6, 0x4f, 0xb2), Column(0x4e, 0xa6, 0xdc, 0x4f),
            Column(0xea, 0xd2, 0x73, 0x21), Column(0xb5, 0x8d, 0xba, 0xd2),
            Column(0x31, 0x2b, 0xf5, 0x60), Column(0x7f, 0x8d, 0x29, 0x2f));
  }

  lemma ExampleKey9()
    ensures Columns(Keys(KEY)[9], Column(0xac, 0x77, 0x66, 0xf3), Column(0x19, 0xfa, 0xdc, 0x21),
                                  Column(0x28, 0xd1, 0x29, 0x41), Column(0x57, 0x5c, 0x00, 0x6e))
  {
    hide Keys;
    ExampleKey8();
    NextKey(9, Column(0xea, 0xd2, 0x73, 0x21), Column(0xb5, 0x8d, 0xba, 0xd2),
            Column(0x31, 0x2b, 0xf5, 0x60), Column(0x7f, 0x8d, 0x29, 0x2f),
            Column(0xac, 0x77, 0x66, 0xf3), Column(0x19, 0xfa, 0xdc, 0x21),
            Column(0x28, 0xd1, 0x29, 0x41), Column(0x57, 0x5c, 0x00, 0x6e));
  }

  lemma ExampleKey10()
    ensures Columns(Keys(KEY)[10], Column(0xd0, 0x14, 0xf9, 0xa8), Column(0xc9, 0xee, 0x25, 0x89),
                                   Column(0xe1, 0x3f, 0x0c, 0xc8), Column(0xb6, 0x63, 0x0c, 0xa6))
  {
    hide Keys;
    ExampleKey9();
    NextKey(10, Column(0xac, 0x77, 0x66, 0xf3), Column(0x19, 0xfa, 0xdc, 0x21),
            Column(0x28, 0xd1, 0x29, 0x41), Column(0x57, 0x5c, 0x00, 0x6e),
            Column(0xd0, 0x14, 0xf9, 0xa8), Column(0xc9, 0xee, 0x25, 0x89),
            Column(0xe1, 0x3f, 0x0c, 0xc8), Column(0xb6, 0x63, 0x0c, 0xa6));
  }

  // Appendix B: the state after each round.
  lemma ExampleState0()
    ensures Columns(Rounds(Keys(KEY), PLAIN, 0), Column(0x19, 0x3d, 0xe3, 0xbe), Column(0xa0, 0xf4, 0xe2, 0x2b),
                                                 Column(0x9a, 0xc6, 0x8d, 0x2a), Column(0xe9, 0xf8, 0x48, 0x08))
  {
    hide Keys, AddKey;
    ExampleKey0();
    AddedColumn(PLAIN, Keys(KEY)[0], 0);
    AddedColumn(PLAIN, Keys(KEY)[0], 1);
    AddedColumn(PLAIN, Keys(KEY)[0], 2);
    AddedColumn(PLAIN, Keys(KEY)[0], 3);
  }

  lemma ExampleState1()
    ensures Columns(Rounds(Keys(KEY), PLAIN, 1), Column(0xa4, 0x9c, 0x7f, 0xf2), Column(0x68, 0x9f, 0x35, 0x2b),
                                                 Column(0x6b, 0x5b, 0xea, 0x43), Column(0x02, 0x6a, 0x50, 0x49))
  {
    hide Keys, Rounds, Subbed;
    ExampleState0();
    ExampleKey1();
    ExampleSubs1();
    MoreSubs1();
    NextState(1, Column(0x19, 0x3d, 0xe3, 0xbe), Column(0xa0, 0xf4, 0xe2, 0x2b),
              Column(0x9a, 0xc6, 0x8d, 0x2a), Column(0xe9, 0xf8, 0x48, 0x08),
              Column(0xa4, 0x9c, 0x7f, 0xf2), Column(0x68, 0x9f, 0x35, 0x2b),
              Column(0x6b, 0x5b, 0xea, 0x43), Column(0x02, 0x6a, 0x50, 0x49),
              Column(0xa0, 0xfa, 0xfe, 0x17), Column(0x88, 0x54, 0x2c, 0xb1),
              Column(0x23, 0xa3, 0x39, 0x39), Column(0x2a, 0x6c, 0x76, 0x05));
  }

  lemma ExampleSubs1()
    ensures Subbed(Column(0x19, 0xf4, 0x8d, 0x08)) == Column(0xd4, 0xbf, 0x5d, 0x30)
    ensures Subbed(Column(0xa0, 0xc6, 0x48, 0xbe)) == Column(0xe0, 0xb4, 0x52, 0xae)
  {
  }

  lemma MoreSubs1()
    ensures Subbed(Column(0x9a, 0xf8, 0xe3, 0x2b)) == Column(0xb8, 0x41, 0x11, 0xf1)
    ensures Subbed(Column(0xe9, 0x3d, 0xe2, 0x2a)) == Column(0x1e, 0x27, 0x98, 0xe5)
  {
  }

  lemma ExampleState2()
    ensures Columns(Rounds(Keys(KEY), PLAIN, 2), Column(0xaa, 0x8f, 0x5f, 0x03), Column(0x61, 0xdd, 0xe3, 0xef),
                                                 Column(0x82, 0xd2, 0x4a, 0xd2), Column(0x68, 0x32, 0x46, 0x9a))
  {
    hide Keys, Rounds, Subbed;
    ExampleState1();
    ExampleKey2();
    ExampleSubs2();
    MoreSubs2();
    NextState(2, Column(0xa4, 0x9c, 0x7f, 0xf2), Column(0x68, 0x9f, 0x35, 0x2b),
              Column(0x6b, 0x5b, 0xea, 0x43), Column(0x02, 0x6a, 0x50, 0x49),
              Column(0xaa, 0x8f, 0x5f, 0x03), Column(0x61, 0xdd, 0xe3, 0xef),
              Column(0x82, 0xd2, 0x4a, 0xd2), Column(0x68, 0x32, 0x46, 0x9a),
              Column(0xf2, 0xc2, 0x95, 0xf2), Column(0x7a, 0x96, 0xb9, 0x43),
              Column(0x59, 0x35, 0x80, 0x7a), Column(0x73, 0x59, 0xf6, 0x7f));
  }

  lemma ExampleSubs2()
    ensures Subbed(Column(0xa4, 0x9f, 0xea, 0x49)) == Column(0x49, 0xdb, 0x87, 0x3b)
    ensures Subbed(Column(0x68, 0x5b, 0x50, 0xf2)) == Column(0x45, 0x39, 0x53, 0x89)
  {
  }

  lemma MoreSubs2()
    ensures Subbed(Column(0x6b, 0x6a, 0x7f, 0x2b)) == Column(0x7f, 0x02, 0xd2, 0xf1)
    ensures Subbed(Column(0x02, 0x9c, 0x35, 0x43)) == Column(0x77, 0xde, 0x96, 0x1a)
  {
  }

  lemma ExampleState3()
    ensures Columns(Rounds(Keys(KEY), PLAIN, 3), Column(0x48, 0x6c, 0x4e, 0xee), Column(0x67, 0x1d, 0x9d, 0x0d),
                                                 Column(0x4d, 0xe3, 0xb1, 0x38), Column(0xd6, 0x5f, 0x58, 0xe7))
  {
    hide Keys, Rounds, Subbed;
    ExampleState2();
    ExampleKey3();
    ExampleSubs3();
    MoreSubs3();
    NextState(3, Column(0xaa, 0x8f, 0x5f, 0x03), Column(0x61, 0xdd, 0xe3, 0xef),
              Column(0x82, 0xd2, 0x4a, 0xd2), Column(0x68, 0x32, 0x46, 0x9a),
              Column(0x48, 0x6c, 0x4e, 0xee), Column(0x67, 0x1d, 0x9d, 0x0d),
              Column(0x4d, 0xe3, 0xb1, 0x38), Column(0xd6, 0x5f, 0x58, 0xe7),
              Column(0x3d, 0x80, 0x47, 0x7d), Column(0x47, 0x16, 0xfe, 0x3e),
              Column(0x1e, 0x23, 0x7e, 0x44), Column(0x6d, 0x7a, 0x88, 0x3b));
  }

  lemma ExampleSubs3()
    ensures Subbed(Column(0xaa, 0xdd, 0x4a, 0x9a)) == Column(0xac, 0xc1, 0xd6, 0xb8)
    ensures Subbed(Column(0x61, 0xd2, 0x46, 0x03)) == Column(0xef, 0xb5, 0x5a, 0x7b)
  {
  }

  lemma MoreSubs3()
    ensures Subbed(Column(0x82, 0x32, 0x5f, 0xef)) == Column(0x13, 0x23, 0xcf, 0xdf)
    ensures Subbed(Column(0x68, 0x8f, 0xe3, 0xd2)) == Column(0x45, 0x73, 0x11, 0xb5)
  {
  }

  lemma ExampleState4()
    ensures Columns(Rounds(Keys(KEY), PLAIN, 4), Column(0xe0, 0x92, 0x7f, 0xe8), Column(0xc8, 0x63, 0x63, 0xc0),
                                                 Column(0xd9, 0xb1, 0x35, 0x50), Column(0x85, 0xb8, 0xbe, 0x01))
  {
    hide Keys, Rounds, Subbed;
    ExampleState3();
    ExampleKey4();
    ExampleSubs4();
    MoreSubs4();
    NextState(4, Column(0x48, 0x6c, 0x4e, 0xee), Column(0x67, 0x1d, 0x9d, 0x0d),
              Column(0x4d, 0xe3, 0xb1, 0x38), Column(0xd6, 0x5f, 0x58, 0xe7),
              Column(0xe0, 0x92, 0x7f, 0xe8), Column(0xc8, 0x63, 0x63, 0xc0),
              Column(0xd9, 0xb1, 0x35, 0x50), Column(0x85, 0xb8, 0xbe, 0x01),
              Column(0xef, 0x44, 0xa5, 0x41), Column(0xa8, 0x52, 0x5b, 0x7f),
              Column(0xb6, 0x71, 0x25, 0x3b), Column(0xdb, 0x0b, 0xad, 0x00));
  }

  lemma ExampleSubs4()
    ensures Subbed(Column(0x48, 0x1d, 0xb1, 0xe7)) == Column(0x52, 0xa4, 0xc8, 0x94)
    ensures Subbed(Column(0x67, 0xe3, 0x58, 0xee)) == Column(0x85, 0x11, 0x6a, 0x28)
  {
  }

  lemma MoreSubs4()
    ensures Subbed(Column(0x4d, 0x5f, 0x4e, 0x0d)) == Column(0xe3, 0xcf, 0x2f, 0xd7)
    ensures Subbed(Column(0xd6, 0x6c, 0x9d, 0x38)) == Column(0xf6, 0x50, 0x5e, 0x07)
  {
  }

  lemma ExampleState5()
    ensures Columns(Rounds(Keys(KEY), PLAIN, 5), Column(0xf1, 0x00, 0x6f, 0x55), Column(0xc1, 0x92, 0x4c, 0xef),
                                                 Column(0x7c, 0xc8, 0x8b, 0x32), Column(0x5d, 0xb5, 0xd5, 0x0c))
  {
    hide Keys, Rounds, Subbed;
    ExampleState4();
    ExampleKey5();
    ExampleSubs5();
    MoreSubs5();
    NextState(5, Column(0xe0, 0x92, 0x7f, 0xe8), Column(0xc8, 0x63, 0x63, 0xc0),
              Column(0xd9, 0xb1, 0x35, 0x50), Column(0x85, 0xb8, 0xbe, 0x01),
              Column(0xf1, 0x00, 0x6f, 0x55), Column(0xc1, 0x92, 0x4c, 0xef),
              Column(0x7c, 0xc8, 0x8b, 0x32), Column(0x5d, 0xb5, 0xd5, 0x0c),
              Column(0xd4, 0xd1, 0xc6, 0xf8), Column(0x7c, 0x83, 0x9d, 0x87),
              Column(0xca, 0xf2, 0xb8, 0xbc), Column(0x11, 0xf9, 0x15, 0xbc));
  }

  lemma ExampleSubs5()
    ensures Subbed(Column(0xe0, 0x63, 0x35, 0x01)) == Column(0xe1, 0xfb, 0x96, 0x7c)
    ensures Subbed(Column(0xc8, 0xb1, 0xbe, 0xe8)) == Column(0xe8, 0xc8, 0xae, 0x9b)
  {
  }

  lemma MoreSubs5()
    ensures Subbed(Column(0xd9, 0xb8, 0x7f, 0xc0)) == Column(0x35, 0x6c, 0xd2, 0xba)
    ensures Subbed(Column(0x85, 0x92, 0x63, 0x50)) == Column(0x97, 0x4f, 0xfb, 0x53)
  {
  }

  lemma ExampleState6()
    ensures Columns(Rounds(Keys(KEY), PLAIN, 6), Column(0x26, 0x0e, 0x2e, 0x17), Column(0x3d, 0x41, 0xb7, 0x7d),
                                                 Column(0xe8, 0x64, 0x72, 0xa9), Column(0xfd, 0xd2, 0x8b, 0x25))
  {
    hide Keys, Rounds, Subbed;
    ExampleState5();
    ExampleKey6();
    ExampleSubs6();
    MoreSubs6();
    NextState(6, Column(0xf1, 0x00, 0x6f, 0x55), Column(0xc1, 0x92, 0x4c, 0xef),
              Column(0x7c, 0xc8, 0x8b, 0x32), Column(0x5d, 0xb5, 0xd5, 0x0c),
              Column(0x26, 0x0e, 0x2e, 0x17), Column(0x3d, 0x41, 0xb7, 0x7d),
              Column(0xe8, 0x64, 0x72, 0xa9), Column(0xfd, 0xd2, 0x8b, 0x25),
              Column(0x6d, 0x88, 0xa3, 0x7a), Column(0x11, 0x0b, 0x3e, 0xfd),
              Column(0xdb, 0xf9, 0x86, 0x41), Column(0xca, 0x00, 0x93, 0xfd));
  }

  lemma ExampleSubs6()
    ensures Subbed(Column(0xf1, 0x92, 0x8b, 0x0c)) == Column(0xa1, 0x4f, 0x3d, 0xfe)
    ensures Subbed(Column(0xc1, 0xc8, 0xd5, 0x55)) == Column(0x78, 0xe8, 0x03, 0xfc)
  {
  }

  lemma MoreSubs6()
    ensures Subbed(Column(0x7c, 0xb5, 0x6f, 0xef)) == Column(0x10, 0xd5, 0xa8, 0xdf)
    ensures Subbed(Column(0x5d, 0x00, 0x4c, 0x32)) == Column(0x4c, 0x63, 0x29, 0x23)
  {
  }

  lemma ExampleState7()
    ensures Columns(Rounds(Keys(KEY), PLAIN, 7), Column(0x5a, 0x41, 0x42, 0xb1), Column(0x19, 0x49, 0xdc, 0x1f),
                                                 Column(0xa3, 0xe0, 0x19, 0x65), Column(0x7a, 0x8c, 0x04, 0x0c))
  {
    hide Keys, Rounds, Subbed;
    ExampleState6();
    ExampleKey7();
    ExampleSubs7();
    MoreSubs7();
    NextState(7, Column(0x26, 0x0e, 0x2e, 0x17), Column(0x3d, 0x41, 0xb7, 0x7d),
              Column(0xe8, 0x64, 0x72, 0xa9), Column(0xfd, 0xd2, 0x8b, 0x25),
              Column(0x5a, 0x41, 0x42, 0xb1), Column(0x19, 0x49, 0xdc, 0x1f),
              Column(0xa3, 0xe0, 0x19, 0x65), Column(0x7a, 0x8c, 0x04, 0x0c),
              Column(0x4e, 0x54, 0xf7, 0x0e), Column(0x5f, 0x5f, 0xc9, 0xf3),
              Column(0x84, 0xa6, 0x4f, 0xb2), Column(0x4e, 0xa6, 0xdc, 0x4f));
  }

  lemma ExampleSubs7()
    ensures Subbed(Column(0x26, 0x41, 0x72, 0x25)) == Column(0xf7, 0x83, 0x40, 0x3f)
    ensures Subbed(Column(0x3d, 0x64, 0x8b, 0x17)) == Column(0x27, 0x43, 0x3d, 0xf0)
  {
  }

  lemma MoreSubs7()
    ensures Subbed(Column(0xe8, 0xd2, 0x2e, 0x7d)) == Column(0x9b, 0xb5, 0x31, 0xff)
    ensures Subbed(Column(0xfd, 0x0e, 0xb7, 0xa9)) == Column(0x54, 0xab, 0xa9, 0xd3)
  {
  }

  lemma ExampleState8()
    ensures Columns(Rounds(Keys(KEY), PLAIN, 8), Column(0xea, 0x83, 0x5c, 0xf0), Column(0x04, 0x45, 0x33, 0x2d),
                                                 Column(0x65, 0x5d, 0x98, 0xad), Column(0x85, 0x96, 0xb0, 0xc5))
  {
    hide Keys, Rounds, Subbed;
    ExampleState7();
    ExampleKey8();
    ExampleSubs8();
    MoreSubs8();
    NextState(8, Column(0x5a, 0x41, 0x42, 0xb1), Column(0x19, 0x49, 0xdc, 0x1f),
              Column(0xa3, 0xe0, 0x19, 0x65), Column(0x7a, 0x8c, 0x04, 0x0c),
              Column(0xea, 0x83, 0x5c, 0xf0), Column(0x04, 0x45, 0x33, 0x2d),
              Column(0x65, 0x5d, 0x98, 0xad), Column(0x85, 0x96, 0xb0, 0xc5),
              Column(0xea, 0xd2, 0x73, 0x21), Column(0xb5, 0x8d, 0xba, 0xd2),
              Column(0x31, 0x2b, 0xf5, 0x60), Column(0x7f, 0x8d, 0x29, 0x2f));
  }

  lemma ExampleSubs8()
    ensures Subbed(Column(0x5a, 0x49, 0x19, 0x0c)) == Column(0xbe, 0x3b, 0xd4, 0xfe)
    ensures Subbed(Column(0x19, 0xe0, 0x04, 0xb1)) == Column(0xd4, 0xe1, 0xf2, 0xc8)
  {
  }

  lemma MoreSubs8()
    ensures Subbed(Column(0xa3, 0x8c, 0x42, 0x1f)) == Column(0x0a, 0x64, 0x2c, 0xc0)
    ensures Subbed(Column(0x7a, 0x41, 0xdc, 0x65)) == Column(0xda, 0x83, 0x86, 0x4d)
  {
  }

  lemma ExampleState9()
    ensures Columns(Rounds(Keys(KEY), PLAIN, 9), Column(0xeb, 0x40, 0xf2, 0x1e), Column(0x59, 0x2e, 0x38, 0x84),
                                                 Column(0x8b, 0xa1, 0x13, 0xe7), Column(0x1b, 0xc3, 0x42, 0xd2))
  {
    hide Keys, Rounds, Subbed;
    ExampleState8();
    ExampleKey9();
    ExampleSubs9();
    MoreSubs9();
    NextState(9, Column(0xea, 0x83, 0x5c, 0xf0), Column(0x04, 0x45, 0x33, 0x2d),
              Column(0x65, 0x5d, 0x98, 0xad), Column(0x85, 0x96, 0xb0, 0xc5),
              Column(0xeb, 0x40, 0xf2, 0x1e), Column(0x59, 0x2e, 0x38, 0x84),
              Column(0x8b, 0xa1, 0x13, 0xe7), Column(0x1b, 0xc3, 0x42, 0xd2),
              Column(0xac, 0x77, 0x66, 0xf3), Column(0x19, 0xfa, 0xdc, 0x21),
              Column(0x28, 0xd1, 0x29, 0x41), Column(0x57, 0x5c, 0x00, 0x6e));
  }

  lemma ExampleSubs9()
    ensures Subbed(Column(0xea, 0x45, 0x98, 0xc5)) == Column(0x87, 0x6e, 0x46, 0xa6)
    ensures Subbed(Column(0x04, 0x5d, 0xb0, 0xf0)) == Column(0xf2, 0x4c, 0xe7, 0x8c)
  {
  }

  lemma MoreSubs9()
    ensures Subbed(Column(0x65, 0x96, 0x5c, 0x2d)) == Column(0x4d, 0x90, 0x4a, 0xd8)
    ensures Subbed(Column(0x85, 0x83, 0x33, 0xad)) == Column(0x97, 0xec, 0xc3, 0x95)
  {
  }

  lemma ExampleSubs10()
    ensures Subbed(Column(0xeb, 0x2e, 0x13, 0xd2)) == Column(0xe9, 0x31, 0x7d, 0xb5)
    ensures Subbed(Column(0x59, 0xa1, 0x42, 0x1e)) == Column(0xcb, 0x32, 0x2c, 0x72)
  {
  }

  lemma MoreSubs10()
    ensures Subbed(Column(0x8b, 0xc3, 0xf2, 0x84)) == Column(0x3d, 0x2e, 0x89, 0x5f)
    ensures Subbed(Column(0x1b, 0x40, 0x38, 0xe7)) == Column(0xaf, 0x09, 0x07, 0x94)
  {
  }

  // The last round does not mix.
  lemma LastState(w: Column, x: Column, y: Column, z: Column, k: Column, l: Column, m: Column, n: Column)
    requires Columns(Rounds(Keys(KEY), PLAIN, 9), w, x, y, z) && Columns(Keys(KEY)[10], k, l, m, n)
    ensures Columns(Encrypted(Keys(KEY), PLAIN),
                    Plus(Subbed(Column(w.b0, x.b1, y.b2, z.b3)), k), Plus(Subbed(Column(x.b0, y.b1, z.b2, w.b3)), l),
                    Plus(Subbed(Column(y.b0, z.b1, w.b2, x.b3)), m), Plus(Subbed(Column(z.b0, w.b1, x.b2, y.b3)), n))
  {
    hide Keys, Rounds, Subbed, Plus, AddKey, ShiftRows, SubBytes, Diagonal, ColumnAt;
    var s := Rounds(Keys(KEY), PLAIN, 9);
    Diagonals(s, w, x, y, z);
    RoundByColumn(s, Keys(KEY)[10], 0);
    RoundByColumn(s, Keys(KEY)[10], 1);
    RoundByColumn(s, Keys(KEY)[10], 2);
    RoundByColumn(s, Keys(KEY)[10], 3);
  }

  // Appendix B: the output, on the schedule that the key expands to.
  lemma ExampleCipher()
    ensures Encrypted(Keys(KEY), PLAIN) == CIPHER && Decrypted(Keys(KEY), CIPHER) == PLAIN
  {
    hide Keys, Rounds, Subbed, Encrypted, Decrypted;
    ExampleState9();
    ExampleKey10();
    ExampleSubs10();
    MoreSubs10();
    LastState(Column(0xeb, 0x40, 0xf2, 0x1e), Column(0x59, 0x2e, 0x38, 0x84),
              Column(0x8b, 0xa1, 0x13, 0xe7), Column(0x1b, 0xc3, 0x42, 0xd2),
              Column(0xd0, 0x14, 0xf9, 0xa8), Column(0xc9, 0xee, 0x25, 0x89),
              Column(0xe1, 0x3f, 0x0c, 0xc8), Column(0xb6, 0x63, 0x0c, 0xa6));
    SameColumns(Encrypted(Keys(KEY), PLAIN), CIPHER);
    BlockInversion(Keys(KEY), PLAIN);
  }
}
