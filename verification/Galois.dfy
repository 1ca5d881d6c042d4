// Multiplication in GF(2^8) modulo x^8 + x^4 + x^3 + x + 1 (FIPS 197 section 4.2), and the products of
// columns modulo x^4 + 1 (section 4.3) that both column mixings are.
module Galois {
  import opened Bitwise

  function Half(a: bv8): bv8 { a >> 1 }

  predicate Odd(a: bv8) { a & 1 != 0 }

  // Multiplication by x.
  function Xtime(b: bv8): bv8 {
    if b & 0x80 != 0 then (b << 1) ^ 0x1b else b << 1
  }

  // x when the lowest bit of a is set.
  function Pick(a: bv8, x: bv8): bv8 {
    if Odd(a) then x else 0
  }

  // The lowest n bits of a times b.
  function Product(a: bv8, b: bv8, n: nat): bv8
    decreases n
  {
    if n == 0 then 0 else Xor(Pick(a, b), Product(Half(a), Xtime(b), n - 1))
  }

  function Mul(a: bv8, b: bv8): bv8 {
    Product(a, b, 8)
  }

  // ---------------------------------------------------------------- the loops

  method Gmul(a: bv8, b: bv8) returns (p: bv8)
    ensures p == Mul(a, b)
  {
    hide Xor, Half, Odd, Xtime, Pick;
    var aa, bb := a, b;
    p := 0;
    NothingAdded(Product(a, b, 8));
    for i := 0 to 8
      invariant Xor(p, Product(aa, bb, 8 - i)) == Mul(a, b)
    {
      ghost var rest := Product(Half(aa), Xtime(bb), 7 - i);
      StepPick(p, aa, bb, rest);
      StepBits(p, aa, bb);
      if (aa & 1) != 0 { p := p ^ bb; }
      var hi := bb & 0x80;
      bb := bb << 1;
      if hi != 0 { bb := bb ^ 0x1b; }
      aa := aa >> 1;
    }
    NothingAdded(p);
  }

  // The encryption side's copy, which walks the bits of the other operand.
  method GmulEnc(a: bv8, b: bv8) returns (p: bv8)
    ensures p == Mul(a, b)
  {
    hide Xor, Half, Odd, Xtime, Pick;
    Commutes(a, b);
    var aa, bb := a, b;
    p := 0;
    NothingAdded(Product(b, a, 8));
    for i := 0 to 8
      invariant Xor(p, Product(bb, aa, 8 - i)) == Mul(b, a)
    {
      ghost var rest := Product(Half(bb), Xtime(aa), 7 - i);
      StepPick(p, bb, aa, rest);
      StepBits(p, bb, aa);
      if (bb & 1) != 0 { p := p ^ aa; }
      var hi := aa & 0x80;
      aa := aa << 1;
      if hi != 0 { aa := aa ^ 0x1b; }
      bb := bb >> 1;
    }
    NothingAdded(p);
  }

  lemma StepPick(p: bv8, a: bv8, x: bv8, rest: bv8)
    ensures Xor(p, Xor(Pick(a, x), rest)) == Xor(if Odd(a) then Xor(p, x) else p, rest)
  {
    hide Odd;
    if Odd(a) { XorMoves(p, x, rest); } else { NothingAdded(rest); }
  }

  // What one pass of either loop does to its three variables.
  lemma StepBits(p: bv8, a: bv8, x: bv8)
    ensures Odd(a) <==> a & 1 != 0
    ensures Xor(p, x) == p ^ x
    ensures Half(a) == a >> 1
    ensures Xtime(x) == if x & 0x80 != 0 then (x << 1) ^ 0x1b else x << 1
  {
  }

  // ---------------------------------------------------------------- sums

  lemma PickAdds(a: bv8, x: bv8, y: bv8)
    ensures Pick(a, Xor(x, y)) == Xor(Pick(a, x), Pick(a, y))
  {
    hide Odd;
    NothingAdded(0);
  }

  lemma XtimeAdds(x: bv8, y: bv8)
    ensures Xtime(Xor(x, y)) == Xor(Xtime(x), Xtime(y))
  {
    if x & 0x80 != 0 {
      if y & 0x80 != 0 { } else { }
    } else {
      if y & 0x80 != 0 { } else { }
    }
  }

  lemma XtimePick(a: bv8, x: bv8)
    ensures Xtime(Pick(a, x)) == Pick(a, Xtime(x))
  {
    hide Odd;
    assert Xtime(0) == 0;
  }

  // ---------------------------------------------------------------- the field laws

  lemma {:induction false} ProductAdds(a: bv8, x: bv8, y: bv8, n: nat)
    ensures Product(a, Xor(x, y), n) == Xor(Product(a, x, n), Product(a, y, n))
    decreases n
  {
    hide Xor, Half, Xtime, Pick;
    if n == 0 {
      NothingAdded(0);
    } else {
      XtimeAdds(x, y);
      PickAdds(a, x, y);
      ProductAdds(Half(a), Xtime(x), Xtime(y), n - 1);
      XorPairs(Pick(a, x), Product(Half(a), Xtime(x), n - 1), Pick(a, y), Product(Half(a), Xtime(y), n - 1));
    }
  }

  lemma {:induction false} ProductXtime(a: bv8, b: bv8, n: nat)
    ensures Product(a, Xtime(b), n) == Xtime(Product(a, b, n))
    decreases n
  {
    hide Xor, Half, Xtime, Pick;
    if n == 0 {
      assert Xtime(0) == 0 by { XtimePick(0, 0); PickZero(Xtime(0)); PickZero(0); }
    } else {
      XtimePick(a, b);
      ProductXtime(Half(a), Xtime(b), n - 1);
      XtimeAdds(Pick(a, b), Product(Half(a), Xtime(b), n - 1));
    }
  }

  lemma PickZero(x: bv8)
    ensures Pick(0, x) == 0
  {
  }

  // Multiplications by two numbers can change places.
  lemma {:induction false} Slides(a: bv8, b: bv8, c: bv8, n: nat)
    ensures Product(a, Mul(b, c), n) == Mul(b, Product(a, c, n))
    decreases n
  {
    hide Xor, Half, Xtime, Pick, Mul;
    if n == 0 {
      TimesZero(b);
    } else {
      MulXtime(b, c);
      Slides(Half(a), b, Xtime(c), n - 1);
      PickMul(a, b, c);
      MulAdds(b, Pick(a, c), Product(Half(a), Xtime(c), n - 1));
    }
  }

  lemma MulXtime(b: bv8, c: bv8)
    ensures Mul(b, Xtime(c)) == Xtime(Mul(b, c))
  {
    hide Xtime, Product;
    ProductXtime(b, c, 8);
  }

  lemma PickMul(a: bv8, b: bv8, c: bv8)
    ensures Pick(a, Mul(b, c)) == Mul(b, Pick(a, c))
  {
    hide Odd, Mul;
    TimesZero(b);
  }

  lemma TimesZero(b: bv8)
    ensures Mul(b, 0) == 0
  {
    hide Xor, Product;
    ProductAdds(b, 0, 0, 8);
    NothingAdded(0);
    SelfCancels(Product(b, 0, 8));
  }

  lemma MulAdds(a: bv8, x: bv8, y: bv8)
    ensures Mul(a, Xor(x, y)) == Xor(Mul(a, x), Mul(a, y))
  {
    hide Xor, Product;
    ProductAdds(a, x, y, 8);
  }

  // The bits of a that are at or above a power of two.
  lemma TimesBit(a: bv8, power: bv8, n: nat)
    requires 1 <= n
    ensures Product(a, power, n) == Xor(Pick(a, power), Product(Half(a), Xtime(power), n - 1))
  {
    hide Xor, Half, Pick, Xtime;
  }

  lemma Halves(a: bv8)
    ensures a >> 2 == Half(Half(a)) && a >> 4 == Half(Half(a >> 2)) && a >> 6 == Half(Half(a >> 4))
    ensures a >> 1 == Half(a) && a >> 3 == Half(a >> 2) && a >> 5 == Half(a >> 4) && a >> 7 == Half(a >> 6)
  {
  }

  lemma Powers()
    ensures Xtime(0x01) == 0x02 && Xtime(0x02) == 0x04 && Xtime(0x04) == 0x08 && Xtime(0x08) == 0x10
    ensures Xtime(0x10) == 0x20 && Xtime(0x20) == 0x40 && Xtime(0x40) == 0x80
  {
  }

  lemma BitsOf(a: bv8)
    ensures Xor(Pick(a, 0x01), Xor(Pick(a >> 1, 0x02), Xor(Pick(a >> 2, 0x04), Xor(Pick(a >> 3, 0x08),
            Xor(Pick(a >> 4, 0x10), Xor(Pick(a >> 5, 0x20), Xor(Pick(a >> 6, 0x40), Xor(Pick(a >> 7, 0x80), 0))))))))
         == a
  {
  }

  lemma TimesOne(a: bv8)
    ensures Mul(a, 1) == a
  {
    hide Xor, Half, Pick, Xtime;
    Halves(a);
    Powers();
    BitsOf(a);
    TimesBit(a, 0x01, 8);
    TimesBit(a >> 1, 0x02, 7);
    TimesBit(a >> 2, 0x04, 6);
    TimesBit(a >> 3, 0x08, 5);
    TimesBit(a >> 4, 0x10, 4);
    TimesBit(a >> 5, 0x20, 3);
    TimesBit(a >> 6, 0x40, 2);
    TimesBit(a >> 7, 0x80, 1);
  }

  lemma Commutes(a: bv8, b: bv8)
    ensures Mul(a, b) == Mul(b, a)
  {
    hide Product;
    Slides(a, b, 1, 8);
    TimesOne(a);
    TimesOne(b);
  }

  lemma Associates(a: bv8, b: bv8, c: bv8)
    ensures Mul(a, Mul(b, c)) == Mul(Mul(a, b), c)
  {
    hide Product;
    Slides(a, c, b, 8);
    Commutes(b, c);
    Commutes(c, Mul(a, b));
  }

  lemma MulAddsLeft(a: bv8, c: bv8, x: bv8)
    ensures Mul(Xor(a, c), x) == Xor(Mul(a, x), Mul(c, x))
  {
    hide Xor, Mul;
    Commutes(a, x);
    Commutes(c, x);
    Commutes(Xor(a, c), x);
    MulAdds(x, a, c);
  }

  // ---------------------------------------------------------------- columns

  datatype Column = Column(b0: bv8, b1: bv8, b2: bv8, b3: bv8)

  function Xor4(w: bv8, x: bv8, y: bv8, z: bv8): bv8 {
    Xor(Xor(w, x), Xor(y, z))
  }

  function Dot(c: Column, a: Column): bv8 {
    Xor4(Mul(c.b0, a.b0), Mul(c.b1, a.b1), Mul(c.b2, a.b2), Mul(c.b3, a.b3))
  }

  function Turn(c: Column): Column {
    Column(c.b3, c.b0, c.b1, c.b2)
  }

  // The product modulo x^4 + 1 with the polynomial whose circulant matrix has c as its first row.
  function Mix(c: Column, a: Column): Column {
    Column(Dot(c, a), Dot(Turn(c), a), Dot(Turn(Turn(c)), a), Dot(Turn(Turn(Turn(c))), a))
  }

  function Scale(d: bv8, c: Column): Column {
    Column(Mul(d, c.b0), Mul(d, c.b1), Mul(d, c.b2), Mul(d, c.b3))
  }

  function Plus(c: Column, d: Column): Column {
    Column(Xor(c.b0, d.b0), Xor(c.b1, d.b1), Xor(c.b2, d.b2), Xor(c.b3, d.b3))
  }

  // The row that d makes out of the four rows of the circulant matrix of c.
  function Combine(d: Column, c: Column): Column {
    Plus(Plus(Scale(d.b0, c), Scale(d.b1, Turn(c))), Plus(Scale(d.b2, Turn(Turn(c))), Scale(d.b3, Turn(Turn(Turn(c))))))
  }

  lemma DotScales(d: bv8, c: Column, a: Column)
    ensures Dot(Scale(d, c), a) == Mul(d, Dot(c, a))
  {
    hide Xor, Mul;
    Associates(d, c.b0, a.b0);
    Associates(d, c.b1, a.b1);
    Associates(d, c.b2, a.b2);
    Associates(d, c.b3, a.b3);
    MulAdds(d, Mul(c.b0, a.b0), Mul(c.b1, a.b1));
    MulAdds(d, Mul(c.b2, a.b2), Mul(c.b3, a.b3));
    MulAdds(d, Xor(Mul(c.b0, a.b0), Mul(c.b1, a.b1)), Xor(Mul(c.b2, a.b2), Mul(c.b3, a.b3)));
  }

  lemma DotAdds(c: Column, d: Column, a: Column)
    ensures Dot(Plus(c, d), a) == Xor(Dot(c, a), Dot(d, a))
  {
    hide Xor, Mul;
    MulAddsLeft(c.b0, d.b0, a.b0);
    MulAddsLeft(c.b1, d.b1, a.b1);
    MulAddsLeft(c.b2, d.b2, a.b2);
    MulAddsLeft(c.b3, d.b3, a.b3);
    var c0, c1, c2, c3 := Mul(c.b0, a.b0), Mul(c.b1, a.b1), Mul(c.b2, a.b2), Mul(c.b3, a.b3);
    var d0, d1, d2, d3 := Mul(d.b0, a.b0), Mul(d.b1, a.b1), Mul(d.b2, a.b2), Mul(d.b3, a.b3);
    XorPairs(c0, c1, d0, d1);
    XorPairs(c2, c3, d2, d3);
    XorPairs(Xor(c0, c1), Xor(c2, c3), Xor(d0, d1), Xor(d2, d3));
  }

  lemma DotOfMix(d: Column, c: Column, a: Column)
    ensures Dot(d, Mix(c, a)) == Dot(Combine(d, c), a)
  {
    hide Xor, Mul, Dot, Scale, Plus;
    var r0, r1 := Scale(d.b0, c), Scale(d.b1, Turn(c));
    var r2, r3 := Scale(d.b2, Turn(Turn(c))), Scale(d.b3, Turn(Turn(Turn(c))));
    DotAdds(Plus(r0, r1), Plus(r2, r3), a);
    DotAdds(r0, r1, a);
    DotAdds(r2, r3, a);
    DotScales(d.b0, c, a);
    DotScales(d.b1, Turn(c), a);
    DotScales(d.b2, Turn(Turn(c)), a);
    DotScales(d.b3, Turn(Turn(Turn(c))), a);
    DotTerms(d, Mix(c, a));
  }

  lemma DotTerms(d: Column, m: Column)
    ensures Dot(d, m) == Xor(Xor(Mul(d.b0, m.b0), Mul(d.b1, m.b1)), Xor(Mul(d.b2, m.b2), Mul(d.b3, m.b3)))
  {
    hide Xor, Mul;
  }

  const MIX: Column := Column(0x02, 0x03, 0x01, 0x01)
  const UNMIX: Column := Column(0x0e, 0x0b, 0x0d, 0x09)

  lemma TimesZeroLeft(x: bv8)
    ensures Mul(0, x) == 0 && Mul(1, x) == x
  {
    hide Mul;
    Commutes(0, x);
    TimesZero(x);
    Commutes(1, x);
    TimesOne(x);
  }

  lemma UnitRows(a: Column)
    ensures Dot(Column(1, 0, 0, 0), a) == a.b0 && Dot(Column(0, 1, 0, 0), a) == a.b1
    ensures Dot(Column(0, 0, 1, 0), a) == a.b2 && Dot(Column(0, 0, 0, 1), a) == a.b3
  {
    hide Mul;
    TimesZeroLeft(a.b0);
    TimesZeroLeft(a.b1);
    TimesZeroLeft(a.b2);
    TimesZeroLeft(a.b3);
  }

  lemma ByTwoAndThree(x: bv8)
    ensures Mul(x, 2) == Xtime(x) && Mul(x, 3) == Xor(Xtime(x), x) && Mul(x, 1) == x
    ensures Mul(2, x) == Xtime(x) && Mul(3, x) == Xor(Xtime(x), x) && Mul(1, x) == x
  {
    hide Mul;
    TimesOne(x);
    MulXtime(x, 1);
    assert Xtime(1) == 2 && Xor(2, 1) == 3;
    MulAdds(x, 2, 1);
    Commutes(1, x);
    Commutes(2, x);
    Commutes(3, x);
  }

  lemma UnmixingConstants()
    ensures Combine(UNMIX, MIX) == Column(1, 0, 0, 0) == Combine(MIX, UNMIX)
    ensures Combine(Turn(UNMIX), MIX) == Column(0, 1, 0, 0) == Combine(Turn(MIX), UNMIX)
  {
    hide Mul;
    ByTwoAndThree(0x09);
    ByTwoAndThree(0x0b);
    ByTwoAndThree(0x0d);
    ByTwoAndThree(0x0e);
  }

  lemma MoreUnmixingConstants()
    ensures Combine(Turn(Turn(UNMIX)), MIX) == Column(0, 0, 1, 0) == Combine(Turn(Turn(MIX)), UNMIX)
    ensures Combine(Turn(Turn(Turn(UNMIX))), MIX) == Column(0, 0, 0, 1) == Combine(Turn(Turn(Turn(MIX))), UNMIX)
  {
    hide Mul;
    ByTwoAndThree(0x09);
    ByTwoAndThree(0x0b);
    ByTwoAndThree(0x0d);
    ByTwoAndThree(0x0e);
  }

  // The two column mixings undo each other, whichever comes first.
  lemma MixingInverts(a: Column)
    ensures Mix(UNMIX, Mix(MIX, a)) == a
    ensures Mix(MIX, Mix(UNMIX, a)) == a
  {
    hide Dot, Combine;
    UnmixingConstants();
    MoreUnmixingConstants();
    UnitRows(a);
    DotOfMix(UNMIX, MIX, a);
    DotOfMix(Turn(UNMIX), MIX, a);
    DotOfMix(Turn(Turn(UNMIX)), MIX, a);
    DotOfMix(Turn(Turn(Turn(UNMIX))), MIX, a);
    DotOfMix(MIX, UNMIX, a);
    DotOfMix(Turn(MIX), UNMIX, a);
    DotOfMix(Turn(Turn(MIX)), UNMIX, a);
    DotOfMix(Turn(Turn(Turn(MIX))), UNMIX, a);
  }
}
