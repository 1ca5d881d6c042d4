// Big-endian positional numerals, shared by the length octets (base 256), the tag number octets
// and the object identifier arcs (base 128).
module Positional {

  const TWO_TO_THE_32: nat := 0x1_0000_0000
  const TWO_TO_THE_64: nat := 0x1_0000_0000_0000_0000

  type byte = x: int | 0 <= x < 256

  type Base = b: int | b == 128 || b == 256 witness 128

  ghost predicate AreDigits(base: Base, ds: seq<nat>) {
    forall i :: 0 <= i < |ds| ==> ds[i] < base
  }

  // The shortest big-endian digits of v; none for zero.
  function ToDigits(base: Base, v: nat): (ds: seq<nat>)
    ensures AreDigits(base, ds)
    ensures ds == [] <==> v == 0
    ensures ds != [] ==> ds[0] != 0
  {
    if v == 0 then [] else ToDigits(base, v / base) + [v % base]
  }

  function FromDigits(base: Base, ds: seq<nat>): (v: nat) {
    if ds == [] then 0 else FromDigits(base, ds[..|ds| - 1]) * base + ds[|ds| - 1]
  }

  function Pow(base: Base, n: nat): (p: nat)
    ensures p >= 1
  {
    if n == 0 then 1 else base * Pow(base, n - 1)
  }

  lemma {:induction false} FromToDigits(base: Base, v: nat)
    ensures FromDigits(base, ToDigits(base, v)) == v
  {
    if v != 0 {
      FromToDigits(base, v / base);
      var ds := ToDigits(base, v);
      assert ds[..|ds| - 1] == ToDigits(base, v / base);
    }
  }

  lemma {:induction false} ToFromDigits(base: Base, ds: seq<nat>)
    requires AreDigits(base, ds)
    requires ds != [] ==> ds[0] != 0
    ensures ToDigits(base, FromDigits(base, ds)) == ds
  {
    if ds != [] {
      var front, last := ds[..|ds| - 1], ds[|ds| - 1];
      ToFromDigits(base, front);
      DivideOut(base, FromDigits(base, front), last);
    }
  }

  lemma DivideOut(base: Base, q: nat, r: nat)
    requires r < base
    ensures (q * base + r) / base == q && (q * base + r) % base == r
  {
    if base == 128 {} else {}
  }

  lemma {:induction false} FromDigitsBound(base: Base, ds: seq<nat>)
    requires AreDigits(base, ds)
    ensures FromDigits(base, ds) < Pow(base, |ds|)
  {
    if ds != [] {
      FromDigitsBound(base, ds[..|ds| - 1]);
    }
  }

  // v has at most n digits exactly when it is below base^n.
  lemma {:induction false} DigitCount(base: Base, v: nat, n: nat)
    ensures |ToDigits(base, v)| <= n <==> v < Pow(base, n)
  {
    if v != 0 && n != 0 {
      DigitCount(base, v / base, n - 1);
    }
  }

  lemma {:induction false} FromDigitsConcat(base: Base, a: seq<nat>, b: seq<nat>)
    ensures FromDigits(base, a + b) == FromDigits(base, a) * Pow(base, |b|) + FromDigits(base, b)
  {
    if b == [] {
      assert a + b == a;
    } else {
      var front, last := b[..|b| - 1], b[|b| - 1];
      assert (a + b)[..|a + b| - 1] == a + front;
      FromDigitsConcat(base, a, front);
    }
  }

  lemma {:induction false} PowMonotone(base: Base, m: nat, n: nat)
    requires m <= n
    ensures Pow(base, m) <= Pow(base, n)
  {
    if m < n { PowMonotone(base, m, n - 1); }
  }

  lemma {:induction false} PrefixValue(base: Base, a: seq<nat>, b: seq<nat>)
    ensures FromDigits(base, a) <= FromDigits(base, a + b)
  {
    if b == [] {
      assert a + b == a;
    } else {
      assert (a + b)[..|a + b| - 1] == a + b[..|b| - 1];
      PrefixValue(base, a, b[..|b| - 1]);
    }
  }

  lemma Pow256To8()
    ensures Pow(256, 4) == TWO_TO_THE_32
    ensures Pow(256, 8) == TWO_TO_THE_64
  {
    assert Pow(256, 2) == 0x1_0000;
    assert Pow(256, 4) == TWO_TO_THE_32;
    assert Pow(256, 6) == 0x1_0000_0000_0000;
  }

  lemma Pow128To5()
    ensures Pow(128, 4) == 0x1000_0000
    ensures Pow(128, 5) == 8 * TWO_TO_THE_32
  {
    assert Pow(128, 2) == 0x4000;
    assert Pow(128, 4) == 0x1000_0000;
  }
}
