// Exclusive or of two bytes, which is also the sum in GF(2^8).
module Bitwise {

  function Xor(a: bv8, b: bv8): bv8 { a ^ b }

  lemma NothingAdded(x: bv8)
    ensures Xor(x, 0) == x && Xor(0, x) == x
  {
  }

  lemma XorMoves(p: bv8, t: bv8, r: bv8)
    ensures Xor(Xor(p, t), r) == Xor(p, Xor(t, r))
  {
  }

  lemma XorPairs(x: bv8, px: bv8, y: bv8, py: bv8)
    ensures Xor(Xor(x, y), Xor(px, py)) == Xor(Xor(x, px), Xor(y, py))
  {
    hide Xor;
    XorMoves(x, y, Xor(px, py));
    XorMoves(y, px, py);
    XorSwaps(y, px);
    XorMoves(px, y, py);
    XorMoves(x, px, Xor(y, py));
  }

  lemma XorSwaps(x: bv8, y: bv8)
    ensures Xor(x, y) == Xor(y, x)
  {
  }

  lemma SelfCancels(x: bv8)
    ensures Xor(x, x) == 0
  {
  }
}
