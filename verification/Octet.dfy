// The conversions between a byte and its number.
module Octet {

  lemma ByteIsInt(n: int)
    requires 0 <= n < 256
    ensures (n as bv8) as int == n
  {
    if n < 128 {} else {}
  }
}
