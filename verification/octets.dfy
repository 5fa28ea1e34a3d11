/** Facts about the conversion between bytes and their numeric values. */
module Octets {

  /** A byte survives the trip through its numeric value. */
  lemma ByteCode(x: bv8)
    ensures (x as int) as bv8 == x
  {
  }

  /** A number below 256 survives the trip through a byte. */
  lemma CodeByte(n: int)
    requires 0 <= n < 256
    ensures (n as bv8) as int == n
  {
    assert n % 256 == n;
  }
}
