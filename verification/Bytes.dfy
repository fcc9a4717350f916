/** Facts about bytes and base-256 digits. */
module Bytes {
  lemma ByteReads(x: int)
    requires 0 <= x < 0x100
    ensures (x as bv8) as int == x
  {
  }

  lemma FourDigits(u: int)
    requires 0 <= u < 0x1_0000_0000
    ensures u % 0x100 + 0x100 * (u / 0x100 % 0x100) + 0x1_0000 * (u / 0x1_0000 % 0x100) +
            0x100_0000 * (u / 0x100_0000) == u
  {
    var a := u / 0x100;
    var b := a / 0x100;
    assert u / 0x1_0000 == b && u / 0x100_0000 == b / 0x100;
    assert u == 0x100 * a + u % 0x100 && a == 0x100 * b + a % 0x100 && b == 0x100 * (b / 0x100) + b % 0x100;
  }
}
