/** Bytes as bit vectors and as numbers. */
module Octets {
  type byte = bv8

  lemma ByteIndex(a: byte, b: byte)
    ensures 0 <= a as int < 256
    ensures a as int == b as int <==> a == b
  {
  }

  lemma ByteNonzero(a: byte)
    ensures a as int == 0 <==> a == 0
  {
  }

  lemma ByteSucc(a: byte)
    requires a as int < 255
    ensures (a + 1) as int == a as int + 1
  {
  }

  /** The byte that stands for a number below 256. */
  function ByteAt(x: nat): (b: byte)
    requires x < 256
    ensures b as int == x
  {
    if x == 0 then 0
    else
      var a := ByteAt(x - 1);
      ByteSucc(a);
      a + 1
  }
}
