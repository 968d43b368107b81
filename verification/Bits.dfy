/** Conversions between unsigned chars as numbers and as bits. */
module Bits {

  lemma BitsOfNumber(b: bv8)
    ensures (b as int) as bv8 == b
  {}

  lemma Increment(b: bv8)
    requires b as int < 255
    ensures (b + 1) as int == b as int + 1
  {}

  /** Every unsigned char is the number of some byte. */
  lemma {:induction false} Represented(n: nat) returns (b: bv8)
    requires n < 256
    ensures b as int == n
  {
    if n == 0 {
      b := 0;
    } else {
      b := Represented(n - 1);
      Increment(b);
      b := b + 1;
    }
  }

  lemma NumberOfBits(n: nat)
    requires n < 256
    ensures (n as bv8) as int == n
  {
    var b := Represented(n);
    BitsOfNumber(b);
  }
}
