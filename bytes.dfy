/** Fixed-width integer types of the wire format, and the arithmetic facts the bit
    and byte layouts rest on. Integers in Dafny are unbounded, so every width the
    controller relies on is a subset type of `int`. */
module Bytes {

  /** std::uint8_t */
  type byte = b: int | 0 <= b < 0x100

  /** std::uint16_t, the type of the `data_length` header field */
  type uint16 = n: int | 0 <= n < 0x1_0000

  /** std::uint32_t */
  type uint32 = n: int | 0 <= n < 0x1_0000_0000

  /** Low byte of a 16-bit value (the first byte in little-endian order). */
  function Lo(n: uint16): byte { n % 0x100 }

  /** High byte of a 16-bit value (the second byte in little-endian order). */
  function Hi(n: uint16): byte { n / 0x100 }

  /** Quotient and remainder are unique: placing `r` below a field of width `k` and
      shifting it back out recovers both parts. */
  lemma DivMod(q: int, r: int, k: int)
    requires k > 0 && 0 <= r < k
    ensures (q * k + r) / k == q && (q * k + r) % k == r
  {
    var n := q * k + r;
    var d := q - n / k;
    assert d * k == n % k - r;
    MultipleBelowWidth(d, k);
  }

  /** The only multiple of `k` strictly between -k and k is 0. */
  lemma MultipleBelowWidth(d: int, k: int)
    requires k > 0 && -k < d * k < k
    ensures d == 0
  {
  }

  /** On a byte, XOR with all ones is subtraction from all ones: `s ^ 0xFF` on a
      std::uint8_t is its one's complement 0xFF - s. */
  lemma XorIsComplement(s: byte)
    ensures ((s as bv8) ^ 0xFF) as int == 0xFF - s
  {
    var b := s as bv8;
    XorAllOnes(b);
    ComplementAsInt(b);
    ByteAsBits(s);
    calc {
      (b ^ 0xFF) as int;
      (0xFF - b) as int;
      0xFF - b as int;
      0xFF - s;
    }
  }

  /** A value in 0..255 survives the trip to 8 bits and back. The bit pattern is built
      by counting up from zero, so the proof needs only the bit-vector-to-integer
      direction, which the solver handles cheaply. */
  lemma ByteAsBits(s: int)
    requires 0 <= s < 0x100
    ensures (s as bv8) as int == s
  {
    var b := CountUp(s);
    CountUpValue(s);
    BitsOfValue(b);
    assert s as bv8 == b;
  }

  /** The 8-bit pattern reached by adding one to zero `s` times. */
  function CountUp(s: int): bv8
    requires 0 <= s < 0x100
    decreases s
  {
    if s == 0 then 0 else CountUp(s - 1) + 1
  }

  lemma {:induction false} CountUpValue(s: int)
    requires 0 <= s < 0x100
    ensures CountUp(s) as int == s
    decreases s
  {
    if s > 0 {
      CountUpValue(s - 1);
      IncrementAsInt(CountUp(s - 1));
    }
  }

  /** Adding one below the top value does not wrap. */
  lemma IncrementAsInt(b: bv8)
    requires b as int < 0xFF
    ensures (b + 1) as int == b as int + 1
  {
  }

  /** Reading 8 bits as an integer and converting back gives the same bits. */
  lemma BitsOfValue(b: bv8)
    ensures (b as int) as bv8 == b
  {
  }

  /** On 8 bits, XOR with all ones and subtraction from all ones agree. */
  lemma XorAllOnes(b: bv8)
    ensures b ^ 0xFF == 0xFF - b
  {
  }

  /** Subtracting from all ones never wraps, so it commutes with reading the bits as an integer. */
  lemma ComplementAsInt(b: bv8)
    ensures (0xFF - b) as int == 0xFF - b as int
  {
  }
}
