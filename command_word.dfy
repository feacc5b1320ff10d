/** The SMSD command word: a 32-bit value made of four bit fields, least significant
    bit first: 3 reserved bits (0-2), 1 action bit (3), a 6-bit opcode (4-9) and a
    22-bit operand (10-31). The layout is written out with shifts and masks instead of
    a compiler's bit-field ordering: `x << k` is `x * 2^k`, `x >> k` is `x / 2^k`,
    `x & (2^k - 1)` is `x % 2^k`, and the OR of fields that share no bit is their sum. */
module CommandWord {
  import opened Bytes

  /** The SMSD_Command struct as the controller fills it in: the value stored in each
      std::uint32_t bit field, before it is narrowed to the field's width. */
  datatype Smsd = Smsd(reserve: uint32, action: uint32, command: uint32, data: uint32)
  {
    /** Every field fits in its bit width. */
    predicate InRange()
    {
      reserve < 0x8 && action < 0x2 && command < 0x40 && data < 0x40_0000
    }
  }

  /** The 32-bit word the struct occupies in memory. Storing a value in a bit field keeps
      only as many low bits as the field is wide. */
  function Pack(c: Smsd): (w: uint32)
    ensures w % 0x8 == c.reserve % 0x8
    ensures w / 0x8 % 0x2 == c.action % 0x2
    ensures w / 0x10 % 0x40 == c.command % 0x40
    ensures w / 0x400 == c.data % 0x40_0000
  {
    var r, a, o, d := c.reserve % 0x8, c.action % 0x2, c.command % 0x40, c.data % 0x40_0000;
    DivMod(d * 0x80 + o * 0x2 + a, r, 0x8);
    DivMod(d * 0x40 + o, a, 0x2);
    DivMod(d * 0x40 + o, a * 0x8 + r, 0x10);
    DivMod(d, o, 0x40);
    DivMod(d, o * 0x10 + a * 0x8 + r, 0x400);
    d * 0x400     // data << 10
    + o * 0x10    // command << 4
    + a * 0x8     // action << 3
    + r           // reserve
  }

  /** Reads the four bit fields back out of a command word, shifting each field off the
      bottom once it has been read: 3 bits, then 1, then 6; what is left is the operand. */
  function Unpack(w: uint32): Smsd
  {
    var rest := w / 0x8;
    var high := rest / 0x2;
    Smsd(w % 0x8, rest % 0x2, high % 0x40, high / 0x40)
  }

  /** Where each field lands: bits 0-2 hold the reserved value, bit 3 the action,
      bits 4-9 the opcode and bits 10-31 the operand, each cut to its width. */
  lemma PackFields(c: Smsd)
    ensures Unpack(Pack(c)) == Smsd(c.reserve % 0x8, c.action % 0x2, c.command % 0x40, c.data % 0x40_0000)
  {
    var r, a, o, d := c.reserve % 0x8, c.action % 0x2, c.command % 0x40, c.data % 0x40_0000;
    DivMod((d * 0x40 + o) * 0x2 + a, r, 0x8);
    DivMod(d * 0x40 + o, a, 0x2);
    DivMod(d, o, 0x40);
  }

  /** Packing loses nothing when every field fits in its width. */
  lemma UnpackPack(c: Smsd)
    requires c.InRange()
    ensures Unpack(Pack(c)) == c
  {
    PackFields(c);
  }

  /** Every 32-bit word is the packing of exactly one in-range struct. */
  lemma PackUnpack(w: uint32)
    ensures Unpack(w).InRange() && Pack(Unpack(w)) == w
  {
    var rest := w / 0x8;
    var high := rest / 0x2;
    assert w == rest * 0x8 + w % 0x8;
    assert rest == high * 0x2 + rest % 0x2;
    assert high == high / 0x40 * 0x40 + high % 0x40;
    assert rest < 0x2000_0000 && high < 0x1000_0000 && high / 0x40 < 0x40_0000;
    var c := Unpack(w);
    assert c.data % 0x40_0000 == c.data && c.command % 0x40 == c.command;
    assert c.action % 0x2 == c.action && c.reserve % 0x8 == c.reserve;
  }

  /** The four bytes of a word, least significant first: the bytes memcpy copies out
      of the struct on a little-endian machine. They reassemble to the word. */
  function WordBytes(w: uint32): (bs: seq<byte>)
    ensures |bs| == 4
    ensures bs[0] as int + 0x100 * bs[1] as int + 0x1_0000 * bs[2] as int + 0x100_0000 * bs[3] as int == w
  {
    assert w / 0x100 / 0x100 == w / 0x1_0000;
    assert w / 0x1_0000 / 0x100 == w / 0x100_0000;
    [w % 0x100, w / 0x100 % 0x100, w / 0x1_0000 % 0x100, w / 0x100_0000]
  }

  /** Reassembles a word from four little-endian bytes. */
  function WordFromBytes(bs: seq<byte>): uint32
    requires |bs| == 4
  {
    bs[3] as int * 0x100_0000 + bs[2] as int * 0x1_0000 + bs[1] as int * 0x100 + bs[0] as int
  }

  lemma WordFromBytesRoundTrip(bs: seq<byte>)
    requires |bs| == 4
    ensures WordBytes(WordFromBytes(bs)) == bs
  {
    DivMod(bs[3] as int * 0x1_0000 + bs[2] as int * 0x100 + bs[1] as int, bs[0], 0x100);
    DivMod(bs[3] as int * 0x100 + bs[2] as int, bs[1], 0x100);
    DivMod(bs[3] as int * 0x100 + bs[2] as int, bs[1] as int * 0x100 + bs[0], 0x1_0000);
    DivMod(bs[3] as int, bs[2], 0x100);
    DivMod(bs[3], bs[2] as int * 0x1_0000 + bs[1] as int * 0x100 + bs[0], 0x100_0000);
  }
}
