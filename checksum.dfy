/** The frame checksum: an 8-bit additive sum, started at 0xFF and inverted at the end. */
module Checksum {
  import opened Bytes

  /** `s += b` on a std::uint8_t accumulator: the sum wraps modulo 256. */
  function Add8(s: byte, b: byte): byte { (s + b) % 0x100 }

  /** The accumulator after adding the bytes of `bs`, first to last, to `s`. */
  function Accumulate(s: byte, bs: seq<byte>): byte
    decreases |bs|
  {
    if |bs| == 0 then s else Add8(Accumulate(s, bs[..|bs| - 1]), bs[|bs| - 1])
  }

  /** `s ^ 0xFF` on an 8-bit value: every bit flipped, which on 8 bits is the one's
      complement 0xFF - s. */
  function Invert(s: byte): (r: byte)
    ensures r == ((s as bv8) ^ 0xFF) as int
    ensures r + s == 0xFF
  {
    XorIsComplement(s);
    0xFF - s
  }

  /** The checksum of the span `bs`, as get_control_sum computes it. In closed form it is
      the one's complement of (0xFF + the sum of the bytes) mod 256. */
  function ControlSum(bs: seq<byte>): (r: byte)
    ensures r == 0xFF - (0xFF + Sum(bs)) % 0x100
  {
    AccumulateIsSum(0xFF, bs);
    Invert(Accumulate(0xFF, bs))
  }

  /** The plain (unbounded) sum of the bytes of `bs`. */
  function Sum(bs: seq<byte>): nat
    decreases |bs|
  {
    if |bs| == 0 then 0 else Sum(bs[..|bs| - 1]) + bs[|bs| - 1]
  }

  lemma {:induction false} SumAppend(a: seq<byte>, b: seq<byte>)
    ensures Sum(a + b) == Sum(a) + Sum(b)
    decreases |b|
  {
    if |b| == 0 {
      assert a + b == a;
    } else {
      var b' := b[..|b| - 1];
      assert (a + b)[..|a + b| - 1] == a + b';
      SumAppend(a, b');
    }
  }

  lemma {:induction false} AccumulateIsSum(s: byte, bs: seq<byte>)
    ensures Accumulate(s, bs) == (s + Sum(bs)) % 0x100
    decreases |bs|
  {
    if |bs| > 0 {
      var init := bs[..|bs| - 1];
      AccumulateIsSum(s, init);
      SumMod(s + Sum(init), bs[|bs| - 1]);
    }
  }

  /** Reducing a partial sum modulo 256 before adding the next byte changes nothing. */
  lemma SumMod(a: nat, b: byte)
    ensures (a % 0x100 + b) % 0x100 == (a + b) % 0x100
  {
    DivMod(a / 0x100, a % 0x100 + b - 0x100 * ((a % 0x100 + b) / 0x100), 0x100);
  }

  /** The closed form as get_control_sum writes it: (0xFF + the sum of the bytes) mod 256,
      XOR 0xFF. */
  lemma ControlSumIsXor(bs: seq<byte>)
    ensures ControlSum(bs) == ((((0xFF + Sum(bs)) % 0x100) as bv8) ^ 0xFF) as int
  {
    AccumulateIsSum(0xFF, bs);
  }

  /** A leading zero byte (the not yet filled checksum field) does not change the checksum. */
  lemma LeadingZeroIgnored(bs: seq<byte>)
    ensures ControlSum([0] + bs) == ControlSum(bs)
  {
    SumAppend([0], bs);
    assert Sum([0]) == Sum([]) + 0 by { assert [0][..0] == []; }
  }

  /** A span whose first byte holds the checksum of the rest sums, as a whole, to a checksum
      of 0: the receiving side can check a frame by summing all of it. */
  lemma CompletedSpanSumsToZero(bs: seq<byte>)
    ensures ControlSum([ControlSum(bs)] + bs) == 0
  {
    var c := ControlSum(bs);
    SumAppend([c], bs);
    assert Sum([c]) == c by { assert [c][..0] == []; }
    ComplementCompletesByte(Sum(bs));
  }

  /** Adding to 0xFF + t its own complement modulo 256 leaves 0xFF modulo 256. */
  lemma ComplementCompletesByte(t: nat)
    ensures (0xFF + (0xFF - (0xFF + t) % 0x100) + t) % 0x100 == 0xFF
  {
    var total := 0xFF + t;
    DivMod(total / 0x100, total % 0x100, 0x100);
    assert 0xFF + (0xFF - total % 0x100) + t == (total / 0x100 + 1) * 0x100 + 0xFF - 0x100;
    DivMod(total / 0x100, 0xFF, 0x100);
  }

  /** get_control_sum: walks `length` bytes from the start of `data`, adding each to an
      8-bit accumulator that starts at 0xFF, and returns the accumulator XOR 0xFF. */
  method GetControlSum(data: array<byte>, length: uint16) returns (r: byte)
    requires length <= data.Length
    ensures r == ControlSum(data[..length])
  {
    var s: byte := 0xFF;
    var p := 0;
    var n: int := length;
    while n > 0
      invariant 0 <= n && p + n == length
      invariant s == Accumulate(0xFF, data[..p])
      decreases n
    {
      assert data[..p + 1][..p] == data[..p];
      s := Add8(s, data[p]);
      p := p + 1;
      n := n - 1;
    }
    r := Invert(s);
  }

  /** update_control_sum: stores in the first byte of a frame image the checksum of the
      whole image, that first byte included; the rest of the image is left as it was. */
  method UpdateControlSum(command: array<byte>)
    requires 1 <= command.Length < 0x1_0000
    modifies command
    ensures command[0] == ControlSum(old(command[..]))
    ensures command[1..] == old(command[1..])
  {
    assert command[..command.Length] == command[..];
    var s := GetControlSum(command, command.Length);
    command[0] := s;
  }
}
