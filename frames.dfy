/** The frame structs of the protocol as explicit byte layouts. Every frame is a 6-byte
    header [checksum, version, type, command id, length low, length high] followed by
    `length` payload bytes. The checksum is filled in on send only; nothing received is
    ever checked. */
module Frames {
  import opened Bytes
  import opened Checksum
  import opened CommandWord
  import opened Opt

  const HeaderSize := 6
  const ProtocolVersion: byte := 0x03

  /** command_type values of the frames the controller sends: PASSWORD is 0, Command_MOVE is 2. */
  const TypeUnlock: byte := 0x00
  const TypeCommand: byte := 0x02

  /** The device unlock key carried by every PASSWORD frame. */
  const UnlockKey: seq<byte> := [0xEF, 0xCD, 0xAB, 0x89, 0x67, 0x45, 0x23, 0x01]

  /** Sizes of the structs as the compiler lays them out. RESPONSE and STATUS hold 13 bytes
      of fields and one byte of padding after them (the header's 16-bit field makes the
      struct 2-aligned), so the controller reads one byte less than their size. */
  const RequestSize := 6
  const PasswordSize := 14
  const MoveSize := 10
  const ResponseSize := 14
  const StatusSize := 14

  /** The header fields of a frame. */
  datatype Header = Header(checksum: byte, version: byte, kind: byte, id: byte, length: uint16)

  /** A frame struct as freshly constructed: the checksum field still 0, version 3,
      command id 0, the payload length in little-endian order, then the payload. */
  function Image(kind: byte, payload: seq<byte>): (r: seq<byte>)
    requires |payload| < 0x1_0000
    ensures |r| == HeaderSize + |payload| && r[HeaderSize..] == payload
    ensures r[0] == 0 && r[1] == ProtocolVersion && r[2] == kind && r[3] == 0
    ensures r[4] as int + 0x100 * r[5] as int == |payload|
  {
    [0, ProtocolVersion, kind, 0, Lo(|payload|), Hi(|payload|)] + payload
  }

  /** update_control_sum applied to a frame image: the first byte becomes the checksum of
      the whole image, that byte included, and nothing else changes. When that byte was
      still 0, it ends up holding the checksum of everything after it. */
  function Seal(image: seq<byte>): (r: seq<byte>)
    requires |image| >= 1
    ensures |r| == |image| && r[1..] == image[1..]
    ensures r[0] == ControlSum(image)
    ensures image[0] == 0 ==> r[0] == ControlSum(r[1..])
  {
    if image[0] == 0 then
      assert image == [0] + image[1..];
      LeadingZeroIgnored(image[1..]);
      [ControlSum(image)] + image[1..]
    else
      [ControlSum(image)] + image[1..]
  }

  /** The bytes `send` writes for a fresh frame of type `kind`: exactly 6 + length bytes,
      the header fields in order, the payload verbatim, and a first byte that equals the
      checksum of everything after it. */
  function Encode(kind: byte, payload: seq<byte>): (r: seq<byte>)
    requires |payload| < 0x1_0000
    ensures |r| == HeaderSize + |payload|
    ensures r[1] == ProtocolVersion && r[2] == kind && r[3] == 0
    ensures r[4] as int + 0x100 * r[5] as int == |payload|
    ensures r[HeaderSize..] == payload
    ensures r[0] == ControlSum(r[1..])
  {
    Seal(Image(kind, payload))
  }

  /** Reads the header of a received frame; nothing shorter than a header has one. */
  function DecodeHeader(bytes: seq<byte>): (h: Option<Header>)
    ensures h.Some? <==> |bytes| >= HeaderSize
  {
    if |bytes| < HeaderSize then None
    else Some(Header(bytes[0], bytes[1], bytes[2], bytes[3], bytes[4] as int + 0x100 * bytes[5] as int))
  }

  /** Reading back the header of an encoded frame gives the fields it was built from. */
  lemma DecodeHeaderOfEncode(kind: byte, payload: seq<byte>)
    requires |payload| < 0x1_0000
    ensures DecodeHeader(Encode(kind, payload))
         == Some(Header(ControlSum(Encode(kind, payload)[1..]), ProtocolVersion, kind, 0, |payload|))
  {
  }

  /** The checksum computed over a whole encoded frame, its filled checksum byte included,
      comes out 0. */
  lemma EncodedFrameChecks(kind: byte, payload: seq<byte>)
    requires |payload| < 0x1_0000
    ensures ControlSum(Encode(kind, payload)) == 0
  {
    var r := Encode(kind, payload);
    assert r == [ControlSum(r[1..])] + r[1..];
    CompletedSpanSumsToZero(r[1..]);
  }

  /** The PASSWORD frame: type 0, and the unlock key as its 8-byte payload. */
  function PasswordFrame(): (r: seq<byte>)
    ensures |r| == PasswordSize && r[HeaderSize..] == UnlockKey
  {
    Encode(TypeUnlock, UnlockKey)
  }

  /** The PASSWORD struct as constructed, before its checksum is filled in. */
  const PasswordImage: seq<byte> :=
    [0x00, 0x03, 0x00, 0x00, 0x08, 0x00, 0xEF, 0xCD, 0xAB, 0x89, 0x67, 0x45, 0x23, 0x01]

  /** Running sums of the PASSWORD frame image, byte by byte. */
  const PasswordPrefixSums: seq<nat> :=
    [0, 0, 3, 3, 3, 11, 11, 250, 455, 626, 763, 866, 935, 970, 971]

  /** The bytes of the PASSWORD frame image add up to 971. */
  lemma PasswordImageSum()
    ensures Sum(PasswordImage) == 971
  {
    var image := PasswordImage;
    assert image[..0] == [];
    var k := 0;
    while k < |image|
      invariant k <= |image|
      invariant Sum(image[..k]) == PasswordPrefixSums[k]
    {
      assert image[..k + 1][..k] == image[..k];
      k := k + 1;
    }
    assert image[..|image|] == image;
  }

  /** A frame whose image adds up to `total` goes out with 0xFF - (0xFF + total) mod 256
      in front of the rest of the image. */
  lemma EncodeOfSum(kind: byte, payload: seq<byte>, image: seq<byte>, total: nat)
    requires |payload| < 0x1_0000 && Image(kind, payload) == image && Sum(image) == total
    ensures Encode(kind, payload) == [0xFF - (0xFF + total) % 0x100] + image[1..]
  {
  }

  /** The PASSWORD frame is its constructed image with 0x35 in the checksum byte. */
  lemma PasswordChecksum()
    ensures PasswordFrame() == [0x35] + PasswordImage[1..]
  {
    assert Image(TypeUnlock, UnlockKey) == PasswordImage;
    PasswordImageSum();
    EncodeOfSum(TypeUnlock, UnlockKey, PasswordImage, 971);
    DivMod(4, 0xCA, 0x100);
  }

  /** The PASSWORD frame byte for byte. */
  lemma PasswordFrameBytes()
    ensures PasswordFrame()
         == [0x35, 0x03, 0x00, 0x00, 0x08, 0x00, 0xEF, 0xCD, 0xAB, 0x89, 0x67, 0x45, 0x23, 0x01]
  {
    PasswordChecksum();
  }

  /** A Command_MOVE frame: type 2, and the command word's four bytes as its payload. */
  function MoveFrame(c: Smsd): (r: seq<byte>)
    ensures |r| == MoveSize
  {
    Encode(TypeCommand, WordBytes(Pack(c)))
  }

  /** The device finds in a move frame's payload the very struct the controller packed,
      as long as every field fits its width. */
  lemma MoveFrameCarries(c: Smsd)
    requires c.InRange()
    ensures Unpack(WordFromBytes(MoveFrame(c)[HeaderSize..])) == c
  {
    UnpackPack(c);
  }

  /** `PASSWORD password;`: the struct with its default member values. */
  method NewPassword() returns (p: array<byte>)
    ensures fresh(p) && p[..] == Image(TypeUnlock, [0, 0, 0, 0, 0, 0, 0, 0])
  {
    p := new byte[PasswordSize](_ => 0);
    p[1], p[4] := ProtocolVersion, 0x08;
  }

  /** `Command_MOVE command_move;`: the struct with its default member values. */
  method NewCommandMove() returns (m: array<byte>)
    ensures fresh(m) && m[..] == Image(TypeCommand, [0, 0, 0, 0])
  {
    m := new byte[MoveSize](_ => 0);
    m[1], m[2], m[4] := ProtocolVersion, TypeCommand, 0x04;
  }
}
