// The bytes of a frame: the two-byte bit-field header, the optional 16-bit length, the
// mask and the masked payload, in the layout WSHead has on a little-endian machine.
module Frames {
  import opened Bytes
  import opened Bits

  const MASK_CODE: seq<byte> := [0x02, 0x08, 0x20, 0x80]
  const SHORT_LENGTH: nat := 126
  const CONTINUE: nibble := 0
  const TEXT: nibble := 1
  const BLOB: nibble := 2

  // The widths of WSHead's bit-fields.
  type bits3 = n: nat | n < 8
  type nibble = n: nat | n < 16
  type bits7 = n: nat | n < 128

  // ---------------------------------------------------------------------------------
  // Masking
  // ---------------------------------------------------------------------------------

  function MaskByte(i: nat): byte {
    MASK_CODE[i % 4]
  }

  /** Byte i is xored with byte i % 4 of the fixed mask; unmasking is the same function. */
  function Masked(p: seq<byte>): (r: seq<byte>)
    ensures |r| == |p|
    ensures forall i :: 0 <= i < |p| ==> r[i] == p[i] ^ MaskByte(i)
  {
    seq(|p|, i requires 0 <= i < |p| => p[i] ^ MaskByte(i))
  }

  lemma XorTwice(a: byte, k: byte)
    ensures (a ^ k) ^ k == a
  {
  }

  lemma MaskedTwice(p: seq<byte>)
    ensures Masked(Masked(p)) == p
  {
    hide MaskByte;
    forall i | 0 <= i < |p| ensures Masked(Masked(p))[i] == p[i] {
      XorTwice(p[i], MaskByte(i));
    }
  }

  /** A slice that starts on a multiple of four can be masked on its own. */
  lemma MaskedSlice(p: seq<byte>, a: nat, b: nat)
    requires a <= b <= |p| && a % 4 == 0
    ensures Masked(p)[a..b] == Masked(p[a..b])
  {
    forall i | 0 <= i < b - a ensures Masked(p)[a..b][i] == Masked(p[a..b])[i] {
      MaskPeriod(a, i);
      hide MaskByte, Masked;
    }
  }

  lemma MaskPeriod(a: nat, i: nat)
    requires a % 4 == 0
    ensures MaskByte(a + i) == MaskByte(i)
  {
    assert (a + i) % 4 == i % 4;
  }

  /** No byte survives masking, so a masked payload is never mistaken for the clear one. */
  lemma MaskedDiffers(p: seq<byte>)
    requires p != []
    ensures Masked(p) != p
  {
    assert Masked(p)[0] == p[0] ^ 0x02;
    XorChanges(p[0]);
  }

  lemma XorChanges(a: byte)
    ensures a ^ 0x02 != a
  {
  }

  // ---------------------------------------------------------------------------------
  // The header
  // ---------------------------------------------------------------------------------

  datatype Head = Head(fin: bool, rsv: bits3, opcode: nibble, mask: bool, payloadLen: bits7)

  /** Bit-fields are laid out from the low end: FIN, RSV, Opcode; then mask, PayloadLen. */
  function HeadBytes(h: Head): (r: seq<byte>)
    ensures |r| == 2
  {
    [ToByte(Digit(h.fin) + 2 * h.rsv + 16 * h.opcode), ToByte(Digit(h.mask) + 2 * h.payloadLen)]
  }

  function ToHead(b0: byte, b1: byte): Head {
    SmallPowers();
    Head(Bit(b0, 0), Number(b0, 1, 3), Number(b0, 4, 4), Bit(b1, 0), Number(b1, 1, 7))
  }

  /** Headers and byte pairs correspond one to one. */
  lemma HeadRoundTrip(h: Head)
    ensures ToHead(HeadBytes(h)[0], HeadBytes(h)[1]) == h
  {
    hide ToByte, Value, Bit, Number;
    var n0, n1 := Digit(h.fin) + 2 * h.rsv + 16 * h.opcode, Digit(h.mask) + 2 * h.payloadLen;
    var b0, b1 := ToByte(n0), ToByte(n1);
    ToByteValue(n0);
    ToByteValue(n1);
    ValueOfFields(b0);
    ValueOfFields(b1);
    SmallPowers();
  }

  lemma BytesRoundTrip(b0: byte, b1: byte)
    ensures HeadBytes(ToHead(b0, b1)) == [b0, b1]
  {
    hide ToByte, Value, Bit, Number;
    ValueToByte(b0);
    ValueToByte(b1);
    ValueOfFields(b0);
    ValueOfFields(b1);
    ValueBelow256(b0);
    ValueBelow256(b1);
  }

  /** The first byte is FIN, RSV and Opcode from the low end, the second mask and PayloadLen. */
  lemma HeadNumbers(h: Head)
    ensures Value(HeadBytes(h)[0]) == Digit(h.fin) + 2 * h.rsv + 16 * h.opcode
    ensures Value(HeadBytes(h)[1]) == Digit(h.mask) + 2 * h.payloadLen
  {
    hide ToByte, Value;
    ToByteValue(Digit(h.fin) + 2 * h.rsv + 16 * h.opcode);
    ToByteValue(Digit(h.mask) + 2 * h.payloadLen);
  }

  /** And so they are read. */
  lemma HeadOfNumbers(b0: byte, b1: byte)
    ensures var h := ToHead(b0, b1);
            && Value(b0) == Digit(h.fin) + 2 * h.rsv + 16 * h.opcode
            && Value(b1) == Digit(h.mask) + 2 * h.payloadLen
  {
    hide HeadBytes, ToHead, Value;
    HeadNumbers(ToHead(b0, b1));
    BytesRoundTrip(b0, b1);
  }

  function Le16(n: nat): (r: seq<byte>)
    requires n < 0x10000
    ensures |r| == 2
  {
    [ToByte(n % 256), ToByte(n / 256)]
  }

  function FromLe16(lo: byte, hi: byte): nat {
    Value(lo) + 256 * Value(hi)
  }

  lemma Le16RoundTrip(n: nat)
    requires n < 0x10000
    ensures FromLe16(Le16(n)[0], Le16(n)[1]) == n
  {
    hide ToByte, Value;
    ToByteValue(n % 256);
    ToByteValue(n / 256);
  }

  // ---------------------------------------------------------------------------------
  // Frames
  // ---------------------------------------------------------------------------------

  // `extended` frames carry their length in 16 bits; `payload` is the clear text.
  datatype Frame =
    Frame(fin: bool, rsv: bits3, opcode: nibble, masked: bool, extended: bool, payload: seq<byte>) {

    /** What the decoder can take: fragments are extended, masked frames are not empty. */
    predicate WellFormed() {
      && |payload| < (if extended then 0x10000 else SHORT_LENGTH)
      && (fin || extended)
      && (masked ==> payload != [])
    }

    function Prefix(): nat {
      if extended then 8 else 6
    }
  }

  function FrameHead(f: Frame): Head {
    Head(f.fin, f.rsv, f.opcode, f.masked, if f.extended then SHORT_LENGTH else |f.payload| % 128)
  }

  function Wire(f: Frame): (r: seq<byte>)
    requires f.WellFormed()
    ensures |r| == f.Prefix() + |f.payload|
  {
    HeadBytes(FrameHead(f))
    + (if f.extended then Le16(|f.payload|) else [])
    + MASK_CODE
    + (if f.masked then Masked(f.payload) else f.payload)
  }

  function Wires(fs: seq<Frame>): (r: seq<seq<byte>>)
    requires forall f :: f in fs ==> f.WellFormed()
    ensures |r| == |fs|
    ensures forall i :: 0 <= i < |fs| ==> r[i] == Wire(fs[i])
  {
    seq(|fs|, i requires 0 <= i < |fs| => Wire(fs[i]))
  }
}
