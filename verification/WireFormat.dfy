// The bytes themselves, as numbers: what encodeFrame puts on the wire, and what decodeFrame makes
// of any bytes at all.
module WireFormat {
  import opened Bytes
  import opened Bits
  import opened Frames
  import opened Decoding
  import opened Encoding

  /** The bits of a byte, and its number: what they weigh together. */
  lemma Weights(b: byte)
    ensures Bit(b, 0) == (b & 0x01 != 0) && Bit(b, 1) == (b & 0x02 != 0)
    ensures Bit(b, 2) == (b & 0x04 != 0) && Bit(b, 3) == (b & 0x08 != 0)
    ensures Bit(b, 4) == (b & 0x10 != 0) && Bit(b, 5) == (b & 0x20 != 0)
    ensures Bit(b, 6) == (b & 0x40 != 0) && Bit(b, 7) == (b & 0x80 != 0)
    ensures Value(b) == Digit(Bit(b, 0)) + 2 * Digit(Bit(b, 1)) + 4 * Digit(Bit(b, 2)) + 8 * Digit(Bit(b, 3))
                      + 16 * Digit(Bit(b, 4)) + 32 * Digit(Bit(b, 5)) + 64 * Digit(Bit(b, 6)) + 128 * Digit(Bit(b, 7))
  {
    hide *;
    LowTested(b);
    HighTested(b);
    WeightsOfBits(b);
  }

  lemma WeightsOfBits(b: byte)
    ensures Value(b) == Digit(Bit(b, 0)) + 2 * Digit(Bit(b, 1)) + 4 * Digit(Bit(b, 2)) + 8 * Digit(Bit(b, 3))
                      + 16 * Digit(Bit(b, 4)) + 32 * Digit(Bit(b, 5)) + 64 * Digit(Bit(b, 6)) + 128 * Digit(Bit(b, 7))
  {
    hide Bit, Digit, ValueFrom;
    FromHere(b, 0);
    FromHere(b, 1);
    FromHere(b, 2);
    FromHere(b, 3);
    FromHere(b, 4);
    FromHere(b, 5);
    FromHere(b, 6);
    FromHere(b, 7);
  }

  lemma FromHere(b: byte, i: nat)
    requires i < 8
    ensures ValueFrom(b, i) == Digit(Bit(b, i)) + if i == 7 then 0 else 2 * ValueFrom(b, i + 1)
  {
    hide Bit;
    if i == 7 {
      assert ValueFrom(b, 8) == 0;
    }
  }

  lemma LowTested(b: byte)
    ensures Bit(b, 0) == (b & 0x01 != 0) && Bit(b, 1) == (b & 0x02 != 0)
    ensures Bit(b, 2) == (b & 0x04 != 0) && Bit(b, 3) == (b & 0x08 != 0)
  {
  }

  lemma HighTested(b: byte)
    ensures Bit(b, 4) == (b & 0x10 != 0) && Bit(b, 5) == (b & 0x20 != 0)
    ensures Bit(b, 6) == (b & 0x40 != 0) && Bit(b, 7) == (b & 0x80 != 0)
  {
  }

  // ---------------------------------------------------------------------------------
  // What is sent
  // ---------------------------------------------------------------------------------

  /** The four mask bytes stand at `at`, and xored with them the rest of the chunk is p. */
  predicate Covers(c: seq<byte>, at: nat, p: seq<byte>) {
    && |c| == at + 4 + |p|
    && c[at..at + 4] == [0x02, 0x08, 0x20, 0x80]
    && forall i :: 0 <= i < |p| ==> c[at + 4 + i] ^ c[at + i % 4] == p[i]
  }

  /** A frame whose header is the numbers b0 and b1, with no length field. */
  predicate Short(c: seq<byte>, b0: nat, b1: nat, p: seq<byte>) {
    Covers(c, 2, p) && Value(c[0]) == b0 && Value(c[1]) == b1
  }

  /** A masked frame with header number b0, and its length in 16 bits, low byte first. */
  predicate Long(c: seq<byte>, b0: nat, p: seq<byte>) {
    Covers(c, 4, p) && Value(c[0]) == b0 && Value(c[1]) == 1 + 2 * 126 && Value(c[2]) + 256 * Value(c[3]) == |p|
  }

  lemma Covered(front: seq<byte>, p: seq<byte>)
    ensures Covers(front + MASK_CODE + Masked(p), |front|, p)
  {
    var c := front + MASK_CODE + Masked(p);
    forall i | 0 <= i < |p| ensures c[|front| + 4 + i] ^ c[|front| + i % 4] == p[i] {
      XorTwice(p[i], MaskByte(i));
      assert c[|front| + 4 + i] == Masked(p)[i];
    }
  }

  lemma ShortFrame(h: Head, p: seq<byte>)
    ensures Short(RawFrame(h, [], Masked(p)), Digit(h.fin) + 2 * h.rsv + 16 * h.opcode,
                  Digit(h.mask) + 2 * h.payloadLen, p)
  {
    hide HeadBytes, Value, Masked, Covers;
    var b := HeadBytes(h);
    HeadNumbers(h);
    Covered(b, p);
    assert b + [] == b;
  }

  lemma LongFrame(h: Head, p: seq<byte>)
    requires h.mask && h.payloadLen == SHORT_LENGTH && |p| < 0x10000
    ensures Long(RawFrame(h, Le16(|p|), Masked(p)), Digit(h.fin) + 2 * h.rsv + 16 * h.opcode, p)
  {
    hide HeadBytes, Value, Masked, Covers, Le16;
    var b, n := HeadBytes(h), Le16(|p|);
    HeadNumbers(h);
    LengthBytes(|p|);
    Covered(b + n, p);
    assert (b + n)[0] == b[0] && (b + n)[1] == b[1] && (b + n)[2] == n[0] && (b + n)[3] == n[1];
  }

  lemma LengthBytes(n: nat)
    requires n < 0x10000
    ensures Value(Le16(n)[0]) + 256 * Value(Le16(n)[1]) == n
  {
    hide ToByte, Value;
    ToByteValue(n % 256);
    ToByteValue(n / 256);
  }

  /** The opcode of a message, as the protocol numbers it. */
  predicate Numbered(op: OpCode, k: nat) {
    && (op.Continue? ==> k == 0) && (op.Text? ==> k == 1) && (op.Blob? ==> k == 2)
    && (op.Close? ==> k == 8) && (op.Ping? ==> k == 9) && (op.Pong? ==> k == 10)
  }

  /** Chunk i of a message that is cut into slices, of which n come in all. */
  predicate Slice(c: seq<byte>, k: nat, p: seq<byte>, i: nat, n: nat)
    requires i < n && 500 * (n - 1) <= |p| <= 500 * n && |p| >= 500
  {
    var r := |p| % 500;
    if i == 0 || i + 1 < n then Long(c, if i == 0 then 16 * k else 0, p[500 * i..500 * i + 500])
    else if r < 126 then Short(c, 1, 1 + 2 * r, p[500 * i - 500..500 * i - 500 + r])
    else Long(c, 1, p[500 * i..])
  }

  /** A slice of the masked message, framed with its own length. */
  lemma LongSlice(h: Head, p: seq<byte>, a: nat, n: nat)
    requires h.mask && h.payloadLen == SHORT_LENGTH && n < 0x10000 && a + n <= |p| && a % 4 == 0
    ensures Long(RawFrame(h, Le16(n), Masked(p)[a..a + n]), Digit(h.fin) + 2 * h.rsv + 16 * h.opcode, p[a..a + n])
  {
    hide Masked, Long, RawFrame, Le16;
    MaskedSlice(p, a, a + n);
    LongFrame(h, p[a..a + n]);
  }

  lemma ShortSlice(h: Head, p: seq<byte>, a: nat, n: nat)
    requires a + n <= |p| && a % 4 == 0
    ensures Short(RawFrame(h, [], Masked(p)[a..a + n]), Digit(h.fin) + 2 * h.rsv + 16 * h.opcode,
                  Digit(h.mask) + 2 * h.payloadLen, p[a..a + n])
  {
    hide Masked, Short, RawFrame;
    MaskedSlice(p, a, a + n);
    ShortFrame(h, p[a..a + n]);
  }

  /** How many slices there are, and where each lies. */
  lemma SliceBounds(n: nat, i: nat)
    requires n >= 500 && i < Slices(n)
    ensures 500 * (Slices(n) - 1) < n <= 500 * Slices(n)
    ensures i == 0 || i + 1 < Slices(n) ==> 500 * i + 500 <= n
    ensures i > 0 && i + 1 == Slices(n) ==> 500 * i <= n && (n % 500 > 0 ==> 500 * i + n % 500 == n)
  {
  }

  /** Slices start on multiples of the mask's length. */
  lemma OnPeriod(i: nat)
    ensures 500 * i % 4 == 0 && (i > 0 ==> (500 * i - 500) % 4 == 0)
  {
    assert 500 * i == 4 * (125 * i) && 500 * i - 500 == 4 * (125 * i - 125);
  }

  lemma OpeningBytes(code: nibble, p: seq<byte>, i: nat)
    requires |p| >= 500 && i < Slices(|p|) && (i == 0 || i + 1 < Slices(|p|)) && 500 * i + 500 <= |p|
    ensures Long(Fragment(code, Masked(p), i), if i == 0 then 16 * code else 0, p[500 * i..500 * i + 500])
  {
    hide Masked, Long, RawFrame, Le16, Slices;
    OnPeriod(i);
    LongSlice(Head(false, 0, if i == 0 then code else CONTINUE, true, SHORT_LENGTH), p, 500 * i, 500);
  }

  /** The last fragment of a message that is masked already. */
  lemma TailIs(code: nibble, m: seq<byte>, i: nat)
    requires |m| >= 500 && 0 < i && i + 1 == Slices(|m|) && 500 * i <= |m|
    requires |m| % 500 > 0 ==> 500 * i + |m| % 500 == |m|
    ensures var r := |m| % 500;
            Fragment(code, m, i) == if r < 126
              then RawFrame(Head(true, 0, CONTINUE, true, r), [], m[500 * i - 500..500 * i - 500 + r])
              else RawFrame(Head(true, 0, CONTINUE, true, SHORT_LENGTH), Le16(r), m[500 * i..500 * i + r])
  {
    hide RawFrame, Le16, Slices;
  }

  lemma TailShort(p: seq<byte>, a: nat, r: nat)
    requires a + r <= |p| && a % 4 == 0 && r < 126
    ensures Short(RawFrame(Head(true, 0, CONTINUE, true, r), [], Masked(p)[a..a + r]), 1, 1 + 2 * r, p[a..a + r])
  {
    hide Masked, Short, RawFrame;
    ShortSlice(Head(true, 0, CONTINUE, true, r), p, a, r);
  }

  lemma TailLong(p: seq<byte>, a: nat, r: nat)
    requires a + r == |p| && a % 4 == 0 && r < 500
    ensures Long(RawFrame(Head(true, 0, CONTINUE, true, SHORT_LENGTH), Le16(r), Masked(p)[a..a + r]), 1, p[a..])
  {
    hide Masked, Long, RawFrame, Le16;
    assert p[a..a + r] == p[a..];
    LongSlice(Head(true, 0, CONTINUE, true, SHORT_LENGTH), p, a, r);
  }

  lemma SliceBytes(code: nibble, p: seq<byte>, i: nat)
    requires |p| >= 500 && i < Slices(|p|)
    ensures 500 * (Slices(|p|) - 1) < |p| <= 500 * Slices(|p|)
    ensures Slice(Fragment(code, Masked(p), i), code, p, i, Slices(|p|))
  {
    hide Masked, Short, Long, Fragment, Slices, RawFrame, Le16;
    SliceBounds(|p|, i);
    OnPeriod(i);
    if i == 0 || i + 1 < Slices(|p|) {
      OpeningBytes(code, p, i);
    } else {
      TailIs(code, Masked(p), i);
      if |p| % 500 < 126 {
        TailShort(p, 500 * i - 500, |p| % 500);
      } else {
        TailLong(p, 500 * i, |p| % 500);
      }
    }
  }

  /** What a send of op and p puts on the wire, byte by byte. */
  predicate OnTheWire(chunks: seq<seq<byte>>, op: OpCode, k: nat, p: seq<byte>, stack: Head) {
    var n := |p|;
    if op.Continue? then chunks == []
    else if op.Text? || op.Blob? then
      if n < 126 then |chunks| == 1 && Short(chunks[0], 1 + 16 * k, 1 + 2 * n, p)
      else if n < 500 then |chunks| == 1 && Long(chunks[0], 1 + 16 * k, p)
      else
        && 500 * (|chunks| - 1) < n <= 500 * |chunks|
        && forall i :: 0 <= i < |chunks| ==> Slice(chunks[i], k, p, i, |chunks|)
    else
      && |chunks| == 1
      && Short(chunks[0], 1 + 2 * stack.rsv + 16 * k,
               (if op.Close? && !stack.mask then 0 else 1) + 2 * (n % 128), p)
  }

  lemma SlicedBytes(k: nibble, p: seq<byte>)
    requires |p| >= 500
    ensures var chunks := Fragments(k, Masked(p));
            && 500 * (|chunks| - 1) < |p| <= 500 * |chunks|
            && forall i :: 0 <= i < |chunks| ==> Slice(chunks[i], k, p, i, |chunks|)
  {
    hide Masked, Slice, Fragment, Slices;
    AnySlice(|p|);
    SliceBounds(|p|, 0);
    forall i | 0 <= i < Slices(|p|) ensures Slice(Fragment(k, Masked(p), i), k, p, i, Slices(|p|)) {
      SliceBytes(k, p, i);
    }
  }

  lemma AnySlice(n: nat)
    ensures n > 0 ==> Slices(n) > 0
  {
  }

  lemma DataBytes(op: OpCode, p: seq<byte>, stack: Head, k: nibble)
    requires Numbered(op, k) && (op.Text? || op.Blob?) && p != []
    ensures var e := EncodeFrame(op, p, stack);
            e.Sent? && OnTheWire(e.chunks, op, k, p, stack)
  {
    hide Masked, Short, Long, RawFrame, Slice, Fragments, Le16;
    if |p| < 126 {
      ShortFrame(Head(true, 0, k, true, |p|), p);
    } else if |p| < 500 {
      LongFrame(Head(true, 0, k, true, SHORT_LENGTH), p);
    } else {
      SlicedBytes(k, p);
    }
  }

  lemma ControlBytes(op: OpCode, p: seq<byte>, stack: Head, k: nibble)
    requires Numbered(op, k) && (op.Close? || op.Ping? || op.Pong?) && p != []
    ensures var e := EncodeFrame(op, p, stack);
            e.Sent? && OnTheWire(e.chunks, op, k, p, stack)
  {
    hide Masked, Short, RawFrame;
    Truncated(|p|);
    ShortFrame(Head(true, stack.rsv, k, if op.Close? then stack.mask else true, |p| % 128), p);
  }

  /** A length goes through eight bits into seven. */
  lemma Truncated(n: nat)
    ensures n % 256 % 128 == n % 128
  {
  }

  /**
   * encodeFrame, for every message: refused exactly when there is something to mask and it is empty;
   * else the header numbers, lengths, mask bytes and masked payload of each chunk.
   */
  lemma EncodedBytes(op: OpCode, p: seq<byte>, stack: Head, k: nat)
    requires Numbered(op, k)
    ensures var e := EncodeFrame(op, p, stack);
            && (e.Refused? <==> !op.Continue? && p == [])
            && (e.Sent? ==> OnTheWire(e.chunks, op, k, p, stack))
  {
    if p == [] || op.Continue? {
      hide Masked;
    } else if op.Text? || op.Blob? {
      hide *;
      DataBytes(op, p, stack, k);
    } else {
      hide EncodeFrame, OnTheWire;
      ControlBytes(op, p, stack, k);
    }
  }

  /** Two bytes of the same number are the same byte. */
  lemma SameValue(a: byte, b: byte)
    requires Value(a) == Value(b)
    ensures a == b
  {
    hide *;
    ValueToByte(a);
    ValueToByte(b);
  }

  /** A text message of two bytes, in full. */
  lemma TextOnTheWire(stack: Head)
    ensures EncodeFrame(Text, [0x68, 0x69], stack) == Sent([[0x11, 0x05, 0x02, 0x08, 0x20, 0x80, 0x6A, 0x61]])
  {
    hide EncodeFrame, Value;
    var p: seq<byte> := [0x68, 0x69];
    EncodedBytes(Text, p, stack, 1);
    var c := EncodeFrame(Text, p, stack).chunks[0];
    Weights(0x11);
    Weights(0x05);
    SameValue(c[0], 0x11);
    SameValue(c[1], 0x05);
    assert c[2] == c[2..6][0] && c[3] == c[2..6][1] && c[4] == c[2..6][2] && c[5] == c[2..6][3];
    assert c[2 + 4 + 0] ^ c[2 + 0 % 4] == p[0] && c[2 + 4 + 1] ^ c[2 + 1 % 4] == p[1];
    XorBack(c[6], 0x02, 0x68);
    XorBack(c[7], 0x08, 0x69);
    assert c == [0x11, 0x05, 0x02, 0x08, 0x20, 0x80, 0x6A, 0x61];
    assert EncodeFrame(Text, p, stack).chunks == [c];
  }

  lemma XorBack(a: byte, k: byte, v: byte)
    requires a ^ k == v
    ensures a == v ^ k
  {
  }

  // ---------------------------------------------------------------------------------
  // What any bytes are read as
  // ---------------------------------------------------------------------------------

  // The header of a chunk of at least two bytes, as its numbers tell.
  predicate Fin(d: seq<byte>) requires |d| >= 2 { Value(d[0]) % 2 == 1 }
  predicate MaskBit(d: seq<byte>) requires |d| >= 2 { Value(d[1]) % 2 == 1 }
  function LengthCode(d: seq<byte>): nat requires |d| >= 2 { Value(d[1]) / 2 }
  function Length16(d: seq<byte>): nat requires |d| >= 4 { Value(d[2]) + 256 * Value(d[3]) }

  /** The chunk starts with f. What stands in its mask bytes makes no difference, the mask is fixed. */
  predicate Starts(d: seq<byte>, f: Frame) {
    var n := |f.payload|;
    var at := if f.extended then 8 else 6;
    && f.WellFormed()
    && |d| >= 2 && Value(d[0]) == Digit(f.fin) + 2 * f.rsv + 16 * f.opcode
    && Value(d[1]) == Digit(f.masked) + 2 * (if f.extended then 126 else n)
    && (f.extended ==> |d| >= (if f.fin then 4 else 8) && Length16(d) == n)
    && (n > 0 ==> |d| >= at + n)
    && forall i :: 0 <= i < n ==> f.payload[i] == if f.masked then d[at + i] ^ MASK_CODE[i % 4] else d[at + i]
  }

  /** The header fails an assertion: a short fragment, or a masked frame with no length to unmask. */
  predicate Asserts(d: seq<byte>) {
    && |d| >= 2
    && var code := LengthCode(d);
       || (!Fin(d) && code != 126)
       || (MaskBit(d) && (code == 0 || code == 127))
       || (MaskBit(d) && code == 126 && |d| >= (if Fin(d) then 4 else 8) && Length16(d) == 0)
  }

  /** The header has the code for a 64-bit length, on which the loop does not advance. */
  predicate Spins(d: seq<byte>) {
    |d| >= 2 && Fin(d) && !MaskBit(d) && LengthCode(d) == 127
  }

  function Refusal(d: seq<byte>): Stop {
    if Asserts(d) then AssertFails else if Spins(d) then NeverReturns else ReadsPastChunk
  }

  lemma HeaderNumbers(d: seq<byte>)
    requires |d| >= 2
    ensures var h := ToHead(d[0], d[1]);
            && h.fin == Fin(d) && h.mask == MaskBit(d) && h.payloadLen == LengthCode(d)
            && Value(d[0]) == Digit(h.fin) + 2 * h.rsv + 16 * h.opcode
            && Value(d[1]) == Digit(h.mask) + 2 * h.payloadLen
    ensures |d| >= 4 ==> FromLe16(d[2], d[3]) == Length16(d) < 0x10000
  {
    hide HeadBytes, ToHead, Value;
    var h := ToHead(d[0], d[1]);
    HeadOfNumbers(d[0], d[1]);
    Halves(h.fin, h.rsv + 8 * h.opcode, Value(d[0]));
    Halves(h.mask, h.payloadLen, Value(d[1]));
    if |d| >= 4 {
      ValueBelow256(d[2]);
      ValueBelow256(d[3]);
    }
  }

  lemma Halves(low: bool, high: nat, v: nat)
    requires v == Digit(low) + 2 * high
    ensures low == (v % 2 == 1) && high == v / 2
  {
  }

  /** Equal numbers are equal fields. */
  lemma FieldsOf(a: Head, b: Head)
    requires Digit(a.fin) + 2 * a.rsv + 16 * a.opcode == Digit(b.fin) + 2 * b.rsv + 16 * b.opcode
    requires Digit(a.mask) + 2 * a.payloadLen == Digit(b.mask) + 2 * b.payloadLen
    ensures a == b
  {
  }

  lemma StartsHead(d: seq<byte>, f: Frame)
    requires Starts(d, f)
    ensures ToHead(d[0], d[1]) == FrameHead(f)
    ensures f.extended ==> |d| >= (if f.fin then 4 else 8) && FromLe16(d[2], d[3]) == |f.payload|
  {
    hide ToHead, Value, FromLe16;
    HeaderNumbers(d);
    FieldsOf(ToHead(d[0], d[1]), FrameHead(f));
  }

  lemma StartsUntroubled(d: seq<byte>, f: Frame)
    requires Starts(d, f) && ToHead(d[0], d[1]) == FrameHead(f)
    requires f.extended ==> |d| >= (if f.fin then 4 else 8) && FromLe16(d[2], d[3]) == |f.payload|
    ensures var h := FrameHead(f);
            Trouble(h, d) == Done && LengthOf(h, d) == |f.payload| && PrefixOf(h) == f.Prefix()
  {
    hide ToHead, Value, FromLe16, Length16;
  }

  lemma StartsPayload(d: seq<byte>, f: Frame)
    requires Starts(d, f)
    requires var h := FrameHead(f);
             Trouble(h, d) == Done && LengthOf(h, d) == |f.payload| && PrefixOf(h) == f.Prefix()
    ensures PayloadOf(FrameHead(f), d) == f.payload
  {
    hide Trouble, Value, LengthOf, PrefixOf, MaskByte;
    var n, at := |f.payload|, f.Prefix();
    if n > 0 {
      var raw := d[at..at + n];
      forall i | 0 <= i < n ensures (if f.masked then Masked(raw) else raw)[i] == f.payload[i] {
        assert raw[i] == d[at + i];
        MaskedWith(i);
      }
    }
  }

  /** A frame the chunk starts with is taken: its fields, its payload, its whole length. */
  lemma TakesFrame(pending: seq<byte>, d: seq<byte>, f: Frame)
    requires Starts(d, f)
    ensures OneFrame(pending, d) == Absorb(pending, f.fin, f.opcode, f.payload, f.Prefix() + |f.payload|)
  {
    hide ToHead, Value, FromLe16, Absorb, Trouble, LengthOf, PrefixOf, PayloadOf;
    StartsHead(d, f);
    StartsUntroubled(d, f);
    StartsPayload(d, f);
  }

  /** The frame a chunk starts with, whenever its header and length are no trouble. */
  lemma FrameAt(d: seq<byte>) returns (f: Frame)
    requires |d| >= 2 && Trouble(ToHead(d[0], d[1]), d) == Done
    ensures Starts(d, f)
  {
    hide ToHead, Value, FromLe16, MaskByte, PayloadOf;
    var h := ToHead(d[0], d[1]);
    HeaderNumbers(d);
    f := Frame(h.fin, h.rsv, h.opcode, h.mask, h.payloadLen == 126, PayloadOf(h, d));
    PayloadBytes(h, d);
  }

  lemma PayloadBytes(h: Head, d: seq<byte>)
    requires Trouble(h, d) == Done
    ensures var n, at := LengthOf(h, d), PrefixOf(h);
            && |PayloadOf(h, d)| == n && (n > 0 ==> at + n <= |d|)
            && forall i :: 0 <= i < n ==>
                 PayloadOf(h, d)[i] == if h.mask then d[at + i] ^ MASK_CODE[i % 4] else d[at + i]
  {
    hide FromLe16, MaskByte;
    var n, at := LengthOf(h, d), PrefixOf(h);
    forall i | 0 <= i < n
      ensures PayloadOf(h, d)[i] == if h.mask then d[at + i] ^ MASK_CODE[i % 4] else d[at + i]
    {
      assert d[at..at + n][i] == d[at + i];
      MaskedWith(i);
    }
  }

  lemma MaskedWith(i: nat)
    ensures MaskByte(i) == MASK_CODE[i % 4]
  {
  }

  /** Trouble by the numbers. */
  lemma TroubleIs(d: seq<byte>)
    requires |d| >= 2 && Trouble(ToHead(d[0], d[1]), d) != Done
    ensures Trouble(ToHead(d[0], d[1]), d) == Refusal(d)
  {
    hide ToHead, Value, FromLe16, LengthCode, Length16, Fin, MaskBit;
    HeaderNumbers(d);
  }

  /** One turn of the loop on any bytes: a frame is taken, or the header's numbers say why none is. */
  lemma OneFrameExact(pending: seq<byte>, d: seq<byte>)
    ensures forall f :: Starts(d, f) ==>
      OneFrame(pending, d) == Absorb(pending, f.fin, f.opcode, f.payload, f.Prefix() + |f.payload|)
    ensures (forall f :: !Starts(d, f)) ==> OneFrame(pending, d) == Halt(Refusal(d))
  {
    hide Starts, Trouble, Refusal, Absorb, ToHead;
    forall f | Starts(d, f)
      ensures OneFrame(pending, d) == Absorb(pending, f.fin, f.opcode, f.payload, f.Prefix() + |f.payload|)
    {
      TakesFrame(pending, d, f);
    }
    if |d| < 2 {
      TooShort(d);
    } else if Trouble(ToHead(d[0], d[1]), d) == Done {
      var f := FrameAt(d);
    } else {
      TroubleIs(d);
    }
  }

  lemma TooShort(d: seq<byte>)
    requires |d| < 2
    ensures Refusal(d) == ReadsPastChunk
  {
  }

  /**
   * A chunk of any bytes, read from its front: the frames fs, up to its end, or up to bytes that
   * start no frame and are refused with `stop`.
   */
  ghost predicate ReadAs(d: seq<byte>, fs: seq<Frame>, stop: Stop)
    decreases |fs|
  {
    if fs == [] then (forall f :: !Starts(d, f)) && stop == Refusal(d)
    else
      var n := fs[0].Prefix() + |fs[0].payload|;
      && Starts(d, fs[0])
      && if n >= |d| then |fs| == 1 && stop == Done else ReadAs(d[n..], fs[1..], stop)
  }

  /** Any bytes can be read. */
  lemma {:induction false} EveryChunkReads(d: seq<byte>) returns (fs: seq<Frame>, stop: Stop)
    ensures ReadAs(d, fs, stop)
    decreases |d|
  {
    hide Starts, Refusal;
    if f :| Starts(d, f) {
      var n := f.Prefix() + |f.payload|;
      if n >= |d| {
        fs, stop := [f], Done;
      } else {
        fs, stop := EveryChunkReads(d[n..]);
        fs := [f] + fs;
        assert fs[1..] == fs[1..];
      }
    } else {
      fs, stop := [], Refusal(d);
    }
  }

  /** In one way only. */
  lemma {:induction false} OneReading(d: seq<byte>, fs: seq<Frame>, stop: Stop, gs: seq<Frame>, other: Stop)
    requires ReadAs(d, fs, stop) && ReadAs(d, gs, other)
    ensures fs == gs && stop == other
    decreases |fs|
  {
    hide Starts, Refusal;
    if fs != [] && gs != [] {
      var n := fs[0].Prefix() + |fs[0].payload|;
      OneStart(d, fs[0], gs[0]);
      if n < |d| {
        OneReading(d[n..], fs[1..], stop, gs[1..], other);
      }
      assert fs == [fs[0]] + fs[1..] && gs == [gs[0]] + gs[1..];
    }
  }

  lemma OneStart(d: seq<byte>, f: Frame, g: Frame)
    requires Starts(d, f) && Starts(d, g)
    ensures f == g
  {
    hide Value;
    FieldsOf(FrameHead(f), FrameHead(g));
    assert |f.payload| == |g.payload|;
    assert f.payload == g.payload;
  }

  /** Decoding any bytes does what the frames read in them mean, and then ends as the reading says. */
  lemma {:induction false} DecodesAsRead(pending: seq<byte>, d: seq<byte>, fs: seq<Frame>, stop: Stop)
    requires ReadAs(d, fs, stop)
    ensures var r := Assemble(pending, fs);
            DecodeLoop(pending, d) == if r.stop == Done then r.(stop := stop) else r
    decreases |fs|
  {
    hide Starts, Refusal, OneFrame, Absorb;
    OneFrameExact(pending, d);
    if fs != [] {
      var n := fs[0].Prefix() + |fs[0].payload|;
      var t := OneFrame(pending, d);
      UsedOnly(pending, fs[0]);
      if t.Next? && n < |d| {
        DecodesAsRead(t.pending, d[n..], fs[1..], stop);
      } else if t.Next? {
        assert fs[1..] == [];
        assert t.delivered + [] == t.delivered;
      }
    }
  }

  lemma UsedOnly(pending: seq<byte>, f: Frame)
    ensures var t := Absorb(pending, f.fin, f.opcode, f.payload, f.Prefix() + |f.payload|);
            var u := Absorb(pending, f.fin, f.opcode, f.payload, 0);
            && t.Next? == u.Next?
            && if t.Next?
               then t.pending == u.pending && t.delivered == u.delivered && t.used == f.Prefix() + |f.payload|
               else t == u
  {
  }

  /**
   * decodeFrame on a chunk of any bytes at all: it is too long, or it has exactly one reading, and
   * decoding does what the frames of that reading mean and ends as it ends.
   */
  lemma DecodeExact(pending: seq<byte>, d: seq<byte>)
    ensures |d| >= 4194304 ==> Decode(pending, d) == Result(AssertFails, pending, [])
    ensures exists fs, stop :: ReadAs(d, fs, stop)
    ensures |d| < 4194304 ==> forall fs, stop :: ReadAs(d, fs, stop) ==>
      var r := Assemble(pending, fs); Decode(pending, d) == if r.stop == Done then r.(stop := stop) else r
  {
    hide ReadAs, Assemble, DecodeLoop;
    var gs, other := EveryChunkReads(d);
    forall fs, stop | |d| < 4194304 && ReadAs(d, fs, stop)
      ensures var r := Assemble(pending, fs); Decode(pending, d) == if r.stop == Done then r.(stop := stop) else r
    {
      DecodesAsRead(pending, d, fs, stop);
    }
  }

  /** A chunk whose first header asserts or spins starts no frame, and nothing of it is delivered. */
  lemma HeaderRefused(pending: seq<byte>, d: seq<byte>)
    requires |d| < 4194304 && (Asserts(d) || Spins(d))
    ensures forall f :: !Starts(d, f)
    ensures Decode(pending, d) == Result(if Asserts(d) then AssertFails else NeverReturns, pending, [])
  {
    forall f ensures !Starts(d, f) {
      NotBoth(d, f);
    }
    hide Starts, OneFrame, Asserts, Spins;
    OneFrameExact(pending, d);
  }

  lemma NotBoth(d: seq<byte>, f: Frame)
    ensures Starts(d, f) ==> !Asserts(d) && !Spins(d)
  {
    hide Value, ToHead;
    if Starts(d, f) {
      Halves(f.fin, f.rsv + 8 * f.opcode, Value(d[0]));
      Halves(f.masked, if f.extended then 126 else |f.payload|, Value(d[1]));
    }
  }

  /** The bytes of frames are read as those frames. */
  lemma {:induction false} WiresRead(fs: seq<Frame>)
    requires fs != [] && forall f :: f in fs ==> f.WellFormed()
    ensures ReadAs(Flatten(Wires(fs)), fs, Done)
    decreases |fs|
  {
    hide Starts, Refusal, Wire;
    var d, rest := Flatten(Wires(fs)), Flatten(Wires(fs[1..]));
    assert Wires(fs)[1..] == Wires(fs[1..]);
    assert d == Wire(fs[0]) + rest;
    WireStarts(fs[0], rest);
    if fs[1..] == [] {
      assert rest == [];
    } else {
      assert d[|Wire(fs[0])|..] == rest;
      WiresRead(fs[1..]);
      assert rest == Wire(fs[1]) + Flatten(Wires(fs[1..])[1..]);
    }
  }

  lemma WireStarts(f: Frame, rest: seq<byte>)
    requires f.WellFormed()
    ensures Starts(Wire(f) + rest, f)
  {
    hide Value, HeadBytes, Le16, Wire;
    var d := Wire(f) + rest;
    HeadNumbers(FrameHead(f));
    if f.extended {
      LengthBytes(|f.payload|);
    }
    WireFront(f, rest);
    WireBody(f, rest);
  }

  lemma WireFront(f: Frame, rest: seq<byte>)
    requires f.WellFormed()
    ensures var d, h := Wire(f) + rest, HeadBytes(FrameHead(f));
            && |d| >= f.Prefix() + |f.payload| && d[0] == h[0] && d[1] == h[1]
            && (f.extended ==> d[2] == Le16(|f.payload|)[0] && d[3] == Le16(|f.payload|)[1])
  {
    hide HeadBytes, Le16, Masked, FrameHead, Wire;
    var d := Wire(f) + rest;
    WireLayout(f, rest);
    assert d[0] == d[..2][0] && d[1] == d[..2][1];
    if f.extended {
      assert d[2] == d[2..4][0] && d[3] == d[2..4][1];
    }
  }

  lemma WireBody(f: Frame, rest: seq<byte>)
    requires f.WellFormed()
    ensures var d, at := Wire(f) + rest, f.Prefix();
            forall i :: 0 <= i < |f.payload| ==>
              f.payload[i] == if f.masked then d[at + i] ^ MASK_CODE[i % 4] else d[at + i]
  {
    hide HeadBytes, Le16, Masked, MaskByte, FrameHead, Wire;
    WireLayout(f, rest);
    if f.masked {
      MaskedBody(Wire(f) + rest, f.Prefix(), f.payload);
    } else {
      PlainBody(Wire(f) + rest, f.Prefix(), f.payload);
    }
  }

  lemma MaskedBody(d: seq<byte>, at: nat, p: seq<byte>)
    requires at + |p| <= |d| && d[at..at + |p|] == Masked(p)
    ensures forall i :: 0 <= i < |p| ==> p[i] == d[at + i] ^ MASK_CODE[i % 4]
  {
    forall i | 0 <= i < |p| ensures p[i] == d[at + i] ^ MASK_CODE[i % 4] {
      assert d[at + i] == d[at..at + |p|][i];
      MaskedBack(p, i);
      hide Masked;
    }
  }

  lemma PlainBody(d: seq<byte>, at: nat, p: seq<byte>)
    requires at + |p| <= |d| && d[at..at + |p|] == p
    ensures forall i :: 0 <= i < |p| ==> p[i] == d[at + i]
  {
  }

  lemma MaskedBack(p: seq<byte>, i: nat)
    requires i < |p|
    ensures p[i] == Masked(p)[i] ^ MASK_CODE[i % 4]
  {
    XorTwice(p[i], MaskByte(i));
  }
}
