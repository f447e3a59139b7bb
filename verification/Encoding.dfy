// What encodeFrame hands to its callback, and how it looks as a list of frames.
module Encoding {
  import opened Bytes
  import opened Frames

  const SLICE_SIZE: nat := 500

  datatype OpCode = Continue | Text | Blob | Close | Ping | Pong

  function Code(op: OpCode): nibble {
    match op
    case Continue => CONTINUE
    case Text => TEXT
    case Blob => BLOB
    case Close => 8
    case Ping => 9
    case Pong => 10
  }

  // A call is stopped by the assertion in computeMask, or hands these chunks to the callback.
  datatype Encoded = Refused | Sent(chunks: seq<seq<byte>>)

  /** A frame laid out piece by piece, the body masked already. */
  function RawFrame(h: Head, lengthField: seq<byte>, body: seq<byte>): seq<byte> {
    HeadBytes(h) + lengthField + MASK_CODE + body
  }

  function Slices(n: nat): nat {
    n / SLICE_SIZE + if n % SLICE_SIZE > 0 then 1 else 0
  }

  /** Fragment i of a masked message. A short last fragment is taken from one slice too early. */
  function Fragment(code: nibble, m: seq<byte>, i: nat): seq<byte>
    requires |m| >= SLICE_SIZE && i < Slices(|m|)
  {
    var r := |m| % SLICE_SIZE;
    var at := i * SLICE_SIZE;
    if i == 0 then
      RawFrame(Head(false, 0, code, true, SHORT_LENGTH), Le16(SLICE_SIZE), m[..SLICE_SIZE])
    else if i + 1 < Slices(|m|) then
      RawFrame(Head(false, 0, CONTINUE, true, SHORT_LENGTH), Le16(SLICE_SIZE), m[at..at + SLICE_SIZE])
    else if r < SHORT_LENGTH then
      RawFrame(Head(true, 0, CONTINUE, true, r), [], m[at - SLICE_SIZE..at - SLICE_SIZE + r])
    else
      RawFrame(Head(true, 0, CONTINUE, true, SHORT_LENGTH), Le16(r), m[at..at + r])
  }

  function Fragments(code: nibble, m: seq<byte>): (r: seq<seq<byte>>)
    requires |m| >= SLICE_SIZE
    ensures |r| == Slices(|m|)
    ensures forall i :: 0 <= i < Slices(|m|) ==> r[i] == Fragment(code, m, i)
  {
    seq(Slices(|m|), i requires 0 <= i < Slices(|m|) => Fragment(code, m, i))
  }

  /** encodeFrame; `stack` is what the uninitialised header happens to hold. */
  function EncodeFrame(op: OpCode, p: seq<byte>, stack: Head): Encoded {
    var m := Masked(p);
    var n := |p|;
    if op.Continue? then Sent([])
    else if n == 0 then Refused
    else if op.Text? || op.Blob? then
      if n < SHORT_LENGTH then
        Sent([RawFrame(Head(true, 0, Code(op), true, n), [], m)])
      else if n < SLICE_SIZE then
        Sent([RawFrame(Head(true, 0, Code(op), true, SHORT_LENGTH), Le16(n), m)])
      else
        Sent(Fragments(Code(op), m))
    else
      var mask := if op.Close? then stack.mask else true;
      Sent([RawFrame(Head(true, stack.rsv, Code(op), mask, n % 256 % 128), [], m)])
  }

  // ---------------------------------------------------------------------------------
  // The chunks as frames
  // ---------------------------------------------------------------------------------

  /** Where fragment i starts in the payload, and how long it is. */
  function PieceStart(n: nat, i: nat): int {
    if i > 0 && i + 1 == Slices(n) && n % SLICE_SIZE < SHORT_LENGTH then (i - 1) * SLICE_SIZE else i * SLICE_SIZE
  }

  function PieceLength(n: nat, i: nat): nat {
    if i > 0 && i + 1 == Slices(n) then n % SLICE_SIZE else SLICE_SIZE
  }

  function Piece(code: nibble, p: seq<byte>, i: nat): Frame
    requires |p| >= SLICE_SIZE && i < Slices(|p|)
  {
    var n := |p|;
    var last := i > 0 && i + 1 == Slices(n);
    Frame(last, 0, if i == 0 then code else CONTINUE, true,
          !last || n % SLICE_SIZE >= SHORT_LENGTH,
          p[PieceStart(n, i)..PieceStart(n, i) + PieceLength(n, i)])
  }

  lemma FragmentLayout(code: nibble, p: seq<byte>, m: seq<byte>, i: nat)
    requires |p| == |m| >= SLICE_SIZE && i < Slices(|p|) && PieceLength(|p|, i) > 0
    ensures var f := Piece(code, p, i);
            var a, n := PieceStart(|p|, i), PieceLength(|p|, i);
            Fragment(code, m, i) == RawFrame(FrameHead(f), if f.extended then Le16(n) else [], m[a..a + n])
  {
    hide HeadBytes, Le16, RawFrame;
  }

  /** Masking the whole message first is the same as masking each fragment, as 500 is a multiple of 4. */
  lemma FragmentIsFrame(code: nibble, p: seq<byte>, i: nat)
    requires |p| >= SLICE_SIZE && i < Slices(|p|) && PieceLength(|p|, i) > 0
    ensures Piece(code, p, i).WellFormed()
    ensures Fragment(code, Masked(p), i) == Wire(Piece(code, p, i))
  {
    hide Masked, HeadBytes, Le16, Fragment, FrameHead;
    var a, n := PieceStart(|p|, i), PieceLength(|p|, i);
    assert a % 4 == 0;
    MaskedSlice(p, a, a + n);
    FragmentLayout(code, p, Masked(p), i);
  }

  /** The first k fragments of a message. */
  function Pieces(code: nibble, p: seq<byte>, k: nat): (fs: seq<Frame>)
    requires |p| >= SLICE_SIZE && k <= Slices(|p|)
    ensures |fs| == k
    ensures forall i :: 0 <= i < k ==> fs[i] == Piece(code, p, i)
  {
    seq(k, i requires 0 <= i < k => Piece(code, p, i))
  }

  lemma PiecesWellFormed(code: nibble, p: seq<byte>, k: nat)
    requires |p| >= SLICE_SIZE && k <= Slices(|p|)
    requires k < Slices(|p|) || k == 1 || |p| % SLICE_SIZE > 0
    ensures forall f :: f in Pieces(code, p, k) ==> f.WellFormed()
    ensures Fragments(code, Masked(p))[..k] == Wires(Pieces(code, p, k))
  {
    hide Masked, Fragment, Piece, Wire;
    forall i | 0 <= i < k
      ensures Piece(code, p, i).WellFormed() && Fragment(code, Masked(p), i) == Wire(Piece(code, p, i))
    {
      FragmentIsFrame(code, p, i);
    }
  }
}
