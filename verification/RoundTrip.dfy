// encodeFrame followed by decodeFrame: for one message, exactly when it comes back.
module RoundTrip {
  import opened Bytes
  import Bits
  import opened Frames
  import opened Decoding
  import opened Encoding

  /** Sent chunk by chunk to a decoder in any state, the message is delivered once and unchanged. */
  predicate Delivers(pending: seq<byte>, op: OpCode, p: seq<byte>, stack: Head) {
    var e := EncodeFrame(op, p, stack);
    e.Sent? && Arrives(Feed(pending, e.chunks), p)
  }

  predicate Arrives(r: Result, p: seq<byte>) {
    r.stop == Done && r.delivered == [p]
  }

  /** The last fragment happens to equal the bytes one slice before it. */
  predicate TailRepeats(p: seq<byte>)
    requires |p| > SLICE_SIZE
  {
    var r := |p| % SLICE_SIZE;
    p[|p| - r..] == p[|p| - r - SLICE_SIZE..|p| - SLICE_SIZE]
  }

  /** The lengths for which nothing more needs to be known about a data message. */
  predicate SafeLength(n: nat) {
    || 0 < n < SLICE_SIZE
    || (SHORT_LENGTH <= n % SLICE_SIZE && n <= MAX_FRAMESIZE)
  }

  predicate Faithful(op: OpCode, p: seq<byte>, stack: Head) {
    match op
    case Continue => false
    case Ping => 0 < |p| < SHORT_LENGTH
    case Pong => 0 < |p| < SHORT_LENGTH
    case Close => 0 < |p| < SHORT_LENGTH && stack.mask
    case _ =>
      || SafeLength(|p|)
      || (SLICE_SIZE < |p| <= MAX_FRAMESIZE && 0 < |p| % SLICE_SIZE && TailRepeats(p))
  }

  // ---------------------------------------------------------------------------------
  // Chunks that are frames
  // ---------------------------------------------------------------------------------

  /** A decoder fed one frame at a time does what the frames mean. */
  lemma {:induction false} FeedFrames(pending: seq<byte>, fs: seq<Frame>)
    requires forall f :: f in fs ==> f.WellFormed()
    ensures Feed(pending, Wires(fs)) == Assemble(pending, fs)
    decreases |fs|
  {
    hide DecodeLoop, Wire;
    if fs != [] {
      assert Wires(fs)[1..] == Wires(fs[1..]);
      OneFrameChunk(pending, fs[0]);
      var r := Assemble(pending, [fs[0]]);
      AssembleAppend(pending, [fs[0]], fs[1..]);
      assert fs == [fs[0]] + fs[1..];
      if r.stop == Done {
        FeedFrames(r.pending, fs[1..]);
      }
    }
  }

  lemma OneFrameChunk(pending: seq<byte>, f: Frame)
    requires f.WellFormed()
    ensures Decode(pending, Wire(f)) == Assemble(pending, [f])
  {
    hide DecodeLoop, Wire, Assemble;
    DecodeFrames(pending, [f]);
    assert Flatten(Wires([f])) == Wire(f) by {
      assert Wires([f]) == [Wire(f)];
      assert Flatten([Wire(f)]) == Wire(f) + Flatten([Wire(f)][1..]);
    }
  }

  // ---------------------------------------------------------------------------------
  // Fragmented messages
  // ---------------------------------------------------------------------------------

  predicate Opens(code: nibble) {
    code == TEXT || code == BLOB
  }

  lemma OpeningPiece(code: nibble, p: seq<byte>, i: nat)
    requires |p| >= SLICE_SIZE && i < Slices(|p|) && (i + 1 < Slices(|p|) || i == 0)
    ensures (i + 1) * SLICE_SIZE <= |p|
    ensures var f := Piece(code, p, i);
            && !f.fin && f.opcode == (if i == 0 then code else CONTINUE)
            && f.payload == p[i * SLICE_SIZE..(i + 1) * SLICE_SIZE]
  {
  }

  lemma FinalPiece(code: nibble, p: seq<byte>)
    requires |p| > SLICE_SIZE && |p| % SLICE_SIZE > 0
    ensures Slices(|p|) > 1 && |p| - |p| % SLICE_SIZE == (Slices(|p|) - 1) * SLICE_SIZE
    ensures var f := Piece(code, p, Slices(|p|) - 1);
            f.fin && f.opcode == CONTINUE && |f.payload| == |p| % SLICE_SIZE
            && Received(p) == p[..|p| - |p| % SLICE_SIZE] + f.payload
  {
  }

  /** The non-final fragments rebuild the message up to where they end, as long as it fits. */
  lemma {:induction false} AssembleOpening(pending: seq<byte>, code: nibble, p: seq<byte>, k: nat)
    requires |p| >= SLICE_SIZE && Opens(code)
    requires 0 < k && (k < Slices(|p|) || k == 1)
    ensures k * SLICE_SIZE <= |p|
    ensures var r := Assemble(pending, Pieces(code, p, k));
            if k * SLICE_SIZE <= MAX_FRAMESIZE
            then r == Result(Done, p[..k * SLICE_SIZE], [])
            else r.stop == FrameBufferFull
  {
    hide Piece, Assemble, After;
    var f := Piece(code, p, k - 1);
    OpeningPiece(code, p, k - 1);
    if k == 1 {
      assert Pieces(code, p, 1) == [f];
      AssembleOne(pending, f);
      assert [] + f.payload == f.payload;
    } else {
      AssembleOpening(pending, code, p, k - 1);
      OpeningSilent(pending, code, p, k - 1);
      assert Pieces(code, p, k) == Pieces(code, p, k - 1) + [f];
      var r := Assemble(pending, Pieces(code, p, k - 1));
      AssembleSnoc(pending, Pieces(code, p, k - 1), f);
      if k * SLICE_SIZE <= MAX_FRAMESIZE {
        assert p[..(k - 1) * SLICE_SIZE] + f.payload == p[..k * SLICE_SIZE];
      }
    }
  }

  /** One more frame after a list that delivered nothing. */
  lemma AssembleSnoc(pending: seq<byte>, fs: seq<Frame>, f: Frame)
    ensures var r := Assemble(pending, fs);
            r.delivered == [] ==>
              Assemble(pending, fs + [f]) == if r.stop != Done then r
                else SingleTurn(r.pending, Absorb(r.pending, f.fin, f.opcode, f.payload, 0))
  {
    hide Assemble, Absorb;
    AssembleAppend(pending, fs, [f]);
    var r := Assemble(pending, fs);
    AssembleOne(r.pending, f);
    assert [] + Assemble(r.pending, [f]).delivered == Assemble(r.pending, [f]).delivered;
  }

  function SingleTurn(pending: seq<byte>, t: Turn): Result {
    if t.Halt? then Result(t.stop, pending, []) else Result(Done, t.pending, t.delivered)
  }

  lemma AssembleOne(pending: seq<byte>, f: Frame)
    ensures Assemble(pending, [f]) == SingleTurn(pending, Absorb(pending, f.fin, f.opcode, f.payload, 0))
  {
    var t := Absorb(pending, f.fin, f.opcode, f.payload, 0);
    assert [f][1..] == [];
    assert t.Next? ==> t.delivered + [] == t.delivered;
  }

  /** What the receiver rebuilds from a fragmented message. */
  function Received(p: seq<byte>): seq<byte>
    requires |p| > SLICE_SIZE
  {
    var r := |p| % SLICE_SIZE;
    p[..|p| - r] + if r < SHORT_LENGTH then p[|p| - r - SLICE_SIZE..|p| - SLICE_SIZE] else p[|p| - r..]
  }

  lemma ReceivedExact(p: seq<byte>)
    requires |p| > SLICE_SIZE
    ensures |Received(p)| == |p|
    ensures Received(p) == p <==> |p| % SLICE_SIZE >= SHORT_LENGTH || TailRepeats(p)
  {
    var r := |p| % SLICE_SIZE;
    assert p == p[..|p| - r] + p[|p| - r..];
    if Received(p) == p {
      assert p[|p| - r..] == Received(p)[|p| - r..];
    }
  }

  /** All fragments of a message whose last one is not empty: delivered in full if it fits. */
  lemma AssembleFragments(pending: seq<byte>, code: nibble, p: seq<byte>)
    requires |p| > SLICE_SIZE && |p| % SLICE_SIZE > 0 && Opens(code)
    ensures var r := Assemble(pending, Pieces(code, p, Slices(|p|)));
            if |p| <= MAX_FRAMESIZE
            then r == Result(Done, Received(p), [Received(p)])
            else r.stop == FrameBufferFull
  {
    hide Piece, Assemble, Received, Slices;
    var k := Slices(|p|) - 1;
    FinalPiece(code, p);
    var f := Piece(code, p, k);
    var opening := Pieces(code, p, k);
    assert Pieces(code, p, k + 1) == opening + [f];
    AssembleOpening(pending, code, p, k);
    OpeningSilent(pending, code, p, k);
    AssembleSnoc(pending, opening, f);
  }

  lemma OpeningSilent(pending: seq<byte>, code: nibble, p: seq<byte>, k: nat)
    requires |p| >= SLICE_SIZE && (k < Slices(|p|) || k == 1)
    ensures Assemble(pending, Pieces(code, p, k)).delivered == []
  {
    hide Piece, Assemble;
    forall i | 0 <= i < k ensures !Pieces(code, p, k)[i].fin {
      OpeningPiece(code, p, i);
    }
    SilentUntilFinal(pending, Pieces(code, p, k));
  }

  lemma {:induction false} SilentUntilFinal(pending: seq<byte>, fs: seq<Frame>)
    requires forall f :: f in fs ==> !f.fin
    ensures Assemble(pending, fs).delivered == []
    decreases |fs|
  {
    if fs != [] {
      var t := Absorb(pending, fs[0].fin, fs[0].opcode, fs[0].payload, 0);
      if t.Next? {
        SilentUntilFinal(t.pending, fs[1..]);
      }
    }
  }

  /** A message of a whole number of slices is never delivered: its last slice is not sent. */
  lemma WholeSlicesLost(pending: seq<byte>, code: nibble, p: seq<byte>)
    requires |p| >= SLICE_SIZE && |p| % SLICE_SIZE == 0 && Opens(code)
    ensures var r := Feed(pending, Fragments(code, Masked(p)));
            r.delivered == [] && (r.stop == Done <==> |p| == SLICE_SIZE)
  {
    hide Masked, Piece, Wire, Feed, Decode, Assemble, Fragment;
    var n := Slices(|p|);
    var chunks := Fragments(code, Masked(p));
    var k := if n == 1 then 1 else n - 1;
    OpeningDelivery(pending, code, p, k);
    assert chunks == chunks[..k] + chunks[k..];
    FeedAppend(pending, chunks[..k], chunks[k..]);
    var r := Feed(pending, chunks[..k]);
    if n == 1 {
      assert chunks[k..] == [];
      FeedNone(r.pending);
    } else if r.stop == Done {
      EmptyTailRefused(r.pending, code, Masked(p));
      assert chunks[k..] == [Fragment(code, Masked(p), k)];
      FeedStops(r.pending, Fragment(code, Masked(p), k));
    }
  }

  /** The chunks of the non-final fragments: nothing delivered, and a stop only on a full buffer. */
  lemma OpeningDelivery(pending: seq<byte>, code: nibble, p: seq<byte>, k: nat)
    requires |p| >= SLICE_SIZE && Opens(code)
    requires 0 < k && (k < Slices(|p|) || k == 1)
    ensures var r := Feed(pending, Fragments(code, Masked(p))[..k]);
            && r.delivered == []
            && (r.stop == Done <==> k * SLICE_SIZE <= MAX_FRAMESIZE)
            && (r.stop == Done ==> r.pending == p[..k * SLICE_SIZE])
  {
    hide Masked, Piece, Wire, Feed, Assemble, Fragment;
    PiecesWellFormed(code, p, k);
    FeedFrames(pending, Pieces(code, p, k));
    AssembleOpening(pending, code, p, k);
    OpeningSilent(pending, code, p, k);
  }

  lemma FeedNone(pending: seq<byte>)
    ensures Feed(pending, []) == Result(Done, pending, [])
  {
  }

  lemma FeedStops(pending: seq<byte>, c: seq<byte>)
    ensures Decode(pending, c).stop != Done ==> Feed(pending, [c]) == Decode(pending, c)
  {
    hide Decode;
  }

  lemma EmptyTailRefused(pending: seq<byte>, code: nibble, m: seq<byte>)
    requires |m| > SLICE_SIZE && |m| % SLICE_SIZE == 0
    ensures var c := Fragment(code, m, Slices(|m|) - 1);
            Decode(pending, c) == Result(AssertFails, pending, [])
  {
    var h := Head(true, 0, CONTINUE, true, 0);
    var c := Fragment(code, m, Slices(|m|) - 1);
    assert c == RawFrame(h, [], []);
    RefusedEmpty(pending, h);
  }

  lemma RefusedEmpty(pending: seq<byte>, h: Head)
    requires h.fin && h.mask && h.payloadLen == 0
    ensures Decode(pending, RawFrame(h, [], [])) == Result(AssertFails, pending, [])
  {
    hide HeadBytes, ToHead;
    var c := RawFrame(h, [], []);
    assert c[0] == HeadBytes(h)[0] && c[1] == HeadBytes(h)[1];
    HeadRoundTrip(h);
  }

  // ---------------------------------------------------------------------------------
  // Single frames
  // ---------------------------------------------------------------------------------

  predicate Data(op: OpCode) {
    op.Text? || op.Blob?
  }

  predicate Control(op: OpCode) {
    op.Ping? || op.Pong? || op.Close?
  }

  function Single(op: OpCode, p: seq<byte>, stack: Head): Frame {
    Frame(true, if Data(op) then 0 else stack.rsv, Code(op), true, |p| >= SHORT_LENGTH, p)
  }

  /** The frames a message is sent as, when it is sent properly. */
  function FramesOf(op: OpCode, p: seq<byte>, stack: Head): seq<Frame> {
    if Data(op) && |p| >= SLICE_SIZE then Pieces(Code(op), p, Slices(|p|)) else [Single(op, p, stack)]
  }

  /** Apart from empty tails, oversized control frames and unmasked close frames, chunks are frames. */
  lemma EncodedAsFrames(op: OpCode, p: seq<byte>, stack: Head)
    requires if Data(op) then 0 < |p| && (|p| < SLICE_SIZE || |p| % SLICE_SIZE > 0)
             else Control(op) && 0 < |p| < SHORT_LENGTH && (op.Close? ==> stack.mask)
    ensures forall f :: f in FramesOf(op, p, stack) ==> f.WellFormed()
    ensures EncodeFrame(op, p, stack) == Sent(Wires(FramesOf(op, p, stack)))
  {
    hide Masked, HeadBytes, Le16, Fragment, Piece;
    if Data(op) && |p| >= SLICE_SIZE {
      PiecesWellFormed(Code(op), p, Slices(|p|));
      var chunks := Fragments(Code(op), Masked(p));
      assert chunks[..Slices(|p|)] == chunks;
    } else {
      var f := Single(op, p, stack);
      assert Wires([f]) == [Wire(f)];
      assert Masked(p) == Masked(p) + [];
    }
  }

  lemma SingleDelivered(pending: seq<byte>, op: OpCode, p: seq<byte>, stack: Head)
    requires !op.Continue?
    ensures Assemble(pending, [Single(op, p, stack)]) == Result(Done, pending, [p])
  {
    AssembleOne(pending, Single(op, p, stack));
  }

  /** What the first delivery of a chunk is, every delivery of the chunk starts with. */
  lemma FirstDelivery(pending: seq<byte>, d: seq<byte>, p: seq<byte>)
    requires Arrives(Feed(pending, [d]), p)
    requires var t := OneFrame(pending, d); t.Next? ==> |t.delivered| == 1
    ensures OneFrame(pending, d).Next? && OneFrame(pending, d).delivered == [p]
  {
    hide OneFrame;
    var t := OneFrame(pending, d);
    assert Feed(pending, [d]).delivered == Decode(pending, d).delivered by {
      FeedSingle(pending, d);
    }
    if t.Next? && t.used < |d| {
      var rest := DecodeLoop(t.pending, d[t.used..]);
      assert (t.delivered + rest.delivered)[0] == t.delivered[0];
    }
  }

  lemma FeedSingle(pending: seq<byte>, d: seq<byte>)
    ensures Feed(pending, [d]).stop == Decode(pending, d).stop
    ensures Feed(pending, [d]).delivered == Decode(pending, d).delivered
  {
    hide Decode;
    var r := Decode(pending, d);
    assert [d][1..] == [];
    assert r.delivered + [] == r.delivered;
  }

  /** What a control frame can bring across: a short payload, and only as its mask bit says to read the body. */
  lemma ControlCarries(pending: seq<byte>, h: Head, body: seq<byte>, p: seq<byte>)
    requires h.fin && h.opcode != CONTINUE && p != [] && |body| == |p|
    requires h.payloadLen == |p| % 128
    requires Arrives(Feed(pending, [RawFrame(h, [], body)]), p)
    ensures |p| < SHORT_LENGTH && p == if h.mask then Masked(body) else body
  {
    hide HeadBytes, ToHead, Masked, Feed, DecodeLoop;
    var d := RawFrame(h, [], body);
    assert d[0] == HeadBytes(h)[0] && d[1] == HeadBytes(h)[1];
    HeadRoundTrip(h);
    MaskAsLength();
    assert d[2] == MASK_CODE[0] && d[3] == MASK_CODE[1];
    FirstDelivery(pending, d, p);
    var got := PayloadOf(h, d);
    assert got == p && LengthOf(h, d) == |p|;
    assert h.payloadLen != SHORT_LENGTH;
    assert d[6..6 + |p|] == body;
  }

  /** A frame that declares another length, or that is not masked, does not bring its payload across. */
  lemma MisdeclaredFrame(pending: seq<byte>, h: Head, p: seq<byte>)
    requires h.fin && h.opcode != CONTINUE && p != []
    requires h.payloadLen == |p| % 128
    ensures Arrives(Feed(pending, [RawFrame(h, [], Masked(p))]), p) ==> |p| < SHORT_LENGTH && h.mask
  {
    hide Masked, Feed, Arrives, RawFrame;
    if Arrives(Feed(pending, [RawFrame(h, [], Masked(p))]), p) {
      ControlCarries(pending, h, Masked(p), p);
      MaskedDiffers(p);
    }
  }

  /** The first two mask bytes, read as a length, are no length that overflows into 126. */
  lemma MaskAsLength()
    ensures FromLe16(MASK_CODE[0], MASK_CODE[1]) % 128 != SHORT_LENGTH
  {
    Bits.ValueTwo();
    hide Bits.Value;
  }

  // ---------------------------------------------------------------------------------
  // The theorem
  // ---------------------------------------------------------------------------------

  lemma FaithfulArrives(pending: seq<byte>, op: OpCode, p: seq<byte>, stack: Head)
    requires Faithful(op, p, stack)
    ensures forall f :: f in FramesOf(op, p, stack) ==> f.WellFormed()
    ensures EncodeFrame(op, p, stack) == Sent(Wires(FramesOf(op, p, stack)))
    ensures Arrives(Assemble(pending, FramesOf(op, p, stack)), p)
  {
    hide EncodeFrame, Assemble, Wire, Pieces;
    EncodedAsFrames(op, p, stack);
    if Data(op) && |p| >= SLICE_SIZE {
      AssembleFragments(pending, Code(op), p);
      ReceivedExact(p);
    } else {
      SingleDelivered(pending, op, p, stack);
    }
  }

  lemma UnfaithfulData(pending: seq<byte>, op: OpCode, p: seq<byte>, stack: Head)
    requires Data(op) && !Faithful(op, p, stack)
    ensures !Delivers(pending, op, p, stack)
  {
    hide Assemble, Wire, Pieces, Feed, Masked, Fragments;
    if |p| >= SLICE_SIZE {
      if |p| % SLICE_SIZE == 0 {
        WholeSlicesLost(pending, Code(op), p);
      } else {
        EncodedAsFrames(op, p, stack);
        FeedFrames(pending, FramesOf(op, p, stack));
        AssembleFragments(pending, Code(op), p);
        ReceivedExact(p);
      }
    }
  }

  lemma UnfaithfulControl(pending: seq<byte>, op: OpCode, p: seq<byte>, stack: Head)
    requires !Data(op) && !Faithful(op, p, stack)
    ensures !Delivers(pending, op, p, stack)
  {
    hide RawFrame, Masked, Feed;
    if op.Continue? {
      FeedNone(pending);
    } else if p != [] {
      var h := Head(true, stack.rsv, Code(op), if op.Close? then stack.mask else true, |p| % 256 % 128);
      MisdeclaredFrame(pending, h, p);
    }
  }

  /**
   * For every message and every state of the decoder: sending the chunks of encodeFrame to
   * decodeFrame delivers the message, once and unchanged, if and only if it is Faithful.
   */
  lemma RoundTripExact(pending: seq<byte>, op: OpCode, p: seq<byte>, stack: Head)
    ensures Delivers(pending, op, p, stack) <==> Faithful(op, p, stack)
  {
    hide Assemble, Wire, Wires, FramesOf, Feed, EncodeFrame, Faithful;
    if Faithful(op, p, stack) {
      FaithfulArrives(pending, op, p, stack);
      FeedFrames(pending, FramesOf(op, p, stack));
    } else if Data(op) {
      UnfaithfulData(pending, op, p, stack);
    } else {
      UnfaithfulControl(pending, op, p, stack);
    }
  }

  /** By length alone: the data messages that always come back, whatever bytes they hold. */
  lemma RoundTripByLength(pending: seq<byte>, op: OpCode, n: nat, stack: Head)
    requires Data(op)
    ensures (forall p: seq<byte> :: |p| == n ==> Delivers(pending, op, p, stack)) <==> SafeLength(n)
  {
    hide Delivers;
    var r := n % SLICE_SIZE;
    var q := seq(n, i requires 0 <= i < n => if i < n - r then 0 else 1);
    assert |q| == n;
    if SafeLength(n) {
      forall p: seq<byte> | |p| == n ensures Delivers(pending, op, p, stack) {
        RoundTripExact(pending, op, p, stack);
      }
    } else {
      RoundTripExact(pending, op, q, stack);
      if n > SLICE_SIZE && r > 0 {
        assert q[n - r..][0] == 1 && q[n - r - SLICE_SIZE..n - SLICE_SIZE][0] == 0;
      }
    }
  }

  // ---------------------------------------------------------------------------------
  // The same array sent again
  // ---------------------------------------------------------------------------------

  /** encodeFrame has left the array masked: does sending it again deliver what it first held? */
  predicate SecondDelivers(pending: seq<byte>, op: OpCode, p: seq<byte>, stack: Head) {
    var e := EncodeFrame(op, Masked(p), stack);
    e.Sent? && Arrives(Feed(pending, e.chunks), p)
  }

  lemma MaskedFirst(p: seq<byte>)
    requires p != []
    ensures Masked(p)[0] != p[0]
  {
    XorChanges(p[0]);
  }

  /** The second send of a data message never delivers what the array first held. */
  lemma SecondData(pending: seq<byte>, op: OpCode, p: seq<byte>, stack: Head)
    requires Data(op)
    ensures !SecondDelivers(pending, op, p, stack)
  {
    hide Assemble, Wire, Pieces, Feed, Masked, Fragments;
    var q := Masked(p);
    if p != [] {
      MaskedFirst(p);
      if |q| >= SLICE_SIZE && |q| % SLICE_SIZE == 0 {
        WholeSlicesLost(pending, Code(op), q);
      } else {
        EncodedAsFrames(op, q, stack);
        FeedFrames(pending, FramesOf(op, q, stack));
        if |q| >= SLICE_SIZE {
          AssembleFragments(pending, Code(op), q);
          assert Received(q)[0] == q[0];
        } else {
          SingleDelivered(pending, op, q, stack);
        }
      }
    }
  }

  /** A short frame without the mask bit is delivered as it lies. */
  lemma UnmaskedArrives(pending: seq<byte>, h: Head, p: seq<byte>)
    requires h.fin && h.opcode != CONTINUE && !h.mask && h.payloadLen == |p| < SHORT_LENGTH
    ensures Arrives(Feed(pending, [RawFrame(h, [], p)]), p)
  {
    hide Assemble, Feed, HeadBytes;
    var f := Frame(true, h.rsv, h.opcode, false, false, p);
    assert FrameHead(f) == h;
    assert RawFrame(h, [], p) == Wire(f);
    assert Wires([f]) == [Wire(f)];
    FeedFrames(pending, [f]);
    AssembleOne(pending, f);
  }

  lemma SecondControl(pending: seq<byte>, op: OpCode, p: seq<byte>, stack: Head)
    requires Control(op) && p != []
    ensures SecondDelivers(pending, op, p, stack) <==> op.Close? && !stack.mask && |p| < SHORT_LENGTH
  {
    hide Feed, Masked, RawFrame, Arrives;
    MaskedTwice(p);
    MaskedDiffers(p);
    var h := Head(true, stack.rsv, Code(op), if op.Close? then stack.mask else true, |p| % 256 % 128);
    assert EncodeFrame(op, Masked(p), stack) == Sent([RawFrame(h, [], p)]);
    if SecondDelivers(pending, op, p, stack) {
      ControlCarries(pending, h, p, p);
    }
    if op.Close? && !stack.mask && |p| < SHORT_LENGTH {
      UnmaskedArrives(pending, h, p);
    }
  }

  /**
   * For every message and every state of the decoder: the second send of an array delivers what it
   * first held only as a short close frame whose uninitialised mask bit happens to be clear.
   */
  lemma SecondSendExact(pending: seq<byte>, op: OpCode, p: seq<byte>, stack: Head)
    ensures SecondDelivers(pending, op, p, stack)
       <==> op.Close? && !stack.mask && 0 < |p| < SHORT_LENGTH
  {
    hide SecondDelivers;
    if Data(op) {
      SecondData(pending, op, p, stack);
    } else if Control(op) && p != [] {
      SecondControl(pending, op, p, stack);
    } else {
      SecondNothing(pending, op, p, stack);
    }
  }

  lemma SecondNothing(pending: seq<byte>, op: OpCode, p: seq<byte>, stack: Head)
    requires op.Continue? || p == []
    ensures !SecondDelivers(pending, op, p, stack)
  {
    hide Feed;
    FeedNone(pending);
  }

  /** The second send delivers the masked bytes instead exactly when those are faithful. */
  lemma SentTwice(pending: seq<byte>, op: OpCode, p: seq<byte>, stack: Head)
    ensures Delivers(pending, op, Masked(p), stack) <==> Faithful(op, Masked(p), stack)
    ensures p != [] ==> Masked(p) != p
    ensures Data(op) && SafeLength(|p|) ==> Delivers(pending, op, Masked(p), stack)
  {
    hide Delivers;
    RoundTripExact(pending, op, Masked(p), stack);
    if p != [] {
      MaskedDiffers(p);
    }
  }

  /** Equal bytes hide the misplaced last fragment: such a message comes back whatever its last length. */
  lemma EqualBytesHide(pending: seq<byte>, op: OpCode, p: seq<byte>, stack: Head)
    requires Data(op) && SLICE_SIZE < |p| <= MAX_FRAMESIZE && |p| % SLICE_SIZE > 0
    requires forall i :: 0 <= i < |p| ==> p[i] == p[0]
    ensures Delivers(pending, op, p, stack)
  {
    hide Delivers;
    RoundTripExact(pending, op, p, stack);
  }
}
