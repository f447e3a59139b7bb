// What decodeFrame does to a chunk of bytes, and what a list of frames means.
module Decoding {
  import opened Bytes
  import opened Frames

  const MAX_FRAMESIZE: nat := 4194304
  const LONG_LENGTH: nat := 127

  // How a call ends. Everything but Done is the end of the program: a failed assertion, a
  // read past the chunk, a write past the frame buffer, or a loop that stops advancing.
  datatype Stop = Done | AssertFails | ReadsPastChunk | FrameBufferFull | NeverReturns

  // `pending` is the used part of the frame buffer; `delivered` what the callback was given.
  datatype Result = Result(stop: Stop, pending: seq<byte>, delivered: seq<seq<byte>>)

  // One turn of the decoding loop.
  datatype Turn =
    | Halt(stop: Stop)
    | Next(pending: seq<byte>, delivered: seq<seq<byte>>, used: nat)

  /** What a frame does to the frame buffer and the callback once its payload is unmasked. */
  function Absorb(pending: seq<byte>, fin: bool, opcode: nibble, payload: seq<byte>, used: nat): (t: Turn)
    ensures t.Next? ==> t.used == used
    ensures t.Halt? ==> t.stop == FrameBufferFull
  {
    if fin then
      if opcode != CONTINUE then Next(pending, [payload], used)
      else if |pending| + |payload| > MAX_FRAMESIZE then Halt(FrameBufferFull)
      else Next(pending + payload, [pending + payload], used)
    else
      var kept := if opcode == TEXT || opcode == BLOB then [] else pending;
      if |kept| + |payload| > MAX_FRAMESIZE then Halt(FrameBufferFull)
      else Next(kept + payload, [], used)
  }

  /** Length of header, length field and mask together; and the length the frame declares. */
  function PrefixOf(h: Head): (n: nat)
    ensures n >= 6
  {
    if h.payloadLen == SHORT_LENGTH then 8 else 6
  }

  function LengthOf(h: Head, d: seq<byte>): nat
    requires h.payloadLen == SHORT_LENGTH ==> |d| >= 4
  {
    if h.payloadLen == SHORT_LENGTH then FromLe16(d[2], d[3]) else h.payloadLen
  }

  /** What stops the loop before any payload is touched. */
  function Trouble(h: Head, d: seq<byte>): Stop {
    if !h.fin && h.payloadLen != SHORT_LENGTH then AssertFails
    else if h.payloadLen == LONG_LENGTH then (if h.mask then AssertFails else NeverReturns)
    else if h.payloadLen == SHORT_LENGTH && |d| < (if !h.fin then 8 else 4) then ReadsPastChunk
    else
      var n := LengthOf(h, d);
      if n == 0 then (if h.mask then AssertFails else Done)
      else if PrefixOf(h) + n > |d| then ReadsPastChunk
      else Done
  }

  function PayloadOf(h: Head, d: seq<byte>): seq<byte>
    requires Trouble(h, d) == Done
  {
    var n := LengthOf(h, d);
    var raw := if n == 0 then [] else d[PrefixOf(h)..PrefixOf(h) + n];
    if h.mask then Masked(raw) else raw
  }

  function OneFrame(pending: seq<byte>, d: seq<byte>): (t: Turn)
    ensures t.Next? ==> t.used >= 6
    ensures t.Halt? ==> t.stop != Done
  {
    hide *;
    if |d| < 2 then Halt(ReadsPastChunk)
    else
      var h := ToHead(d[0], d[1]);
      if Trouble(h, d) != Done then Halt(Trouble(h, d))
      else Absorb(pending, h.fin, h.opcode, PayloadOf(h, d), PrefixOf(h) + LengthOf(h, d))
  }

  function DecodeLoop(pending: seq<byte>, d: seq<byte>): Result
    decreases |d|
  {
    match OneFrame(pending, d)
    case Halt(stop) => Result(stop, pending, [])
    case Next(p, out, used) =>
      if used >= |d| then Result(Done, p, out) else After(out, DecodeLoop(p, d[used..]))
  }

  function After(out: seq<seq<byte>>, r: Result): Result {
    r.(delivered := out + r.delivered)
  }

  function Decode(pending: seq<byte>, chunk: seq<byte>): Result {
    if |chunk| >= MAX_FRAMESIZE then Result(AssertFails, pending, []) else DecodeLoop(pending, chunk)
  }

  /** One decoder fed chunk after chunk, up to the first that does not return. */
  function Feed(pending: seq<byte>, chunks: seq<seq<byte>>): Result
    decreases |chunks|
  {
    if chunks == [] then Result(Done, pending, [])
    else
      var r := Decode(pending, chunks[0]);
      if r.stop != Done then r else After(r.delivered, Feed(r.pending, chunks[1..]))
  }

  lemma {:induction false} FeedAppend(pending: seq<byte>, a: seq<seq<byte>>, b: seq<seq<byte>>)
    ensures var r := Feed(pending, a);
            Feed(pending, a + b) == if r.stop != Done then r else After(r.delivered, Feed(r.pending, b))
    decreases |a|
  {
    hide Decode;
    if a == [] {
      assert a + b == b;
      assert Feed(pending, b).delivered == [] + Feed(pending, b).delivered;
    } else {
      assert (a + b)[1..] == a[1..] + b;
      var r := Decode(pending, a[0]);
      if r.stop == Done {
        FeedAppend(r.pending, a[1..], b);
        var q := Feed(r.pending, a[1..]);
        if q.stop == Done {
          assert r.delivered + (q.delivered + Feed(q.pending, b).delivered)
              == (r.delivered + q.delivered) + Feed(q.pending, b).delivered;
        }
      }
    }
  }

  // ---------------------------------------------------------------------------------
  // Frames against bytes
  // ---------------------------------------------------------------------------------

  /** The meaning of a list of frames, with no bytes in sight. */
  function Assemble(pending: seq<byte>, fs: seq<Frame>): Result
    decreases |fs|
  {
    if fs == [] then Result(Done, pending, [])
    else
      match Absorb(pending, fs[0].fin, fs[0].opcode, fs[0].payload, 0)
      case Halt(stop) => Result(stop, pending, [])
      case Next(p, out, _) => After(out, Assemble(p, fs[1..]))
  }

  lemma {:induction false} AssembleAppend(pending: seq<byte>, a: seq<Frame>, b: seq<Frame>)
    ensures var r := Assemble(pending, a);
            Assemble(pending, a + b) == if r.stop != Done then r else After(r.delivered, Assemble(r.pending, b))
    decreases |a|
  {
    if a == [] {
      assert a + b == b;
      assert Assemble(pending, b).delivered == [] + Assemble(pending, b).delivered;
    } else {
      assert (a + b)[1..] == a[1..] + b;
      var t := Absorb(pending, a[0].fin, a[0].opcode, a[0].payload, 0);
      if t.Next? {
        AssembleAppend(t.pending, a[1..], b);
        var q := Assemble(t.pending, a[1..]);
        if q.stop == Done {
          assert t.delivered + (q.delivered + Assemble(q.pending, b).delivered)
              == (t.delivered + q.delivered) + Assemble(q.pending, b).delivered;
        }
      }
    }
  }

  /** Where the pieces of a frame lie in a chunk that starts with it. */
  lemma WireLayout(f: Frame, rest: seq<byte>)
    requires f.WellFormed()
    ensures var d := Wire(f) + rest;
            && |d| >= f.Prefix() + |f.payload|
            && d[..2] == HeadBytes(FrameHead(f))
            && (f.extended ==> d[2..4] == Le16(|f.payload|))
            && d[f.Prefix()..f.Prefix() + |f.payload|] == if f.masked then Masked(f.payload) else f.payload
  {
    hide HeadBytes, Le16, Masked, FrameHead;
  }

  /** A chunk that holds all a header declares. */
  lemma ReadsPayload(h: Head, d: seq<byte>, n: nat)
    requires h.payloadLen != LONG_LENGTH && (h.fin || h.payloadLen == SHORT_LENGTH)
    requires h.payloadLen == SHORT_LENGTH ==> |d| >= 8 && FromLe16(d[2], d[3]) == n
    requires h.payloadLen != SHORT_LENGTH ==> h.payloadLen == n
    requires (h.mask ==> n > 0) && PrefixOf(h) + n <= |d|
    ensures Trouble(h, d) == Done && LengthOf(h, d) == n
    ensures var raw := d[PrefixOf(h)..PrefixOf(h) + n];
            PayloadOf(h, d) == if h.mask then Masked(raw) else raw
  {
    hide FromLe16, Masked;
  }

  /** The bytes of a frame parse back to its header, its length and its payload. */
  lemma WireParses(f: Frame, rest: seq<byte>)
    requires f.WellFormed()
    ensures var d := Wire(f) + rest;
            && |d| >= 2 && ToHead(d[0], d[1]) == FrameHead(f)
            && Trouble(FrameHead(f), d) == Done
            && PrefixOf(FrameHead(f)) == f.Prefix() && LengthOf(FrameHead(f), d) == |f.payload|
            && PayloadOf(FrameHead(f), d) == f.payload
  {
    hide HeadBytes, ToHead, Le16, FromLe16, Masked, Wire, Trouble, LengthOf, PayloadOf;
    var h := FrameHead(f);
    var d := Wire(f) + rest;
    WireLayout(f, rest);
    HeadRoundTrip(h);
    assert d[0] == d[..2][0] && d[1] == d[..2][1];
    MaskedTwice(f.payload);
    if f.extended {
      Le16RoundTrip(|f.payload|);
      assert d[2] == d[2..4][0] && d[3] == d[2..4][1];
    }
    ReadsPayload(h, d, |f.payload|);
  }

  lemma OneFrameWire(pending: seq<byte>, f: Frame, rest: seq<byte>)
    requires f.WellFormed()
    ensures OneFrame(pending, Wire(f) + rest)
         == Absorb(pending, f.fin, f.opcode, f.payload, |Wire(f)|)
  {
    hide Wire, ToHead, Trouble, PrefixOf, LengthOf, PayloadOf;
    WireParses(f, rest);
  }

  /** The loop takes a whole frame off the front of a chunk and goes on with the rest. */
  lemma DecodeFirst(pending: seq<byte>, f: Frame, rest: seq<byte>)
    requires f.WellFormed()
    ensures DecodeLoop(pending, Wire(f) + rest)
         == var t := Absorb(pending, f.fin, f.opcode, f.payload, |Wire(f)|);
            if t.Halt? then Result(t.stop, pending, [])
            else if rest == [] then Result(Done, t.pending, t.delivered)
            else After(t.delivered, DecodeLoop(t.pending, rest))
  {
    hide OneFrame, Wire;
    OneFrameWire(pending, f, rest);
    var d := Wire(f) + rest;
    var t := OneFrame(pending, d);
    if t.Next? && rest != [] {
      assert d[t.used..] == rest;
    }
  }

  /** Decoding the bytes of any list of frames does what the frames mean. */
  lemma {:induction false} DecodeFrames(pending: seq<byte>, fs: seq<Frame>)
    requires fs != [] && forall f :: f in fs ==> f.WellFormed()
    ensures DecodeLoop(pending, Flatten(Wires(fs))) == Assemble(pending, fs)
    decreases |fs|
  {
    hide DecodeLoop, Wire;
    var rest := Flatten(Wires(fs[1..]));
    assert Wires(fs)[1..] == Wires(fs[1..]);
    assert Flatten(Wires(fs)) == Wire(fs[0]) + rest;
    DecodeFirst(pending, fs[0], rest);
    var t := Absorb(pending, fs[0].fin, fs[0].opcode, fs[0].payload, |Wire(fs[0])|);
    if fs[1..] == [] {
      assert rest == [];
      if t.Next? {
        assert Assemble(t.pending, fs[1..]) == Result(Done, t.pending, []);
        assert t.delivered + [] == t.delivered;
      }
    } else {
      assert rest == Wire(fs[1]) + Flatten(Wires(fs[1..])[1..]);
      if t.Next? {
        DecodeFrames(t.pending, fs[1..]);
      }
    }
  }
}
