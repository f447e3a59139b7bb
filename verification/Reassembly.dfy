// What the frame buffer holds after any frames, what they deliver, and when they overflow it,
// without a step of the loop.
module Reassembly {
  import opened Bytes
  import opened Frames
  import opened Decoding
  import opened RoundTrip

  /** The first fragment of a text or a blob. */
  predicate OpensMessage(f: Frame) {
    !f.fin && (f.opcode == 1 || f.opcode == 2)
  }

  /** A whole message in one frame, which does not touch the frame buffer. */
  predicate Bypasses(f: Frame) {
    f.fin && f.opcode != 0
  }

  /** The last frame to open a message, or -1. */
  function LastOpening(fs: seq<Frame>): (k: int)
    ensures -1 <= k < |fs| && (k >= 0 ==> OpensMessage(fs[k]))
    ensures forall i :: k < i < |fs| ==> !OpensMessage(fs[i])
  {
    var n := |fs|;
    if n == 0 then -1 else if OpensMessage(fs[n - 1]) then n - 1 else LastOpening(fs[..n - 1])
  }

  /** The payloads that go through the frame buffer, one after the other. */
  function Parts(fs: seq<Frame>): seq<byte> {
    if fs == [] then [] else (if Bypasses(fs[0]) then [] else fs[0].payload) + Parts(fs[1..])
  }

  /** Everything since the last frame that opened a message, what was pending included if none did. */
  function Gathered(pending: seq<byte>, fs: seq<Frame>): seq<byte> {
    var k := LastOpening(fs);
    if k < 0 then pending + Parts(fs) else Parts(fs[k..])
  }

  /** How many of the frames end a message. */
  function Finals(fs: seq<Frame>): nat {
    if fs == [] then 0 else (if fs[0].fin then 1 else 0) + Finals(fs[1..])
  }

  lemma {:induction false} FinalsAppend(a: seq<Frame>, b: seq<Frame>)
    ensures Finals(a + b) == Finals(a) + Finals(b)
    decreases |a|
  {
    if a == [] {
      assert a + b == b;
    } else {
      assert (a + b)[1..] == a[1..] + b;
      FinalsAppend(a[1..], b);
    }
  }

  lemma {:induction false} PartsAppend(a: seq<Frame>, b: seq<Frame>)
    ensures Parts(a + b) == Parts(a) + Parts(b)
    decreases |a|
  {
    if a == [] {
      assert a + b == b;
    } else {
      assert (a + b)[1..] == a[1..] + b;
      PartsAppend(a[1..], b);
    }
  }

  lemma PartsOne(f: Frame)
    ensures Parts([f]) == if Bypasses(f) then [] else f.payload
  {
    assert [f][1..] == [];
  }

  /** One frame more. */
  lemma GatheredSnoc(pending: seq<byte>, fs: seq<Frame>, f: Frame)
    ensures Gathered(pending, fs + [f])
         == if OpensMessage(f) then f.payload
            else Gathered(pending, fs) + if Bypasses(f) then [] else f.payload
  {
    hide Parts;
    var gs, k := fs + [f], LastOpening(fs);
    assert gs[..|fs|] == fs;
    PartsOne(f);
    if OpensMessage(f) {
      assert gs[|fs|..] == [f];
    } else if k >= 0 {
      assert gs[k..] == fs[k..] + [f];
      PartsAppend(fs[k..], [f]);
    } else {
      PartsAppend(fs, [f]);
    }
  }

  /** Each final frame delivers its own payload, or, if it continues a message, all that is gathered by then. */
  predicate Handed(pending: seq<byte>, fs: seq<Frame>, out: seq<seq<byte>>) {
    |out| == Finals(fs) && forall i :: 0 <= i < |fs| ==> HandedAt(pending, fs, out, i)
  }

  predicate HandedAt(pending: seq<byte>, fs: seq<Frame>, out: seq<seq<byte>>, i: nat)
    requires i < |fs|
  {
    var j := Finals(fs[..i]);
    fs[i].fin ==> j < |out| && out[j] == if fs[i].opcode != 0 then fs[i].payload else Gathered(pending, fs[..i + 1])
  }

  /** What is gathered never exceeds the frame buffer. */
  predicate Fits(pending: seq<byte>, fs: seq<Frame>) {
    forall k :: 0 <= k <= |fs| ==> |Gathered(pending, fs[..k])| <= 4194304
  }

  lemma FitsSnoc(pending: seq<byte>, fs: seq<Frame>, f: Frame)
    ensures Fits(pending, fs + [f]) <==> Fits(pending, fs) && |Gathered(pending, fs + [f])| <= 4194304
  {
    hide Gathered;
    var gs := fs + [f];
    assert gs[..|gs|] == gs;
    assert forall k :: 0 <= k <= |fs| ==> gs[..k] == fs[..k];
  }

  lemma FitsWhole(pending: seq<byte>, fs: seq<Frame>)
    requires Fits(pending, fs)
    ensures |Gathered(pending, fs)| <= 4194304
  {
    assert fs[..|fs|] == fs;
  }

  lemma HandedSnoc(pending: seq<byte>, fs: seq<Frame>, f: Frame, out: seq<seq<byte>>)
    requires Handed(pending, fs, out)
    ensures var last := if f.opcode != 0 then f.payload else Gathered(pending, fs + [f]);
            Handed(pending, fs + [f], if f.fin then out + [last] else out)
  {
    hide Gathered, Finals;
    var gs := fs + [f];
    FinalsAppend(fs, [f]);
    assert Finals([f]) == if f.fin then 1 else 0 by { FinalsOne(f); }
    var last := if f.opcode != 0 then f.payload else Gathered(pending, gs);
    var all := if f.fin then out + [last] else out;
    forall i | 0 <= i < |gs| ensures HandedAt(pending, gs, all, i) {
      if i < |fs| {
        assert HandedAt(pending, fs, out, i);
        assert gs[..i] == fs[..i] && gs[..i + 1] == fs[..i + 1];
      } else {
        assert gs[..i] == fs && gs[..i + 1] == gs;
      }
    }
  }

  lemma FinalsOne(f: Frame)
    ensures Finals([f]) == if f.fin then 1 else 0
  {
    assert [f][1..] == [];
  }

  /**
   * Any frames, from any state of the decoder: they assemble exactly while what is gathered fits the
   * frame buffer, which then holds it; and they deliver, for each final frame in order, its payload
   * or what is gathered by then. A final frame does not empty the buffer.
   */
  lemma {:induction false} AssembleExact(pending: seq<byte>, fs: seq<Frame>)
    requires |pending| <= 4194304
    ensures var r := Assemble(pending, fs);
            && r.stop == (if Fits(pending, fs) then Done else FrameBufferFull)
            && (r.stop == Done ==> r.pending == Gathered(pending, fs) && Handed(pending, fs, r.delivered))
    decreases |fs|
  {
    hide Assemble, Gathered, Fits, Handed, OpensMessage, Bypasses;
    if fs == [] {
      AssembleNothing(pending);
    } else {
      var n := |fs| - 1;
      var gs, f := fs[..n], fs[n];
      assert fs == gs + [f];
      AssembleExact(pending, gs);
      AssembleAppend(pending, gs, [f]);
      FitsSnoc(pending, gs, f);
      GatheredSnoc(pending, gs, f);
      var r := Assemble(pending, gs);
      if r.stop == Done {
        FitsWhole(pending, gs);
        AssembleOne(r.pending, f);
        AbsorbGathers(r.pending, f);
        HandedSnoc(pending, gs, f, r.delivered);
        assert r.delivered + [] == r.delivered;
      }
    }
  }

  lemma AssembleNothing(pending: seq<byte>)
    requires |pending| <= 4194304
    ensures Assemble(pending, []) == Result(Done, pending, [])
    ensures Fits(pending, []) && Gathered(pending, []) == pending && Handed(pending, [], [])
  {
    assert pending + [] == pending;
  }

  /** One frame on the frame buffer, as gathering has it. */
  lemma AbsorbGathers(pending: seq<byte>, f: Frame)
    requires |pending| <= 4194304
    ensures var held := if OpensMessage(f) then f.payload else pending + if Bypasses(f) then [] else f.payload;
            var t := Absorb(pending, f.fin, f.opcode, f.payload, 0);
            if |held| > 4194304 then t == Halt(FrameBufferFull)
            else t == Next(held, if f.fin then [if f.opcode != 0 then f.payload else held] else [], 0)
  {
    assert pending + [] == pending && [] + f.payload == f.payload;
  }
}
