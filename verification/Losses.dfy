// What the client delivers when some frames of the messages never reach it.
module Losses {
  import opened Bytes
  import opened Frames
  import opened Decoding
  import opened Encoding
  import opened RoundTrip
  import opened Chunking
  import opened MessageStreams
  import opened Reassembly

  /** The frames that are kept. */
  function Select(fs: seq<Frame>, keep: seq<bool>): (r: seq<Frame>)
    requires |keep| == |fs|
    ensures forall f :: f in r ==> f in fs
    decreases |fs|
  {
    if fs == [] then []
    else (if keep[0] then [fs[0]] else []) + Select(fs[1..], keep[1..])
  }

  predicate AllKept(keep: seq<bool>) {
    forall i :: 0 <= i < |keep| ==> keep[i]
  }

  lemma {:induction false} SelectSplit(fs: seq<Frame>, keep: seq<bool>, n: nat)
    requires |keep| == |fs| && n <= |fs|
    ensures Select(fs, keep) == Select(fs[..n], keep[..n]) + Select(fs[n..], keep[n..])
    decreases n
  {
    if n == 0 {
      assert fs[..0] == [] && fs[0..] == fs && keep[0..] == keep;
    } else {
      assert fs[..n][1..] == fs[1..][..n - 1] && keep[..n][1..] == keep[1..][..n - 1];
      assert fs[1..][n - 1..] == fs[n..] && keep[1..][n - 1..] == keep[n..];
      SelectSplit(fs[1..], keep[1..], n - 1);
    }
  }

  lemma SelectAll(fs: seq<Frame>, keep: seq<bool>)
    requires |keep| == |fs| && AllKept(keep)
    ensures Select(fs, keep) == fs
    decreases |fs|
  {
    if fs != [] {
      SelectAll(fs[1..], keep[1..]);
    }
  }

  lemma {:induction false} FinalsSelect(fs: seq<Frame>, keep: seq<bool>)
    requires |keep| == |fs|
    ensures Finals(Select(fs, keep)) <= Finals(fs)
    decreases |fs|
  {
    if fs != [] {
      FinalsSelect(fs[1..], keep[1..]);
      FinalsAppend(if keep[0] then [fs[0]] else [], Select(fs[1..], keep[1..]));
    }
  }

  /** A message ends in one frame only. */
  lemma FinalsOfMessages(ms: seq<Message>)
    requires AllFaithful(ms)
    ensures Finals(AllFrames(ms)) == |ms|
  {
    hide Assemble, AllFrames, Finals;
    AssembleMessages([], ms);
    DeliveredCount([], AllFrames(ms));
  }

  // ---------------------------------------------------------------------------------
  // One message
  // ---------------------------------------------------------------------------------

  function Total(fs: seq<Frame>): nat {
    if fs == [] then 0 else |fs[0].payload| + Total(fs[1..])
  }

  function Lost(keep: seq<bool>): nat {
    if keep == [] then 0 else (if keep[0] then 0 else 1) + Lost(keep[1..])
  }

  lemma {:induction false} TotalAppend(a: seq<Frame>, b: seq<Frame>)
    ensures Total(a + b) == Total(a) + Total(b)
    decreases |a|
  {
    if a == [] {
      assert a + b == b;
    } else {
      assert (a + b)[1..] == a[1..] + b;
      TotalAppend(a[1..], b);
    }
  }

  /** Losing whole slices loses whole slices of length. */
  lemma {:induction false} SelectTotal(fs: seq<Frame>, keep: seq<bool>)
    requires |keep| == |fs|
    requires forall i :: 0 <= i < |fs| && !keep[i] ==> |fs[i].payload| == SLICE_SIZE
    ensures Total(Select(fs, keep)) + SLICE_SIZE * Lost(keep) == Total(fs)
    ensures Lost(keep) == 0 <==> AllKept(keep)
    decreases |fs|
  {
    if fs != [] {
      forall i | 0 <= i < |fs| - 1 && !keep[1..][i] ensures |fs[1..][i].payload| == SLICE_SIZE {
        assert !keep[i + 1];
      }
      SelectTotal(fs[1..], keep[1..]);
      TotalAppend(if keep[0] then [fs[0]] else [], Select(fs[1..], keep[1..]));
      assert AllKept(keep) <==> keep[0] && AllKept(keep[1..]) by {
        if keep[0] && AllKept(keep[1..]) {
          forall i | 0 <= i < |keep| ensures keep[i] {
            assert i > 0 ==> keep[i] == keep[1..][i - 1];
          }
        }
      }
    }
  }

  /** Continuation frames up to a final one deliver once: all that is then pending. */
  lemma {:induction false} ContinueLength(x: seq<byte>, fs: seq<Frame>)
    requires fs != [] && fs[|fs| - 1].fin
    requires forall f :: f in fs ==> f.opcode == CONTINUE
    requires forall i :: 0 <= i < |fs| - 1 ==> !fs[i].fin
    requires Assemble(x, fs).stop == Done
    ensures var r := Assemble(x, fs);
            r.delivered == [r.pending] && |r.pending| == |x| + Total(fs)
    decreases |fs|
  {
    var y := x + fs[0].payload;
    if |fs| == 1 {
      AssembleOne(x, fs[0]);
      assert fs == [fs[0]];
    } else {
      assert fs[1..][|fs| - 2] == fs[|fs| - 1];
      ContinueLength(y, fs[1..]);
      assert [] + Assemble(y, fs[1..]).delivered == Assemble(y, fs[1..]).delivered;
    }
  }

  /** Nothing is pending, or a number of bytes that whole slices do not make up. */
  predicate Unaligned(x: seq<byte>) {
    x == [] || |x| % SLICE_SIZE != 0
  }

  lemma PieceFacts(code: nibble, p: seq<byte>)
    requires |p| > SLICE_SIZE && |p| % SLICE_SIZE > 0
    ensures var fs := Pieces(code, p, Slices(|p|));
            && |fs| > 1 && Total(fs) == |p| && fs[0].opcode == code && fs[|fs| - 1].fin
            && (forall i :: 0 < i < |fs| ==> fs[i].opcode == CONTINUE)
            && (forall i :: 0 <= i < |fs| - 1 ==> !fs[i].fin && |fs[i].payload| == SLICE_SIZE)
  {
    hide Piece;
    var fs := Pieces(code, p, Slices(|p|));
    FinalPiece(code, p);
    forall i | 0 <= i < |fs| - 1
      ensures !fs[i].fin && |fs[i].payload| == SLICE_SIZE && fs[i].opcode == if i == 0 then code else CONTINUE
    {
      OpeningPiece(code, p, i);
    }
    PiecesTotal(code, p, 0);
    assert fs[0..] == fs;
  }

  lemma {:induction false} PiecesTotal(code: nibble, p: seq<byte>, j: nat)
    requires |p| > SLICE_SIZE && |p| % SLICE_SIZE > 0 && j < Slices(|p|)
    ensures Total(Pieces(code, p, Slices(|p|))[j..]) == |p| - j * SLICE_SIZE
    decreases Slices(|p|) - j
  {
    hide Piece;
    var fs := Pieces(code, p, Slices(|p|));
    assert fs[j..][0] == Piece(code, p, j) && fs[j..][1..] == fs[j + 1..];
    FinalPiece(code, p);
    if j + 1 < Slices(|p|) {
      OpeningPiece(code, p, j);
      PiecesTotal(code, p, j + 1);
    }
  }

  /** The kept frames of a message whose last frame is kept, and what can come of them. */
  lemma KeptFinal(fs: seq<Frame>, keep: seq<bool>)
    requires |keep| == |fs| > 1 && fs[|fs| - 1].fin && keep[|fs| - 1]
    requires forall i :: 0 < i < |fs| ==> fs[i].opcode == CONTINUE
    requires forall i :: 0 <= i < |fs| - 1 ==> !fs[i].fin
    ensures var kept := Select(fs[1..], keep[1..]);
            && kept != [] && kept[|kept| - 1].fin
            && (forall f :: f in kept ==> f.opcode == CONTINUE)
            && (forall i :: 0 <= i < |kept| - 1 ==> !kept[i].fin)
            && Select(fs, keep) == (if keep[0] then [fs[0]] else []) + kept
  {
    var n := |fs| - 1;
    var tail, ktail := fs[1..], keep[1..];
    SelectSplit(tail, ktail, n - 1);
    var most := Select(tail[..n - 1], ktail[..n - 1]);
    assert tail[n - 1..] == [fs[n]] && ktail[n - 1..] == [keep[n]];
    assert Select([fs[n]], [true]) == [fs[n]] by { assert [fs[n]][1..] == [] && [true][1..] == []; }
    assert Select(tail, ktail) == most + [fs[n]];
    forall f | f in tail[..n - 1] ensures !f.fin {
      var i :| 0 <= i < n - 1 && tail[..n - 1][i] == f;
      assert f == fs[i + 1];
    }
    forall f | f in tail ensures f.opcode == CONTINUE {
      var i :| 0 <= i < n && tail[i] == f;
      assert f == fs[i + 1];
    }
  }

  /** Without its last frame a message delivers nothing. */
  lemma KeptUnfinished(x: seq<byte>, fs: seq<Frame>, keep: seq<bool>)
    requires |keep| == |fs| > 0 && !keep[|fs| - 1]
    requires forall i :: 0 <= i < |fs| - 1 ==> !fs[i].fin
    ensures Assemble(x, Select(fs, keep)).delivered == []
  {
    var n := |fs| - 1;
    SelectSplit(fs, keep, n);
    assert fs[n..] == [fs[n]] && keep[n..] == [false];
    assert Select([fs[n]], [false]) == [] by { assert [fs[n]][1..] == [] && [false][1..] == []; }
    forall f | f in fs[..n] ensures !f.fin {
      var i :| 0 <= i < n && fs[..n][i] == f;
    }
    assert Select(fs, keep) == Select(fs[..n], keep[..n]);
    SilentUntilFinal(x, Select(fs, keep));
  }

  /** Fragments of which the last is kept: one delivery, of full length only if all are kept. */
  lemma FragmentsKept(x: seq<byte>, fs: seq<Frame>, keep: seq<bool>)
    requires |keep| == |fs| > 1 && fs[|fs| - 1].fin && keep[|fs| - 1] && Unaligned(x)
    requires Opens(fs[0].opcode) && forall i :: 0 < i < |fs| ==> fs[i].opcode == CONTINUE
    requires forall i :: 0 <= i < |fs| - 1 ==> !fs[i].fin && |fs[i].payload| == SLICE_SIZE
    requires Assemble(x, Select(fs, keep)).stop == Done
    ensures var r := Assemble(x, Select(fs, keep));
            r.delivered == [r.pending] && (|r.pending| == Total(fs) ==> AllKept(keep))
  {
    hide Assemble, Select, Total, Lost, AllKept, Unaligned;
    KeptFinal(fs, keep);
    SelectTotal(fs, keep);
    var kept := Select(fs[1..], keep[1..]);
    if keep[0] {
      FirstKept(x, fs[0], kept);
    } else {
      assert [] + kept == kept;
      ContinueLength(x, kept);
      MultipleOfSlice(x, Lost(keep));
    }
  }

  /** An opening fragment forgets what was pending. */
  lemma FirstKept(x: seq<byte>, f: Frame, kept: seq<Frame>)
    requires !f.fin && Opens(f.opcode) && kept != [] && kept[|kept| - 1].fin
    requires forall g :: g in kept ==> g.opcode == CONTINUE
    requires forall i :: 0 <= i < |kept| - 1 ==> !kept[i].fin
    requires Assemble(x, [f] + kept).stop == Done
    ensures var r := Assemble(x, [f] + kept);
            r.delivered == [r.pending] && |r.pending| == Total([f] + kept)
  {
    hide Assemble, Total;
    AssembleAppend(x, [f], kept);
    AssembleOne(x, f);
    assert [] + f.payload == f.payload;
    var y := Assemble(x, [f]).pending;
    ContinueLength(y, kept);
    TotalCons(f, kept);
    assert [] + Assemble(y, kept).delivered == Assemble(y, kept).delivered;
  }

  lemma TotalCons(f: Frame, fs: seq<Frame>)
    ensures Total([f] + fs) == |f.payload| + Total(fs)
  {
    assert ([f] + fs)[1..] == fs;
  }

  /** A fragmented message with fragments missing is delivered in another length, or not at all. */
  lemma FragmentsLost(x: seq<byte>, code: nibble, p: seq<byte>, keep: seq<bool>)
    requires |p| > SLICE_SIZE && |p| % SLICE_SIZE > 0 && Opens(code) && Unaligned(x)
    requires |keep| == Slices(|p|)
    requires Assemble(x, Select(Pieces(code, p, Slices(|p|)), keep)).stop == Done
    ensures var r := Assemble(x, Select(Pieces(code, p, Slices(|p|)), keep));
            if keep[|keep| - 1]
            then r.delivered == [r.pending] && (|r.pending| == |p| ==> AllKept(keep))
            else r.delivered == []
  {
    hide Assemble, Piece, Slices, Select, Total, AllKept, Unaligned;
    var fs := Pieces(code, p, Slices(|p|));
    PieceFacts(code, p);
    if keep[|fs| - 1] {
      FragmentsKept(x, fs, keep);
    } else {
      KeptUnfinished(x, fs, keep);
    }
  }

  lemma MultipleOfSlice(x: seq<byte>, n: nat)
    requires Unaligned(x)
    ensures |x| == SLICE_SIZE * n ==> n == 0
  {
  }

  /** Any message: delivered in its own length only if all its frames are kept, and the next starts unaligned. */
  lemma MessageLost(x: seq<byte>, m: Message, keep: seq<bool>)
    requires Faithful(m.op, m.payload, m.stack) && Unaligned(x)
    requires |keep| == |FramesOf(m.op, m.payload, m.stack)|
    requires Assemble(x, Select(FramesOf(m.op, m.payload, m.stack), keep)).stop == Done
    ensures keep != []
    ensures var r := Assemble(x, Select(FramesOf(m.op, m.payload, m.stack), keep));
            if keep[|keep| - 1]
            then |r.delivered| == 1 && (|r.delivered[0]| == |m.payload| ==> AllKept(keep) && Unaligned(r.pending))
            else r.delivered == []
  {
    hide Assemble, Pieces, Single;
    FramesMasked(m);
    var fs := FramesOf(m.op, m.payload, m.stack);
    if |fs| > 1 {
      LongIfCut(m, 1);
      FragmentsLost(x, Code(m.op), m.payload, keep);
    } else if keep[0] {
      var f := Single(m.op, m.payload, m.stack);
      OneKept(fs, keep);
      OneFrameOnly(m);
      SingleDelivered(x, m.op, m.payload, m.stack);
    } else {
      KeptUnfinished(x, fs, keep);
    }
  }

  lemma OneKept(fs: seq<Frame>, keep: seq<bool>)
    requires |fs| == |keep| == 1 && keep[0]
    ensures Select(fs, keep) == fs && AllKept(keep)
  {
    assert fs[1..] == [] && keep[1..] == [];
  }

  lemma OneFrameOnly(m: Message)
    requires Faithful(m.op, m.payload, m.stack) && |FramesOf(m.op, m.payload, m.stack)| == 1
    ensures FramesOf(m.op, m.payload, m.stack) == [Single(m.op, m.payload, m.stack)] && !m.op.Continue?
  {
  }

  // ---------------------------------------------------------------------------------
  // Many messages
  // ---------------------------------------------------------------------------------

  /** If what is kept of faithful messages still delivers exactly them, nothing was lost. */
  lemma {:induction false} LossShows(x: seq<byte>, ms: seq<Message>, keep: seq<bool>)
    requires AllFaithful(ms) && |keep| == |AllFrames(ms)| && Unaligned(x)
    requires Assemble(x, Select(AllFrames(ms), keep)).stop == Done
    requires Assemble(x, Select(AllFrames(ms), keep)).delivered == Payloads(ms)
    ensures AllKept(keep)
    decreases |ms|
  {
    hide Assemble, FramesOf, Faithful, Finals, Select, AllKept, Unaligned;
    if ms == [] {
      NoneToKeep(keep);
    } else {
      var m, rest := ms[0], AllFrames(ms[1..]);
      var fs := FramesOf(m.op, m.payload, m.stack);
      var n := |fs|;
      var all := AllFrames(ms);
      assert all[..n] == fs && all[n..] == rest;
      SelectSplit(all, keep, n);
      var a, b := Select(fs, keep[..n]), Select(rest, keep[n..]);
      AssembleAppend(x, a, b);
      var r := Assemble(x, a);
      var q := Assemble(r.pending, b);
      MessageLost(x, m, keep[..n]);
      DeliveredCount(r.pending, b);
      FinalsSelect(rest, keep[n..]);
      FinalsOfMessages(ms[1..]);
      assert |r.delivered + q.delivered| == |ms|;
      assert |r.delivered| == 1;
      assert (r.delivered + q.delivered)[0] == m.payload;
      assert (r.delivered + q.delivered)[1..] == q.delivered == Payloads(ms[1..]);
      LossShows(r.pending, ms[1..], keep[n..]);
      KeptBoth(keep, n);
    }
  }

  lemma NoneToKeep(keep: seq<bool>)
    requires keep == []
    ensures AllKept(keep)
  {
  }

  lemma KeptBoth(keep: seq<bool>, n: nat)
    requires n <= |keep| && AllKept(keep[..n]) && AllKept(keep[n..])
    ensures AllKept(keep)
  {
    forall i | 0 <= i < |keep| ensures keep[i] {
      if i < n {
        assert keep[..n][i];
      } else {
        assert keep[n..][i - n];
      }
    }
  }
}
