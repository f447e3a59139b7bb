// A stream of frames cut into chunks: at frame boundaries, and anywhere.
module Chunking {
  import opened Bytes
  import opened Frames
  import opened Decoding
  import opened RoundTrip

  // ---------------------------------------------------------------------------------
  // Chunks of whole frames
  // ---------------------------------------------------------------------------------

  /** A group of frames that travel in one chunk. */
  predicate Sendable(g: seq<Frame>) {
    && g != []
    && (forall f :: f in g ==> f.WellFormed())
    && |Flatten(Wires(g))| < MAX_FRAMESIZE
  }

  function Chunk(g: seq<Frame>): seq<byte>
    requires Sendable(g)
  {
    Flatten(Wires(g))
  }

  function Chunks(groups: seq<seq<Frame>>): (r: seq<seq<byte>>)
    requires forall i :: 0 <= i < |groups| ==> Sendable(groups[i])
    ensures |r| == |groups|
    ensures forall i :: 0 <= i < |groups| ==> r[i] == Chunk(groups[i])
  {
    seq(|groups|, i requires 0 <= i < |groups| => Chunk(groups[i]))
  }

  /** Decoding a chunk of whole frames does what the frames mean. */
  lemma DecodeChunk(pending: seq<byte>, g: seq<Frame>)
    requires Sendable(g)
    ensures Decode(pending, Chunk(g)) == Assemble(pending, g)
  {
    hide DecodeLoop, Assemble, Wires;
    DecodeFrames(pending, g);
  }

  lemma AssembleNone(pending: seq<byte>)
    ensures Assemble(pending, []) == Result(Done, pending, [])
  {
  }

  /** However whole frames are grouped into chunks, one decoder does what the frames mean. */
  lemma {:induction false} FeedGroups(pending: seq<byte>, groups: seq<seq<Frame>>)
    requires forall i :: 0 <= i < |groups| ==> Sendable(groups[i])
    ensures Feed(pending, Chunks(groups)) == Assemble(pending, Flatten(groups))
    decreases |groups|
  {
    hide Assemble, Decode, Chunk, Sendable;
    if groups == [] {
      AssembleNone(pending);
    } else {
      var g := groups[0];
      assert Chunks(groups)[1..] == Chunks(groups[1..]);
      DecodeChunk(pending, g);
      AssembleAppend(pending, g, Flatten(groups[1..]));
      var r := Assemble(pending, g);
      if r.stop == Done {
        FeedGroups(r.pending, groups[1..]);
      }
    }
  }

  /** A control frame between the fragments of a message is delivered at once and disturbs nothing. */
  lemma ControlPassesThrough(pending: seq<byte>, a: seq<Frame>, c: Frame, b: seq<Frame>)
    requires c.fin && c.opcode != CONTINUE && Assemble(pending, a).stop == Done
    ensures var k := |Assemble(pending, a).delivered|;
            var without := Assemble(pending, a + b);
            var with := Assemble(pending, a + [c] + b);
            && with.stop == without.stop && with.pending == without.pending
            && k <= |without.delivered|
            && with.delivered == without.delivered[..k] + [c.payload] + without.delivered[k..]
  {
    hide Assemble;
    AssembleAppend(pending, a, b);
    AssembleAppend(pending, a, [c]);
    AssembleAppend(pending, a + [c], b);
    AssembleOne(Assemble(pending, a).pending, c);
  }

  /** Continuation frames only ever add to what is pending. */
  lemma {:induction false} PendingIsPrefix(x: seq<byte>, y: seq<byte>, fs: seq<Frame>)
    requires forall f :: f in fs ==> f.opcode == CONTINUE
    requires Assemble(x + y, fs).stop == Done
    ensures var long, short := Assemble(x + y, fs), Assemble(y, fs);
            && short.stop == Done && |short.delivered| == |long.delivered|
            && forall i :: 0 <= i < |short.delivered| ==> long.delivered[i] == x + short.delivered[i]
    decreases |fs|
  {
    if fs != [] {
      assert (x + y) + fs[0].payload == x + (y + fs[0].payload);
      PendingIsPrefix(x, y + fs[0].payload, fs[1..]);
    }
  }

  // ---------------------------------------------------------------------------------
  // A cut inside a frame
  // ---------------------------------------------------------------------------------

  /** The bytes of a frame that are read before its payload: an empty unmasked frame needs no more. */
  function Needed(f: Frame): nat {
    if !f.extended then 2 else if f.fin then 4 else 8
  }

  /** Is a chunk that breaks off after k bytes of f decoded as if f were whole? */
  predicate Tolerated(f: Frame, k: nat) {
    k == 0 || k == f.Prefix() + |f.payload| || (f.payload == [] && k >= Needed(f))
  }

  lemma CutFrame(pending: seq<byte>, f: Frame, k: nat)
    requires f.WellFormed() && k < |Wire(f)| && (f.payload != [] || k < Needed(f))
    ensures OneFrame(pending, Wire(f)[..k]) == Halt(ReadsPastChunk)
  {
    hide HeadBytes, ToHead, Le16, FromLe16, Wire;
    var h := FrameHead(f);
    var d := Wire(f)[..k];
    WireLayout(f, []);
    assert Wire(f) + [] == Wire(f);
    HeadRoundTrip(h);
    if k >= 2 {
      assert d[0] == Wire(f)[..2][0] && d[1] == Wire(f)[..2][1];
      if f.extended && k >= 4 {
        Le16RoundTrip(|f.payload|);
        assert d[2] == Wire(f)[2..4][0] && d[3] == Wire(f)[2..4][1];
      }
    }
  }

  /** An empty unmasked frame cut inside its mask goes unnoticed. */
  lemma CutEmptyFrame(pending: seq<byte>, f: Frame, k: nat)
    requires f.WellFormed() && f.payload == [] && Needed(f) <= k < |Wire(f)|
    ensures OneFrame(pending, Wire(f)[..k]) == Absorb(pending, f.fin, f.opcode, [], f.Prefix())
  {
    hide HeadBytes, ToHead, Le16, FromLe16, Wire, Absorb;
    var h := FrameHead(f);
    var d := Wire(f)[..k];
    WireLayout(f, []);
    assert Wire(f) + [] == Wire(f);
    HeadRoundTrip(h);
    assert d[0] == Wire(f)[..2][0] && d[1] == Wire(f)[..2][1];
    if f.extended {
      Le16RoundTrip(0);
      assert d[2] == Wire(f)[2..4][0] && d[3] == Wire(f)[2..4][1];
    }
  }

  /**
   * A chunk that starts on a frame boundary is decoded to its end exactly when it also ends on
   * one, or inside the mask of an empty unmasked frame; any other frame cut short is not kept for
   * the next chunk but read past.
   */
  lemma {:induction false} ChunkBoundaryExact(pending: seq<byte>, fs: seq<Frame>, f: Frame, k: nat)
    requires forall g :: g in fs + [f] ==> g.WellFormed()
    requires Assemble(pending, fs + [f]).stop == Done
    requires k <= |Wire(f)| && (fs != [] || k > 0)
    ensures DecodeLoop(pending, Flatten(Wires(fs)) + Wire(f)[..k]).stop
         == if Tolerated(f, k) then Done else ReadsPastChunk
    decreases |fs|
  {
    hide DecodeLoop, OneFrame, Wire, After, Absorb, Assemble, Flatten;
    if fs == [] {
      assert fs + [f] == [f];
      LastOrCut(pending, f, k);
      assert Flatten(Wires([])) + Wire(f)[..k] == Wire(f)[..k] by { FlattenNone(); }
    } else {
      var g := fs[0];
      assert (fs + [f])[0] == g && (fs + [f])[1..] == fs[1..] + [f];
      var rest := Flatten(Wires(fs[1..])) + Wire(f)[..k];
      FlattenWires(fs);
      assert Flatten(Wires(fs)) + Wire(f)[..k] == Wire(g) + rest;
      DecodeFirst(pending, g, rest);
      AssembleFirst(pending, fs + [f]);
      var t := Absorb(pending, g.fin, g.opcode, g.payload, |Wire(g)|);
      if fs[1..] == [] && k == 0 {
        assert rest == [] by { FlattenNone(); }
      } else {
        RestNotEmpty(fs[1..], f, k);
        ChunkBoundaryExact(t.pending, fs[1..], f, k);
        AfterStop(t.delivered, DecodeLoop(t.pending, rest));
      }
    }
  }

  /** One frame alone in a chunk, whole or cut. */
  lemma LastOrCut(pending: seq<byte>, f: Frame, k: nat)
    requires f.WellFormed() && Assemble(pending, [f]).stop == Done
    requires 0 < k <= |Wire(f)|
    ensures DecodeLoop(pending, Wire(f)[..k]).stop == if Tolerated(f, k) then Done else ReadsPastChunk
  {
    hide DecodeLoop, OneFrame, Wire, Assemble;
    AssembleOne(pending, f);
    if k == |Wire(f)| {
      assert Wire(f)[..k] == Wire(f) + [];
      DecodeFirst(pending, f, []);
    } else if f.payload == [] && k >= Needed(f) {
      CutEmptyFrame(pending, f, k);
      UsedUp(pending, Wire(f)[..k]);
    } else {
      CutFrame(pending, f, k);
      Halted(pending, Wire(f)[..k]);
    }
  }

  lemma UsedUp(pending: seq<byte>, d: seq<byte>)
    requires var t := OneFrame(pending, d); t.Next? && t.used >= |d|
    ensures DecodeLoop(pending, d).stop == Done
  {
    hide OneFrame;
  }

  lemma FlattenNone()
    ensures Wires([]) == [] && Flatten(Wires([])) == []
  {
  }

  lemma FlattenWires(fs: seq<Frame>)
    requires fs != [] && forall f :: f in fs ==> f.WellFormed()
    ensures Flatten(Wires(fs)) == Wire(fs[0]) + Flatten(Wires(fs[1..]))
  {
    hide Wire;
    assert Wires(fs)[1..] == Wires(fs[1..]);
  }

  lemma Halted(pending: seq<byte>, d: seq<byte>)
    requires OneFrame(pending, d).Halt?
    ensures DecodeLoop(pending, d) == Result(OneFrame(pending, d).stop, pending, [])
  {
    hide OneFrame;
  }

  lemma AfterStop(out: seq<seq<byte>>, r: Result)
    ensures After(out, r).stop == r.stop
  {
  }

  lemma AssembleFirst(pending: seq<byte>, fs: seq<Frame>)
    requires fs != [] && Assemble(pending, fs).stop == Done
    ensures var t := Absorb(pending, fs[0].fin, fs[0].opcode, fs[0].payload, |fs[0].payload| + fs[0].Prefix());
            t.Next? && Assemble(t.pending, fs[1..]).stop == Done
  {
  }

  lemma RestNotEmpty(fs: seq<Frame>, f: Frame, k: nat)
    requires forall g :: g in fs ==> g.WellFormed()
    requires f.WellFormed() && k <= |Wire(f)| && (fs != [] || k > 0)
    ensures |Flatten(Wires(fs)) + Wire(f)[..k]| > 0
  {
    hide Wire, Flatten;
    if fs != [] {
      FlattenWires(fs);
    }
  }

  // ---------------------------------------------------------------------------------
  // A new decoder for every chunk
  // ---------------------------------------------------------------------------------

  function Serve(chunks: seq<seq<byte>>): Result
    decreases |chunks|
  {
    if chunks == [] then Result(Done, [], [])
    else
      var r := Decode([], chunks[0]);
      if r.stop != Done then r else After(r.delivered, Serve(chunks[1..]))
  }

  lemma ServeTwo(chunks: seq<seq<byte>>)
    requires |chunks| == 2
    requires Decode([], chunks[0]).stop == Decode([], chunks[1]).stop == Done
    ensures Serve(chunks).stop == Done
    ensures Serve(chunks).delivered == Decode([], chunks[0]).delivered + Decode([], chunks[1]).delivered
  {
    hide Decode;
    var last := chunks[1..];
    assert last[0] == chunks[1] && last[1..] == [];
    assert Serve(last[1..]) == Result(Done, [], []);
    assert Serve(last).delivered == Decode([], chunks[1]).delivered + [] == Decode([], chunks[1]).delivered;
  }

  lemma FlattenTwo<T>(a: seq<T>, b: seq<T>)
    ensures Flatten([a, b]) == a + b
  {
    assert [a, b][1..] == [b] && [b][1..] == [];
    assert Flatten([b]) == b + [];
  }

  /** Frames that assemble after something pending also assemble from scratch. */
  lemma {:induction false} ScratchDone(x: seq<byte>, y: seq<byte>, fs: seq<Frame>)
    requires Assemble(x + y, fs).stop == Done
    ensures Assemble(y, fs).stop == Done
    decreases |fs|
  {
    if fs != [] {
      var f := fs[0];
      var t, u := Absorb(x + y, f.fin, f.opcode, f.payload, 0), Absorb(y, f.fin, f.opcode, f.payload, 0);
      if f.opcode == CONTINUE || (f.fin && f.opcode != CONTINUE) || !(f.opcode == TEXT || f.opcode == BLOB) {
        assert (x + y) + f.payload == x + (y + f.payload);
        assert t.pending == x + u.pending;
        ScratchDone(x, u.pending, fs[1..]);
      } else {
        assert t == u;
      }
    }
  }

  // ---------------------------------------------------------------------------------
  // Cuts anywhere
  // ---------------------------------------------------------------------------------

  function Size(f: Frame): nat {
    f.Prefix() + |f.payload|
  }

  /** Does a frame end, or the stream start, n bytes into the stream? */
  predicate OnBoundary(fs: seq<Frame>, n: nat)
    decreases |fs|
  {
    n == 0 || (fs != [] && Size(fs[0]) <= n && OnBoundary(fs[1..], n - Size(fs[0])))
  }

  /** The frames that lie wholly in the first n bytes. */
  function Whole(fs: seq<Frame>, n: nat): (j: nat)
    ensures j <= |fs|
    decreases |fs|
  {
    if fs == [] || n < Size(fs[0]) then 0 else 1 + Whole(fs[1..], n - Size(fs[0]))
  }

  /** Every chunk ends where a frame ends. */
  predicate CutsBetween(fs: seq<Frame>, cs: seq<seq<byte>>) {
    forall i :: 0 <= i <= |cs| ==> OnBoundary(fs, |Flatten(cs[..i])|)
  }

  predicate AllWellFormed(fs: seq<Frame>) {
    forall f :: f in fs ==> f.WellFormed() && f.payload != []
  }

  predicate Readable(cs: seq<seq<byte>>) {
    forall c :: c in cs ==> 0 < |c| < MAX_FRAMESIZE
  }

  function Stream(fs: seq<Frame>): seq<byte>
    requires AllWellFormed(fs)
  {
    Flatten(Wires(fs))
  }

  lemma StreamCons(fs: seq<Frame>)
    requires AllWellFormed(fs) && fs != []
    ensures AllWellFormed(fs[1..])
    ensures Stream(fs) == Wire(fs[0]) + Stream(fs[1..]) && |Wire(fs[0])| == Size(fs[0])
  {
    hide Wire;
    FlattenWires(fs);
  }

  lemma StreamSplit(fs: seq<Frame>, j: nat)
    requires AllWellFormed(fs) && j <= |fs|
    ensures AllWellFormed(fs[..j]) && AllWellFormed(fs[j..])
    ensures Stream(fs) == Stream(fs[..j]) + Stream(fs[j..])
  {
    hide Wire;
    FlattenAppend(Wires(fs[..j]), Wires(fs[j..]));
    assert Wires(fs) == Wires(fs[..j]) + Wires(fs[j..]);
  }

  /** The first n bytes are the frames that fit and a piece of the next, empty exactly on a boundary. */
  lemma {:induction false} Locate(fs: seq<Frame>, n: nat) returns (j: nat, k: nat)
    requires AllWellFormed(fs) && n <= |Stream(fs)|
    ensures j == Whole(fs, n) && AllWellFormed(fs[..j])
    ensures if j == |fs| then k == 0 else fs[j].WellFormed() && k < Size(fs[j]) == |Wire(fs[j])|
    ensures n == |Stream(fs[..j])| + k
    ensures Stream(fs)[..n] == Stream(fs[..j]) + if j == |fs| then [] else Wire(fs[j])[..k]
    ensures OnBoundary(fs, n) <==> k == 0
    decreases |fs|
  {
    hide Wire, Stream;
    if fs == [] {
      j, k := 0, 0;
      assert fs[..0] == [];
      EmptyStream();
    } else {
      StreamCons(fs);
      if n < Size(fs[0]) {
        j, k := 0, n;
        assert fs[..0] == [];
        EmptyStream();
      } else {
        var tail := fs[1..];
        var m := n - Size(fs[0]);
        var j', k' := Locate(tail, m);
        j, k := j' + 1, k';
        assert fs[..j][1..] == tail[..j'] && fs[..j][0] == fs[0];
        StreamCons(fs[..j]);
        assert Stream(fs)[..n] == Wire(fs[0]) + Stream(tail)[..m];
      }
    }
  }

  lemma EmptyStream()
    ensures AllWellFormed([]) && Stream([]) == []
  {
  }

  /** Boundaries past the first j frames are boundaries of the rest. */
  lemma {:induction false} BoundaryShift(fs: seq<Frame>, j: nat, n: nat)
    requires AllWellFormed(fs) && j <= |fs| && AllWellFormed(fs[..j])
    ensures OnBoundary(fs, |Stream(fs[..j])| + n) <==> OnBoundary(fs[j..], n)
    ensures Whole(fs, |Stream(fs[..j])| + n) == j + Whole(fs[j..], n)
    decreases j
  {
    hide Wire, Stream;
    if j == 0 {
      assert fs[..0] == [] && fs[0..] == fs;
      EmptyStream();
    } else {
      var tail := fs[1..];
      assert fs[..j][1..] == tail[..j - 1] && fs[..j][0] == fs[0] && tail[j - 1..] == fs[j..];
      StreamCons(fs[..j]);
      BoundaryShift(tail, j - 1, n);
    }
  }

  lemma CutsShift(fs: seq<Frame>, j: nat, cs: seq<seq<byte>>)
    requires AllWellFormed(fs) && j <= |fs| && AllWellFormed(fs[..j])
    requires cs != [] && cs[0] == Stream(fs[..j])
    ensures CutsBetween(fs, cs) <==> CutsBetween(fs[j..], cs[1..])
  {
    hide Stream, OnBoundary, Flatten;
    forall i | 0 < i <= |cs|
      ensures OnBoundary(fs, |Flatten(cs[..i])|) <==> OnBoundary(fs[j..], |Flatten(cs[1..][..i - 1])|)
    {
      FlattenFirst(cs, i);
      BoundaryShift(fs, j, |Flatten(cs[1..][..i - 1])|);
    }
    if CutsBetween(fs, cs) {
      forall i | 0 <= i <= |cs| - 1 ensures OnBoundary(fs[j..], |Flatten(cs[1..][..i])|) {
        assert OnBoundary(fs, |Flatten(cs[..i + 1])|);
      }
    }
    if CutsBetween(fs[j..], cs[1..]) {
      forall i | 0 <= i <= |cs| ensures OnBoundary(fs, |Flatten(cs[..i])|) {
        if i == 0 {
          StartIsBoundary(fs, cs);
        } else {
          assert OnBoundary(fs[j..], |Flatten(cs[1..][..i - 1])|);
        }
      }
    }
  }

  lemma StartIsBoundary(fs: seq<Frame>, cs: seq<seq<byte>>)
    ensures |Flatten(cs[..0])| == 0 && OnBoundary(fs, 0) && OnBoundary(fs, |Flatten(cs[..0])|)
  {
  }

  lemma FlattenFirst(cs: seq<seq<byte>>, i: nat)
    requires 0 < i <= |cs|
    ensures Flatten(cs[..i]) == cs[0] + Flatten(cs[1..][..i - 1])
  {
    assert cs[..i][1..] == cs[1..][..i - 1];
  }

  /** A cut inside a frame at the end of the first chunk is a cut inside a frame. */
  lemma FirstCutInside(fs: seq<Frame>, cs: seq<seq<byte>>)
    requires cs != [] && !OnBoundary(fs, |cs[0]|)
    ensures !CutsBetween(fs, cs)
  {
    FlattenFirst(cs, 1);
    assert Flatten(cs[1..][..0]) == [];
    assert cs[0] + [] == cs[0];
    assert !OnBoundary(fs, |Flatten(cs[..1])|);
  }

  lemma PrefixDone(pending: seq<byte>, fs: seq<Frame>, j: nat)
    requires j <= |fs| && Assemble(pending, fs).stop == Done
    ensures var r := Assemble(pending, fs[..j]);
            r.stop == Done && Assemble(r.pending, fs[j..]).stop == Done
    ensures var r := Assemble(pending, fs[..j]);
            Assemble(pending, fs) == After(r.delivered, Assemble(r.pending, fs[j..]))
  {
    hide Assemble;
    assert fs == fs[..j] + fs[j..];
    AssembleAppend(pending, fs[..j], fs[j..]);
  }

  /** A frame cut short never lets a chunk be decoded to its end, whatever comes before it. */
  lemma {:induction false} CutNeverDone(pending: seq<byte>, fs: seq<Frame>, f: Frame, k: nat)
    requires AllWellFormed(fs) && f.WellFormed() && f.payload != [] && 0 < k < |Wire(f)|
    ensures DecodeLoop(pending, Stream(fs) + Wire(f)[..k]).stop != Done
    decreases |fs|
  {
    hide DecodeLoop, OneFrame, Wire, After, Stream;
    if fs == [] {
      EmptyStream();
      assert Stream(fs) + Wire(f)[..k] == Wire(f)[..k];
      CutFrame(pending, f, k);
      Halted(pending, Wire(f)[..k]);
    } else {
      StreamCons(fs);
      var rest := Stream(fs[1..]) + Wire(f)[..k];
      assert Stream(fs) + Wire(f)[..k] == Wire(fs[0]) + rest;
      DecodeFirst(pending, fs[0], rest);
      var t := Absorb(pending, fs[0].fin, fs[0].opcode, fs[0].payload, |Wire(fs[0])|);
      if t.Next? {
        CutNeverDone(t.pending, fs[1..], f, k);
        AfterStop(t.delivered, DecodeLoop(t.pending, rest));
      }
    }
  }

  /** What one chunk does: everything in it when it ends on a boundary, else the end is not reached. */
  lemma ChunkOfStream(pending: seq<byte>, fs: seq<Frame>, c: seq<byte>) returns (j: nat)
    requires AllWellFormed(fs) && 0 < |c| < MAX_FRAMESIZE && c <= Stream(fs)
    ensures j == Whole(fs, |c|) && AllWellFormed(fs[..j])
    ensures OnBoundary(fs, |c|) ==>
      0 < j && c == Stream(fs[..j]) && Decode(pending, c) == Assemble(pending, fs[..j])
    ensures !OnBoundary(fs, |c|) ==> Decode(pending, c).stop != Done
  {
    hide DecodeLoop, Assemble, Wire, Flatten, OnBoundary, Whole;
    var k;
    j, k := Locate(fs, |c|);
    assert c == Stream(fs)[..|c|];
    if k == 0 {
      assert c == Stream(fs[..j]) + [];
      if j == 0 {
        assert fs[..0] == [];
        EmptyStream();
      }
      DecodeFrames(pending, fs[..j]);
    } else {
      CutNeverDone(pending, fs[..j], fs[j], k);
    }
  }

  /** When the frames assemble, the end is missed only by reading past it. */
  lemma FirstChunk(pending: seq<byte>, fs: seq<Frame>, c: seq<byte>) returns (j: nat)
    requires AllWellFormed(fs) && Assemble(pending, fs).stop == Done
    requires 0 < |c| < MAX_FRAMESIZE && c <= Stream(fs)
    ensures j == Whole(fs, |c|) && AllWellFormed(fs[..j])
    ensures OnBoundary(fs, |c|) ==>
      0 < j && c == Stream(fs[..j]) && Decode(pending, c) == Assemble(pending, fs[..j])
    ensures !OnBoundary(fs, |c|) ==> Decode(pending, c).stop == ReadsPastChunk
  {
    hide DecodeLoop, Assemble, Wire, Flatten, OnBoundary, Whole;
    j := ChunkOfStream(pending, fs, c);
    if !OnBoundary(fs, |c|) {
      var j', k := Locate(fs, |c|);
      assert c == Stream(fs)[..|c|];
      assert fs[..j] + [fs[j]] == fs[..j + 1];
      PrefixDone(pending, fs, j + 1);
      ChunkBoundaryExact(pending, fs[..j], fs[j], k);
    }
  }

  /** Whatever frames are in a stream: if every chunk of it is decoded to its end, each ends on a boundary. */
  lemma {:induction false} FeedDone(pending: seq<byte>, fs: seq<Frame>, cs: seq<seq<byte>>)
    requires AllWellFormed(fs) && Readable(cs) && Flatten(cs) <= Stream(fs)
    requires Feed(pending, cs).stop == Done
    ensures CutsBetween(fs, cs)
    ensures Feed(pending, cs) == Assemble(pending, fs[..Whole(fs, |Flatten(cs)|)])
    decreases |cs|
  {
    hide Decode, Assemble, Stream, OnBoundary, Whole, Flatten, CutsBetween, Wire;
    if cs == [] {
      NothingRead(pending, fs);
    } else {
      var c := cs[0];
      FirstIsPrefix(cs, Stream(fs));
      var j := ChunkOfStream(pending, fs, c);
      RestOfStream(fs, j, cs);
      var r := Assemble(pending, fs[..j]);
      FeedDone(r.pending, fs[j..], cs[1..]);
      CutsShift(fs, j, cs);
      BoundaryShift(fs, j, |Flatten(cs[1..])|);
      var j' := Whole(fs[j..], |Flatten(cs[1..])|);
      assert fs[..j + j'] == fs[..j] + fs[j..][..j'];
      AssembleAppend(pending, fs[..j], fs[j..][..j']);
    }
  }

  /** The chunks after the first are cut from the bytes after the first. */
  lemma RestOfStream(fs: seq<Frame>, j: nat, cs: seq<seq<byte>>)
    requires AllWellFormed(fs) && j <= |fs| && AllWellFormed(fs[..j])
    requires cs != [] && cs[0] == Stream(fs[..j]) && Flatten(cs) <= Stream(fs)
    ensures AllWellFormed(fs[j..]) && Flatten(cs[1..]) <= Stream(fs[j..])
    ensures Flatten(cs) == Stream(fs) ==> Flatten(cs[1..]) == Stream(fs[j..])
    ensures |Flatten(cs)| == |Stream(fs[..j])| + |Flatten(cs[1..])|
  {
    hide Stream;
    StreamSplit(fs, j);
    var c, rest := cs[0], Flatten(cs[1..]);
    assert Flatten(cs) == c + rest;
    assert (c + rest)[|c|..] == rest && (c + Stream(fs[j..]))[|c|..] == Stream(fs[j..]);
    assert rest == Stream(fs)[|c|..|c| + |rest|];
  }

  /**
   * A stream read in any chunks whatever, with one decoder: decoding goes on exactly while every
   * chunk ends on a frame boundary, and then does what the whole frames received so far mean.
   */
  lemma {:induction false} FeedExact(pending: seq<byte>, fs: seq<Frame>, cs: seq<seq<byte>>)
    requires AllWellFormed(fs) && Assemble(pending, fs).stop == Done
    requires Readable(cs) && Flatten(cs) <= Stream(fs)
    ensures Feed(pending, cs).stop == if CutsBetween(fs, cs) then Done else ReadsPastChunk
    ensures CutsBetween(fs, cs) ==> Feed(pending, cs) == Assemble(pending, fs[..Whole(fs, |Flatten(cs)|)])
    decreases |cs|
  {
    hide Decode, Assemble, Stream, OnBoundary, Whole, Flatten, CutsBetween, Wire;
    if cs == [] {
      NothingRead(pending, fs);
    } else {
      var c := cs[0];
      FirstIsPrefix(cs, Stream(fs));
      var j := FirstChunk(pending, fs, c);
      if OnBoundary(fs, |c|) {
        PrefixDone(pending, fs, j);
        RestOfStream(fs, j, cs);
        var r := Assemble(pending, fs[..j]);
        FeedExact(r.pending, fs[j..], cs[1..]);
        CutsShift(fs, j, cs);
        BoundaryShift(fs, j, |Flatten(cs[1..])|);
        var j' := Whole(fs[j..], |Flatten(cs[1..])|);
        assert fs[..j + j'] == fs[..j] + fs[j..][..j'];
        AssembleAppend(pending, fs[..j], fs[j..][..j']);
      } else {
        FirstCutInside(fs, cs);
      }
    }
  }

  lemma NothingRead(pending: seq<byte>, fs: seq<Frame>)
    ensures CutsBetween(fs, []) && Feed(pending, []) == Result(Done, pending, [])
    ensures Whole(fs, |Flatten<byte>([])|) == 0 && Assemble(pending, fs[..0]) == Result(Done, pending, [])
  {
    assert Flatten<byte>([]) == [];
  }

  lemma FirstIsPrefix(cs: seq<seq<byte>>, all: seq<byte>)
    requires cs != [] && Flatten(cs) <= all
    ensures cs[0] <= all
  {
    var rest := Flatten(cs[1..]);
    assert Flatten(cs) == cs[0] + rest;
    assert cs[0] == Flatten(cs)[..|cs[0]|];
  }

  /** The same with a new decoder for every chunk, as far as getting to the end goes. */
  lemma {:induction false} ServeBoundaries(fs: seq<Frame>, cs: seq<seq<byte>>)
    requires AllWellFormed(fs) && Assemble([], fs).stop == Done
    requires Readable(cs) && Flatten(cs) <= Stream(fs)
    ensures Serve(cs).stop == if CutsBetween(fs, cs) then Done else ReadsPastChunk
    decreases |cs|
  {
    hide Decode, Assemble, Stream, OnBoundary, Whole, Flatten, CutsBetween, Wire;
    if cs == [] {
      NothingRead([], fs);
    } else {
      var c := cs[0];
      FirstIsPrefix(cs, Stream(fs));
      var j := FirstChunk([], fs, c);
      if OnBoundary(fs, |c|) {
        PrefixDone([], fs, j);
        RestOfStream(fs, j, cs);
        var r := Assemble([], fs[..j]);
        assert r.pending + [] == r.pending;
        ScratchDone(r.pending, [], fs[j..]);
        ServeBoundaries(fs[j..], cs[1..]);
        CutsShift(fs, j, cs);
      } else {
        FirstCutInside(fs, cs);
      }
    }
  }

  /** Chunks cut between frames are chunks of whole frames. */
  lemma {:induction false} GroupsAt(fs: seq<Frame>, cs: seq<seq<byte>>) returns (groups: seq<seq<Frame>>)
    requires AllWellFormed(fs) && Readable(cs) && Flatten(cs) == Stream(fs) && CutsBetween(fs, cs)
    ensures Flatten(groups) == fs
    ensures forall i :: 0 <= i < |groups| ==> Sendable(groups[i])
    ensures Chunks(groups) == cs
    decreases |cs|
  {
    hide Stream, OnBoundary, Whole, Flatten, CutsBetween, Wire, Sendable, Chunk;
    if cs == [] {
      EmptyStream();
      NoFrames(fs);
      groups := [];
      assert Chunks(groups) == [];
    } else {
      var c := cs[0];
      FirstIsPrefix(cs, Stream(fs));
      if !OnBoundary(fs, |c|) {
        FirstCutInside(fs, cs);
      }
      var j, k := Locate(fs, |c|);
      assert c == Stream(fs)[..|c|] == Stream(fs[..j]) + [] == Stream(fs[..j]);
      RestOfStream(fs, j, cs);
      CutsShift(fs, j, cs);
      var rest := GroupsAt(fs[j..], cs[1..]);
      var g := fs[..j];
      SendableGroup(g, c);
      groups := [g] + rest;
      assert groups[1..] == rest;
      FlattenCons(g, rest);
      assert g + fs[j..] == fs;
      ChunksCons(g, rest);
      assert cs == [c] + cs[1..];
    }
  }

  lemma NoFrames(fs: seq<Frame>)
    requires AllWellFormed(fs) && Flatten<byte>([]) == Stream(fs)
    ensures fs == [] && Flatten<Frame>([]) == fs
  {
    hide Wire;
    if fs != [] {
      StreamCons(fs);
    }
  }

  lemma SendableGroup(g: seq<Frame>, c: seq<byte>)
    requires AllWellFormed(g) && c == Stream(g) && 0 < |c| < MAX_FRAMESIZE
    ensures Sendable(g) && Chunk(g) == c
  {
    hide Wire;
    if g == [] {
      EmptyStream();
    }
  }

  lemma FlattenCons<T>(g: seq<T>, rest: seq<seq<T>>)
    ensures Flatten([g] + rest) == g + Flatten(rest)
  {
    assert ([g] + rest)[1..] == rest;
  }

  lemma ChunksCons(g: seq<Frame>, rest: seq<seq<Frame>>)
    requires Sendable(g) && forall i :: 0 <= i < |rest| ==> Sendable(rest[i])
    ensures forall i :: 0 <= i < |[g] + rest| ==> Sendable(([g] + rest)[i])
    ensures Chunks([g] + rest) == [Chunk(g)] + Chunks(rest)
  {
    hide Sendable, Chunk;
  }

  lemma WholeStream(fs: seq<Frame>)
    requires AllWellFormed(fs)
    ensures Whole(fs, |Stream(fs)|) == |fs|
  {
    hide Stream;
    assert fs[..|fs|] == fs;
    BoundaryShift(fs, |fs|, 0);
  }
}
