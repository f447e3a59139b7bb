// Many messages over one connection, its bytes read in any chunks: what the client and the server deliver.
module MessageStreams {
  import opened Bytes
  import opened Frames
  import opened Decoding
  import opened Encoding
  import opened RoundTrip
  import opened Chunking
  import opened Reassembly

  datatype Message = Message(op: OpCode, payload: seq<byte>, stack: Head)

  predicate AllFaithful(ms: seq<Message>) {
    forall m :: m in ms ==> Faithful(m.op, m.payload, m.stack)
  }

  function AllFrames(ms: seq<Message>): seq<Frame> {
    if ms == [] then [] else FramesOf(ms[0].op, ms[0].payload, ms[0].stack) + AllFrames(ms[1..])
  }

  function Payloads(ms: seq<Message>): (r: seq<seq<byte>>)
    ensures |r| == |ms|
    ensures forall i :: 0 <= i < |ms| ==> r[i] == ms[i].payload
  {
    seq(|ms|, i requires 0 <= i < |ms| => ms[i].payload)
  }

  /** What the callback of encodeFrame passes to send, message after message. */
  function Sends(ms: seq<Message>): seq<seq<byte>> {
    if ms == [] then []
    else
      var e := EncodeFrame(ms[0].op, ms[0].payload, ms[0].stack);
      (if e.Sent? then e.chunks else []) + Sends(ms[1..])
  }

  lemma {:induction false} SendsAreFrames(ms: seq<Message>)
    requires AllFaithful(ms)
    ensures forall f :: f in AllFrames(ms) ==> f.WellFormed()
    ensures Sends(ms) == Wires(AllFrames(ms))
    decreases |ms|
  {
    hide FramesOf, Faithful, Wire, EncodeFrame;
    if ms != [] {
      var m := ms[0];
      FaithfulArrives([], m.op, m.payload, m.stack);
      SendsAreFrames(ms[1..]);
      var fs, rest := FramesOf(m.op, m.payload, m.stack), AllFrames(ms[1..]);
      assert Wires(fs + rest) == Wires(fs) + Wires(rest);
    }
  }

  /** Every frame a faithful message is sent as is masked, and so holds something. */
  lemma FramesMasked(m: Message)
    ensures forall f :: f in FramesOf(m.op, m.payload, m.stack) ==> f.masked
    ensures FramesOf(m.op, m.payload, m.stack) != []
  {
  }

  /** The stream of frames is what the messages send. */
  lemma {:induction false} MessageStream(ms: seq<Message>)
    requires AllFaithful(ms)
    ensures AllWellFormed(AllFrames(ms)) && Stream(AllFrames(ms)) == Flatten(Sends(ms))
    ensures ms != [] ==> AllFrames(ms) != []
  {
    SendsAreFrames(ms);
    AllMasked(ms);
    hide Wire, AllFrames, Sends;
  }

  lemma {:induction false} AllMasked(ms: seq<Message>)
    ensures forall f :: f in AllFrames(ms) ==> f.masked
    ensures ms != [] ==> AllFrames(ms) != []
  {
    hide FramesOf;
    if ms != [] {
      FramesMasked(ms[0]);
      AllMasked(ms[1..]);
    }
  }

  // ---------------------------------------------------------------------------------
  // One decoder for the whole connection: the client
  // ---------------------------------------------------------------------------------

  /** The frames of faithful messages assemble to those messages, whatever was pending. */
  lemma {:induction false} AssembleMessages(pending: seq<byte>, ms: seq<Message>)
    requires AllFaithful(ms)
    ensures var r := Assemble(pending, AllFrames(ms));
            r.stop == Done && r.delivered == Payloads(ms)
    ensures forall f :: f in AllFrames(ms) ==> f.WellFormed()
    decreases |ms|
  {
    hide Assemble, FramesOf, Faithful;
    if ms == [] {
      AssembleNone(pending);
    } else {
      var m := ms[0];
      FaithfulArrives(pending, m.op, m.payload, m.stack);
      var fs := FramesOf(m.op, m.payload, m.stack);
      AssembleAppend(pending, fs, AllFrames(ms[1..]));
      AssembleMessages(Assemble(pending, fs).pending, ms[1..]);
      assert Payloads(ms) == [m.payload] + Payloads(ms[1..]);
    }
  }

  /** Every final frame delivers once, and nothing else delivers. */
  lemma {:induction false} DeliveredCount(pending: seq<byte>, fs: seq<Frame>)
    requires Assemble(pending, fs).stop == Done
    ensures |Assemble(pending, fs).delivered| == Finals(fs)
    decreases |fs|
  {
    if fs != [] {
      var t := Absorb(pending, fs[0].fin, fs[0].opcode, fs[0].payload, 0);
      DeliveredCount(t.pending, fs[1..]);
    }
  }

  /** The messages whose last frame lies wholly in the first n bytes of the stream. */
  function Arrived(ms: seq<Message>, n: nat): nat {
    Finals(AllFrames(ms)[..Whole(AllFrames(ms), n)])
  }

  /**
   * A list of faithful messages, of which some have come in, read in any chunks whatever: the
   * client gets through exactly when every chunk ends where a frame ends. It has then delivered the
   * messages whose last frame has come, in order and nothing else, whatever was pending.
   */
  lemma ClientExact(pending: seq<byte>, ms: seq<Message>, cs: seq<seq<byte>>)
    requires AllFaithful(ms) && Readable(cs) && Flatten(cs) <= Flatten(Sends(ms))
    ensures Feed(pending, cs).stop == if CutsBetween(AllFrames(ms), cs) then Done else ReadsPastChunk
    ensures Arrived(ms, |Flatten(cs)|) <= |ms|
    ensures CutsBetween(AllFrames(ms), cs) ==>
      Feed(pending, cs).delivered == Payloads(ms)[..Arrived(ms, |Flatten(cs)|)]
    ensures CutsBetween(AllFrames(ms), cs) && Flatten(cs) == Flatten(Sends(ms)) ==>
      Feed(pending, cs).delivered == Payloads(ms)
  {
    hide Assemble, Feed, Stream, Flatten, CutsBetween, Whole, Finals, AllFrames, Sends, AllFaithful, AllWellFormed;
    var fs := AllFrames(ms);
    MessageStream(ms);
    AssembleMessages(pending, ms);
    FeedExact(pending, fs, cs);
    var j := Whole(fs, |Flatten(cs)|);
    PrefixDone(pending, fs, j);
    DeliveredCount(pending, fs[..j]);
    var got := Assemble(pending, fs[..j]).delivered;
    var all := Assemble(pending, fs).delivered;
    assert got == all[..|got|];
    if Flatten(cs) == Flatten(Sends(ms)) {
      WholeStream(fs);
      assert fs[..j] == fs;
    }
  }

  // ---------------------------------------------------------------------------------
  // A new decoder for every chunk: the server
  // ---------------------------------------------------------------------------------

  function Groups(mss: seq<seq<Message>>): (r: seq<seq<Frame>>)
    ensures |r| == |mss|
    ensures forall i :: 0 <= i < |mss| ==> r[i] == AllFrames(mss[i])
  {
    seq(|mss|, i requires 0 <= i < |mss| => AllFrames(mss[i]))
  }

  /** The server delivers everything when every chunk holds whole messages. */
  lemma {:induction false} ServerDelivers(mss: seq<seq<Message>>)
    requires forall ms :: ms in mss ==> AllFaithful(ms)
    requires forall i :: 0 <= i < |mss| ==> Sendable(Groups(mss)[i])
    ensures var r := Serve(Chunks(Groups(mss)));
            r.stop == Done && r.delivered == Payloads(Flatten(mss))
    decreases |mss|
  {
    hide Assemble, Decode, Chunk, Sendable, AllFaithful, AllFrames;
    if mss != [] {
      assert Groups(mss)[1..] == Groups(mss[1..]);
      assert Chunks(Groups(mss))[1..] == Chunks(Groups(mss[1..]));
      AssembleMessages([], mss[0]);
      assert Sendable(Groups(mss)[0]);
      DecodeChunk([], AllFrames(mss[0]));
      ServerDelivers(mss[1..]);
      assert Payloads(Flatten(mss)) == Payloads(mss[0]) + Payloads(Flatten(mss[1..]));
    }
  }

  // What a tail of frames can still deliver when its beginning is forgotten.
  /** The payload bytes up to and including the first final frame. */
  function UpToFinal(fs: seq<Frame>): nat {
    if fs == [] then 0 else |fs[0].payload| + if fs[0].fin then 0 else UpToFinal(fs[1..])
  }

  lemma {:induction false} UpToFinalAppend(a: seq<Frame>, b: seq<Frame>)
    ensures UpToFinal(a) <= UpToFinal(a + b)
    ensures (forall f :: f in a ==> !f.fin) ==> UpToFinal(a + b) == UpToFinal(a) + UpToFinal(b)
    ensures (exists f :: f in a && f.fin) ==> UpToFinal(a + b) == UpToFinal(a)
    decreases |a|
  {
    if a == [] {
      assert a + b == b;
    } else {
      assert (a + b)[1..] == a[1..] + b;
      UpToFinalAppend(a[1..], b);
      if (exists f :: f in a && f.fin) && !a[0].fin {
        var f :| f in a && f.fin;
        assert f in a[1..];
      }
    }
  }

  /** The first delivery is no longer than what was pending and what has come up to it. */
  lemma {:induction false} FirstDeliveryBound(pending: seq<byte>, fs: seq<Frame>)
    ensures var out := Assemble(pending, fs).delivered;
            out != [] ==> |out[0]| <= |pending| + UpToFinal(fs)
    ensures Assemble(pending, fs).stop == Done && Assemble(pending, fs).delivered == []
        ==> forall f :: f in fs ==> !f.fin
    decreases |fs|
  {
    if fs != [] {
      var t := Absorb(pending, fs[0].fin, fs[0].opcode, fs[0].payload, 0);
      if t.Next? {
        FirstDeliveryBound(t.pending, fs[1..]);
        assert fs[0].fin ==> (t.delivered + Assemble(t.pending, fs[1..]).delivered)[0] == t.delivered[0];
      }
    }
  }

  /** So it is with a new decoder for every group. */
  lemma {:induction false} ServeBound(groups: seq<seq<Frame>>)
    requires forall i :: 0 <= i < |groups| ==> Sendable(groups[i])
    ensures var out := Serve(Chunks(groups)).delivered;
            out != [] ==> |out[0]| <= UpToFinal(Flatten(groups))
    decreases |groups|
  {
    hide Assemble, Decode, Chunk, Sendable, UpToFinal;
    if groups != [] {
      var g, rest := groups[0], groups[1..];
      assert Chunks(groups)[1..] == Chunks(rest);
      DecodeChunk([], g);
      FirstDeliveryBound([], g);
      UpToFinalAppend(g, Flatten(rest));
      ServeBound(rest);
      var r := Assemble([], g);
      if r.delivered != [] {
        assert (r.delivered + Serve(Chunks(rest)).delivered)[0] == r.delivered[0];
      } else {
        assert [] + Serve(Chunks(rest)).delivered == Serve(Chunks(rest)).delivered;
      }
    }
  }

  /** A message cut after its first frames: none of those is final, and the others hold less than it. */
  lemma CutMessage(m: Message, j: nat, more: seq<Frame>)
    requires Faithful(m.op, m.payload, m.stack) && 0 < j < |FramesOf(m.op, m.payload, m.stack)|
    ensures var fs := FramesOf(m.op, m.payload, m.stack);
            && (forall f :: f in fs[..j] ==> !f.fin)
            && UpToFinal(fs[j..] + more) < |m.payload|
  {
    hide Piece, UpToFinal, Faithful, TailRepeats, SafeLength;
    var p, code := m.payload, Code(m.op);
    var fs := Pieces(code, p, Slices(|p|));
    assert FramesOf(m.op, m.payload, m.stack) == fs && |p| % SLICE_SIZE > 0 && |p| > SLICE_SIZE by {
      LongIfCut(m, j);
    }
    forall i | 0 <= i < j ensures !fs[..j][i].fin {
      OpeningPiece(code, p, i);
    }
    FinalPiece(code, p);
    PiecesLeft(code, p, j);
    UpToFinalAppend(fs[j..], more);
    assert fs[j..][|fs| - 1 - j] == Piece(code, p, |fs| - 1);
  }

  lemma LongIfCut(m: Message, j: nat)
    requires Faithful(m.op, m.payload, m.stack) && 0 < j < |FramesOf(m.op, m.payload, m.stack)|
    ensures Data(m.op) && |m.payload| % SLICE_SIZE > 0 && |m.payload| > SLICE_SIZE
  {
  }

  lemma {:induction false} PiecesLeft(code: nibble, p: seq<byte>, j: nat)
    requires |p| > SLICE_SIZE && |p| % SLICE_SIZE > 0 && j < Slices(|p|)
    ensures UpToFinal(Pieces(code, p, Slices(|p|))[j..]) == |p| - j * SLICE_SIZE
    decreases Slices(|p|) - j
  {
    hide Piece;
    var fs := Pieces(code, p, Slices(|p|));
    assert fs[j..][0] == Piece(code, p, j) && fs[j..][1..] == fs[j + 1..];
    FinalPiece(code, p);
    if j + 1 < Slices(|p|) {
      OpeningPiece(code, p, j);
      PiecesLeft(code, p, j + 1);
    }
  }

  /** Where the first n frames of a list of messages end: after k messages and j frames of the next. */
  lemma {:induction false} CutPoint(ms: seq<Message>, n: nat) returns (k: nat, j: nat)
    requires n <= |AllFrames(ms)|
    ensures k <= |ms|
    ensures j > 0 ==> k < |ms| && j < |FramesOf(ms[k].op, ms[k].payload, ms[k].stack)|
    ensures j == 0 ==> AllFrames(ms)[..n] == AllFrames(ms[..k]) && AllFrames(ms)[n..] == AllFrames(ms[k..])
    ensures j > 0 ==> var fs := FramesOf(ms[k].op, ms[k].payload, ms[k].stack);
      && AllFrames(ms)[..n] == AllFrames(ms[..k]) + fs[..j]
      && AllFrames(ms)[n..] == fs[j..] + AllFrames(ms[k + 1..])
    decreases |ms|
  {
    hide FramesOf;
    if ms == [] || n == 0 {
      k, j := 0, 0;
      assert ms[..0] == [] && ms[0..] == ms;
    } else {
      var fs, tail := FramesOf(ms[0].op, ms[0].payload, ms[0].stack), AllFrames(ms[1..]);
      if n < |fs| {
        k, j := 0, n;
        assert ms[..0] == [];
        assert (fs + tail)[..n] == [] + fs[..n] && (fs + tail)[n..] == fs[n..] + tail;
      } else {
        var k', j' := CutPoint(ms[1..], n - |fs|);
        k, j := k' + 1, j';
        ConsSlices(ms, k');
        AllFramesTake(ms, k);
        SlicesPast(fs, tail, n);
        if j > 0 {
          assert fs + (AllFrames(ms[1..][..k']) + FramesOf(ms[k].op, ms[k].payload, ms[k].stack)[..j])
              == AllFrames(ms[..k]) + FramesOf(ms[k].op, ms[k].payload, ms[k].stack)[..j];
        }
      }
    }
  }

  lemma SlicesPast(a: seq<Frame>, b: seq<Frame>, n: nat)
    requires |a| <= n <= |a + b|
    ensures (a + b)[..n] == a + b[..n - |a|] && (a + b)[n..] == b[n - |a|..]
  {
  }

  lemma ConsSlices(ms: seq<Message>, k: nat)
    requires ms != [] && k < |ms|
    ensures ms[1..][k..] == ms[k + 1..]
    ensures k + 1 < |ms| ==> ms[1..][k] == ms[k + 1] && ms[1..][k + 1..] == ms[k + 2..]
  {
  }

  lemma AllFramesTake(ms: seq<Message>, k: nat)
    requires 0 < k <= |ms|
    ensures AllFrames(ms[..k]) == FramesOf(ms[0].op, ms[0].payload, ms[0].stack) + AllFrames(ms[1..][..k - 1])
  {
    hide FramesOf;
    assert ms[..k][1..] == ms[1..][..k - 1];
  }

  lemma FaithfulParts(ms: seq<Message>, k: nat)
    requires AllFaithful(ms) && k <= |ms|
    ensures AllFaithful(ms[..k]) && AllFaithful(ms[k..])
    ensures Payloads(ms) == Payloads(ms[..k]) + Payloads(ms[k..])
    ensures k < |ms| ==> Faithful(ms[k].op, ms[k].payload, ms[k].stack)
  {
    hide Faithful;
  }

  /** A first chunk that ends inside a message costs the server that message. */
  lemma CutInsideFails(ms: seq<Message>, groups: seq<seq<Frame>>, k: nat, j: nat)
    requires AllFaithful(ms) && groups != [] && k < |ms|
    requires forall i :: 0 <= i < |groups| ==> Sendable(groups[i])
    requires 0 < j < |FramesOf(ms[k].op, ms[k].payload, ms[k].stack)|
    requires var fs := FramesOf(ms[k].op, ms[k].payload, ms[k].stack);
             groups[0] == AllFrames(ms[..k]) + fs[..j] && Flatten(groups[1..]) == fs[j..] + AllFrames(ms[k + 1..])
    ensures Serve(Chunks(groups)).stop == Done ==> Serve(Chunks(groups)).delivered != Payloads(ms)
  {
    hide Assemble, Decode, Chunk, Sendable, AllFaithful, AllFrames, FramesOf, UpToFinal, Flatten, Faithful;
    var fs := FramesOf(ms[k].op, ms[k].payload, ms[k].stack);
    var g, rest := groups[0], groups[1..];
    assert Chunks(groups)[1..] == Chunks(rest);
    FaithfulParts(ms, k);
    CutMessage(ms[k], j, AllFrames(ms[k + 1..]));
    DecodeChunk([], g);
    AssembleMessages([], ms[..k]);
    var before := Assemble([], AllFrames(ms[..k]));
    AssembleAppend([], AllFrames(ms[..k]), fs[..j]);
    SilentUntilFinal(before.pending, fs[..j]);
    ServeBound(rest);
    var out := Serve(Chunks(rest)).delivered;
    assert Payloads(ms[..k]) + [] == Payloads(ms[..k]);
    DropCommon(Payloads(ms[..k]), out, Payloads(ms[k..]));
  }

  lemma DropCommon(a: seq<seq<byte>>, b: seq<seq<byte>>, c: seq<seq<byte>>)
    ensures a + b == a + c <==> b == c
  {
    assert (a + b)[|a|..] == b && (a + c)[|a|..] == c;
  }

  /** A first chunk of whole messages leaves the others to the rest. */
  lemma PeelGroup(ms: seq<Message>, groups: seq<seq<Frame>>, k: nat)
    requires AllFaithful(ms) && groups != [] && k <= |ms| && groups[0] == AllFrames(ms[..k])
    requires forall i :: 0 <= i < |groups| ==> Sendable(groups[i])
    requires Serve(Chunks(groups)).stop == Done && Serve(Chunks(groups)).delivered == Payloads(ms)
    ensures Serve(Chunks(groups[1..])).stop == Done
    ensures Serve(Chunks(groups[1..])).delivered == Payloads(ms[k..])
  {
    hide Assemble, Decode, Chunk, Sendable, AllFaithful, AllFrames;
    var rest := groups[1..];
    assert Chunks(groups)[1..] == Chunks(rest);
    FaithfulParts(ms, k);
    DecodeChunk([], groups[0]);
    AssembleMessages([], ms[..k]);
    DropCommon(Payloads(ms[..k]), Serve(Chunks(rest)).delivered, Payloads(ms[k..]));
  }

  /** If the server delivers every message, every group it was sent is made of whole messages. */
  lemma {:induction false} AlignedGroups(ms: seq<Message>, groups: seq<seq<Frame>>) returns (mss: seq<seq<Message>>)
    requires AllFaithful(ms) && Flatten(groups) == AllFrames(ms)
    requires forall i :: 0 <= i < |groups| ==> Sendable(groups[i])
    requires Serve(Chunks(groups)).stop == Done && Serve(Chunks(groups)).delivered == Payloads(ms)
    ensures Flatten(mss) == ms && groups == Groups(mss)
    decreases |groups|
  {
    hide Serve, Chunk, Sendable, AllFaithful, AllFrames, FramesOf;
    if groups == [] {
      AllMasked(ms);
      mss := [];
    } else {
      var g, rest := groups[0], groups[1..];
      var all := AllFrames(ms);
      assert all == g + Flatten(rest);
      assert all[..|g|] == g && all[|g|..] == Flatten(rest);
      var k, j := CutPoint(ms, |g|);
      if j > 0 {
        CutInsideFails(ms, groups, k, j);
      }
      FaithfulParts(ms, k);
      PeelGroup(ms, groups, k);
      var tail := AlignedGroups(ms[k..], rest);
      mss := [ms[..k]] + tail;
      FlattenCons(ms[..k], tail);
      assert ms == ms[..k] + ms[k..];
      assert groups == [g] + rest;
      assert Groups(mss) == [g] + Groups(tail);
    }
  }

  /** The chunks are the encodings of consecutive lists of whole messages. */
  ghost predicate WholeMessages(ms: seq<Message>, cs: seq<seq<byte>>) {
    exists mss: seq<seq<Message>> :: Holds(ms, cs, mss)
  }

  predicate Holds(ms: seq<Message>, cs: seq<seq<byte>>, mss: seq<seq<Message>>) {
    && |mss| == |cs| && Flatten(mss) == ms
    && forall i :: 0 <= i < |cs| ==> cs[i] == Flatten(Sends(mss[i]))
  }

  /**
   * The bytes of faithful messages, read in any chunks whatever: the server delivers them all, in
   * order and nothing else, exactly when every chunk holds whole messages.
   */
  lemma ServerExact(ms: seq<Message>, cs: seq<seq<byte>>)
    requires AllFaithful(ms) && Readable(cs) && Flatten(cs) == Flatten(Sends(ms))
    ensures Serve(cs).stop == Done && Serve(cs).delivered == Payloads(ms) <==> WholeMessages(ms, cs)
  {
    hide Assemble, Serve, AllFaithful, AllFrames, Sends, Stream, CutsBetween, Holds, Readable, AllWellFormed, Flatten;
    if Serve(cs).stop == Done && Serve(cs).delivered == Payloads(ms) {
      MessageStream(ms);
      AssembleMessages([], ms);
      ServeBoundaries(AllFrames(ms), cs);
      var groups := GroupsAt(AllFrames(ms), cs);
      var mss := AlignedGroups(ms, groups);
      GroupsHold(ms, cs, mss);
    }
    if WholeMessages(ms, cs) {
      var mss :| Holds(ms, cs, mss);
      HeldGroups(ms, cs, mss);
      ServerDelivers(mss);
    }
  }

  lemma FaithfulMembers(ms: seq<Message>, mss: seq<seq<Message>>)
    requires AllFaithful(ms) && Flatten(mss) == ms
    ensures forall i :: 0 <= i < |mss| ==> AllFaithful(mss[i])
    decreases |mss|
  {
    hide Faithful;
    if mss != [] {
      var tail := Flatten(mss[1..]);
      assert forall m :: m in mss[0] || m in tail ==> m in mss[0] + tail;
      FaithfulMembers(tail, mss[1..]);
    }
  }

  lemma GroupsHold(ms: seq<Message>, cs: seq<seq<byte>>, mss: seq<seq<Message>>)
    requires AllFaithful(ms) && Flatten(mss) == ms
    requires forall i :: 0 <= i < |mss| ==> Sendable(Groups(mss)[i])
    requires Chunks(Groups(mss)) == cs
    ensures Holds(ms, cs, mss)
  {
    hide AllFaithful, AllFrames, Sends, Flatten, Sendable, Wires;
    FaithfulMembers(ms, mss);
    forall i | 0 <= i < |cs| ensures cs[i] == Flatten(Sends(mss[i])) {
      assert cs[i] == Chunk(Groups(mss)[i]);
      MessageStream(mss[i]);
    }
  }

  lemma HeldGroups(ms: seq<Message>, cs: seq<seq<byte>>, mss: seq<seq<Message>>)
    requires AllFaithful(ms) && Readable(cs) && Holds(ms, cs, mss)
    ensures forall a :: a in mss ==> AllFaithful(a)
    ensures forall i :: 0 <= i < |mss| ==> Sendable(Groups(mss)[i])
    ensures Chunks(Groups(mss)) == cs && Flatten(mss) == ms
  {
    hide AllFaithful, AllFrames, Sends, Flatten, Sendable, Stream, AllWellFormed;
    FaithfulMembers(ms, mss);
    forall i | 0 <= i < |mss| ensures Sendable(Groups(mss)[i]) && Chunk(Groups(mss)[i]) == cs[i] {
      MessageStream(mss[i]);
      assert cs[i] in cs;
      SendableGroup(AllFrames(mss[i]), cs[i]);
    }
  }

  lemma RestContinues(code: nibble, p: seq<byte>, j: nat)
    requires |p| >= SLICE_SIZE && 0 < j < Slices(|p|)
    ensures forall f :: f in Pieces(code, p, Slices(|p|))[j..] ==> f.opcode == CONTINUE
  {
    forall f | f in Pieces(code, p, Slices(|p|))[j..] ensures f.opcode == CONTINUE {
      var i :| 0 <= i < Slices(|p|) - j && Pieces(code, p, Slices(|p|))[j..][i] == f;
      assert f == Piece(code, p, j + i);
    }
  }

  /** What the two halves of a fragmented message mean together, and each from scratch. */
  lemma SplitMessage(op: OpCode, p: seq<byte>, stack: Head, j: nat)
    requires Data(op) && Faithful(op, p, stack) && |p| > SLICE_SIZE && 0 < j < Slices(|p|)
    ensures j * SLICE_SIZE <= |p|
    ensures var fs := Pieces(Code(op), p, Slices(|p|));
            && fs[..j] + fs[j..] == fs
            && Arrives(Assemble([], fs), p)
            && Assemble([], fs[..j]) == Result(Done, p[..j * SLICE_SIZE], [])
            && Arrives(Assemble([], fs[j..]), p[j * SLICE_SIZE..])
  {
    hide Assemble, Piece, Received, Slices;
    var fs := Pieces(Code(op), p, Slices(|p|));
    var a, b := fs[..j], fs[j..];
    assert a == Pieces(Code(op), p, j) && a + b == fs;
    AssembleFragments([], Code(op), p);
    ReceivedExact(p);
    AssembleOpening([], Code(op), p, j);
    AssembleAppend([], a, b);
    var head := p[..j * SLICE_SIZE];
    RestContinues(Code(op), p, j);
    assert head + [] == head;
    PendingIsPrefix(head, [], b);
    var long, short := Assemble(head, b), Assemble([], b);
    assert [] + long.delivered == long.delivered;
    assert long.delivered[0] == head + short.delivered[0];
    assert short.delivered == [short.delivered[0]];
  }

  /**
   * A fragmented message whose chunks split after fragment j: the client delivers the message,
   * the server delivers what is left of it after the first chunk is forgotten.
   */
  lemma ServerForgets(op: OpCode, p: seq<byte>, stack: Head, j: nat, a: seq<Frame>, b: seq<Frame>)
    requires Data(op) && Faithful(op, p, stack) && |p| > SLICE_SIZE && 0 < j < Slices(|p|)
    requires a + b == FramesOf(op, p, stack) && |a| == j
    requires Sendable(a) && Sendable(b)
    ensures 0 < j * SLICE_SIZE <= |p|
    ensures Arrives(Feed([], Chunks([a, b])), p)
    ensures Arrives(Serve(Chunks([a, b])), p[j * SLICE_SIZE..])
  {
    hide Assemble, Decode, Chunk, Sendable, Pieces, Slices, Feed, Serve, Flatten;
    SplitMessage(op, p, stack, j);
    FlattenTwo(a, b);
    FeedGroups([], [a, b]);
    DecodeChunk([], a);
    DecodeChunk([], b);
    ServeTwo(Chunks([a, b]));
    assert (a + b)[..j] == a && (a + b)[j..] == b;
  }
}
