// From encodeFrame through sendInReactor and the wire to decodeFrame.
module EndToEnd {
  import opened Bytes
  import opened Frames
  import opened Decoding
  import opened Chunking
  import opened MessageStreams
  import opened Losses
  import B = BufferState
  import C = Connections

  /**
   * The whole way, over either form of the buffer, and at any moment of it. Faithful messages are
   * encoded and sent, each chunk finding the write buffer empty and a working socket; a client
   * reads what is on the wire in any chunks whatever. It gets through exactly when every read ends
   * where a frame ends, and has then delivered the messages whose last frame has come, in order and
   * nothing else: all of them once nothing waits.
   */
  lemma MessagesArrive(form: B.Form, l: C.Link, es: seq<C.Event>, end: C.Link,
                       ms: seq<Message>, pending: seq<byte>, cs: seq<seq<byte>>)
    requires l.buf.Valid() && l.Held() == [] && C.Runs(form, l, es, end)
    requires C.NothingDropped(form, l, es, end)
    requires AllFaithful(ms) && C.AllOffered(es) == Flatten(Sends(ms))
    requires Readable(cs) && Flatten(cs) == end.wire
    ensures end.buf.Valid() && end.wire + end.buf.Window() == Flatten(Sends(ms))
    ensures Feed(pending, cs).stop == if CutsBetween(AllFrames(ms), cs) then Done else ReadsPastChunk
    ensures Arrived(ms, |end.wire|) <= |ms|
    ensures CutsBetween(AllFrames(ms), cs) ==>
      Feed(pending, cs).delivered == Payloads(ms)[..Arrived(ms, |end.wire|)]
    ensures CutsBetween(AllFrames(ms), cs) && end.buf.Window() == [] ==>
      Feed(pending, cs).delivered == Payloads(ms)
  {
    hide *;
    WireAndWaiting(form, l, es, end, Flatten(Sends(ms)));
    ClientExact(pending, ms, cs);
  }

  /** With nothing dropped, what is on the wire starts everything that was sent, and what waits ends it. */
  lemma WireAndWaiting(form: B.Form, l: C.Link, es: seq<C.Event>, end: C.Link, all: seq<byte>)
    requires l.buf.Valid() && l.Held() == [] && C.Runs(form, l, es, end)
    requires C.NothingDropped(form, l, es, end) && C.AllOffered(es) == all
    ensures end.buf.Valid() && end.wire + end.buf.Window() == all
    ensures end.wire <= all && (end.buf.Window() == [] ==> end.wire == all)
  {
    hide C.Runs, C.NothingDropped, C.AllOffered;
    C.SendPathExact(form, l, es, end);
    assert [] + all == all;
    assert end.wire == all[..|end.wire|];
    assert end.wire + [] == end.wire;
  }

  // ---------------------------------------------------------------------------------
  // With messages dropped
  // ---------------------------------------------------------------------------------

  /** The four ways one send of something can go. */
  lemma SendCases(form: B.Form, l: C.Link, e: C.Event)
    requires l.buf.Valid() && C.Possible(l, e) && e.Send? && e.data != [] && C.Step(form, l, e).Some?
    ensures var t := C.Step(form, l, e).value;
            if l.buf.Window() != [] || e.result.Failed? then t == l && !C.WholeSend(l, e)
            else if e.result.n == |e.data| then t == l.(wire := l.wire + e.data) && C.WholeSend(l, e)
            else t.wire == l.wire + e.data[..e.result.n] && t.buf.Window() != [] && !C.WholeSend(l, e)
  {
    hide B.Write;
    C.StepConserves(form, l, e);
    if l.buf.Window() == [] && e.result.Took? && e.result.n < |e.data| {
      var t := C.Step(form, l, e).value;
      assert |t.Held()| == |l.wire| + |e.data|;
    }
    if e.result.Took? {
      assert e.data[..|e.data|] == e.data;
    }
  }

  /** While bytes wait, sending adds nothing to the wire. */
  lemma {:induction false} Blocked(form: B.Form, l: C.Link, es: seq<C.Event>, end: C.Link)
    requires l.buf.Valid() && l.buf.Window() != [] && C.Runs(form, l, es, end)
    requires forall e :: e in es ==> e.Send?
    ensures end.wire == l.wire
    decreases |es|
  {
    if es != [] {
      Blocked(form, l, es[1..], end);
    }
  }

  /** The events are sends of these frames, one each. */
  predicate Sending(es: seq<C.Event>, fs: seq<Frame>)
    requires AllWellFormed(fs)
  {
    |es| == |fs| && forall i :: 0 <= i < |es| ==> es[i].Send? && es[i].data == Wire(fs[i])
  }

  lemma SendingTail(es: seq<C.Event>, fs: seq<Frame>)
    requires AllWellFormed(fs) && Sending(es, fs) && es != []
    ensures AllWellFormed(fs[1..]) && Sending(es[1..], fs[1..])
    ensures forall e :: e in es[1..] ==> e.Send?
    ensures fs != [] && fs[0].WellFormed() && fs[0].payload != []
    ensures es[0].Send? && es[0].data == Wire(fs[0]) && |Wire(fs[0])| == Size(fs[0])
  {
    hide Wire;
  }

  /**
   * Sending frames puts some of them on the wire whole, at most one more in part, and none after it;
   * all of them are there exactly when each was taken whole.
   */
  lemma {:induction false} SendShape(form: B.Form, l: C.Link, es: seq<C.Event>, end: C.Link, fs: seq<Frame>)
      returns (keep: seq<bool>, f: Frame, n: nat)
    requires l.buf.Valid() && C.Runs(form, l, es, end)
    requires AllWellFormed(fs) && Sending(es, fs)
    ensures |keep| == |fs| && AllWellFormed(Select(fs, keep))
    ensures f.WellFormed() && f.payload != [] && n < Size(f) == |Wire(f)|
    ensures end.wire == l.wire + Stream(Select(fs, keep)) + Wire(f)[..n]
    ensures C.AllWhole(form, l, es, end) <==> AllKept(keep)
    decreases |es|
  {
    hide C.Step, C.WholeSend, Wire, Stream, Sending, Select, AllKept, AllWellFormed, Size;
    if es == [] {
      keep, f, n := [], Frame(true, 0, TEXT, true, false, [0]), 0;
      NoSends(l, es, fs, f);
    } else {
      SendingTail(es, fs);
      SendCases(form, l, es[0]);
      var e, t, w := es[0], C.Step(form, l, es[0]).value, Wire(fs[0]);
      if l.buf.Window() != [] || e.result.Failed? || e.result.n == |e.data| {
        keep, f, n := SendShape(form, t, es[1..], end, fs[1..]);
        var whole := l.buf.Window() == [] && e.result.Took?;
        var rest := Stream(Select(fs[1..], keep)) + Wire(f)[..n];
        assert end.wire == t.wire + rest;
        SelectCons(fs, whole, keep);
        assert t.wire + rest == l.wire + ((if whole then w else []) + rest);
        keep := [whole] + keep;
      } else {
        Blocked(form, t, es[1..], end);
        keep, f, n := seq(|fs|, _ => false), fs[0], e.result.n;
        NoneKept(fs, keep);
      }
    }
  }

  lemma NoSends(l: C.Link, es: seq<C.Event>, fs: seq<Frame>, f: Frame)
    requires AllWellFormed(fs) && Sending(es, fs) && es == [] && f == Frame(true, 0, TEXT, true, false, [0])
    ensures |fs| == 0 && f.WellFormed() && |Wire(f)| == Size(f)
    ensures AllWellFormed(Select(fs, [])) && AllKept([])
    ensures l.wire == l.wire + Stream(Select(fs, [])) + Wire(f)[..0]
  {
    hide Wire;
  }

  lemma SelectCons(fs: seq<Frame>, whole: bool, keep: seq<bool>)
    requires AllWellFormed(fs) && fs != [] && |keep| == |fs| - 1
    ensures AllWellFormed(Select(fs, [whole] + keep)) && AllWellFormed(Select(fs[1..], keep))
    ensures Stream(Select(fs, [whole] + keep)) == (if whole then Wire(fs[0]) else []) + Stream(Select(fs[1..], keep))
    ensures AllKept([whole] + keep) <==> whole && AllKept(keep)
  {
    hide Wire, Stream;
    var all, rest := [whole] + keep, Select(fs[1..], keep);
    assert all[1..] == keep;
    if whole {
      assert Select(fs, all)[1..] == rest;
      StreamCons(Select(fs, all));
    } else {
      assert [] + rest == rest;
    }
    if whole && AllKept(keep) {
      forall i | 0 <= i < |all| ensures all[i] {
        assert i > 0 ==> all[i] == keep[i - 1];
      }
    }
    if AllKept(all) {
      forall i | 0 <= i < |keep| ensures keep[i] {
        assert all[i + 1] == keep[i];
      }
    }
  }

  lemma NoneKept(fs: seq<Frame>, keep: seq<bool>)
    requires AllWellFormed(fs) && fs != [] && keep == seq(|fs|, _ => false)
    ensures Select(fs, keep) == [] && AllWellFormed([]) && Stream([]) == []
    ensures !AllKept(keep)
    decreases |fs|
  {
    hide Wire;
    assert !keep[0];
    assert keep[1..] == seq(|fs| - 1, _ => false);
    if |fs| > 1 {
      NoneKept(fs[1..], keep[1..]);
    }
    EmptyStream();
  }

  /** A stream that breaks off inside its last frame is not read to its end. */
  lemma BreaksOff(pending: seq<byte>, kept: seq<Frame>, f: Frame, n: nat, cs: seq<seq<byte>>)
    requires AllWellFormed(kept) && f.WellFormed() && f.payload != [] && n < Size(f) == |Wire(f)|
    requires Readable(cs) && Flatten(cs) == Stream(kept) + Wire(f)[..n]
    requires Feed(pending, cs).stop == Done
    ensures Feed(pending, cs) == Assemble(pending, kept)
  {
    hide Wire, Stream, Feed, Assemble, Flatten, OnBoundary, Whole;
    var fs := kept + [f];
    assert fs[..|kept|] == kept && fs[|kept|..] == [f];
    StreamSplit(fs, |kept|);
    StreamCons([f]);
    EmptyStream();
    assert [f][1..] == [];
    assert Stream([f]) == Wire(f);
    FeedDone(pending, fs, cs);
    assert cs[..|cs|] == cs;
    assert OnBoundary(fs, |Flatten(cs[..|cs|])|);
    BoundaryShift(fs, |kept|, n);
    InsideOne(f, n);
  }

  lemma InsideOne(f: Frame, n: nat)
    requires n < Size(f)
    ensures OnBoundary([f], n) <==> n == 0
    ensures Whole([f], n) == 0
  {
  }

  /**
   * Sends alone, as the callbacks are wired, over either form of the buffer. An empty connection is
   * given the chunks of faithful messages, and a client that has just started, or holds no whole
   * slices, reads whatever reaches the wire in any chunks whatever. It delivers exactly the messages
   * if and only if the socket took every chunk whole and every read ends where a frame ends.
   */
  lemma AsWiredArrival(form: B.Form, l: C.Link, es: seq<C.Event>, end: C.Link,
                       ms: seq<Message>, pending: seq<byte>, cs: seq<seq<byte>>)
    requires l.buf.Valid() && l.Held() == [] && C.Runs(form, l, es, end)
    requires AllFaithful(ms) && Offers(es, Sends(ms)) && Unaligned(pending)
    requires Readable(cs) && Flatten(cs) == end.wire
    ensures Feed(pending, cs).stop == Done && Feed(pending, cs).delivered == Payloads(ms)
       <==> C.AllWhole(form, l, es, end) && CutsBetween(AllFrames(ms), cs)
  {
    hide *;
    hide Wire, C.Runs;
    var fs := AllFrames(ms);
    EmptyLink(l);
    SendsFrames(es, ms);
    AllSends(es, Sends(ms));
    C.AsWiredExact(form, l, es, end);
    assert [] + C.AllOffered(es) == C.AllOffered(es);
    if C.AllWhole(form, l, es, end) {
      ClientExact(pending, ms, cs);
    } else if Feed(pending, cs).stop == Done && Feed(pending, cs).delivered == Payloads(ms) {
      var keep, f, n := SendShape(form, l, es, end, fs);
      var kept := Select(fs, keep);
      assert [] + Stream(kept) == Stream(kept);
      BreaksOff(pending, kept, f, n, cs);
      LossShows(pending, ms, keep);
    }
  }

  /** One send for each chunk, in order. */
  predicate Offers(es: seq<C.Event>, chunks: seq<seq<byte>>) {
    |es| == |chunks| && forall i :: 0 <= i < |es| ==> es[i].Send? && es[i].data == chunks[i]
  }

  lemma EmptyLink(l: C.Link)
    requires l.buf.Valid() && l.Held() == []
    ensures l.wire == []
  {
  }

  lemma SendsFrames(es: seq<C.Event>, ms: seq<Message>)
    requires AllFaithful(ms) && Offers(es, Sends(ms))
    ensures AllWellFormed(AllFrames(ms)) && Sending(es, AllFrames(ms))
  {
    hide Wire, AllFrames, Sends, AllFaithful;
    MessageStream(ms);
    SendsAreFrames(ms);
  }

  lemma {:induction false} AllSends(es: seq<C.Event>, chunks: seq<seq<byte>>)
    requires Offers(es, chunks)
    ensures C.AllOffered(es) == Flatten(chunks)
    ensures forall e :: e in es ==> e.Send?
    decreases |es|
  {
    if es != [] {
      AllSends(es[1..], chunks[1..]);
    }
  }

  // ---------------------------------------------------------------------------------
  // The reads a connection makes
  // ---------------------------------------------------------------------------------

  /** No read of a connection is too long for decodeFrame, which refuses MAX_FRAMESIZE bytes. */
  lemma ReadsAreReadable(form: B.Form, block: seq<byte>, cs: seq<seq<byte>>)
    requires |block| == B.PREPEND + B.INITIAL && C.Arriving(form, B.Init(block), cs)
    ensures Readable(cs)
  {
    hide C.Arriving;
    C.ReadsBounded(form, B.Init(block), cs);
  }

  /**
   * Client and server over the reads their own connections make, from fresh buffers that allocate
   * exactly: what each needs of the cuts to deliver faithful messages, and no more.
   */
  lemma ReceiversExact(form: B.Form, block: seq<byte>, pending: seq<byte>, ms: seq<Message>, cs: seq<seq<byte>>)
    requires |block| == B.PREPEND + B.INITIAL && C.Arriving(form, B.Init(block), cs)
    requires AllFaithful(ms) && Flatten(cs) == Flatten(Sends(ms))
    ensures Feed(pending, cs).stop == Done && Feed(pending, cs).delivered == Payloads(ms)
       <==> CutsBetween(AllFrames(ms), cs)
    ensures Serve(cs).stop == Done && Serve(cs).delivered == Payloads(ms) <==> WholeMessages(ms, cs)
  {
    hide *;
    ReadsAreReadable(form, block, cs);
    ClientExact(pending, ms, cs);
    ServerExact(ms, cs);
  }
}
