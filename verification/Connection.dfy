// NetConnection's two data paths over its two buffers: sendInReactor and handleWrite push
// bytes to a socket that takes as many as it likes; handleRead fills the read buffer and
// hands it to a callback that drains it.
module Connections {
  import opened Bytes
  import B = BufferState
  import opened Buffers

  // What the system's write returned: a count, or an error such as EWOULDBLOCK or EPIPE.
  datatype SocketWrite = Took(n: nat) | Failed

  // The sending side: the write buffer, and the bytes the socket has taken so far.
  datatype Link = Link(buf: B.State, wire: seq<byte>) {
    /** Everything that has been taken in hand: on the wire already, or waiting. */
    function Held(): seq<byte>
      requires buf.Valid()
    {
      wire + buf.Window()
    }
  }

  datatype Event =
    | Send(data: seq<byte>, result: SocketWrite, junk: seq<byte>)
    | Writable(result: SocketWrite)

  /** The socket never claims more bytes than it was given. */
  predicate Possible(l: Link, e: Event)
    requires l.buf.Valid()
  {
    e.result.Took? ==> e.result.n <= if e.Send? then |e.data| else |l.buf.Window()|
  }

  /** sendInReactor on a live connection. The remainder is counted only after a direct write. */
  function SendStep(form: B.Form, l: Link, data: seq<byte>, result: SocketWrite, junk: seq<byte>): (r: Option<Link>)
    requires l.buf.Valid() && (result.Took? ==> result.n <= |data|)
    ensures r.Some? ==> r.value.buf.Valid()
  {
    if l.buf.Window() != [] || result.Failed? then Some(l)
    else
      var wire := l.wire + data[..result.n];
      if result.n == |data| then Some(Link(l.buf, wire))
      else
        var b := B.Write(form, l.buf, data[result.n..], junk);
        if b.None? then None else Some(Link(b.value, wire))
  }

  /** handleWrite: whatever the socket took leaves the buffer; taking nothing is an assertion failure. */
  function WritableStep(l: Link, result: SocketWrite): (r: Option<Link>)
    requires l.buf.Valid() && (result.Took? ==> result.n <= |l.buf.Window()|)
    ensures r.Some? ==> r.value.buf.Valid()
  {
    if result.Failed? || result.n == 0 then None
    else Some(Link(B.Retrieve(l.buf, result.n).value, l.wire + l.buf.Window()[..result.n]))
  }

  function Step(form: B.Form, l: Link, e: Event): (r: Option<Link>)
    requires l.buf.Valid() && Possible(l, e)
    ensures r.Some? ==> r.value.buf.Valid()
  {
    match e
    case Send(data, result, junk) => SendStep(form, l, data, result, junk)
    case Writable(result) => WritableStep(l, result)
  }

  /** The guard under which a message is taken at all: nothing waits, and the direct write works. */
  predicate Taken(l: Link, e: Event)
    requires l.buf.Valid()
  {
    e.Send? && l.buf.Window() == [] && e.result.Took?
  }

  /** A run ending in `end`: every event possible, no assertion failing. */
  ghost predicate Runs(form: B.Form, l: Link, es: seq<Event>, end: Link)
    requires l.buf.Valid()
    decreases |es|
  {
    if es == [] then end == l
    else
      && Possible(l, es[0])
      && Step(form, l, es[0]).Some?
      && Runs(form, Step(form, l, es[0]).value, es[1..], end)
  }

  /** The messages of a run that were taken, concatenated; and those that were offered. */
  ghost function AllTaken(form: B.Form, l: Link, es: seq<Event>, end: Link): seq<byte>
    requires l.buf.Valid() && Runs(form, l, es, end)
    decreases |es|
  {
    if es == [] then []
    else (if Taken(l, es[0]) then es[0].data else []) + AllTaken(form, Step(form, l, es[0]).value, es[1..], end)
  }

  function AllOffered(es: seq<Event>): seq<byte> {
    if es == [] then []
    else (if es[0].Send? then es[0].data else []) + AllOffered(es[1..])
  }

  /** Every message of the run met the guard, or had nothing in it. */
  ghost predicate NothingDropped(form: B.Form, l: Link, es: seq<Event>, end: Link)
    requires l.buf.Valid() && Runs(form, l, es, end)
    decreases |es|
  {
    es != [] ==>
      && (es[0].Send? && es[0].data != [] ==> Taken(l, es[0]))
      && NothingDropped(form, Step(form, l, es[0]).value, es[1..], end)
  }

  /** One event, either form of the buffer: a taken message is wholly on the wire or waiting. */
  lemma StepConserves(form: B.Form, l: Link, e: Event)
    requires l.buf.Valid() && Possible(l, e)
    ensures e.Send? ==> Step(form, l, e).Some?
    ensures Step(form, l, e).Some? ==>
      Step(form, l, e).value.Held() == l.Held() + if Taken(l, e) then e.data else []
  {
    hide B.Write, B.Retrieve;
    if Taken(l, e) {
      var rest := e.data[e.result.n..];
      assert B.WriteAppends(form, l.buf, rest, e.junk) by {
        if form.AsWritten? {
          B.WriteAsWrittenSafe(l.buf, rest, e.junk);
        } else {
          B.WriteRepaired(l.buf, rest, e.junk);
        }
      }
      assert e.data[..e.result.n] + rest == e.data;
      if rest == [] {
        assert e.data[..e.result.n] == e.data;
      }
    } else if e.Writable? && e.result.Took? && e.result.n > 0 {
      RetrieveSucceeds(l.buf, e.result.n);
    }
  }

  lemma RetrieveSucceeds(s: B.State, n: nat)
    requires s.Valid() && n <= |s.Window()|
    ensures B.Retrieve(s, n).Some?
    ensures s.Window()[..n] + B.Retrieve(s, n).value.Window() == s.Window()
  {
  }

  /** One send, exactly: the wire gains what the direct write took, and the rest of a taken message waits. */
  lemma SendExact(form: B.Form, l: Link, data: seq<byte>, result: SocketWrite, junk: seq<byte>)
    requires l.buf.Valid() && (result.Took? ==> result.n <= |data|)
    ensures var r := SendStep(form, l, data, result, junk);
            && r.Some?
            && if l.buf.Window() != [] || result.Failed? then r.value == l
               else r.value.wire == l.wire + data[..result.n] && r.value.buf.Window() == data[result.n..]
  {
    hide B.Write;
    StepConserves(form, l, Send(data, result, junk));
    if l.buf.Window() == [] && result.Took? {
      var t := SendStep(form, l, data, result, junk).value;
      assert l.wire + data == (l.wire + data[..result.n]) + data[result.n..];
      assert l.wire + [] == l.wire;
      assert t.wire + t.buf.Window() == t.wire + data[result.n..];
      assert (t.wire + t.buf.Window())[|t.wire|..] == t.buf.Window();
    }
  }

  /** One handleWrite, exactly: it asserts, or the wire gains the first n waiting bytes and the others wait on. */
  lemma WritableExact(l: Link, result: SocketWrite)
    requires l.buf.Valid() && (result.Took? ==> result.n <= |l.buf.Window()|)
    ensures var r := WritableStep(l, result);
            && (r.None? <==> result.Failed? || result.n == 0)
            && (r.Some? ==> r.value.wire == l.wire + l.buf.Window()[..result.n]
                            && r.value.buf.Window() == l.buf.Window()[result.n..])
  {
    if result.Took? {
      RetrieveSucceeds(l.buf, result.n);
    }
  }

  /** Either form, any run: the wire followed by what waits is exactly the messages taken, in order. */
  lemma {:induction false} SendPathConserves(form: B.Form, l: Link, es: seq<Event>, end: Link)
    requires l.buf.Valid() && Runs(form, l, es, end)
    ensures end.buf.Valid()
    ensures end.Held() == l.Held() + AllTaken(form, l, es, end)
    decreases |es|
  {
    hide Step;
    if es != [] {
      StepConserves(form, l, es[0]);
      SendPathConserves(form, Step(form, l, es[0]).value, es[1..], end);
    }
  }

  lemma {:induction false} TakenAgainstOffered(form: B.Form, l: Link, es: seq<Event>, end: Link)
    requires l.buf.Valid() && Runs(form, l, es, end)
    ensures |AllTaken(form, l, es, end)| <= |AllOffered(es)|
    ensures |AllTaken(form, l, es, end)| == |AllOffered(es)| <==> NothingDropped(form, l, es, end)
    ensures NothingDropped(form, l, es, end) ==> AllTaken(form, l, es, end) == AllOffered(es)
    decreases |es|
  {
    hide Step;
    if es != [] {
      TakenAgainstOffered(form, Step(form, l, es[0]).value, es[1..], end);
    }
  }

  /**
   * Nothing is lost over a run exactly when every non-empty message finds the buffer empty
   * and its direct write successful; any other message vanishes.
   */
  lemma SendPathExact(form: B.Form, l: Link, es: seq<Event>, end: Link)
    requires l.buf.Valid() && Runs(form, l, es, end)
    ensures end.buf.Valid()
    ensures end.Held() == l.Held() + AllOffered(es) <==> NothingDropped(form, l, es, end)
  {
    SendPathConserves(form, l, es, end);
    TakenAgainstOffered(form, l, es, end);
  }

  /** The message has nothing in it, or meets the guard and is taken whole by its direct write. */
  predicate WholeSend(l: Link, e: Event)
    requires l.buf.Valid() && e.Send?
  {
    e.data == [] || (Taken(l, e) && e.result.n == |e.data|)
  }

  /** Every message of the run met the guard and was taken whole by its direct write, or had nothing in it. */
  ghost predicate AllWhole(form: B.Form, l: Link, es: seq<Event>, end: Link)
    requires l.buf.Valid() && Runs(form, l, es, end)
    decreases |es|
  {
    es != [] ==>
      && (es[0].Send? ==> WholeSend(l, es[0]))
      && AllWhole(form, Step(form, l, es[0]).value, es[1..], end)
  }

  /** One send adds to the wire what its direct write took, which is the message exactly when taken whole. */
  lemma SendReaches(form: B.Form, l: Link, e: Event)
    requires l.buf.Valid() && Possible(l, e) && e.Send? && Step(form, l, e).Some?
    ensures var t := Step(form, l, e).value;
            && l.wire <= t.wire && |t.wire| <= |l.wire| + |e.data|
            && (|t.wire| == |l.wire| + |e.data| <==> WholeSend(l, e))
            && (|t.wire| == |l.wire| + |e.data| ==> t.wire == l.wire + e.data)
  {
    hide B.Write;
    if Taken(l, e) && e.result.n == |e.data| {
      assert e.data[..e.result.n] == e.data;
    }
    if e.data == [] {
      assert l.wire + e.data == l.wire;
    }
  }

  lemma {:induction false} SendsReach(form: B.Form, l: Link, es: seq<Event>, end: Link)
    requires l.buf.Valid() && Runs(form, l, es, end)
    requires forall e :: e in es ==> e.Send?
    ensures |end.wire| <= |l.wire| + |AllOffered(es)|
    ensures |end.wire| == |l.wire| + |AllOffered(es)| <==> AllWhole(form, l, es, end)
    ensures AllWhole(form, l, es, end) ==> end.wire == l.wire + AllOffered(es)
    decreases |es|
  {
    hide Step;
    if es == [] {
      assert l.wire + AllOffered(es) == l.wire;
    } else {
      SendReaches(form, l, es[0]);
      var t := Step(form, l, es[0]).value;
      SendsReach(form, t, es[1..], end);
      assert (l.wire + es[0].data) + AllOffered(es[1..]) == l.wire + (es[0].data + AllOffered(es[1..]));
    }
  }

  /**
   * As the callbacks are wired, waiting bytes are never sent: over a run of sends alone, what was
   * offered has reached the wire exactly when every non-empty message was taken whole at once.
   */
  lemma AsWiredExact(form: B.Form, l: Link, es: seq<Event>, end: Link)
    requires l.buf.Valid() && Runs(form, l, es, end)
    requires forall e :: e in es ==> e.Send?
    ensures end.wire == l.wire + AllOffered(es) <==> AllWhole(form, l, es, end)
  {
    SendsReach(form, l, es, end);
  }

  // ---------------------------------------------------------------------------------

  class NetConnection {
    const readBuffer: Buffer
    const writeBuffer: Buffer
    var wire: seq<byte>

    ghost predicate Valid()
      reads this, readBuffer, writeBuffer, readBuffer.store, writeBuffer.store
    {
      && readBuffer != writeBuffer && readBuffer.store != writeBuffer.store
      && readBuffer.Valid() && writeBuffer.Valid()
    }

    ghost function Sending(): Link
      reads this, writeBuffer, writeBuffer.store
    {
      Link(writeBuffer.S(), wire)
    }

    constructor (readBuffer: Buffer, writeBuffer: Buffer)
      requires readBuffer != writeBuffer && readBuffer.store != writeBuffer.store
      requires readBuffer.Valid() && writeBuffer.Valid()
      ensures Valid() && this.readBuffer == readBuffer && this.writeBuffer == writeBuffer && wire == []
    {
      this.readBuffer, this.writeBuffer := readBuffer, writeBuffer;
      wire := [];
    }

    method SendInReactor(data: seq<byte>, result: SocketWrite, junk: seq<byte>) returns (ok: bool)
      requires Valid() && (result.Took? ==> result.n <= |data|)
      modifies this`wire, writeBuffer, writeBuffer.store
      ensures var r := SendStep(writeBuffer.form, old(Sending()), data, result, junk);
              ok == r.Some? && (ok ==> Sending() == r.value && Valid())
    {
      var remain := 0;
      var nowwrite := 0;
      ok := true;
      var waiting := writeBuffer.ReadableBytes();
      if waiting == 0 {
        if result.Took? {
          nowwrite := result.n;
          wire := wire + data[..nowwrite];
          remain := |data| - nowwrite;
        }
      }
      if remain > 0 {
        ok := writeBuffer.Write(data[nowwrite..], junk);
      }
    }

    method HandleWrite(result: SocketWrite) returns (ok: bool)
      requires Valid() && (result.Took? ==> result.n <= |writeBuffer.S().Window()|)
      modifies this`wire, writeBuffer, writeBuffer.store
      ensures var r := WritableStep(old(Sending()), result);
              ok == r.Some? && Sending() == (if ok then r.value else old(Sending())) && Valid()
    {
      ok := result.Took? && result.n > 0;
      if ok {
        var gone := writeBuffer.Peek(result.n);
        RetrieveSucceeds(writeBuffer.S(), result.n);
        wire := wire + gone;
        ok := writeBuffer.Retrieve(result.n);
      }
      assert readBuffer.S() == old(readBuffer.S());
    }

    /**
     * handleRead and the drain in onConnMessage: the callback's chunk is what the socket
     * delivered, byte for byte, whatever the buffer held before and whichever its form.
     */
    method HandleRead(data: seq<byte>, junk: seq<byte>) returns (chunk: seq<byte>)
      requires Valid() && data != []
      requires |data| <= B.Offer(B.Reset(readBuffer.S()))
      modifies readBuffer, readBuffer.store
      ensures Valid() && chunk == data
      ensures readBuffer.store == old(readBuffer.store) || fresh(readBuffer.store)
      ensures readBuffer.S() == AfterRead(readBuffer.form, old(readBuffer.S()), data, junk)
      ensures writeBuffer.S() == old(writeBuffer.S())
    {
      readBuffer.Reset();
      ghost var s := readBuffer.S();
      FreshReadFd(readBuffer.form, s, data, junk);
      var ok := readBuffer.ReadFd(data, junk);
      chunk := readBuffer.ReadAll();
    }
  }

  lemma FreshReadFd(form: B.Form, s: B.State, data: seq<byte>, junk: seq<byte>)
    requires s.Valid() && s.readPos == s.writePos && |data| <= B.Offer(s)
    ensures var r := B.ReadFd(form, s, data, junk);
            r.Some? && r.value.Window() == data
  {
    assert [] + data == data;
    if form.AsWritten? {
      B.ReadFdAsWrittenSafe(s, data, junk);
    } else {
      B.ReadFdRepaired(s, data, junk);
    }
  }

  /** The read buffer after handleRead, drained by the callback: only its block is left to tell. */
  function AfterRead(form: B.Form, s: B.State, data: seq<byte>, junk: seq<byte>): (r: B.State)
    requires s.Valid() && |data| <= B.Offer(B.Reset(s))
    ensures r.Valid() && r.Window() == []
  {
    FreshReadFd(form, B.Reset(s), data, junk);
    B.ReadFd(form, B.Reset(s), data, junk).value.(readPos := B.PREPEND, writePos := B.PREPEND)
  }

  /** Reads one connection can make, when its vector allocates exactly: none empty, none more than readfd takes. */
  predicate Arriving(form: B.Form, s: B.State, chunks: seq<seq<byte>>)
    requires s.Valid()
    decreases |chunks|
  {
    chunks != [] ==>
      && 0 < |chunks[0]| <= B.Offer(B.Reset(s))
      && Arriving(form, AfterRead(form, s, chunks[0], []), chunks[1..])
  }

  const MOST: nat := 131072

  /** The overflow block is used only while the room is short of it, so neither room nor read gets far past it. */
  lemma ReadBounded(form: B.Form, s: B.State, data: seq<byte>)
    requires s.Valid() && |s.mem| < B.PREPEND + MOST && |data| <= B.Offer(B.Reset(s))
    ensures |data| < MOST
    ensures |AfterRead(form, s, data, []).mem| ==
      if |data| <= |s.mem| - B.PREPEND then |s.mem| else B.PREPEND + |data|
  {
    var t := B.Reset(s);
    var room := t.Writeable();
    if room < |data| {
      var u := B.Fill(t, data[..room]).value;
      WriteGrows(form, u, data[room..]);
    }
  }

  lemma WriteGrows(form: B.Form, s: B.State, data: seq<byte>)
    requires s.Valid() && s.Writeable() == 0 && s.readPos == B.PREPEND && data != []
    ensures B.Write(form, s, data, []).Some? ==> |B.Write(form, s, data, []).value.mem| == |s.mem| + |data|
  {
  }

  /** Over either form and any run of reads of a connection, no read is as long as two overflow blocks. */
  lemma {:induction false} ReadsBounded(form: B.Form, s: B.State, chunks: seq<seq<byte>>)
    requires s.Valid() && |s.mem| < B.PREPEND + MOST && Arriving(form, s, chunks)
    ensures forall c :: c in chunks ==> 0 < |c| < MOST
    decreases |chunks|
  {
    hide AfterRead, B.Offer;
    if chunks != [] {
      ReadBounded(form, s, chunks[0]);
      ReadsBounded(form, AfterRead(form, s, chunks[0], []), chunks[1..]);
      assert chunks == [chunks[0]] + chunks[1..];
    }
  }

  /** A fresh buffer can be brought to within one byte of that in two reads. */
  lemma ReadsBoundTight(form: B.Form, block: seq<byte>, a: seq<byte>, b: seq<byte>)
    requires |block| == 4104 && |a| == 65535 && |b| == 131071
    ensures Arriving(form, B.Init(block), [a, b])
  {
    hide AfterRead;
    var s := B.Init(block);
    ReadBounded(form, s, a);
    var t := AfterRead(form, s, a, []);
    ReadBounded(form, t, b);
    assert [a, b][1..] == [b] && [b][1..] == [];
    assert Arriving(form, AfterRead(form, t, b, []), []);
    assert Arriving(form, t, [b]);
  }
}
