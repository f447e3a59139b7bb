// WSProtocol as the object it is: a frame buffer with a write position. encodeFrame masks
// the caller's bytes in place and hands chunks to a callback; decodeFrame unmasks a chunk in
// place and hands payloads to a callback. What the callbacks receive is returned.
module Protocols {
  import opened Bytes
  import opened Bits
  import opened Frames
  import D = Decoding
  import E = Encoding

  class WSProtocol {
    const frameBuff: array<byte>
    var framePos: nat

    ghost predicate Valid()
      reads this
    {
      frameBuff.Length == D.MAX_FRAMESIZE && framePos <= frameBuff.Length
    }

    ghost function Pending(): seq<byte>
      requires Valid()
      reads this, frameBuff
    {
      frameBuff[..framePos]
    }

    constructor ()
      ensures Valid() && fresh(frameBuff) && Pending() == []
    {
      frameBuff := new byte[D.MAX_FRAMESIZE];
      framePos := 0;
    }

    /** encodeFrame: the chunks for the callback, and the payload left masked behind them. */
    method EncodeFrame(payload: array<byte>, op: E.OpCode, stack: Head) returns (r: E.Encoded)
      modifies payload
      ensures r == E.EncodeFrame(op, old(payload[..]), stack)
      ensures payload[..] == if r.Refused? || op.Continue? then old(payload[..]) else Masked(old(payload[..]))
    {
      hide HeadBytes, Le16, Masked;
      var len := payload.Length;
      if op.Continue? {
        return E.Sent([]);
      }
      if len == 0 {
        return E.Refused;
      }
      var header := stack;
      ComputeMask(payload, 0, len);
      assert old(payload[0..len]) == old(payload[..]) && payload[0..len] == payload[..];
      if op.Text? || op.Blob? {
        header := header.(fin := false, rsv := 0, mask := true, opcode := E.Code(op));
        if len < SHORT_LENGTH {
          header := header.(fin := true, payloadLen := len);
          r := E.Sent([E.RawFrame(header, [], payload[..])]);
        } else if len < E.SLICE_SIZE {
          header := header.(fin := true, payloadLen := SHORT_LENGTH);
          r := E.Sent([E.RawFrame(header, Le16(len), payload[..])]);
        } else {
          var chunks := SendSlices(payload, op, header);
          r := E.Sent(chunks);
        }
      } else {
        header := header.(fin := true, opcode := E.Code(op), payloadLen := len % 256 % 128);
        if !op.Close? {
          header := header.(mask := true);
        }
        r := E.Sent([E.RawFrame(header, [], payload[..])]);
      }
    }

    /** The slicing loop, over a payload that is masked already. */
    method SendSlices(payload: array<byte>, op: E.OpCode, head: Head) returns (chunks: seq<seq<byte>>)
      requires payload.Length >= E.SLICE_SIZE
      requires !head.fin && head.rsv == 0 && head.mask && head.opcode == E.Code(op)
      ensures chunks == E.Fragments(E.Code(op), payload[..])
    {
      hide HeadBytes, Le16, E.RawFrame;
      var len := payload.Length;
      var header := head;
      var slice := len / E.SLICE_SIZE;
      var lastlen := len % E.SLICE_SIZE;
      if lastlen > 0 {
        slice := slice + 1;
      }
      chunks := [];
      var i := 0;
      while i < slice
        invariant 0 <= i <= slice == E.Slices(len) && |chunks| == i
        invariant header.rsv == 0 && header.mask && (i == 0 ==> header == head)
        invariant forall k :: 0 <= k < i ==> chunks[k] == E.Fragment(E.Code(op), payload[..], k)
      {
        var at := i * E.SLICE_SIZE;
        header := header.(payloadLen := SHORT_LENGTH);
        var chunk;
        if i == 0 || i + 1 < slice {
          header := header.(fin := false);
          if i > 0 {
            header := header.(opcode := CONTINUE);
          }
          chunk := E.RawFrame(header, Le16(E.SLICE_SIZE), payload[at..at + E.SLICE_SIZE]);
        } else {
          header := header.(fin := true, opcode := CONTINUE);
          if lastlen < SHORT_LENGTH {
            header := header.(payloadLen := lastlen);
            chunk := E.RawFrame(header, [], payload[at - E.SLICE_SIZE..at - E.SLICE_SIZE + lastlen]);
          } else {
            chunk := E.RawFrame(header, Le16(lastlen), payload[at..at + lastlen]);
          }
        }
        SliceOfSlice(payload, op, header, i, chunk);
        chunks := chunks + [chunk];
        i := i + 1;
      }
    }

    /** decodeFrame: how it ends, and the payloads for the callback. */
    method DecodeFrame(data: array<byte>) returns (stop: D.Stop, delivered: seq<seq<byte>>)
      requires Valid() && data != frameBuff
      modifies this`framePos, frameBuff, data
      ensures Valid()
      ensures var r := D.Decode(old(Pending()), old(data[..]));
              stop == r.stop && delivered == r.delivered && (stop == D.Done ==> Pending() == r.pending)
    {
      hide D.OneFrame;
      delivered := [];
      if data.Length >= D.MAX_FRAMESIZE {
        return D.AssertFails, [];
      }
      var pos := 0;
      ghost var all := D.DecodeLoop(Pending(), data[..]);
      assert data[0..] == data[..];
      while true
        invariant Valid() && 0 <= pos <= data.Length
        invariant data[pos..] == old(data[..])[pos..]
        invariant all == D.After(delivered, D.DecodeLoop(Pending(), data[pos..]))
        decreases data.Length - pos
      {
        ghost var d := data[pos..];
        ghost var t := D.OneFrame(Pending(), d);
        ghost var before := delivered;
        var out, used;
        stop, out, used := DecodeOne(data, pos);
        if stop != D.Done {
          assert delivered + [] == delivered;
          return;
        }
        delivered := delivered + out;
        if used >= data.Length - pos {
          return;
        }
        assert data[pos + used..] == d[used..];
        ghost var rest := D.DecodeLoop(Pending(), d[used..]);
        assert (before + out) + rest.delivered == before + (out + rest.delivered);
        pos := pos + used;
      }
    }

    /** One turn of the loop, on the part of the chunk from `pos` on. */
    method DecodeOne(data: array<byte>, pos: nat) returns (stop: D.Stop, out: seq<seq<byte>>, used: nat)
      requires Valid() && data != frameBuff && pos <= data.Length
      modifies this`framePos, frameBuff, data
      ensures Valid()
      ensures var t := D.OneFrame(old(Pending()), old(data[pos..]));
              if t.Halt? then stop == t.stop && out == []
              else stop == D.Done && out == t.delivered && used == t.used && Pending() == t.pending
      ensures stop == D.Done ==>
                forall k :: pos + used <= k < data.Length ==> data[k] == old(data[k])
    {
      hide ToHead, D.Trouble, D.PayloadOf, D.PrefixOf, D.LengthOf;
      out, used := [], 0;
      var header, at, payll;
      stop, header, at, payll := ReadHeader(data, pos);
      if stop == D.Done {
        used := at + payll;
        var payl := Unmask(data, pos, header, at, payll);
        stop, out := Take(header.fin, header.opcode, payl);
      }
    }

    /** The payload of the frame at `pos`, unmasked where it lies. */
    method Unmask(data: array<byte>, pos: nat, header: Head, at: nat, payll: nat) returns (payl: seq<byte>)
      requires pos <= data.Length && D.Trouble(header, data[pos..]) == D.Done
      requires at == D.PrefixOf(header) && payll == D.LengthOf(header, data[pos..])
      modifies data
      ensures payl == D.PayloadOf(header, old(data[pos..]))
      ensures forall k :: pos + at + payll <= k < data.Length ==> data[k] == old(data[k])
    {
      hide Masked;
      payl := [];
      if payll > 0 {
        var from := pos + at;
        assert data[pos..][at..at + payll] == data[from..from + payll];
        if header.mask {
          ComputeMask(data, from, payll);
        }
        payl := data[from..from + payll];
      }
    }

    /** What happens to an unmasked payload: straight to the callback, or through the frame buffer. */
    method Take(fin: bool, opcode: nibble, payl: seq<byte>) returns (stop: D.Stop, out: seq<seq<byte>>)
      requires Valid()
      modifies this`framePos, frameBuff
      ensures Valid()
      ensures var t := D.Absorb(old(Pending()), fin, opcode, payl, 0);
              if t.Halt? then stop == t.stop && out == []
              else stop == D.Done && out == t.delivered && Pending() == t.pending
    {
      if fin && opcode != CONTINUE {
        return D.Done, [payl];
      }
      if !fin && (opcode == TEXT || opcode == BLOB) {
        forall i | 0 <= i < frameBuff.Length {
          frameBuff[i] := 0;
        }
        framePos := 0;
      }
      if framePos + |payl| > frameBuff.Length {
        return D.FrameBufferFull, [];
      }
      ghost var kept := frameBuff[..framePos];
      forall i | 0 <= i < |payl| {
        frameBuff[framePos + i] := payl[i];
      }
      framePos := framePos + |payl|;
      assert frameBuff[..framePos] == kept + payl;
      return D.Done, if fin then [frameBuff[..framePos]] else [];
    }
  }

  /** The chunk the loop builds for slice i is fragment i. */
  lemma SliceOfSlice(payload: array<byte>, op: E.OpCode, header: Head, i: nat, chunk: seq<byte>)
    requires payload.Length >= E.SLICE_SIZE && i < E.Slices(payload.Length)
    requires header.rsv == 0 && header.mask
    requires var n := E.Slices(payload.Length); var r := payload.Length % E.SLICE_SIZE;
             && header.fin == (i > 0 && i + 1 == n)
             && header.opcode == (if i == 0 then E.Code(op) else CONTINUE)
             && header.payloadLen == if header.fin && r < SHORT_LENGTH then r else SHORT_LENGTH
    requires var a, n := E.PieceStart(payload.Length, i), E.PieceLength(payload.Length, i);
             chunk == E.RawFrame(header, if header.payloadLen == SHORT_LENGTH then Le16(n) else [], payload[a..a + n])
    ensures chunk == E.Fragment(E.Code(op), payload[..], i)
  {
    hide HeadBytes, Le16, E.RawFrame;
  }

  /** The bounds and assertions that come before a payload is touched. */
  method ReadHeader(data: array<byte>, pos: nat) returns (stop: D.Stop, header: Head, at: nat, payll: nat)
    requires pos <= data.Length
    ensures var d := data[pos..];
            if |d| < 2 then stop == D.ReadsPastChunk
            else header == ToHead(d[0], d[1]) && stop == D.Trouble(header, d)
    ensures stop == D.Done ==> at == D.PrefixOf(header) && payll == D.LengthOf(header, data[pos..])
  {
    hide ToHead, FromLe16;
    var len := data.Length - pos;
    header, at, payll := Head(false, 0, 0, false, 0), 6, 0;
    if len < 2 {
      return D.ReadsPastChunk, header, at, payll;
    }
    header := ToHead(data[pos], data[pos + 1]);
    if !header.fin && header.payloadLen != SHORT_LENGTH {
      return D.AssertFails, header, at, payll;
    }
    if header.payloadLen == D.LONG_LENGTH {
      return if header.mask then D.AssertFails else D.NeverReturns, header, at, payll;
    }
    payll := header.payloadLen;
    if header.payloadLen == SHORT_LENGTH {
      if len < (if header.fin then 4 else 8) {
        return D.ReadsPastChunk, header, at, payll;
      }
      at, payll := 8, FromLe16(data[pos + 2], data[pos + 3]);
    }
    if payll == 0 {
      return if header.mask then D.AssertFails else D.Done, header, at, payll;
    }
    return if at + payll > len then D.ReadsPastChunk else D.Done, header, at, payll;
  }

  /** computeMask, which is also computeUnMask: each byte of the range xored in place. */
  method ComputeMask(data: array<byte>, from: nat, len: nat)
    requires 0 < len && from + len <= data.Length
    modifies data
    ensures data[..] == Splice(old(data[..]), from, Masked(old(data[from..from + len])))
    ensures data[from..from + len] == Masked(old(data[from..from + len]))
    ensures forall k :: 0 <= k < from || from + len <= k < data.Length ==> data[k] == old(data[k])
  {
    ghost var was := data[..];
    ghost var part := data[from..from + len];
    var i := 0;
    while i < len
      invariant 0 <= i <= len
      invariant forall k :: from <= k < from + i ==> data[k] == was[k] ^ MaskByte(k - from)
      invariant forall k :: 0 <= k < from || from + i <= k < data.Length ==> data[k] == was[k]
    {
      data[from + i] := data[from + i] ^ MaskByte(i);
      i := i + 1;
    }
    forall k | 0 <= k < len ensures data[from + k] == Masked(part)[k] {
      assert part[k] == was[from + k];
    }
    assert data[from..from + len] == Masked(part);
    assert data[..] == was[..from] + Masked(part) + was[from + len..];
  }
}
