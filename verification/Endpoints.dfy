// The two receivers: a client that keeps one WSProtocol for its connection, and a server that
// makes a new one for every chunk.
module Endpoints {
  import opened Bytes
  import B = BufferState
  import D = Decoding
  import opened Connections
  import opened Protocols

  method Copied(chunk: seq<byte>) returns (a: array<byte>)
    ensures fresh(a) && a[..] == chunk
  {
    a := new byte[|chunk|](i requires 0 <= i < |chunk| => chunk[i]);
  }

  class WSNet {
    const conn: NetConnection
    const proto: WSProtocol

    ghost predicate Valid()
      reads this, conn, conn.readBuffer, conn.writeBuffer, conn.readBuffer.store, conn.writeBuffer.store, proto
    {
      && conn.Valid() && proto.Valid()
      && proto.frameBuff != conn.readBuffer.store && proto.frameBuff != conn.writeBuffer.store
    }

    constructor (conn: NetConnection)
      requires conn.Valid()
      ensures Valid() && this.conn == conn && proto.Pending() == []
    {
      this.conn := conn;
      var p := new WSProtocol();
      proto := p;
    }

    /** A readable socket: one step of Feed on the bytes it held, with the client's own decoder. */
    method OnReadable(data: seq<byte>, junk: seq<byte>) returns (stop: D.Stop, delivered: seq<seq<byte>>)
      requires Valid() && data != [] && |data| <= B.Offer(B.Reset(conn.readBuffer.S()))
      modifies conn.readBuffer, conn.readBuffer.store, proto, proto.frameBuff
      ensures Valid()
      ensures var r := D.Decode(old(proto.Pending()), data);
              stop == r.stop && delivered == r.delivered && (stop == D.Done ==> proto.Pending() == r.pending)
    {
      hide D.Decode;
      var chunk := conn.HandleRead(data, junk);
      var bytes := Copied(chunk);
      stop, delivered := proto.DecodeFrame(bytes);
    }
  }

  class WebSocketServer {
    const conn: NetConnection

    constructor (conn: NetConnection)
      ensures this.conn == conn
    {
      this.conn := conn;
    }

    /** A readable socket: one step of Serve, with a decoder that starts and ends here. */
    method OnReadable(data: seq<byte>, junk: seq<byte>) returns (stop: D.Stop, delivered: seq<seq<byte>>)
      requires conn.Valid() && data != [] && |data| <= B.Offer(B.Reset(conn.readBuffer.S()))
      modifies conn.readBuffer, conn.readBuffer.store
      ensures conn.Valid()
      ensures stop == D.Decode([], data).stop && delivered == D.Decode([], data).delivered
    {
      hide D.Decode;
      var chunk := conn.HandleRead(data, junk);
      var proto := new WSProtocol();
      var bytes := Copied(chunk);
      stop, delivered := proto.DecodeFrame(bytes);
    }
  }
}
