/**
  What the protocols exchange, and the connection they exchange it over.
 */
module Network {
  import opened Words
  import opened Records

  datatype Endpoint = Endpoint(ip: slice, port: slice) {
    /** `ip:port` */
    function String(): bytes {
      ip + [0x3a] + port
    }
  }

  /** Ports without a colon: the text of an endpoint tells its IP and its port. */
  lemma {:induction false} TextDecides(a: Endpoint, b: Endpoint)
    requires 0x3a !in a.port && 0x3a !in b.port
    ensures a.String() == b.String() <==> a.ip == b.ip && a.port == b.port
  {
    var s, t := a.String(), b.String();
    if |a.ip| > |b.ip| {
      ColonApart(a, b);
    } else if |a.ip| < |b.ip| {
      ColonApart(b, a);
    } else if s == t {
      assert a.ip == s[..|a.ip|] == t[..|b.ip|] == b.ip;
      assert a.port == s[|a.ip| + 1..] == t[|b.ip| + 1..] == b.port;
    }
  }

  lemma {:induction false} ColonApart(a: Endpoint, b: Endpoint)
    requires 0x3a !in b.port && |a.ip| > |b.ip|
    ensures a.String() != b.String()
  {
    if |a.ip| < |b.String()| {
      assert a.String()[|a.ip|] == 0x3a;
      assert b.String()[|a.ip|] == b.port[|a.ip| - |b.ip| - 1];
      assert b.String()[|a.ip|] in b.port;
    }
  }

  datatype Handshake = Handshake(
    network: uint32, version: uint16, parcelType: uint16, nodeID: uint32,
    listenPort: slice, loopback: uint64, alternatives: seq<Endpoint>)

  /** A parcel as it crosses the wire: its address is not sent. */
  datatype Parcel = Parcel(parcelType: uint16, payload: slice) {
    predicate IsApplicationMessage(): (b: bool)
      ensures b <==> parcelType == 6 || parcelType == 7
    {
      parcelType == TYPE_MESSAGE || parcelType == TYPE_MESSAGE_PART
    }

    /** A known type, and something in it. */
    predicate Valid(): (b: bool)
      ensures b <==> parcelType < 10 && |payload| > 0
    {
      parcelType <= TYPE_REJECT_ALTERNATIVE && payload != []
    }
  }

  const TYPE_PEER_REQUEST: uint16 := 3
  const TYPE_MESSAGE: uint16 := 6
  const TYPE_MESSAGE_PART: uint16 := 7
  const TYPE_HANDSHAKE: uint16 := 8
  const TYPE_REJECT_ALTERNATIVE: uint16 := 9

  function Flatten(chunks: seq<bytes>): bytes {
    if chunks == [] then [] else chunks[0] + Flatten(chunks[1..])
  }

  lemma {:induction false} NothingLeft()
    ensures Flatten([]) == []
  {
  }

  /**
    A connection. What the remote end has sent arrives in arbitrary pieces; writing fails for good once
    `room` more bytes have been written.
   */
  class Conn {
    var chunks: seq<bytes>
    var sent: bytes
    var room: nat

    constructor (chunks: seq<bytes>, room: nat)
      ensures this.chunks == chunks && this.sent == [] && this.room == room
    {
      this.chunks, this.sent, this.room := chunks, [], room;
    }

    /** `Write`: as many bytes as there is room for. */
    method Write(data: bytes) returns (n: nat)
      modifies this`sent, this`room
      ensures n == if |data| <= old(room) then |data| else old(room)
      ensures sent == old(sent) + data[..n] && room == old(room) - n
    {
      n := if |data| <= room then |data| else room;
      sent, room := sent + data[..n], room - n;
    }
  }

  /** `bufio.Reader`: what has arrived and was not read yet stays in a buffer. */
  class BufferedReader {
    var buffer: bytes
    const conn: Conn

    constructor (conn: Conn)
      ensures this.conn == conn && buffer == []
    {
      this.conn, buffer := conn, [];
    }

    /** Every byte that can still be read. */
    function Pending(): bytes
      reads this, conn
    {
      buffer + Flatten(conn.chunks)
    }

    /** One `Read` of the connection, into the buffer. */
    method Fill()
      requires conn.chunks != []
      modifies this`buffer, conn`chunks
      ensures Pending() == old(Pending())
      ensures conn.chunks == old(conn.chunks)[1..]
    {
      buffer := buffer + conn.chunks[0];
      conn.chunks := conn.chunks[1..];
    }

    /** `Peek(n)`: the next `n` bytes, which stay unread. */
    method Peek(n: nat) returns (r: Result<bytes>)
      modifies this`buffer, conn`chunks
      ensures Pending() == old(Pending())
      ensures r == if |Pending()| < n then Err(UnexpectedEOF) else Ok(Pending()[..n])
    {
      while |buffer| < n && conn.chunks != []
        invariant Pending() == old(Pending())
        decreases |conn.chunks|
      {
        Fill();
      }
      if |buffer| < n {
        assert Pending() == buffer;
        return Err(UnexpectedEOF);
      }
      assert Pending()[..n] == buffer[..n];
      r := Ok(buffer[..n]);
    }

    /** One `Read` of at most `max` bytes. It may give fewer, or none; nothing is left exactly when it reports so. */
    method Read(max: nat) returns (data: bytes, end: bool)
      requires max > 0
      modifies this`buffer, conn`chunks
      ensures old(Pending()) == data + Pending() && |data| <= max
      ensures end ==> data == [] && Pending() == []
      ensures !end ==> data != [] || |conn.chunks| < |old(conn.chunks)|
      ensures |conn.chunks| <= |old(conn.chunks)|
    {
      hide Flatten;
      NothingLeft();
      if buffer == [] {
        if conn.chunks == [] {
          return [], true;
        }
        Fill();
      }
      var n := if |buffer| < max then |buffer| else max;
      ghost var all := buffer;
      data, buffer := buffer[..n], buffer[n..];
      assert all == data + buffer;
      Associate(data, buffer, Flatten(conn.chunks));
      end := false;
    }

    /** `io.ReadFull` into `n` bytes, however the bytes arrive. */
    method ReadFull(n: nat) returns (r: Result<bytes>)
      modifies this`buffer, conn`chunks
      ensures if |old(Pending())| < n then r == Err(UnexpectedEOF)
              else r == Ok(old(Pending())[..n]) && Pending() == old(Pending())[n..]
    {
      ghost var all := Pending();
      var data: bytes := [];
      while |data| < n
        invariant |data| <= n && data + Pending() == all
        decreases |conn.chunks| + n - |data|
      {
        var more, end := Read(n - |data|);
        if end {
          return Err(UnexpectedEOF);
        }
        assert data + (more + Pending()) == (data + more) + Pending();
        data := data + more;
      }
      r := Ok(data);
    }
  }
}
