/**
  Protocol 11 on a connection: a signature, then length-prefixed messages.
 */
module ProtocolV11 {
  import opened Words
  import opened Records
  import opened Network
  import M = Messages
  import opened V11Codec

  const V11_MAX_PARCEL_SIZE: int := 134217728

  const V11_SIGNATURE: bytes := [0x70, 0x62, 0x75, 0x66]

  //// The byte stream

  /** The number that four bytes stand for, the most significant first. */
  function LengthOf(b0: nat, b1: nat, b2: nat, b3: nat): nat {
    b0 * 0x100_0000 + b1 * 0x1_0000 + b2 * 0x100 + b3
  }

  /** `binary.BigEndian.PutUint32` */
  function BigEndian(v: uint32): (s: bytes)
    ensures |s| == 4 && LengthOf(s[0], s[1], s[2], s[3]) == v
  {
    Digits(v);
    [v / 0x100_0000, v / 0x1_0000 % 0x100, v / 0x100 % 0x100, v % 0x100]
  }

  lemma {:induction false} Digits(v: uint32)
    ensures v / 0x100_0000 < 0x100
    ensures LengthOf(v / 0x100_0000, v / 0x1_0000 % 0x100, v / 0x100 % 0x100, v % 0x100) == v
  {
    var a, b, c := v / 0x100, v / 0x1_0000, v / 0x100_0000;
    assert b == a / 0x100 && c == b / 0x100;
  }

  /** `binary.BigEndian.Uint32` */
  function FromBigEndian(s: bytes): uint32
    requires |s| == 4
  {
    var a: nat, b: nat, c: nat, d: nat := s[0], s[1], s[2], s[3];
    a * 0x100_0000 + b * 0x1_0000 + c * 0x100 + d
  }

  /** A message on the stream; the length goes through the cast to uint32. */
  function Frame(data: slice): bytes {
    BigEndian(Low32(|data|)) + data
  }

  /** What a reader took from the front of the stream, and what is left. */
  datatype Taken<+T> = Taken(value: T, rest: bytes)

  function TakeFrame(s: bytes): (r: Result<Taken<slice>>)
    ensures r.Ok? ==> |r.value.rest| < |s|
  {
    if |s| < 4 then Err(UnexpectedEOF)
    else
      var size := FromBigEndian(s[..4]);
      if size > V11_MAX_PARCEL_SIZE then Err(MessageTooLarge)
      else if |s[4..]| < size then Err(UnexpectedEOF)
      else Ok(Taken(s[4..][..size], s[4..][size..]))
  }

  //// Conversions

  function ToV11(hs: Handshake): M.Handshake {
    M.Handshake(hs.parcelType, hs.network, hs.version, hs.nodeID, hs.listenPort, hs.loopback,
                EndpointsToV11(hs.alternatives), [])
  }

  function EndpointsToV11(es: seq<Endpoint>): (r: seq<M.Endpoint>)
    ensures |r| == |es|
    ensures forall k :: 0 <= k < |es| ==> r[k].host == es[k].ip && r[k].port == es[k].port && r[k].unrecognized == []
  {
    if es == [] then [] else [M.Endpoint(es[0].ip, es[0].port, [])] + EndpointsToV11(es[1..])
  }

  function FromV11(m: M.Handshake): Handshake {
    Handshake(m.network, m.version % 0x1_0000, m.msgType % 0x1_0000, m.nodeID, m.listenPort, m.loopback,
              EndpointsFromV11(m.alternatives))
  }

  function EndpointsFromV11(es: seq<M.Endpoint>): (r: seq<Endpoint>)
    ensures |r| == |es|
    ensures forall k :: 0 <= k < |es| ==> r[k].ip == es[k].host && r[k].port == es[k].port
  {
    if es == [] then [] else [Endpoint(es[0].host, es[0].port)] + EndpointsFromV11(es[1..])
  }

  function ParcelToV11(p: Parcel): M.Msg {
    M.Msg(p.parcelType, p.payload, [])
  }

  function ParcelFromV11(m: M.Msg): Parcel {
    Parcel(m.msgType % 0x1_0000, m.payload)
  }

  //// What is written, and what is taken from a stream

  /** The sender lets the message through: it is within the limit. */
  predicate FitsHandshake(hs: Handshake) {
    |M.EncodeHandshake(ToV11(hs))| <= V11_MAX_PARCEL_SIZE
  }

  predicate FitsParcel(p: Parcel) {
    |M.EncodeMsg(ParcelToV11(p))| <= V11_MAX_PARCEL_SIZE
  }

  function HandshakeBytes(hs: Handshake): bytes
    requires FitsHandshake(hs)
  {
    V11_SIGNATURE + Frame(M.EncodeHandshake(ToV11(hs)))
  }

  function ParcelBytes(p: Parcel): bytes
    requires FitsParcel(p)
  {
    Frame(M.EncodeMsg(ParcelToV11(p)))
  }

  function StreamBytes(ps: seq<Parcel>): bytes
    requires forall p :: p in ps ==> FitsParcel(p)
  {
    if ps == [] then [] else ParcelBytes(ps[0]) + StreamBytes(ps[1..])
  }

  function TakeHandshake(s: bytes): Result<Taken<Handshake>> {
    if |s| < 4 then Err(UnexpectedEOF)
    else if s[..4] != V11_SIGNATURE then Err(InvalidSignature)
    else
      match TakeFrame(s[4..])
      case Err(e) => Err(e)
      case Ok(Taken(data, rest)) =>
        match M.DecodeHandshake(M.EMPTY_HANDSHAKE, data)
        case Err(e) => Err(e)
        case Ok(m) => Ok(Taken(FromV11(m), rest))
  }

  function TakeParcel(s: bytes): (r: Result<Taken<Parcel>>)
    ensures r.Ok? ==> |r.value.rest| < |s|
  {
    match TakeFrame(s)
    case Err(e) => Err(e)
    case Ok(Taken(data, rest)) =>
      match M.DecodeMsg(M.EMPTY_MSG, data)
      case Err(e) => Err(e)
      case Ok(m) => Ok(Taken(ParcelFromV11(m), rest))
  }

  /** The first `n` parcels of a stream. */
  function TakeParcels(s: bytes, n: nat): Result<Taken<seq<Parcel>>> {
    if n == 0 then Ok(Taken([], s))
    else
      match TakeParcel(s)
      case Err(e) => Err(e)
      case Ok(Taken(p, rest)) =>
        match TakeParcels(rest, n - 1)
        case Err(e) => Err(e)
        case Ok(Taken(ps, last)) => Ok(Taken([p] + ps, last))
  }

  //// Main results

  /** The length survives the cast and the four bytes, and every frame written passes the reader's limit. */
  lemma {:induction false} FrameTaken(data: slice, tail: bytes)
    requires |data| <= V11_MAX_PARCEL_SIZE
    ensures TakeFrame(Frame(data) + tail) == Ok(Taken(data, tail))
  {
    hide TakeFrame, LengthOf, Frame;
    var w := Frame(data);
    var s := w + tail;
    FrameIsFrame(data);
    TakenFrame(s);
    assert s[0] == w[0] && s[1] == w[1] && s[2] == w[2] && s[3] == w[3];
    assert s[4..4 + |data|] == w[4..] && s[4 + |data|..] == tail;
  }

  lemma {:induction false} BigEndianRoundTrip(v: uint32)
    ensures FromBigEndian(BigEndian(v)) == v
  {
    hide BigEndian;
  }

  /** The handshake that was sent is what the other end reads, and the bytes after it are untouched. */
  lemma {:induction false} HandshakeTaken(hs: Handshake, tail: bytes)
    requires FitsHandshake(hs)
    ensures TakeHandshake(HandshakeBytes(hs) + tail) == Ok(Taken(hs, tail))
  {
    hide M.EncodeHandshake, M.DecodeHandshake, M.EndpointOk, TakeFrame, Frame;
    var m := ToV11(hs);
    var data := M.EncodeHandshake(m);
    var s := HandshakeBytes(hs) + tail;
    assert s == V11_SIGNATURE + (Frame(data) + tail);
    assert s[..4] == V11_SIGNATURE && s[4..] == Frame(data) + tail;
    FrameTaken(data, tail);
    EndpointsOk(hs.alternatives);
    M.HandshakeRoundTrip(m);
    EndpointsRoundTrip(hs.alternatives);
  }

  lemma {:induction false} EndpointsOk(es: seq<Endpoint>)
    ensures forall e :: e in EndpointsToV11(es) ==> M.EndpointOk(e)
  {
    if es != [] {
      EndpointsOk(es[1..]);
    }
  }

  lemma {:induction false} EndpointsRoundTrip(es: seq<Endpoint>)
    ensures EndpointsFromV11(EndpointsToV11(es)) == es
  {
    if es != [] {
      EndpointsRoundTrip(es[1..]);
      assert EndpointsToV11(es)[1..] == EndpointsToV11(es[1..]);
    }
  }

  lemma {:induction false} ParcelTaken(p: Parcel, tail: bytes)
    requires FitsParcel(p)
    ensures TakeParcel(ParcelBytes(p) + tail) == Ok(Taken(p, tail))
  {
    hide M.EncodeMsg, M.DecodeMsg, TakeFrame, Frame;
    var data := M.EncodeMsg(ParcelToV11(p));
    FrameTaken(data, tail);
    M.MsgRoundTrip(ParcelToV11(p));
  }

  lemma {:induction false} ParcelsTaken(ps: seq<Parcel>, tail: bytes)
    requires forall p :: p in ps ==> FitsParcel(p)
    ensures TakeParcels(StreamBytes(ps) + tail, |ps|) == Ok(Taken(ps, tail))
  {
    hide TakeParcel, TakeParcels, StreamBytes, ParcelBytes, FitsParcel, Frame;
    if ps == [] {
      NoParcels(tail);
    } else {
      var rest := StreamBytes(ps[1..]) + tail;
      StreamSplit(ps, tail);
      ParcelTaken(ps[0], rest);
      ParcelsTaken(ps[1..], tail);
      OneMore(ParcelBytes(ps[0]) + rest, ps[0], rest, ps[1..], tail);
      assert [ps[0]] + ps[1..] == ps;
    }
  }

  lemma {:induction false} NoParcels(tail: bytes)
    ensures StreamBytes([]) + tail == tail && TakeParcels(tail, 0) == Ok(Taken([], tail))
  {
  }

  lemma {:induction false} StreamSplit(ps: seq<Parcel>, tail: bytes)
    requires ps != [] && forall p :: p in ps ==> FitsParcel(p)
    ensures StreamBytes(ps) + tail == ParcelBytes(ps[0]) + (StreamBytes(ps[1..]) + tail)
  {
    hide ParcelBytes, FitsParcel;
  }

  lemma {:induction false} OneMore(s: bytes, p: Parcel, rest: bytes, ps: seq<Parcel>, last: bytes)
    requires TakeParcel(s) == Ok(Taken(p, rest)) && TakeParcels(rest, |ps|) == Ok(Taken(ps, last))
    ensures TakeParcels(s, |ps| + 1) == Ok(Taken([p] + ps, last))
  {
    hide TakeParcel;
  }

  /** A whole conversation: the handshake, then every parcel in order, and no byte beyond them. */
  lemma {:induction false} ConversationTaken(hs: Handshake, ps: seq<Parcel>, tail: bytes)
    requires FitsHandshake(hs) && forall p :: p in ps ==> FitsParcel(p)
    ensures var r := TakeHandshake(HandshakeBytes(hs) + (StreamBytes(ps) + tail));
            r == Ok(Taken(hs, StreamBytes(ps) + tail)) && TakeParcels(r.value.rest, |ps|) == Ok(Taken(ps, tail))
  {
    HandshakeTaken(hs, StreamBytes(ps) + tail);
    ParcelsTaken(ps, tail);
  }

  //// What the bytes on a connection mean, field by field

  /** `w` is one length-prefixed message, within the limit, that holds `data`. */
  ghost predicate IsFrame(w: bytes, data: bytes) {
    |w| >= 4 && LengthOf(w[0], w[1], w[2], w[3]) == |data| <= 134217728 && w[4..] == data
  }

  /** The message holds each field of the handshake in the field of that name, and the endpoints in order. */
  ghost predicate Carries(m: M.Handshake, hs: Handshake) {
    && m.msgType == hs.parcelType && m.network == hs.network && m.version == hs.version && m.nodeID == hs.nodeID
    && m.listenPort == hs.listenPort && m.loopback == hs.loopback && m.unrecognized == []
    && SameEndpoints(m.alternatives, hs.alternatives)
  }

  ghost predicate SameEndpoints(ms: seq<M.Endpoint>, es: seq<Endpoint>) {
    |ms| == |es| && forall k :: 0 <= k < |es| ==> ms[k].host == es[k].ip && ms[k].port == es[k].port
  }

  /** The handshake is the message with two fields cut to 16 bits, whatever the message retains besides. */
  ghost predicate ReadAs(m: M.Handshake, hs: Handshake) {
    && hs.parcelType == m.msgType % 65536 && hs.version == m.version % 65536
    && hs.network == m.network && hs.nodeID == m.nodeID && hs.listenPort == m.listenPort && hs.loopback == m.loopback
    && SameEndpoints(m.alternatives, hs.alternatives)
  }

  /** What `w` says to whoever decodes it: the signature "pbuf", and one frame whose message holds the handshake. */
  ghost predicate HandshakeOnWire(w: bytes, hs: Handshake) {
    && |w| >= 4 && w[..4] == [0x70, 0x62, 0x75, 0x66]
    && exists data: slice ::
         IsFrame(w[4..], data) && var r := M.DecodeHandshake(M.EMPTY_HANDSHAKE, data); r.Ok? && Carries(r.value, hs)
  }

  ghost predicate ParcelOnWire(w: bytes, p: Parcel) {
    exists data: slice ::
      IsFrame(w, data) && M.DecodeMsg(M.EMPTY_MSG, data) == Ok(M.Msg(p.parcelType, p.payload, []))
  }

  lemma {:induction false} FrameIsFrame(data: slice)
    requires |data| <= V11_MAX_PARCEL_SIZE
    ensures IsFrame(Frame(data), data)
  {
    hide BigEndian;
  }

  lemma {:induction false} HandshakeWritten(hs: Handshake)
    requires FitsHandshake(hs)
    ensures HandshakeOnWire(HandshakeBytes(hs), hs)
  {
    hide M.EncodeHandshake, M.DecodeHandshake, M.EndpointOk, IsFrame, Frame;
    var m := ToV11(hs);
    var data := M.EncodeHandshake(m);
    EndpointsOk(hs.alternatives);
    M.HandshakeRoundTrip(m);
    FrameIsFrame(data);
    assert HandshakeBytes(hs)[4..] == Frame(data);
  }

  lemma {:induction false} ParcelWritten(p: Parcel)
    requires FitsParcel(p)
    ensures ParcelOnWire(ParcelBytes(p), p)
  {
    hide M.EncodeMsg, M.DecodeMsg, IsFrame, Frame;
    M.MsgRoundTrip(ParcelToV11(p));
    FrameIsFrame(M.EncodeMsg(ParcelToV11(p)));
  }

  /** A frame is taken exactly if its four bytes announce at most 134217728 bytes and as many follow. */
  lemma {:induction false} TakenFrame(s: bytes)
    ensures TakeFrame(s).Ok? <==>
            |s| >= 4 && LengthOf(s[0], s[1], s[2], s[3]) <= 134217728 && LengthOf(s[0], s[1], s[2], s[3]) <= |s| - 4
    ensures TakeFrame(s).Ok? ==>
            var n := LengthOf(s[0], s[1], s[2], s[3]);
            TakeFrame(s).value.value == s[4..4 + n] && TakeFrame(s).value.rest == s[4 + n..]
    ensures |s| >= 4 && LengthOf(s[0], s[1], s[2], s[3]) > 134217728 ==> TakeFrame(s) == Err(MessageTooLarge)
  {
    if |s| >= 4 {
      var n := LengthOf(s[0], s[1], s[2], s[3]);
      assert FromBigEndian(s[..4]) == n;
      if n <= |s| - 4 {
        assert s[4..][..n] == s[4..4 + n] && s[4..][n..] == s[4 + n..];
      }
    }
  }

  /** What a handshake read from the front of `s` is, and that bytes behind it are left. */
  ghost predicate HandshakeAtFront(s: bytes, hs: Handshake, rest: bytes) {
    && |s| >= 8 && s[..4] == [0x70, 0x62, 0x75, 0x66]
    && var n := LengthOf(s[4], s[5], s[6], s[7]);
       && n <= 134217728 && 8 + n <= |s| && rest == s[8 + n..]
       && var r := M.DecodeHandshake(M.EMPTY_HANDSHAKE, s[8..8 + n]); r.Ok? && ReadAs(r.value, hs)
  }

  lemma {:induction false} TakenHandshake(s: bytes)
    ensures TakeHandshake(s).Ok? ==> HandshakeAtFront(s, TakeHandshake(s).value.value, TakeHandshake(s).value.rest)
    ensures forall hs, rest :: HandshakeAtFront(s, hs, rest) ==> TakeHandshake(s).Ok?
  {
    hide M.DecodeHandshake, TakeFrame;
    if |s| >= 8 {
      var n := LengthOf(s[4], s[5], s[6], s[7]);
      var t := s[4..];
      TakenFrame(t);
      assert t[0] == s[4] && t[1] == s[5] && t[2] == s[6] && t[3] == s[7];
      if 8 + n <= |s| {
        assert t[4..4 + n] == s[8..8 + n] && t[4 + n..] == s[8 + n..];
      }
    } else if |s| >= 4 {
      TakenFrame(s[4..]);
    }
  }

  ghost predicate ParcelAtFront(s: bytes, p: Parcel, rest: bytes) {
    && |s| >= 4
    && var n := LengthOf(s[0], s[1], s[2], s[3]);
       && n <= 134217728 && 4 + n <= |s| && rest == s[4 + n..]
       && var r := M.DecodeMsg(M.EMPTY_MSG, s[4..4 + n]);
          r.Ok? && p.parcelType == r.value.msgType % 65536 && p.payload == r.value.payload
  }

  lemma {:induction false} TakenParcel(s: bytes)
    ensures TakeParcel(s).Ok? ==> ParcelAtFront(s, TakeParcel(s).value.value, TakeParcel(s).value.rest)
    ensures forall p, rest :: ParcelAtFront(s, p, rest) ==> TakeParcel(s).Ok?
  {
    hide M.DecodeMsg, TakeFrame;
    TakenFrame(s);
  }

  //// The code

  class ProtocolV11 {
    const reader: BufferedReader
    const conn: Conn

    constructor (reader: BufferedReader)
      ensures this.reader == reader && conn == reader.conn
    {
      this.reader, conn := reader, reader.conn;
    }

    /** All of `data`, or as much as there is room for and an error. */
    method WriteCheck(data: bytes) returns (ok: bool)
      modifies conn`sent, conn`room
      ensures ok == (|data| <= old(conn.room))
      ensures ok ==> conn.sent == old(conn.sent) + data && conn.room == old(conn.room) - |data|
      ensures !ok ==> conn.sent == old(conn.sent) + data[..old(conn.room)] && conn.room == 0
    {
      var n := conn.Write(data);
      ok := n == |data|;
      if ok {
        assert data[..n] == data;
      }
    }

    method WriteMessage(data: slice) returns (ok: bool)
      modifies conn`sent, conn`room
      ensures ok == (|data| <= V11_MAX_PARCEL_SIZE && |Frame(data)| <= old(conn.room))
      ensures ok ==> conn.sent == old(conn.sent) + Frame(data) && conn.room == old(conn.room) - |Frame(data)|
      ensures ok ==> IsFrame(conn.sent[|old(conn.sent)|..], data)
      ensures |data| > 134217728 ==> !ok && conn.sent == old(conn.sent)
      ensures old(conn.sent) <= conn.sent <= old(conn.sent) + Frame(data)
    {
      hide BigEndian, IsFrame;
      if |data| > V11_MAX_PARCEL_SIZE {
        return false;
      }
      var buf := BigEndian(Low32(|data|));
      ok := WriteCheck(buf);
      assert buf <= Frame(data);
      if ok {
        ok := WriteCheck(data);
        assert old(conn.sent) + buf + data == old(conn.sent) + Frame(data);
        FrameIsFrame(data);
        assert (old(conn.sent) + Frame(data))[|old(conn.sent)|..] == Frame(data);
      }
    }

    method ReadMessage() returns (r: Result<slice>)
      modifies reader`buffer, reader.conn`chunks
      ensures match TakeFrame(old(reader.Pending()))
              case Err(e) => r == Err(e)
              case Ok(Taken(data, rest)) => r == Ok(data) && reader.Pending() == rest
      ensures r.Ok? ==> exists w :: old(reader.Pending()) == w + reader.Pending() && IsFrame(w, r.value)
      ensures var s := old(reader.Pending());
              |s| >= 4 && LengthOf(s[0], s[1], s[2], s[3]) > 134217728 ==> r == Err(MessageTooLarge)
    {
      hide FromBigEndian;
      ghost var s := reader.Pending();
      TakenFrame(s);
      var buf := reader.ReadFull(4);
      if buf.Err? {
        return Err(buf.error);
      }
      var size := FromBigEndian(buf.value);
      if size > V11_MAX_PARCEL_SIZE {
        return Err(MessageTooLarge);
      }
      r := reader.ReadFull(size);
      if r.Ok? {
        ghost var w := s[..4 + |r.value|];
        assert s == w + reader.Pending() && IsFrame(w, r.value);
      }
    }

    /** The signature goes out first, even if the message turns out to be too large. */
    method SendHandshake(hs: Handshake) returns (ok: bool)
      requires |M.EncodeHandshake(ToV11(hs))| <= MAX_INT
      modifies conn`sent, conn`room
      ensures ok == (FitsHandshake(hs) && |HandshakeBytes(hs)| <= old(conn.room))
      ensures ok ==> conn.sent == old(conn.sent) + HandshakeBytes(hs) && conn.room == old(conn.room) - |HandshakeBytes(hs)|
      ensures ok ==> HandshakeOnWire(conn.sent[|old(conn.sent)|..], hs)
      ensures !FitsHandshake(hs) && 4 <= old(conn.room) ==> conn.sent == old(conn.sent) + V11_SIGNATURE
      ensures old(conn.sent) <= conn.sent <= old(conn.sent) + if FitsHandshake(hs) then HandshakeBytes(hs) else V11_SIGNATURE
    {
      hide M.EncodeHandshake, Frame, HandshakeOnWire, IsFrame;
      ok := WriteCheck(V11_SIGNATURE);
      if !ok {
        return;
      }
      var v11hs := NewHandshake(hs);
      var size := v11hs.Size();
      var b := new byte[size];
      var data := v11hs.XXX_Marshal(b);
      ok := WriteMessage(data);
      Associate(old(conn.sent), V11_SIGNATURE, Frame(data));
      if ok {
        HandshakeWritten(hs);
        assert (old(conn.sent) + HandshakeBytes(hs))[|old(conn.sent)|..] == HandshakeBytes(hs);
      }
    }

    method ReadHandshake() returns (r: Result<Handshake>)
      modifies reader`buffer, reader.conn`chunks
      ensures match TakeHandshake(old(reader.Pending()))
              case Err(e) => r == Err(e)
              case Ok(Taken(hs, rest)) => r == Ok(hs) && reader.Pending() == rest
      ensures r.Ok? ==> HandshakeAtFront(old(reader.Pending()), r.value, reader.Pending())
    {
      hide TakeFrame, M.DecodeHandshake, HandshakeAtFront, IsFrame;
      TakenHandshake(reader.Pending());
      var sig := reader.ReadFull(4);
      if sig.Err? {
        return Err(sig.error);
      }
      if sig.value != V11_SIGNATURE {
        return Err(InvalidSignature);
      }
      var data := ReadMessage();
      if data.Err? {
        return Err(data.error);
      }
      var v11hs := new V11Handshake();
      var err := v11hs.Unmarshal(data.value);
      if err.Some? {
        return Err(err.value);
      }
      var alternatives := EndpointsOf(v11hs.Alternatives);
      r := Ok(Handshake(v11hs.Network, v11hs.Version % 0x1_0000, v11hs.Type % 0x1_0000, v11hs.NodeID,
                        v11hs.ListenPort, v11hs.Loopback, alternatives));
    }

    method Send(p: Parcel) returns (ok: bool)
      requires |M.EncodeMsg(ParcelToV11(p))| <= MAX_INT
      modifies conn`sent, conn`room
      ensures ok == (FitsParcel(p) && |ParcelBytes(p)| <= old(conn.room))
      ensures ok ==> conn.sent == old(conn.sent) + ParcelBytes(p) && conn.room == old(conn.room) - |ParcelBytes(p)|
      ensures ok ==> ParcelOnWire(conn.sent[|old(conn.sent)|..], p)
      ensures old(conn.sent) <= conn.sent <= old(conn.sent) + if FitsParcel(p) then ParcelBytes(p) else []
    {
      hide M.EncodeMsg, Frame, ParcelOnWire, IsFrame;
      var msg := new V11Msg();
      msg.Type := p.parcelType;
      msg.Payload := p.payload;
      assert msg.Value() == ParcelToV11(p);
      var size := msg.Size();
      var b := new byte[size];
      var data := msg.XXX_Marshal(b);
      ok := WriteMessage(data);
      if ok {
        ParcelWritten(p);
        assert (old(conn.sent) + ParcelBytes(p))[|old(conn.sent)|..] == ParcelBytes(p);
      }
    }

    method Receive() returns (r: Result<Parcel>)
      modifies reader`buffer, reader.conn`chunks
      ensures match TakeParcel(old(reader.Pending()))
              case Err(e) => r == Err(e)
              case Ok(Taken(p, rest)) => r == Ok(p) && reader.Pending() == rest
      ensures r.Ok? ==> ParcelAtFront(old(reader.Pending()), r.value, reader.Pending())
    {
      hide TakeFrame, M.DecodeMsg, ParcelAtFront, IsFrame;
      TakenParcel(reader.Pending());
      var data := ReadMessage();
      if data.Err? {
        return Err(data.error);
      }
      var msg := new V11Msg();
      var err := msg.Unmarshal(data.value);
      if err.Some? {
        return Err(err.value);
      }
      r := Ok(Parcel(msg.Type % 0x1_0000, msg.Payload));
    }
  }

  method NewHandshake(hs: Handshake) returns (v11hs: V11Handshake)
    ensures fresh(v11hs) && v11hs.Value() == ToV11(hs)
  {
    hide EndpointsToV11, Endpoints;
    v11hs := new V11Handshake();
    v11hs.Type := hs.parcelType;
    v11hs.ListenPort := hs.listenPort;
    v11hs.Loopback := hs.loopback;
    v11hs.Network := hs.network;
    v11hs.NodeID := hs.nodeID;
    v11hs.Version := hs.version;
    if |hs.alternatives| > 0 {
      v11hs.Alternatives := NewEndpoints(hs.alternatives);
    }
    EmptyEndpoints();
  }

  lemma {:induction false} EmptyEndpoints()
    ensures Endpoints([]) == [] && EndpointsToV11([]) == []
  {
  }

  /** The loop that turns endpoints into messages. */
  method NewEndpoints(es: seq<Endpoint>) returns (r: seq<V11Endpoint>)
    ensures fresh(r)
    ensures Endpoints(r) == EndpointsToV11(es)
  {
    hide Endpoints, EndpointsToV11;
    EmptyEndpoints();
    r := [];
    for k := 0 to |es|
      invariant fresh(r)
      invariant Endpoints(r) == EndpointsToV11(es[..k])
    {
      var e := new V11Endpoint();
      e.Host := es[k].ip;
      e.Port := es[k].port;
      assert es[..k + 1] == es[..k] + [es[k]];
      EndpointsToV11Append(es[..k], es[k]);
      EndpointsAppend(r, e);
      r := r + [e];
    }
    assert es[..|es|] == es;
  }

  /** The loop that turns messages into endpoints. */
  method EndpointsOf(es: seq<V11Endpoint>) returns (r: seq<Endpoint>)
    ensures r == EndpointsFromV11(Endpoints(es))
  {
    r := [];
    for k := 0 to |es|
      invariant r == EndpointsFromV11(Endpoints(es[..k]))
    {
      assert es[..k + 1] == es[..k] + [es[k]];
      EndpointsAppend(es[..k], es[k]);
      EndpointsFromV11Append(Endpoints(es[..k]), es[k].Value());
      r := r + [Endpoint(es[k].Host, es[k].Port)];
    }
    assert es[..|es|] == es;
  }

  lemma {:induction false} EndpointsToV11Append(es: seq<Endpoint>, e: Endpoint)
    ensures EndpointsToV11(es + [e]) == EndpointsToV11(es) + [M.Endpoint(e.ip, e.port, [])]
  {
    if es == [] {
      assert es + [e] == [e];
    } else {
      assert (es + [e])[1..] == es[1..] + [e];
      EndpointsToV11Append(es[1..], e);
    }
  }

  lemma {:induction false} EndpointsFromV11Append(es: seq<M.Endpoint>, e: M.Endpoint)
    ensures EndpointsFromV11(es + [e]) == EndpointsFromV11(es) + [Endpoint(e.host, e.port)]
  {
    if es == [] {
      assert es + [e] == [e];
    } else {
      assert (es + [e])[1..] == es[1..] + [e];
      EndpointsFromV11Append(es[1..], e);
    }
  }

  //// Peer shares

  /** `MakePeerShare` */
  method MakePeerShare(ps: seq<Endpoint>) returns (payload: bytes)
    requires |ShareBytes(ps)| <= MAX_INT
    ensures payload == ShareBytes(ps)
    ensures var r := M.DecodeShare(M.EMPTY_SHARE, payload);
            r.Ok? && SameEndpoints(r.value.share, ps) && r.value.unrecognized == []
  {
    hide M.EncodeShare, M.DecodeShare, M.EndpointOk;
    EndpointsOk(ps);
    M.ShareRoundTrip(M.Share(EndpointsToV11(ps), []));
    var v11share := new V11Share();
    v11share.Share := NewEndpoints(ps);
    assert v11share.Value() == M.Share(EndpointsToV11(ps), []);
    payload := v11share.Marshal();
  }

  function ShareBytes(ps: seq<Endpoint>): bytes {
    M.EncodeShare(M.Share(EndpointsToV11(ps), []))
  }

  function ShareOf(payload: slice): Result<seq<Endpoint>> {
    match M.DecodeShare(M.EMPTY_SHARE, payload)
    case Err(e) => Err(e)
    case Ok(m) => Ok(EndpointsFromV11(m.share))
  }

  /** `ParsePeerShare` */
  method ParsePeerShare(payload: slice) returns (r: Result<seq<Endpoint>>)
    ensures r == ShareOf(payload)
    ensures var m := M.DecodeShare(M.EMPTY_SHARE, payload);
            (r.Ok? <==> m.Ok?) && (r.Ok? ==> SameEndpoints(m.value.share, r.value))
  {
    hide M.DecodeShare;
    var v11share := new V11Share();
    var err := v11share.Unmarshal(payload);
    if err.Some? {
      return Err(err.value);
    }
    var eps := EndpointsOf(v11share.Share);
    r := Ok(eps);
  }

  /** The endpoints shared are the endpoints parsed, in order. */
  lemma {:induction false} ShareRoundTrip(ps: seq<Endpoint>)
    requires |ShareBytes(ps)| <= MAX_INT
    ensures ShareOf(ShareBytes(ps)) == Ok(ps)
  {
    hide M.EncodeShare, M.DecodeShare, M.EndpointOk;
    EndpointsOk(ps);
    M.ShareRoundTrip(M.Share(EndpointsToV11(ps), []));
    EndpointsRoundTrip(ps);
  }
}
