/**
  What negotiation assumes of gob and JSON can be met: here is a simple pair of
  encodings that meets it, for any checks of ports and endpoints.
 */
module FaithfulLibrary {
  import opened Words
  import opened Records
  import opened Network
  import opened ProtocolV11
  import opened Negotiation

  /** Each byte behind a 1, and a 0 at the end. */
  function Escape(b: bytes): (r: bytes)
    ensures |r| == 2 * |b| + 1
  {
    if b == [] then [0] else [1, b[0]] + Escape(b[1..])
  }

  function Unescape(s: bytes): (r: Option<Taken<bytes>>)
    ensures r.Some? ==> |r.value.rest| < |s|
  {
    if s == [] then None
    else if s[0] == 0 then Some(Taken([], s[1..]))
    else if |s| < 2 then None
    else
      match Unescape(s[2..])
      case None => None
      case Some(Taken(b, rest)) => Some(Taken([s[1]] + b, rest))
  }

  lemma {:induction false} EscapeRead(b: bytes, tail: bytes)
    ensures Unescape(Escape(b) + tail) == Some(Taken(b, tail))
  {
    var s := Escape(b) + tail;
    if b == [] {
      assert s[1..] == tail;
    } else {
      EscapeRead(b[1..], tail);
      assert s[2..] == Escape(b[1..]) + tail;
      assert [b[0]] + b[1..] == b;
    }
  }

  lemma {:induction false} EscapeCut(b: bytes, k: nat)
    requires k < |Escape(b)|
    ensures Unescape(Escape(b)[..k]) == None
  {
    if k >= 2 {
      EscapeCut(b[1..], k - 2);
      assert Escape(b)[..k][2..] == Escape(b[1..])[..k - 2];
    }
  }

  //// In place of gob

  function Head(m: V9Msg): (r: bytes)
    ensures |r| == 16
  {
    LittleEndian(4, m.network) + LittleEndian(2, m.version) + LittleEndian(2, m.parcelType) + LittleEndian(8, m.nodeID)
  }

  function Encode(m: V9Msg): bytes {
    Escape(Head(m) + (Escape(m.peerPort) + m.payload))
  }

  function Parse(b: bytes): Option<V9Msg> {
    if |b| < 16 then None
    else
      match Unescape(b[16..])
      case None => None
      case Some(Taken(port, payload)) =>
        if |port| > MAX_INT then None
        else
          Some(V9Msg(FromLittleEndian(b[..4]) % TWO_TO_THE_32, FromLittleEndian(b[4..6]) % 0x1_0000,
                     FromLittleEndian(b[6..8]) % 0x1_0000, FromLittleEndian(b[8..16]) % TWO_TO_THE_64, port, payload))
  }

  function Decode(s: bytes): Option<Taken<V9Msg>> {
    match Unescape(s)
    case None => None
    case Some(Taken(body, rest)) =>
      match Parse(body)
      case None => None
      case Some(m) => Some(Taken(m, rest))
  }

  lemma {:induction false} FourParts(a: bytes, b: bytes, c: bytes, d: bytes)
    requires |a| == 4 && |b| == 2 && |c| == 2 && |d| == 8
    ensures var s := a + b + c + d; s[..4] == a && s[4..6] == b && s[6..8] == c && s[8..16] == d
  {
    var ab := a + b;
    var abc := ab + c;
    var s := abc + d;
    assert abc[..4] == ab[..4] == a && abc[4..6] == ab[4..6] == b && abc[6..8] == c;
    assert s[..8] == abc && s[8..16] == d;
    assert s[..4] == s[..8][..4] && s[4..6] == s[..8][4..6] && s[6..8] == s[..8][6..8];
  }

  lemma {:induction false} HeadRead(m: V9Msg)
    ensures var b := Head(m);
            && FromLittleEndian(b[..4]) == m.network && FromLittleEndian(b[4..6]) == m.version
            && FromLittleEndian(b[6..8]) == m.parcelType && FromLittleEndian(b[8..16]) == m.nodeID
  {
    hide LittleEndian, FromLittleEndian;
    var b := Head(m);
    FourParts(LittleEndian(4, m.network), LittleEndian(2, m.version), LittleEndian(2, m.parcelType), LittleEndian(8, m.nodeID));
    PowersOf256();
    LittleEndianRoundTrip(4, m.network);
    LittleEndianRoundTrip(2, m.version);
    LittleEndianRoundTrip(2, m.parcelType);
    LittleEndianRoundTrip(8, m.nodeID);
  }

  lemma {:induction false} PowersOf256()
    ensures Pow256(2) == 0x1_0000 && Pow256(4) == TWO_TO_THE_32 && Pow256(8) == TWO_TO_THE_64
  {
    EightBytes();
    assert Pow256(2) == 0x1_0000;
  }

  lemma {:induction false} EncodeRead(m: V9Msg, tail: bytes)
    ensures Decode(Encode(m) + tail) == Some(Taken(m, tail))
  {
    hide Escape, Unescape, Head, FromLittleEndian;
    var rest := Escape(m.peerPort) + m.payload;
    var body := Head(m) + rest;
    EscapeRead(body, tail);
    assert body[16..] == rest;
    EscapeRead(m.peerPort, m.payload);
    HeadRead(m);
    assert body[..4] == Head(m)[..4] && body[4..6] == Head(m)[4..6];
    assert body[6..8] == Head(m)[6..8] && body[8..16] == Head(m)[8..16];
  }

  //// In place of JSON

  function Marshal(es: seq<Endpoint>): bytes {
    if es == [] then [] else [2] + (Escape(es[0].ip) + (Escape(es[0].port) + Marshal(es[1..])))
  }

  function Unmarshal(s: bytes): Option<seq<Endpoint>>
    decreases |s|
  {
    if s == [] then Some([])
    else if s[0] != 2 then None
    else
      match Unescape(s[1..])
      case None => None
      case Some(Taken(ip, afterIP)) =>
        match Unescape(afterIP)
        case None => None
        case Some(Taken(port, rest)) =>
          if |ip| > MAX_INT || |port| > MAX_INT then None
          else
            match Unmarshal(rest)
            case None => None
            case Some(es) => Some([Endpoint(ip, port)] + es)
  }

  lemma {:induction false} MarshalRead(es: seq<Endpoint>)
    ensures Unmarshal(Marshal(es)) == Some(es)
  {
    hide Escape, Unescape;
    if es != [] {
      var rest := Marshal(es[1..]);
      var s := Marshal(es);
      assert s[1..] == Escape(es[0].ip) + (Escape(es[0].port) + rest);
      EscapeRead(es[0].ip, Escape(es[0].port) + rest);
      EscapeRead(es[0].port, rest);
      MarshalRead(es[1..]);
      assert [es[0]] + es[1..] == es;
    }
  }

  /** Whatever counts as a valid port and a valid endpoint. */
  lemma {:induction false} FaithfulExists(validPort: slice -> bool, validEndpoint: Endpoint -> bool) returns (lib: Library)
    ensures Faithful(lib) && lib.validPort == validPort && lib.validEndpoint == validEndpoint
  {
    hide Escape, Unescape, Head, Parse, Marshal, Unmarshal, Decode;
    lib := Library(Encode, Decode, Marshal, Unmarshal, validPort, validEndpoint);
    forall m, tail ensures lib.decode(lib.encode(m) + tail) == Some(Taken(m, tail)) {
      EncodeRead(m, tail);
    }
    forall m, k: nat | k < |lib.encode(m)| ensures lib.decode(lib.encode(m)[..k]) == None {
      EncodeCut(m, k);
    }
    forall m ensures 4 <= |lib.encode(m)| && lib.encode(m)[..4] != V11_SIGNATURE {
      EncodeStart(m);
    }
    forall es: seq<Endpoint> ensures lib.unmarshal(lib.marshal(es)) == Some(es) {
      MarshalRead(es);
    }
    ZerosRefused();
  }

  lemma {:induction false} EncodeCut(m: V9Msg, k: nat)
    requires k < |Encode(m)|
    ensures Decode(Encode(m)[..k]) == None
  {
    EscapeCut(Head(m) + (Escape(m.peerPort) + m.payload), k);
  }

  lemma {:induction false} EncodeStart(m: V9Msg)
    ensures 4 <= |Encode(m)| && Encode(m)[..4] != V11_SIGNATURE
  {
    hide Head;
    assert Encode(m)[..4][0] == 1;
  }

  lemma {:induction false} ZerosRefused()
    ensures Unmarshal(LittleEndian(8, 0)) == None
  {
  }
}
