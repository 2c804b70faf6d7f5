/**
  How two nodes agree on a protocol: the first message of each side, what the
  other makes of it, and every run of the two over a connection that may fail.
 */
module Negotiation {
  import opened Words
  import opened Records
  import opened Network
  import opened ProtocolV11
  import M = Messages

  /** The part of the configuration that negotiation reads, and the number drawn at start to recognise ourselves. */
  datatype Config = Config(
    network: uint32, version: uint16, minimum: uint16, nodeID: uint32, listenPort: slice, instanceID: uint64)

  datatype Protocol = V9 | V10 | V11 {
    function Version(): uint16 {
      match this
      case V9 => 9
      case V10 => 10
      case V11 => 11
    }
  }

  /** The fields of the legacy message that a handshake is read back from. */
  datatype V9Msg = V9Msg(
    network: uint32, version: uint16, parcelType: uint16, nodeID: uint64, peerPort: slice, payload: bytes)

  /** Library code: gob and JSON, and the checks of ports and endpoints. */
  datatype Library = Library(
    encode: V9Msg -> bytes,
    decode: bytes -> Option<Taken<V9Msg>>,
    marshal: seq<Endpoint> -> bytes,
    unmarshal: bytes -> Option<seq<Endpoint>>,
    validPort: slice -> bool,
    validEndpoint: Endpoint -> bool)

  /**
    What is assumed of gob and JSON: gob reads back what it wrote, whatever follows, refuses a message that is cut
    short, and never starts like protocol 11; JSON reads back valid endpoints, and refuses eight zero bytes.
   */
  ghost predicate Faithful(lib: Library) {
    && (forall m, tail :: lib.decode(lib.encode(m) + tail) == Some(Taken(m, tail)))
    && (forall m, k: nat :: k < |lib.encode(m)| ==> lib.decode(lib.encode(m)[..k]) == None)
    && (forall m :: 4 <= |lib.encode(m)| && lib.encode(m)[..4] != V11_SIGNATURE)
    && (forall es :: es != [] && (forall ep :: ep in es ==> lib.validEndpoint(ep)) ==>
          lib.unmarshal(lib.marshal(es)) == Some(es))
    && lib.unmarshal(LittleEndian(8, 0)) == None
  }

  //// `binary.LittleEndian`

  function LittleEndian(n: nat, v: nat): (s: bytes)
    ensures |s| == n
  {
    if n == 0 then [] else [v % 0x100] + LittleEndian(n - 1, v / 0x100)
  }

  function FromLittleEndian(s: bytes): (v: nat)
    ensures v < Pow256(|s|)
  {
    if s == [] then 0 else s[0] + 0x100 * FromLittleEndian(s[1..])
  }

  function Pow256(n: nat): (p: nat)
    ensures p > 0
  {
    if n == 0 then 1 else 0x100 * Pow256(n - 1)
  }

  lemma {:induction false} EightBytes()
    ensures Pow256(8) == TWO_TO_THE_64
  {
    assert Pow256(4) == TWO_TO_THE_32;
  }

  lemma {:induction false} LittleEndianRoundTrip(n: nat, v: nat)
    requires v < Pow256(n)
    ensures FromLittleEndian(LittleEndian(n, v)) == v
  {
    if n > 0 {
      LittleEndianRoundTrip(n - 1, v / 0x100);
      assert LittleEndian(n, v)[1..] == LittleEndian(n - 1, v / 0x100);
    }
  }

  //// What is sent

  /** `newHandshake` */
  function Greeting(conf: Config, loopback: uint64): Handshake {
    Handshake(conf.network, conf.version, TYPE_HANDSHAKE, conf.nodeID, conf.listenPort, loopback, [])
  }

  /** `selectProtocol` */
  function Desired(conf: Config): Protocol {
    if conf.version == 11 then V11 else if conf.version == 10 then V10 else V9
  }

  function ToV9(hs: Handshake, lib: Library): V9Msg {
    V9Msg(hs.network, hs.version, hs.parcelType, hs.nodeID, hs.listenPort,
          if hs.alternatives != [] then lib.marshal(hs.alternatives) else LittleEndian(8, hs.loopback))
  }

  /** Protocol 9 has no handshake of its own and asks for peers instead. */
  function AsSent(prot: Protocol, hs: Handshake): Handshake {
    if prot == V9 && hs.parcelType == TYPE_HANDSHAKE then hs.(parcelType := TYPE_PEER_REQUEST) else hs
  }

  predicate Fits(prot: Protocol, hs: Handshake) {
    prot == V11 ==> FitsHandshake(hs)
  }

  /** What `SendHandshake` writes on a connection that takes it all; too large a message stops after the signature. */
  function Written(prot: Protocol, hs: Handshake, lib: Library): bytes {
    if prot != V11 then lib.encode(ToV9(AsSent(prot, hs), lib))
    else if FitsHandshake(hs) then HandshakeBytes(hs)
    else V11_SIGNATURE
  }

  /** `RejectWithShare` */
  function Rejection(conf: Config, share: seq<Endpoint>): Handshake {
    Greeting(conf, 0).(parcelType := TYPE_REJECT_ALTERNATIVE, alternatives := share)
  }

  //// What is made of it

  function FromV9(m: V9Msg, lib: Library): Result<Handshake> {
    if m.parcelType == TYPE_REJECT_ALTERNATIVE then
      match lib.unmarshal(m.payload)
      case None => Err(InvalidPayload)
      case Some(es) => Ok(Handshake(m.network, m.version, m.parcelType, Low32(m.nodeID), m.peerPort, 0, es))
    else
      EightBytes();
      var loopback := if |m.payload| == 8 then FromLittleEndian(m.payload) else 0;
      Ok(Handshake(m.network, m.version, m.parcelType, Low32(m.nodeID), m.peerPort, loopback, []))
  }

  /** `Handshake.Valid`; the minimum that is checked again for legacy handshakes is this same one. */
  function Refusal(hs: Handshake, conf: Config, lib: Library): Option<Error> {
    if hs.version < conf.minimum then Some(BelowMinimum)
    else if hs.network != conf.network then Some(WrongNetwork)
    else if !lib.validPort(hs.listenPort) then Some(InvalidPort)
    else if exists ep :: ep in hs.alternatives && !lib.validEndpoint(ep) then Some(InvalidAlternatives)
    else None
  }

  datatype Detected = Detected(protocol: Protocol, handshake: Handshake)

  /** The protocol to speak with somebody who sent a valid legacy handshake; a node of version 9 speaks 9 with 10. */
  function FromLegacy(hs: Handshake, conf: Config): Result<Detected> {
    var version := if hs.version == 10 && conf.version == 9 then 9 else hs.version;
    if version == 9 then Ok(Detected(V9, hs.(version := 9)))
    else if version == 10 then Ok(Detected(V10, hs))
    else Err(UnsupportedVersion)
  }

  /** What a valid handshake, read as protocol 11 or not, leads to. */
  function Judge(isV11: bool, hs: Handshake, conf: Config, lib: Library): Result<Detected> {
    match Refusal(hs, conf, lib)
    case Some(e) => Err(e)
    case None => if isV11 then Ok(Detected(V11, hs)) else FromLegacy(hs, conf)
  }

  /** `detectProtocolFromFirstMessage` on a stream: the protocol, the handshake, and the bytes left to it. */
  function Detect(s: bytes, conf: Config, lib: Library): Result<Taken<Detected>> {
    if |s| < 4 then Err(UnexpectedEOF)
    else if s[..4] == V11_SIGNATURE then
      match TakeHandshake(s)
      case Err(e) => Err(e)
      case Ok(Taken(hs, rest)) => Keep(Judge(true, hs, conf, lib), rest)
    else
      match lib.decode(s)
      case None => Err(InvalidGob)
      case Some(Taken(m, rest)) =>
        match FromV9(m, lib)
        case Err(e) => Err(e)
        case Ok(hs) => Keep(Judge(false, hs, conf, lib), rest)
  }

  function Keep(r: Result<Detected>, rest: bytes): Result<Taken<Detected>> {
    match r
    case Err(e) => Err(e)
    case Ok(d) => Ok(Taken(d, rest))
  }

  //// How it ends for either side

  /** A peer: the version spoken, who it is, where it is, and whether it asked for peers. */
  datatype Link = Link(version: uint16, nodeID: uint32, endpoint: Endpoint, asked: bool)

  datatype Outcome = Connected(link: Link) | Declined(alternatives: seq<Endpoint>) | Failed(error: Error)

  /** The end of `handshakeOutgoing`, given everything the other side sent. */
  function AfterReply(s: bytes, ep: Endpoint, conf: Config, lib: Library): Outcome {
    match Detect(s, conf, lib)
    case Err(e) => Failed(e)
    case Ok(Taken(Detected(prot, reply), _)) =>
      if reply.loopback == conf.instanceID then Failed(DialedOurselves)
      else if reply.parcelType == TYPE_REJECT_ALTERNATIVE then Declined(reply.alternatives)
      else Connected(Link(prot.Version(), reply.nodeID, ep, reply.parcelType == TYPE_PEER_REQUEST))
  }

  /** What the listener answers to a handshake of this version. */
  function Reply(conf: Config, version: uint16): Handshake {
    Greeting(conf, conf.instanceID).(version := version)
  }

  /** The peer that `handshakeIncoming` makes. */
  function LinkTo(d: Detected, ip: slice): Link {
    Link(d.protocol.Version(), d.handshake.nodeID, Endpoint(ip, d.handshake.listenPort),
         d.handshake.parcelType == TYPE_PEER_REQUEST)
  }

  //// What the messages mean, field by field

  function Number4(b0: nat, b1: nat, b2: nat, b3: nat): nat {
    b0 + 0x100 * b1 + 0x1_0000 * b2 + 0x100_0000 * b3
  }

  /** The number in eight bytes, the least significant first. */
  function Number8(b: bytes): nat
    requires |b| == 8
  {
    Number4(b[0], b[1], b[2], b[3]) + 0x1_0000_0000 * Number4(b[4], b[5], b[6], b[7])
  }

  /** Eight bytes are read with the first as the least significant one. */
  lemma {:induction false} EightRead(b: bytes)
    requires |b| == 8
    ensures FromLittleEndian(b) == Number8(b)
  {
    var b1, b2, b3, b4, b5, b6, b7 := b[1..], b[2..], b[3..], b[4..], b[5..], b[6..], b[7..];
    assert b1[1..] == b2 && b2[1..] == b3 && b3[1..] == b4 && b4[1..] == b5 && b5[1..] == b6 && b6[1..] == b7 && b7[1..] == [];
    assert FromLittleEndian(b7) == b[7];
    assert FromLittleEndian(b6) == b[6] as nat + 0x100 * FromLittleEndian(b7);
    assert FromLittleEndian(b5) == b[5] as nat + 0x100 * FromLittleEndian(b6);
    assert FromLittleEndian(b4) == b[4] as nat + 0x100 * FromLittleEndian(b5);
    assert FromLittleEndian(b3) == b[3] as nat + 0x100 * FromLittleEndian(b4);
    assert FromLittleEndian(b2) == b[2] as nat + 0x100 * FromLittleEndian(b3);
    assert FromLittleEndian(b1) == b[1] as nat + 0x100 * FromLittleEndian(b2);
  }

  /** The legacy message that stands for a handshake; 3 is a request for peers, 8 a handshake. */
  ghost predicate LegacyOf(m: V9Msg, hs: Handshake, prot: Protocol, lib: Library) {
    && m.network == hs.network && m.version == hs.version && m.nodeID == hs.nodeID && m.peerPort == hs.listenPort
    && m.parcelType == (if prot == V9 && hs.parcelType == 8 then 3 else hs.parcelType)
    && if hs.alternatives != [] then m.payload == lib.marshal(hs.alternatives)
       else |m.payload| == 8 && Number8(m.payload) == hs.loopback
  }

  /** `w` says this handshake in this protocol. */
  ghost predicate Says(w: bytes, prot: Protocol, hs: Handshake, lib: Library) {
    if prot == V11 then HandshakeOnWire(w, hs)
    else exists m :: w == lib.encode(m) && LegacyOf(m, hs, prot, lib)
  }

  lemma {:induction false} WrittenSays(prot: Protocol, hs: Handshake, lib: Library)
    requires Fits(prot, hs)
    ensures Says(Written(prot, hs, lib), prot, hs, lib)
  {
    hide HandshakeBytes, FitsHandshake, LittleEndian, FromLittleEndian, HandshakeOnWire, Number8;
    if prot == V11 {
      HandshakeWritten(hs);
    } else {
      EightBytes();
      LittleEndianRoundTrip(8, hs.loopback);
      EightRead(LittleEndian(8, hs.loopback));
      assert LegacyOf(ToV9(AsSent(prot, hs), lib), hs, prot, lib);
    }
  }

  /** The handshake that a legacy message stands for; 9 is a rejection. */
  ghost predicate LegacyRead(m: V9Msg, hs: Handshake, lib: Library) {
    && hs.network == m.network && hs.version == m.version && hs.parcelType == m.parcelType
    && hs.nodeID == m.nodeID % 0x1_0000_0000 && hs.listenPort == m.peerPort
    && if m.parcelType == 9 then hs.loopback == 0 && lib.unmarshal(m.payload) == Some(hs.alternatives)
       else hs.alternatives == [] && hs.loopback == if |m.payload| == 8 then Number8(m.payload) else 0
  }

  lemma {:induction false} FromV9Reads(m: V9Msg, lib: Library)
    ensures FromV9(m, lib).Ok? ==> LegacyRead(m, FromV9(m, lib).value, lib)
    ensures forall hs :: LegacyRead(m, hs, lib) ==> FromV9(m, lib) == Ok(hs)
  {
    hide FromLittleEndian, Number8;
    if |m.payload| == 8 {
      EightRead(m.payload);
    }
  }

  /** The configuration has nothing against the handshake. */
  ghost predicate Welcome(hs: Handshake, conf: Config, lib: Library) {
    && hs.version >= conf.minimum && hs.network == conf.network && lib.validPort(hs.listenPort)
    && forall ep :: ep in hs.alternatives ==> lib.validEndpoint(ep)
  }

  /** `s` begins with a first message that is welcome, in this protocol, and `rest` is left behind it. */
  ghost predicate Sees(s: bytes, conf: Config, lib: Library, d: Detected, rest: bytes) {
    if |s| >= 4 && s[..4] == [0x70, 0x62, 0x75, 0x66] then
      d.protocol == V11 && HandshakeAtFront(s, d.handshake, rest) && Welcome(d.handshake, conf, lib)
    else
      |s| >= 4 && exists m, hs :: SeesLegacy(s, conf, lib, d, rest, m, hs)
  }

  /** A node of version 9 takes version 10 for 9; nothing but 9 and 10 is taken. */
  ghost predicate SeesLegacy(s: bytes, conf: Config, lib: Library, d: Detected, rest: bytes, m: V9Msg, hs: Handshake) {
    && lib.decode(s) == Some(Taken(m, rest)) && LegacyRead(m, hs, lib) && Welcome(hs, conf, lib)
    && (hs.version == 9 || hs.version == 10)
    && if hs.version == 10 && conf.version != 9 then d == Detected(V10, hs) else d == Detected(V9, hs.(version := 9))
  }

  lemma {:induction false} DetectSees(s: bytes, conf: Config, lib: Library)
    ensures Detect(s, conf, lib).Ok? ==> Sees(s, conf, lib, Detect(s, conf, lib).value.value, Detect(s, conf, lib).value.rest)
    ensures Detect(s, conf, lib).Err? ==> forall d, rest :: !Sees(s, conf, lib, d, rest)
  {
    hide TakeHandshake, HandshakeAtFront, FromV9, LegacyRead;
    if |s| >= 4 {
      if s[..4] == V11_SIGNATURE {
        SeesV11(s, conf, lib);
      } else {
        SeesGob(s, conf, lib);
      }
    }
  }

  lemma {:induction false} SeesV11(s: bytes, conf: Config, lib: Library)
    requires |s| >= 4 && s[..4] == V11_SIGNATURE
    ensures Detect(s, conf, lib).Ok? ==> Sees(s, conf, lib, Detect(s, conf, lib).value.value, Detect(s, conf, lib).value.rest)
    ensures Detect(s, conf, lib).Err? ==> forall d, rest :: !Sees(s, conf, lib, d, rest)
  {
    hide TakeHandshake, HandshakeAtFront;
    TakenHandshake(s);
    forall d, rest | Sees(s, conf, lib, d, rest) ensures Detect(s, conf, lib).Ok? {
      AtFrontUnique(s, d.handshake, rest);
    }
  }

  lemma {:induction false} AtFrontUnique(s: bytes, hs: Handshake, rest: bytes)
    requires HandshakeAtFront(s, hs, rest)
    ensures TakeHandshake(s) == Ok(Taken(hs, rest))
  {
    hide TakeHandshake, M.DecodeHandshake;
    TakenHandshake(s);
    var other := TakeHandshake(s).value.value;
    forall k | 0 <= k < |hs.alternatives| ensures other.alternatives[k] == hs.alternatives[k] {
    }
    assert other.alternatives == hs.alternatives;
  }

  lemma {:induction false} SeesGob(s: bytes, conf: Config, lib: Library)
    requires |s| >= 4 && s[..4] != V11_SIGNATURE
    ensures Detect(s, conf, lib).Ok? ==> Sees(s, conf, lib, Detect(s, conf, lib).value.value, Detect(s, conf, lib).value.rest)
    ensures Detect(s, conf, lib).Err? ==> forall d, rest :: !Sees(s, conf, lib, d, rest)
  {
    hide FromV9, LegacyRead;
    if lib.decode(s).Some? {
      var Taken(m, rest) := lib.decode(s).value;
      FromV9Reads(m, lib);
      if Detect(s, conf, lib).Ok? {
        var hs := FromV9(m, lib).value;
        assert SeesLegacy(s, conf, lib, Detect(s, conf, lib).value.value, rest, m, hs);
      }
    }
  }

  //// The code

  /** `SendHandshake` of the protocol chosen. */
  method SendHandshake(prot: Protocol, reader: BufferedReader, hs: Handshake, lib: Library) returns (ok: bool)
    requires |M.EncodeHandshake(ToV11(hs))| <= MAX_INT
    modifies reader.conn`sent, reader.conn`room
    ensures ok == (Fits(prot, hs) && |Written(prot, hs, lib)| <= old(reader.conn.room))
    ensures ok ==> reader.conn.sent == old(reader.conn.sent) + Written(prot, hs, lib)
    ensures ok ==> Says(reader.conn.sent[|old(reader.conn.sent)|..], prot, hs, lib)
    ensures old(reader.conn.sent) <= reader.conn.sent <= old(reader.conn.sent) + Written(prot, hs, lib)
  {
    hide M.EncodeHandshake, HandshakeBytes, FitsHandshake, ToV9, Says;
    if prot == V11 {
      var v11 := new ProtocolV11(reader);
      ok := v11.SendHandshake(hs);
    } else {
      var data := lib.encode(ToV9(AsSent(prot, hs), lib));
      var n := reader.conn.Write(data);
      ok := n == |data|;
      assert data[..|data|] == data;
    }
    if ok {
      WrittenSays(prot, hs, lib);
      assert (old(reader.conn.sent) + Written(prot, hs, lib))[|old(reader.conn.sent)|..] == Written(prot, hs, lib);
    }
  }

  /** The gob decoder: the first message in what arrives. */
  method ReadGob(reader: BufferedReader, lib: Library) returns (r: Option<V9Msg>)
    modifies reader`buffer, reader.conn`chunks
    ensures match lib.decode(old(reader.Pending()))
            case None => r == None
            case Some(Taken(m, rest)) => r == Some(m) && reader.Pending() == rest
  {
    while reader.conn.chunks != []
      invariant reader.Pending() == old(reader.Pending())
      decreases |reader.conn.chunks|
    {
      reader.Fill();
    }
    assert reader.Pending() == reader.buffer;
    match lib.decode(reader.buffer) {
      case None =>
        r := None;
      case Some(Taken(m, rest)) =>
        reader.buffer := rest;
        assert reader.Pending() == rest;
        r := Some(m);
    }
  }

  /** `Handshake.Valid` */
  method Valid(hs: Handshake, conf: Config, lib: Library) returns (err: Option<Error>)
    ensures err == Refusal(hs, conf, lib)
    ensures err == None <==> Welcome(hs, conf, lib)
    ensures hs.version < conf.minimum ==> err == Some(BelowMinimum)
    ensures hs.version >= conf.minimum && hs.network != conf.network ==> err == Some(WrongNetwork)
    ensures hs.version >= conf.minimum && hs.network == conf.network && !lib.validPort(hs.listenPort) ==> err == Some(InvalidPort)
    ensures err == Some(InvalidAlternatives) ==> exists ep :: ep in hs.alternatives && !lib.validEndpoint(ep)
  {
    if hs.version < conf.minimum {
      return Some(BelowMinimum);
    }
    if hs.network != conf.network {
      return Some(WrongNetwork);
    }
    if !lib.validPort(hs.listenPort) {
      return Some(InvalidPort);
    }
    for i := 0 to |hs.alternatives|
      invariant forall k :: 0 <= k < i ==> lib.validEndpoint(hs.alternatives[k])
    {
      if !lib.validEndpoint(hs.alternatives[i]) {
        return Some(InvalidAlternatives);
      }
    }
    err := None;
  }

  /** The signature is only peeked at, so that either protocol reads its own message from the first byte on. */
  method DetectProtocolFromFirstMessage(reader: BufferedReader, conf: Config, lib: Library) returns (r: Result<Detected>)
    modifies reader`buffer, reader.conn`chunks
    ensures match Detect(old(reader.Pending()), conf, lib)
            case Err(e) => r == Err(e)
            case Ok(Taken(d, rest)) => r == Ok(d) && reader.Pending() == rest
    ensures r.Ok? ==> Sees(old(reader.Pending()), conf, lib, r.value, reader.Pending())
    ensures r.Err? ==> forall d, rest :: !Sees(old(reader.Pending()), conf, lib, d, rest)
  {
    hide TakeHandshake, FromV9, Refusal, Sees, Welcome;
    DetectSees(reader.Pending(), conf, lib);
    var sig := reader.Peek(4);
    if sig.Err? {
      return Err(sig.error);
    }
    var hs: Handshake;
    if sig.value == V11_SIGNATURE {
      var prot := new ProtocolV11(reader);
      var read := prot.ReadHandshake();
      if read.Err? {
        return Err(read.error);
      }
      var err := Valid(read.value, conf, lib);
      if err.Some? {
        return Err(err.value);
      }
      return Ok(Detected(V11, read.value));
    }
    var m := ReadGob(reader, lib);
    if m.None? {
      return Err(InvalidGob);
    }
    var read := FromV9(m.value, lib);
    if read.Err? {
      return Err(read.error);
    }
    hs := read.value;
    var err := Valid(hs, conf, lib);
    if err.Some? {
      return Err(err.value);
    }
    if hs.version == 10 && conf.version == 9 {
      hs := hs.(version := 9);
    }
    match hs.version {
      case 9 => r := Ok(Detected(V9, hs));
      case 10 => r := Ok(Detected(V10, hs));
      case _ => r := Err(UnsupportedVersion);
    }
  }

  /** `handshakeOutgoing`: what is sent, and how it ends. */
  method HandshakeOutgoing(reader: BufferedReader, ep: Endpoint, conf: Config, lib: Library) returns (outcome: Outcome)
    requires |M.EncodeHandshake(ToV11(Greeting(conf, conf.instanceID)))| <= MAX_INT
    modifies reader`buffer, reader.conn
    ensures var hs := Greeting(conf, conf.instanceID);
            if Fits(Desired(conf), hs) && |Written(Desired(conf), hs, lib)| <= old(reader.conn.room) then
              && reader.conn.sent == old(reader.conn.sent) + Written(Desired(conf), hs, lib)
              && outcome == AfterReply(old(reader.Pending()), ep, conf, lib)
            else
              && old(reader.conn.sent) <= reader.conn.sent <= old(reader.conn.sent) + Written(Desired(conf), hs, lib)
              && outcome == Failed(WriteFailed)
    ensures outcome.Connected? || outcome.Declined? ==>
              && Says(reader.conn.sent[|old(reader.conn.sent)|..],
                      if conf.version == 11 then V11 else if conf.version == 10 then V10 else V9,
                      Handshake(conf.network, conf.version, 8, conf.nodeID, conf.listenPort, conf.instanceID, []), lib)
              && exists d, rest :: Sees(old(reader.Pending()), conf, lib, d, rest)
                   && d.handshake.loopback != conf.instanceID
                   && if d.handshake.parcelType == 9 then outcome == Declined(d.handshake.alternatives)
                      else outcome == Connected(Link(d.protocol.Version(), d.handshake.nodeID, ep, d.handshake.parcelType == 3))
  {
    hide M.EncodeHandshake, Fits, Written, Detect, Says, Sees;
    var handshake := Greeting(conf, conf.instanceID);
    var desired := Desired(conf);
    var ok := SendHandshake(desired, reader, handshake, lib);
    if !ok {
      return Failed(WriteFailed);
    }
    var detected := DetectProtocolFromFirstMessage(reader, conf, lib);
    if detected.Err? {
      return Failed(detected.error);
    }
    var Detected(prot, reply) := detected.value;
    if reply.loopback == handshake.loopback {
      return Failed(DialedOurselves);
    }
    if reply.parcelType == TYPE_REJECT_ALTERNATIVE {
      return Declined(reply.alternatives);
    }
    outcome := Connected(Link(prot.Version(), reply.nodeID, ep, reply.parcelType == TYPE_PEER_REQUEST));
  }

  /** `handshakeIncoming`: `allowed` is what `allowIncoming` decided, `share` what a refused node is told instead. */
  method HandshakeIncoming(reader: BufferedReader, ip: slice, allowed: bool, share: seq<Endpoint>, conf: Config, lib: Library)
    returns (outcome: Outcome)
    requires |M.EncodeHandshake(ToV11(Rejection(conf, share)))| <= MAX_INT
    requires forall v: uint16 :: |M.EncodeHandshake(ToV11(Reply(conf, v)))| <= MAX_INT
    modifies reader`buffer, reader.conn
    ensures !allowed ==>
              var rejection := Written(Desired(conf), Rejection(conf, share), lib);
              outcome == Declined(share) && old(reader.conn.sent) <= reader.conn.sent <= old(reader.conn.sent) + rejection
    ensures !allowed && Fits(Desired(conf), Rejection(conf, share))
              && |Written(Desired(conf), Rejection(conf, share), lib)| <= old(reader.conn.room) ==>
              reader.conn.sent == old(reader.conn.sent) + Written(Desired(conf), Rejection(conf, share), lib)
    ensures allowed ==>
              match Detect(old(reader.Pending()), conf, lib)
              case Err(e) => outcome == Failed(e) && reader.conn.sent == old(reader.conn.sent)
              case Ok(Taken(d, _)) =>
                var reply := Reply(conf, d.handshake.version);
                if Fits(d.protocol, reply) && |Written(d.protocol, reply, lib)| <= old(reader.conn.room) then
                  && reader.conn.sent == old(reader.conn.sent) + Written(d.protocol, reply, lib)
                  && outcome == Connected(LinkTo(d, ip))
                else
                  && old(reader.conn.sent) <= reader.conn.sent <= old(reader.conn.sent) + Written(d.protocol, reply, lib)
                  && outcome == Failed(WriteFailed)
    ensures outcome.Connected? ==>
              exists d, rest :: Sees(old(reader.Pending()), conf, lib, d, rest)
                && Says(reader.conn.sent[|old(reader.conn.sent)|..], d.protocol,
                        Handshake(conf.network, d.handshake.version, 8, conf.nodeID, conf.listenPort, conf.instanceID, []), lib)
                && outcome.link == Link(d.protocol.Version(), d.handshake.nodeID, Endpoint(ip, d.handshake.listenPort),
                                        d.handshake.parcelType == 3)
    ensures !allowed && Fits(Desired(conf), Rejection(conf, share))
              && |Written(Desired(conf), Rejection(conf, share), lib)| <= old(reader.conn.room) ==>
              Says(reader.conn.sent[|old(reader.conn.sent)|..],
                   if conf.version == 11 then V11 else if conf.version == 10 then V10 else V9,
                   Handshake(conf.network, conf.version, 9, conf.nodeID, conf.listenPort, 0, share), lib)
  {
    hide M.EncodeHandshake, Fits, Written, Detect, Says, Sees;
    if !allowed {
      var _ := SendHandshake(Desired(conf), reader, Rejection(conf, share), lib);
      return Declined(share);
    }
    var detected := DetectProtocolFromFirstMessage(reader, conf, lib);
    if detected.Err? {
      return Failed(detected.error);
    }
    var Detected(prot, handshake) := detected.value;
    var reply := Greeting(conf, conf.instanceID);
    reply := reply.(version := handshake.version);
    assert reply == Reply(conf, handshake.version);
    var ok := SendHandshake(prot, reader, reply, lib);
    if !ok {
      return Failed(WriteFailed);
    }
    outcome := Connected(LinkTo(detected.value, ip));
  }
}
