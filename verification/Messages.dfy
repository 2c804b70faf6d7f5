/**
  The four V11 messages as values: how a record is merged into each, how each
  is laid out on the wire, and how the two fit together.
 */
module Messages {
  import opened Words
  import opened Varint
  import Skip
  import opened Records

  datatype Endpoint = Endpoint(host: slice, port: slice, unrecognized: bytes)

  datatype Handshake = Handshake(
    msgType: uint32, network: uint32, version: uint32, nodeID: uint32,
    listenPort: slice, loopback: uint64, alternatives: seq<Endpoint>, unrecognized: bytes)

  datatype Msg = Msg(msgType: uint32, payload: slice, unrecognized: bytes)

  datatype Share = Share(share: seq<Endpoint>, unrecognized: bytes)

  const EMPTY_ENDPOINT: Endpoint := Endpoint([], [], [])
  const EMPTY_HANDSHAKE: Handshake := Handshake(0, 0, 0, 0, [], 0, [], [])
  const EMPTY_MSG: Msg := Msg(0, [], [])
  const EMPTY_SHARE: Share := Share([], [])

  //// Merging one record

  function ApplyEndpoint(m: Endpoint, r: Record): Result<Endpoint> {
    match r
    case Block(field, content) => Ok(if field == 1 then m.(host := content) else m.(port := content))
    case Number(_, _) => Ok(m)
    case Unknown(raw) => Ok(m.(unrecognized := m.unrecognized + raw))
  }

  function ApplyHandshake(m: Handshake, r: Record): Result<Handshake> {
    match r
    case Number(field, v) =>
      Ok(if field == 1 then m.(msgType := Low32(v))
         else if field == 2 then m.(network := Low32(v))
         else if field == 3 then m.(version := Low32(v))
         else if field == 4 then m.(nodeID := Low32(v))
         else m.(loopback := v))
    case Block(field, content) =>
      if field == 5 then Ok(m.(listenPort := content))
      else
        (match DecodeEndpoint(EMPTY_ENDPOINT, content)
         case Err(e) => Err(e)
         case Ok(e) => Ok(AddAlternative(m, e)))
    case Unknown(raw) => Ok(m.(unrecognized := m.unrecognized + raw))
  }

  function AddAlternative(m: Handshake, e: Endpoint): Handshake {
    m.(alternatives := m.alternatives + [e])
  }

  function ApplyMsg(m: Msg, r: Record): Result<Msg> {
    match r
    case Number(_, v) => Ok(m.(msgType := Low32(v)))
    case Block(_, content) => Ok(m.(payload := content))
    case Unknown(raw) => Ok(m.(unrecognized := m.unrecognized + raw))
  }

  function ApplyShare(m: Share, r: Record): Result<Share> {
    match r
    case Block(_, content) =>
      (match DecodeEndpoint(EMPTY_ENDPOINT, content)
       case Err(e) => Err(e)
       case Ok(e) => Ok(AddShare(m, e)))
    case Number(_, _) => Ok(m)
    case Unknown(raw) => Ok(m.(unrecognized := m.unrecognized + raw))
  }

  function AddShare(m: Share, e: Endpoint): Share {
    m.(share := m.share + [e])
  }

  //// `Unmarshal` on top of a message

  function DecodeEndpoint(m: Endpoint, s: slice): Result<Endpoint> {
    DecodeFrom(EndpointSchema, ApplyEndpoint, m, s, 0)
  }

  function DecodeHandshake(m: Handshake, s: slice): Result<Handshake> {
    DecodeFrom(HandshakeSchema, ApplyHandshake, m, s, 0)
  }

  function DecodeMsg(m: Msg, s: slice): Result<Msg> {
    DecodeFrom(MsgSchema, ApplyMsg, m, s, 0)
  }

  function DecodeShare(m: Share, s: slice): Result<Share> {
    DecodeFrom(ShareSchema, ApplyShare, m, s, 0)
  }

  //// The layout on the wire

  function EncodeEndpoint(m: Endpoint): bytes {
    BlockField(1, m.host) + (BlockField(2, m.port) + m.unrecognized)
  }

  /** A repeated endpoint field: every entry is written, empty ones too. */
  function EndpointFields(field: int, es: seq<Endpoint>): bytes
    requires 1 <= field <= 15
  {
    if es == [] then [] else DelimitedField(field, EncodeEndpoint(es[0])) + EndpointFields(field, es[1..])
  }

  function EncodeHandshake(m: Handshake): bytes {
    NumberField(1, m.msgType) + EncodeFrom2(m)
  }

  function EncodeFrom2(m: Handshake): bytes {
    NumberField(2, m.network) + EncodeFrom3(m)
  }

  function EncodeFrom3(m: Handshake): bytes {
    NumberField(3, m.version) + EncodeFrom4(m)
  }

  function EncodeFrom4(m: Handshake): bytes {
    NumberField(4, m.nodeID) + EncodeFrom5(m)
  }

  function EncodeFrom5(m: Handshake): bytes {
    BlockField(5, m.listenPort) + EncodeFrom6(m)
  }

  function EncodeFrom6(m: Handshake): bytes {
    NumberField(6, m.loopback) + EncodeFrom7(m)
  }

  function EncodeFrom7(m: Handshake): bytes {
    EndpointFields(7, m.alternatives) + m.unrecognized
  }

  function EncodeMsg(m: Msg): bytes {
    NumberField(1, m.msgType) + (BlockField(2, m.payload) + m.unrecognized)
  }

  function EncodeShare(m: Share): bytes {
    EndpointFields(1, m.share) + m.unrecognized
  }

  /** The layout of a handshake, field by field. */
  lemma {:induction false} Layout(m: Handshake)
    ensures EncodeHandshake(m) == NumberField(1, m.msgType) + EncodeFrom2(m)
    ensures EncodeFrom2(m) == NumberField(2, m.network) + EncodeFrom3(m)
    ensures EncodeFrom3(m) == NumberField(3, m.version) + EncodeFrom4(m)
    ensures EncodeFrom4(m) == NumberField(4, m.nodeID) + EncodeFrom5(m)
    ensures EncodeFrom5(m) == BlockField(5, m.listenPort) + EncodeFrom6(m)
    ensures EncodeFrom6(m) == NumberField(6, m.loopback) + EncodeFrom7(m)
    ensures EncodeFrom7(m) == EndpointFields(7, m.alternatives) + m.unrecognized
  {
  }

  //// Messages that a decoder can have produced

  /** The retained bytes are a run of fields the message does not know. */
  predicate Retained(schema: Schema, u: bytes) {
    |u| <= MAX_INT && UnknownRun(schema, u)
  }

  predicate EndpointOk(m: Endpoint) {
    Retained(EndpointSchema, m.unrecognized)
  }

  predicate HandshakeOk(m: Handshake) {
    && Retained(HandshakeSchema, m.unrecognized)
    && forall e :: e in m.alternatives ==> EndpointOk(e)
  }

  predicate MsgOk(m: Msg) {
    Retained(MsgSchema, m.unrecognized)
  }

  predicate ShareOk(m: Share) {
    && Retained(ShareSchema, m.unrecognized)
    && forall e :: e in m.share ==> EndpointOk(e)
  }

  //// What is decoded is such a message, and its encoding is not longer than what was read

  lemma {:induction false} RetainedAppend(schema: Schema, u: bytes, raw: bytes)
    requires Retained(schema, u) && IsUnknown(schema, raw) && |u| + |raw| <= MAX_INT
    ensures Retained(schema, u + raw)
  {
    UnknownRunAppend(schema, u, raw);
  }

  lemma {:induction false} ApplyEndpointKeeps(m: Endpoint, r: Record)
    requires EndpointOk(m) && Readable(EndpointSchema, r)
    requires |EncodeEndpoint(m)| + CanonicalSize(r) <= MAX_INT
    ensures ApplyEndpoint(m, r).Ok?
    ensures var m' := ApplyEndpoint(m, r).value;
            EndpointOk(m') && |EncodeEndpoint(m')| <= |EncodeEndpoint(m)| + CanonicalSize(r)
  {
    hide IsUnknown, UnknownRun, EncodeVarint;
    if r.Unknown? {
      RetainedAppend(EndpointSchema, m.unrecognized, r.raw);
    }
  }

  lemma {:induction false} EndpointKept(m: Endpoint, s: bytes, base: nat)
    requires EndpointOk(m) && base + |s| <= MAX_INT && |EncodeEndpoint(m)| + |s| <= MAX_INT
    requires DecodeFrom(EndpointSchema, ApplyEndpoint, m, s, base).Ok?
    ensures var m' := DecodeFrom(EndpointSchema, ApplyEndpoint, m, s, base).value;
            EndpointOk(m') && |EncodeEndpoint(m')| <= |EncodeEndpoint(m)| + |s|
    decreases |s|
  {
    hide NextRecord, Readable, CanonicalSize, EncodeEndpoint, EndpointOk, ApplyEndpoint;
    if s != [] {
      var step := NextRecord(EndpointSchema, s, base).value;
      NextMeaning(EndpointSchema, s, base);
      ApplyEndpointKeeps(m, step.record);
      var m' := ApplyEndpoint(m, step.record).value;
      EndpointKept(m', s[step.size..], base + step.size);
    }
  }

  lemma {:induction false} EndpointDecoded(s: slice)
    requires DecodeEndpoint(EMPTY_ENDPOINT, s).Ok?
    ensures var m := DecodeEndpoint(EMPTY_ENDPOINT, s).value;
            EndpointOk(m) && |EncodeEndpoint(m)| <= |s|
  {
    assert EncodeEndpoint(EMPTY_ENDPOINT) == [];
    EndpointKept(EMPTY_ENDPOINT, s, 0);
  }

  lemma {:induction false} EndpointFieldsAppend(field: int, es: seq<Endpoint>, e: Endpoint)
    requires 1 <= field <= 15
    ensures EndpointFields(field, es + [e]) == EndpointFields(field, es) + DelimitedField(field, EncodeEndpoint(e))
  {
    hide EncodeEndpoint, DelimitedField;
    if es == [] {
      assert es + [e] == [e];
    } else {
      assert (es + [e])[1..] == es[1..] + [e];
      EndpointFieldsAppend(field, es[1..], e);
    }
  }

  /** Appending an endpoint read from `content` adds no more than the field it came in. */
  lemma {:induction false} EndpointAdded(field: int, es: seq<Endpoint>, content: slice)
    requires 1 <= field <= 15 && DecodeEndpoint(EMPTY_ENDPOINT, content).Ok?
    ensures var e := DecodeEndpoint(EMPTY_ENDPOINT, content).value;
            && EndpointOk(e)
            && |EndpointFields(field, es + [e])| <= |EndpointFields(field, es)| + CanonicalSize(Block(field, content))
  {
    hide DecodeEndpoint, EndpointFields, EncodeVarint, EndpointOk, EncodeEndpoint;
    EndpointDecoded(content);
    var e := DecodeEndpoint(EMPTY_ENDPOINT, content).value;
    EndpointFieldsAppend(field, es, e);
    EncodeVarintMonotonic(|EncodeEndpoint(e)|, |content|);
  }

  lemma {:induction false} ApplyNumberKeeps(m: Handshake, field: int, v: uint64)
    requires HandshakeOk(m) && 1 <= field <= 6 && field != 5
    ensures var r := Number(field, v);
            && ApplyHandshake(m, r).Ok? && HandshakeOk(ApplyHandshake(m, r).value)
            && |EncodeHandshake(ApplyHandshake(m, r).value)| <= |EncodeHandshake(m)| + CanonicalSize(r)
  {
    hide UnknownRun, EncodeVarint, DecodeEndpoint, EndpointFields, EndpointOk, BlockField;
    EncodeVarintMonotonic(Low32(v), v);
  }

  lemma {:induction false} ApplyHandshakeKeeps(m: Handshake, r: Record)
    requires HandshakeOk(m) && Readable(HandshakeSchema, r) && ApplyHandshake(m, r).Ok?
    requires |EncodeHandshake(m)| + CanonicalSize(r) <= MAX_INT
    ensures var m' := ApplyHandshake(m, r).value;
            HandshakeOk(m') && |EncodeHandshake(m')| <= |EncodeHandshake(m)| + CanonicalSize(r)
  {
    hide IsUnknown, UnknownRun, EncodeVarint, DecodeEndpoint, EndpointFields, EndpointOk, NumberField;
    match r
    case Unknown(raw) =>
      RetainedAppend(HandshakeSchema, m.unrecognized, raw);
    case Number(field, v) =>
      ApplyNumberKeeps(m, field, v);
    case Block(field, content) =>
      if field == 7 {
        EndpointAdded(7, m.alternatives, content);
      }
  }

  lemma {:induction false} HandshakeKept(m: Handshake, s: bytes, base: nat)
    requires HandshakeOk(m) && base + |s| <= MAX_INT && |EncodeHandshake(m)| + |s| <= MAX_INT
    requires DecodeFrom(HandshakeSchema, ApplyHandshake, m, s, base).Ok?
    ensures var m' := DecodeFrom(HandshakeSchema, ApplyHandshake, m, s, base).value;
            HandshakeOk(m') && |EncodeHandshake(m')| <= |EncodeHandshake(m)| + |s|
    decreases |s|
  {
    hide NextRecord, Readable, CanonicalSize, EncodeHandshake, HandshakeOk, ApplyHandshake;
    if s != [] {
      var step := NextRecord(HandshakeSchema, s, base).value;
      NextMeaning(HandshakeSchema, s, base);
      ApplyHandshakeKeeps(m, step.record);
      var m' := ApplyHandshake(m, step.record).value;
      HandshakeKept(m', s[step.size..], base + step.size);
    }
  }

  lemma {:induction false} ApplyMsgKeeps(m: Msg, r: Record)
    requires MsgOk(m) && Readable(MsgSchema, r)
    requires |EncodeMsg(m)| + CanonicalSize(r) <= MAX_INT
    ensures ApplyMsg(m, r).Ok?
    ensures var m' := ApplyMsg(m, r).value;
            MsgOk(m') && |EncodeMsg(m')| <= |EncodeMsg(m)| + CanonicalSize(r)
  {
    hide IsUnknown, UnknownRun, EncodeVarint;
    if r.Unknown? {
      RetainedAppend(MsgSchema, m.unrecognized, r.raw);
    } else if r.Number? {
      EncodeVarintMonotonic(Low32(r.value), r.value);
    }
  }

  lemma {:induction false} MsgKept(m: Msg, s: bytes, base: nat)
    requires MsgOk(m) && base + |s| <= MAX_INT && |EncodeMsg(m)| + |s| <= MAX_INT
    requires DecodeFrom(MsgSchema, ApplyMsg, m, s, base).Ok?
    ensures var m' := DecodeFrom(MsgSchema, ApplyMsg, m, s, base).value;
            MsgOk(m') && |EncodeMsg(m')| <= |EncodeMsg(m)| + |s|
    decreases |s|
  {
    hide NextRecord, Readable, CanonicalSize, EncodeMsg, MsgOk, ApplyMsg;
    if s != [] {
      var step := NextRecord(MsgSchema, s, base).value;
      NextMeaning(MsgSchema, s, base);
      ApplyMsgKeeps(m, step.record);
      var m' := ApplyMsg(m, step.record).value;
      MsgKept(m', s[step.size..], base + step.size);
    }
  }

  lemma {:induction false} ApplyShareKeeps(m: Share, r: Record)
    requires ShareOk(m) && Readable(ShareSchema, r) && ApplyShare(m, r).Ok?
    requires |EncodeShare(m)| + CanonicalSize(r) <= MAX_INT
    ensures var m' := ApplyShare(m, r).value;
            ShareOk(m') && |EncodeShare(m')| <= |EncodeShare(m)| + CanonicalSize(r)
  {
    hide IsUnknown, UnknownRun, EncodeVarint, DecodeEndpoint, EndpointFields, EndpointOk;
    match r
    case Unknown(raw) =>
      RetainedAppend(ShareSchema, m.unrecognized, raw);
    case Block(field, content) =>
      EndpointAdded(1, m.share, content);
    case Number(_, _) =>
  }

  lemma {:induction false} ShareKept(m: Share, s: bytes, base: nat)
    requires ShareOk(m) && base + |s| <= MAX_INT && |EncodeShare(m)| + |s| <= MAX_INT
    requires DecodeFrom(ShareSchema, ApplyShare, m, s, base).Ok?
    ensures var m' := DecodeFrom(ShareSchema, ApplyShare, m, s, base).value;
            ShareOk(m') && |EncodeShare(m')| <= |EncodeShare(m)| + |s|
    decreases |s|
  {
    hide NextRecord, Readable, CanonicalSize, EncodeShare, ShareOk, ApplyShare;
    if s != [] {
      var step := NextRecord(ShareSchema, s, base).value;
      NextMeaning(ShareSchema, s, base);
      ApplyShareKeeps(m, step.record);
      var m' := ApplyShare(m, step.record).value;
      ShareKept(m', s[step.size..], base + step.size);
    }
  }

  //// Reading back what the encoder wrote

  function ExtendEndpoint(m: Endpoint, u: bytes): Endpoint {
    m.(unrecognized := m.unrecognized + u)
  }

  function ExtendHandshake(m: Handshake, u: bytes): Handshake {
    m.(unrecognized := m.unrecognized + u)
  }

  function ExtendMsg(m: Msg, u: bytes): Msg {
    m.(unrecognized := m.unrecognized + u)
  }

  function ExtendShare(m: Share, u: bytes): Share {
    m.(unrecognized := m.unrecognized + u)
  }

  lemma {:induction false} KnownFields()
    ensures SmallField(EndpointSchema, 1, BlockKind) && SmallField(EndpointSchema, 2, BlockKind)
    ensures SmallField(MsgSchema, 1, NumberKind) && SmallField(MsgSchema, 2, BlockKind)
    ensures SmallField(ShareSchema, 1, BlockKind)
    ensures forall f :: 1 <= f <= 6 && f != 5 ==> SmallField(HandshakeSchema, f, NumberKind)
    ensures SmallField(HandshakeSchema, 5, BlockKind) && SmallField(HandshakeSchema, 7, BlockKind)
  {
  }

  lemma {:induction false} AllRetain()
    ensures Retains(ApplyEndpoint, ExtendEndpoint)
    ensures Retains(ApplyHandshake, ExtendHandshake)
    ensures Retains(ApplyMsg, ExtendMsg)
    ensures Retains(ApplyShare, ExtendShare)
  {
    assert forall u: bytes, a: bytes, b: bytes :: u + a + b == u + (a + b);
    assert forall u: bytes :: u + [] == u;
  }

  lemma {:induction false} EndpointReadBack(m: Endpoint)
    requires EndpointOk(m) && |EncodeEndpoint(m)| <= MAX_INT
    ensures DecodeEndpoint(EMPTY_ENDPOINT, EncodeEndpoint(m)) == Ok(m)
  {
    hide DecodeFrom, BlockField, Retains, SmallField, UnknownRun;
    KnownFields();
    var m1 := EMPTY_ENDPOINT.(host := m.host);
    var m2 := m1.(port := m.port);
    var rest := BlockField(2, m.port) + m.unrecognized;
    DecodeBlockField(EndpointSchema, ApplyEndpoint, EMPTY_ENDPOINT, m1, 1, m.host, rest, 0);
    var base := |BlockField(1, m.host)|;
    DecodeBlockField(EndpointSchema, ApplyEndpoint, m1, m2, 2, m.port, m.unrecognized, base);
    AllRetain();
    DecodeUnknownRun(EndpointSchema, ApplyEndpoint, ExtendEndpoint, m2, m.unrecognized, base + |BlockField(2, m.port)|);
    assert [] + m.unrecognized == m.unrecognized;
  }

  /** `apply` decodes the field `field` as an endpoint and appends it by `add`. */
  ghost predicate Appends<M(!new)>(apply: (M, Record) -> Result<M>, field: int, add: (M, Endpoint) -> M) {
    forall m, content: slice ::
      DecodeEndpoint(EMPTY_ENDPOINT, content).Ok? ==>
        apply(m, Block(field, content)) == Ok(add(m, DecodeEndpoint(EMPTY_ENDPOINT, content).value))
  }

  function AddAll<M>(add: (M, Endpoint) -> M, m: M, es: seq<Endpoint>): M {
    if es == [] then m else AddAll(add, add(m, es[0]), es[1..])
  }

  lemma {:induction false} DecodeEndpointFields<M(!new)>(schema: Schema, apply: (M, Record) -> Result<M>, add: (M, Endpoint) -> M,
                                                         m: M, field: int, es: seq<Endpoint>, rest: bytes, base: nat)
    requires SmallField(schema, field, BlockKind) && Appends(apply, field, add)
    requires base + |EndpointFields(field, es)| + |rest| <= MAX_INT
    requires forall e :: e in es ==> EndpointOk(e)
    ensures DecodeFrom(schema, apply, m, EndpointFields(field, es) + rest, base) ==
            DecodeFrom(schema, apply, AddAll(add, m, es), rest, base + |EndpointFields(field, es)|)
    decreases |es|
  {
    hide DecodeFrom, DecodeEndpoint, EncodeEndpoint, EndpointOk, DelimitedField;
    var code := EndpointFields(field, es);
    if es == [] {
      assert code + rest == rest;
    } else {
      var content := EncodeEndpoint(es[0]);
      var first, others := DelimitedField(field, content), EndpointFields(field, es[1..]);
      DelimitedFieldSize(field, content);
      EndpointReadBack(es[0]);
      assert code + rest == first + (others + rest);
      DecodeDelimitedField(schema, apply, m, add(m, es[0]), field, content, others + rest, base);
      DecodeEndpointFields(schema, apply, add, add(m, es[0]), field, es[1..], rest, base + |first|);
    }
  }

  lemma {:induction false} DelimitedFieldSize(field: int, content: bytes)
    requires 1 <= field <= 15
    ensures |DelimitedField(field, content)| == 1 + |EncodeVarint(|content|)| + |content|
  {
  }

  lemma {:induction false} AddAllAlternatives(m: Handshake, es: seq<Endpoint>)
    ensures AddAll(AddAlternative, m, es) == m.(alternatives := m.alternatives + es)
    decreases |es|
  {
    if es == [] {
      assert m.alternatives + es == m.alternatives;
    } else {
      AddAllAlternatives(AddAlternative(m, es[0]), es[1..]);
      assert m.alternatives + [es[0]] + es[1..] == m.alternatives + es;
    }
  }

  lemma {:induction false} AddAllShares(m: Share, es: seq<Endpoint>)
    ensures AddAll(AddShare, m, es) == m.(share := m.share + es)
    decreases |es|
  {
    if es == [] {
      assert m.share + es == m.share;
    } else {
      AddAllShares(AddShare(m, es[0]), es[1..]);
      assert m.share + [es[0]] + es[1..] == m.share + es;
    }
  }

  lemma {:induction false} HandshakeReadBack(m: Handshake)
    requires HandshakeOk(m) && |EncodeHandshake(m)| <= MAX_INT
    ensures DecodeHandshake(EMPTY_HANDSHAKE, EncodeHandshake(m)) == Ok(m)
  {
    hide DecodeFrom, NumberField, BlockField, Retains, EndpointOk, EncodeFrom4, EncodeFrom5, EncodeFrom6, EncodeFrom7, SmallField, UnknownRun;
    KnownFields();
    var m1 := EMPTY_HANDSHAKE.(msgType := m.msgType);
    var m2 := m1.(network := m.network);
    var m3 := m2.(version := m.version);
    DecodeNumberField(HandshakeSchema, ApplyHandshake, EMPTY_HANDSHAKE, m1, 1, m.msgType, EncodeFrom2(m), 0);
    var b1 := |NumberField(1, m.msgType)|;
    DecodeNumberField(HandshakeSchema, ApplyHandshake, m1, m2, 2, m.network, EncodeFrom3(m), b1);
    var b2 := b1 + |NumberField(2, m.network)|;
    DecodeNumberField(HandshakeSchema, ApplyHandshake, m2, m3, 3, m.version, EncodeFrom4(m), b2);
    HandshakeReadBackFrom4(m, m3, b2 + |NumberField(3, m.version)|);
  }

  lemma {:induction false} HandshakeReadBackFrom4(m: Handshake, m3: Handshake, base: nat)
    requires HandshakeOk(m) && base + |EncodeFrom4(m)| <= MAX_INT
    requires m3 == EMPTY_HANDSHAKE.(msgType := m.msgType, network := m.network, version := m.version)
    ensures DecodeFrom(HandshakeSchema, ApplyHandshake, m3, EncodeFrom4(m), base) == Ok(m)
  {
    hide DecodeFrom, NumberField, BlockField, Retains, EndpointOk, EncodeFrom7, SmallField, UnknownRun;
    KnownFields();
    var m4 := m3.(nodeID := m.nodeID);
    var m5 := m4.(listenPort := m.listenPort);
    var m6 := m5.(loopback := m.loopback);
    DecodeNumberField(HandshakeSchema, ApplyHandshake, m3, m4, 4, m.nodeID, EncodeFrom5(m), base);
    var b4 := base + |NumberField(4, m.nodeID)|;
    DecodeBlockField(HandshakeSchema, ApplyHandshake, m4, m5, 5, m.listenPort, EncodeFrom6(m), b4);
    var b5 := b4 + |BlockField(5, m.listenPort)|;
    DecodeNumberField(HandshakeSchema, ApplyHandshake, m5, m6, 6, m.loopback, EncodeFrom7(m), b5);
    HandshakeReadBackFrom7(m, m6, b5 + |NumberField(6, m.loopback)|);
  }

  lemma {:induction false} HandshakeReadBackFrom7(m: Handshake, m6: Handshake, base: nat)
    requires HandshakeOk(m) && base + |EncodeFrom7(m)| <= MAX_INT
    requires m6 == m.(alternatives := [], unrecognized := [])
    ensures DecodeFrom(HandshakeSchema, ApplyHandshake, m6, EncodeFrom7(m), base) == Ok(m)
  {
    hide DecodeFrom, Retains, EndpointOk, EndpointFields, SmallField, UnknownRun;
    KnownFields();
    var m7 := m6.(alternatives := m.alternatives);
    AddAllAlternatives(m6, m.alternatives);
    assert [] + m.alternatives == m.alternatives;
    DecodeEndpointFields(HandshakeSchema, ApplyHandshake, AddAlternative, m6, 7, m.alternatives, m.unrecognized, base);
    AllRetain();
    DecodeUnknownRun(HandshakeSchema, ApplyHandshake, ExtendHandshake, m7, m.unrecognized,
                     base + |EndpointFields(7, m.alternatives)|);
    assert [] + m.unrecognized == m.unrecognized;
  }

  lemma {:induction false} MsgReadBack(m: Msg)
    requires MsgOk(m) && |EncodeMsg(m)| <= MAX_INT
    ensures DecodeMsg(EMPTY_MSG, EncodeMsg(m)) == Ok(m)
  {
    hide DecodeFrom, NumberField, BlockField, Retains, SmallField, UnknownRun;
    KnownFields();
    var m1 := EMPTY_MSG.(msgType := m.msgType);
    var m2 := m1.(payload := m.payload);
    var rest := BlockField(2, m.payload) + m.unrecognized;
    DecodeNumberField(MsgSchema, ApplyMsg, EMPTY_MSG, m1, 1, m.msgType, rest, 0);
    var base := |NumberField(1, m.msgType)|;
    DecodeBlockField(MsgSchema, ApplyMsg, m1, m2, 2, m.payload, m.unrecognized, base);
    AllRetain();
    DecodeUnknownRun(MsgSchema, ApplyMsg, ExtendMsg, m2, m.unrecognized, base + |BlockField(2, m.payload)|);
    assert [] + m.unrecognized == m.unrecognized;
  }

  lemma {:induction false} ShareReadBack(m: Share)
    requires ShareOk(m) && |EncodeShare(m)| <= MAX_INT
    ensures DecodeShare(EMPTY_SHARE, EncodeShare(m)) == Ok(m)
  {
    hide DecodeFrom, Retains, EndpointOk, EndpointFields, SmallField, UnknownRun;
    KnownFields();
    var m1 := EMPTY_SHARE.(share := m.share);
    AddAllShares(EMPTY_SHARE, m.share);
    assert [] + m.share == m.share;
    DecodeEndpointFields(ShareSchema, ApplyShare, AddShare, EMPTY_SHARE, 1, m.share, m.unrecognized, 0);
    AllRetain();
    DecodeUnknownRun(ShareSchema, ApplyShare, ExtendShare, m1, m.unrecognized, |EndpointFields(1, m.share)|);
    assert [] + m.unrecognized == m.unrecognized;
  }

  //// Main results

  /**
    Decoding undoes encoding on exactly the messages whose retained bytes, at both levels, are
    runs of unknown fields.
   */
  lemma {:induction false} HandshakeRoundTrip(m: Handshake)
    requires |EncodeHandshake(m)| <= MAX_INT
    ensures DecodeHandshake(EMPTY_HANDSHAKE, EncodeHandshake(m)) == Ok(m) <==> HandshakeOk(m)
  {
    hide EncodeHandshake, DecodeHandshake, HandshakeOk;
    if DecodeHandshake(EMPTY_HANDSHAKE, EncodeHandshake(m)) == Ok(m) {
      HandshakeDecoded(EncodeHandshake(m));
    }
    if HandshakeOk(m) {
      HandshakeReadBack(m);
    }
  }

  lemma {:induction false} EndpointRoundTrip(m: Endpoint)
    requires |EncodeEndpoint(m)| <= MAX_INT
    ensures DecodeEndpoint(EMPTY_ENDPOINT, EncodeEndpoint(m)) == Ok(m) <==> EndpointOk(m)
  {
    hide EncodeEndpoint, DecodeEndpoint, EndpointOk;
    if DecodeEndpoint(EMPTY_ENDPOINT, EncodeEndpoint(m)) == Ok(m) {
      EndpointDecoded(EncodeEndpoint(m));
    }
    if EndpointOk(m) {
      EndpointReadBack(m);
    }
  }

  lemma {:induction false} MsgRoundTrip(m: Msg)
    requires |EncodeMsg(m)| <= MAX_INT
    ensures DecodeMsg(EMPTY_MSG, EncodeMsg(m)) == Ok(m) <==> MsgOk(m)
  {
    if DecodeMsg(EMPTY_MSG, EncodeMsg(m)) == Ok(m) {
      MsgKept(EMPTY_MSG, EncodeMsg(m), 0);
    }
    if MsgOk(m) {
      MsgReadBack(m);
    }
  }

  lemma {:induction false} ShareRoundTrip(m: Share)
    requires |EncodeShare(m)| <= MAX_INT
    ensures DecodeShare(EMPTY_SHARE, EncodeShare(m)) == Ok(m) <==> ShareOk(m)
  {
    if DecodeShare(EMPTY_SHARE, EncodeShare(m)) == Ok(m) {
      ShareKept(EMPTY_SHARE, EncodeShare(m), 0);
    }
    if ShareOk(m) {
      ShareReadBack(m);
    }
  }

  lemma {:induction false} HandshakeDecoded(s: slice)
    requires DecodeHandshake(EMPTY_HANDSHAKE, s).Ok?
    ensures var m := DecodeHandshake(EMPTY_HANDSHAKE, s).value;
            HandshakeOk(m) && |EncodeHandshake(m)| <= |s|
  {
    assert EncodeHandshake(EMPTY_HANDSHAKE) == [];
    HandshakeKept(EMPTY_HANDSHAKE, s, 0);
  }

  /**
    Canonicalisation: whatever bytes were accepted, encoding the message gives no more bytes than were
    read, and decoding those gives the same message again.
   */
  lemma {:induction false} HandshakeCanonical(s: slice)
    requires DecodeHandshake(EMPTY_HANDSHAKE, s).Ok?
    ensures var m := DecodeHandshake(EMPTY_HANDSHAKE, s).value;
            && |EncodeHandshake(m)| <= |s|
            && DecodeHandshake(EMPTY_HANDSHAKE, EncodeHandshake(m)) == Ok(m)
  {
    HandshakeDecoded(s);
    HandshakeReadBack(DecodeHandshake(EMPTY_HANDSHAKE, s).value);
  }

  lemma {:induction false} ShareCanonical(s: slice)
    requires DecodeShare(EMPTY_SHARE, s).Ok?
    ensures var m := DecodeShare(EMPTY_SHARE, s).value;
            |EncodeShare(m)| <= |s| && DecodeShare(EMPTY_SHARE, EncodeShare(m)) == Ok(m)
  {
    assert EncodeShare(EMPTY_SHARE) == [];
    ShareKept(EMPTY_SHARE, s, 0);
    ShareReadBack(DecodeShare(EMPTY_SHARE, s).value);
  }

  lemma {:induction false} MsgCanonical(s: slice)
    requires DecodeMsg(EMPTY_MSG, s).Ok?
    ensures var m := DecodeMsg(EMPTY_MSG, s).value;
            |EncodeMsg(m)| <= |s| && DecodeMsg(EMPTY_MSG, EncodeMsg(m)) == Ok(m)
  {
    assert EncodeMsg(EMPTY_MSG) == [];
    MsgKept(EMPTY_MSG, s, 0);
    MsgReadBack(DecodeMsg(EMPTY_MSG, s).value);
  }

  /** A handshake retains an unknown group that is not of the standard: field 0 in a group of field 8. */
  lemma {:induction false} NonStandardRetained()
    ensures var s := [67, 0, 0, 68];
            Skip.StrictLen(s) == None && DecodeHandshake(EMPTY_HANDSHAKE, s) == Ok(EMPTY_HANDSHAKE.(unrecognized := s))
  {
    hide Skip.SkipLen, Skip.StrictLen, Skip.TagEnd, Skip.WireTypeOf, FieldNumber;
    var s: bytes := [67, 0, 0, 68];
    Skip.FieldNumberIgnored();
    OneByteTag(s, 67);
    assert s[0..4] == s && s[4..] == [];
    assert NextRecord(HandshakeSchema, s, 0) == Ok(Step(Unknown(s), 4));
    assert [] + s == s;
    DecodeStep(HandshakeSchema, ApplyHandshake, EMPTY_HANDSHAKE, EMPTY_HANDSHAKE.(unrecognized := s), s, 0, Step(Unknown(s), 4));
  }
}
