/**
  The generated message types: objects that size, write and read themselves.
  `Value()` is the message an object holds; every method is stated by it.
 */
module V11Codec {
  import opened Words
  import opened Varint
  import opened Skip
  import opened Records
  import opened Messages
  import opened Buffers

  /** What an `Unmarshal` that started from `r` reports. */
  function ErrorOf<M>(r: Result<M>): Option<Error> {
    if r.Ok? then None else Some(r.error)
  }

  /** What the front of the buffer holds once `code` has been written at its end. */
  function FrontOf(buffer: bytes, code: bytes): bytes
    requires |code| <= |buffer|
  {
    (buffer[..|buffer| - |code|] + code)[..|code|]
  }

  /** With a single byte of slack the bytes returned are not the encoding. */
  lemma {:induction false} SlackCorrupts()
    ensures var code := EncodeMsg(Msg(1, [], []));
            |code| == 2 && FrontOf([0, 0, 0], code) != code
  {
    assert EncodeMsg(Msg(1, [], [])) == [8, 1];
    assert FrontOf([0, 0, 0], [8, 1]) == [0, 8];
  }

  /** The bytes returned are the encoding whatever the buffer held exactly when there is no slack, or nothing to encode. */
  lemma {:induction false} NoSlackNeeded(code: bytes, n: nat)
    requires |code| <= n
    ensures (forall buffer: bytes :: |buffer| == n ==> FrontOf(buffer, code) == code) <==> n == |code| || code == []
  {
    if n == |code| {
      forall buffer: bytes | |buffer| == n ensures FrontOf(buffer, code) == code {
        assert buffer[..0] + code == code;
      }
    } else if code != [] {
      var other: byte := if code[0] == 0 then 1 else 0;
      var buffer: bytes := seq(n, i => other);
      assert FrontOf(buffer, code)[0] == other;
    }
  }

  class V11Endpoint {
    var Host: slice
    var Port: slice
    var XXX_unrecognized: bytes

    constructor ()
      ensures Value() == EMPTY_ENDPOINT
    {
      Host, Port, XXX_unrecognized := [], [], [];
    }

    function Value(): Endpoint
      reads this
    {
      Endpoint(Host, Port, XXX_unrecognized)
    }

    method Size() returns (n: nat)
      ensures n == |EncodeEndpoint(Value())|
    {
      hide Sov, NumberField, BlockField;
      n := 0;
      var l;
      l := |Host|;
      BlockFieldSize(1, Host);
      if l > 0 {
        n := n + 1 + l + Sov(l);
      }
      l := |Port|;
      BlockFieldSize(2, Port);
      if l > 0 {
        n := n + 1 + l + Sov(l);
      }
      n := n + |XXX_unrecognized|;
    }

    /** Fills the end of `dAtA[:end]` and nothing else. */
    method MarshalToSizedBuffer(dAtA: array<byte>, end: nat) returns (n: nat)
      requires |EncodeEndpoint(Value())| <= end <= dAtA.Length <= MAX_INT
      modifies dAtA
      ensures n == |EncodeEndpoint(Value())|
      ensures dAtA[end - n..end] == EncodeEndpoint(Value())
      ensures OnlyChanges(dAtA, end - n, end)
    {
      hide BlockField;
      var i := end;
      i := PutBytes(dAtA, i, end, XXX_unrecognized);
      assert XXX_unrecognized + [] == XXX_unrecognized;
      i := PutBlock(dAtA, i, end, 2, 0x12, Port);
      i := PutBlock(dAtA, i, end, 1, 0xa, Host);
      n := end - i;
    }

    method Marshal() returns (data: bytes)
      requires |EncodeEndpoint(Value())| <= MAX_INT
      ensures data == EncodeEndpoint(Value())
    {
      hide EncodeEndpoint;
      var size := Size();
      var dAtA := new byte[size];
      var n := MarshalToSizedBuffer(dAtA, size);
      data := dAtA[..n];
    }

    /** One iteration of the loop of `Unmarshal`, from `preIndex`. */
    method ReadField(dAtA: slice, preIndex: nat) returns (err: Option<Error>, next: nat)
      requires preIndex < |dAtA|
      modifies this
      ensures match NextRecord(EndpointSchema, dAtA[preIndex..], preIndex)
              case Err(e) => err == Some(e)
              case Ok(Step(record, n)) =>
                var r := ApplyEndpoint(old(Value()), record);
                err == ErrorOf(r) && (r.Ok? ==> next == preIndex + n && Value() == r.value)
    {
      hide UnknownSize, NumberBody, BlockBody, TagEnd, Varint.Payload, FieldNumber, DecodeEndpoint, Low32, Varint.Value, Endpoints, WireTypeOf;
      var tag;
      tag, next := ReadTag(dAtA, preIndex);
      if tag.Err? {
        return Some(tag.error), next;
      }
      if tag.value.wireType == 4 {
        return Some(EndGroupForNonGroup), next;
      }
      if tag.value.field <= 0 {
        return Some(IllegalTag), next;
      }
      match tag.value.field {
        case 1 =>
          var block;
          block, next := ReadBlock(dAtA, preIndex, next, tag.value.wireType);
          if block.Err? {
            return Some(block.error), next;
          }
          Host := block.value;
        case 2 =>
          var block;
          block, next := ReadBlock(dAtA, preIndex, next, tag.value.wireType);
          if block.Err? {
            return Some(block.error), next;
          }
          Port := block.value;
        case _ =>
          var raw;
          raw, next := ReadUnknown(dAtA, preIndex);
          if raw.Err? {
            return Some(raw.error), next;
          }
          XXX_unrecognized := XXX_unrecognized + raw.value;
      }
      err := None;
    }

    method Unmarshal(dAtA: slice) returns (err: Option<Error>)
      modifies this
      ensures err == ErrorOf(DecodeEndpoint(old(Value()), dAtA))
      ensures err.None? ==> DecodeEndpoint(old(Value()), dAtA) == Ok(Value())
      ensures err.None? ==>
                var m := DecodeEndpoint(old(Value()), dAtA).value;
                Host == m.host && Port == m.port && XXX_unrecognized == m.unrecognized
    {
      hide NextRecord, ApplyEndpoint;
      var l := |dAtA|;
      var iNdEx := 0;
      ghost var m := Value();
      while iNdEx < l
        invariant 0 <= iNdEx <= l
        invariant DecodeEndpoint(m, dAtA) == DecodeFrom(EndpointSchema, ApplyEndpoint, Value(), dAtA[iNdEx..], iNdEx)
      {
        ghost var preIndex := iNdEx;
        err, iNdEx := ReadField(dAtA, iNdEx);
        if err.Some? {
          return err;
        }
        SliceOfSlice(dAtA, preIndex, iNdEx, l);
      }
      err := None;
    }
  }

  /** The messages that a list of endpoint objects holds. */
  function Endpoints(es: seq<V11Endpoint>): (r: seq<Endpoint>)
    reads es
    ensures |r| == |es|
  {
    if es == [] then [] else [es[0].Value()] + Endpoints(es[1..])
  }

  lemma {:induction false} EndpointsAppend(es: seq<V11Endpoint>, e: V11Endpoint)
    ensures Endpoints(es + [e]) == Endpoints(es) + [e.Value()]
  {
    if es == [] {
      assert es + [e] == [e];
    } else {
      assert (es + [e])[1..] == es[1..] + [e];
      EndpointsAppend(es[1..], e);
    }
  }

  /** The loop that sizes a repeated endpoint field. */
  method SizeEndpoints(ghost field: int, es: seq<V11Endpoint>) returns (n: nat)
    requires 1 <= field <= 15
    ensures n == |EndpointFields(field, Endpoints(es))|
  {
    hide EncodeVarint, Sov, EncodeEndpoint;
    n := 0;
    for k := 0 to |es|
      invariant n == |EndpointFields(field, Endpoints(es[..k]))|
    {
      assert es[..k + 1] == es[..k] + [es[k]];
      EndpointsAppend(es[..k], es[k]);
      EndpointFieldsAppend(field, Endpoints(es[..k]), es[k].Value());
      var l := es[k].Size();
      DelimitedFieldSize(field, EncodeEndpoint(es[k].Value()));
      SovIsLength(l);
      n := n + 1 + l + Sov(l);
    }
    assert es[..|es|] == es;
  }

  /** Appends a new object read from `content`; on an error the object holds what was read before it. */
  method AppendEndpoint(es: seq<V11Endpoint>, content: slice) returns (err: Option<Error>, all: seq<V11Endpoint>)
    ensures err == ErrorOf(DecodeEndpoint(EMPTY_ENDPOINT, content))
    ensures |all| == |es| + 1 && all[..|es|] == es && fresh(all[|es|])
    ensures err.None? ==> Endpoints(all) == Endpoints(es) + [DecodeEndpoint(EMPTY_ENDPOINT, content).value]
  {
    hide DecodeEndpoint, Endpoints;
    var e := new V11Endpoint();
    all := es + [e];
    err := e.Unmarshal(content);
    EndpointsAppend(es, e);
  }

  /** One round of the loop below: puts the object `e` in front of `dAtA[i..end]` as a delimited field. */
  method PutEndpoint(dAtA: array<byte>, i: nat, end: nat, ghost field: int, tag: byte, e: V11Endpoint) returns (r: nat)
    requires 1 <= field <= 15 && tag == 8 * field + 2
    requires |DelimitedField(field, EncodeEndpoint(e.Value()))| <= i <= end <= dAtA.Length <= MAX_INT
    modifies dAtA
    ensures r == i - |DelimitedField(field, EncodeEndpoint(e.Value()))|
    ensures dAtA[r..end] == DelimitedField(field, EncodeEndpoint(e.Value())) + old(dAtA[i..end])
    ensures OnlyChanges(dAtA, r, end)
  {
    hide EncodeEndpoint, DelimitedField, EncodeVarint;
    ghost var content := EncodeEndpoint(e.Value());
    DelimitedFieldSize(field, content);
    var size := e.MarshalToSizedBuffer(dAtA, i);
    assert dAtA[i..end] == old(dAtA[i..end]);
    r := i - size;
    r := PutHeader(dAtA, r, end, field, tag, size, content);
  }

  /** The loop that puts a repeated endpoint field in front of `dAtA[i..end]`, last entry first. */
  method PutEndpoints(dAtA: array<byte>, i: nat, end: nat, ghost field: int, tag: byte, es: seq<V11Endpoint>) returns (r: nat)
    requires 1 <= field <= 15 && tag == 8 * field + 2
    requires |EndpointFields(field, Endpoints(es))| <= i <= end <= dAtA.Length <= MAX_INT
    modifies dAtA
    ensures r == i - |EndpointFields(field, Endpoints(es))|
    ensures dAtA[r..end] == EndpointFields(field, Endpoints(es)) + old(dAtA[i..end])
    ensures OnlyChanges(dAtA, r, end)
  {
    hide EncodeEndpoint, DelimitedField, Endpoints, EndpointFields;
    ghost var rest := dAtA[i..end];
    ghost var all := Endpoints(es);
    r := i;
    var k := |es|;
    ghost var done: bytes := [];
    NoFields(field, all, rest);
    while k > 0
      invariant 0 <= k <= |es|
      invariant done == EndpointFields(field, all[k..])
      invariant r <= i && r + |done| == i
      invariant dAtA[r..end] == done + rest
      invariant OnlyChanges(dAtA, r, end)
    {
      k := k - 1;
      EndpointsAt(es, k);
      FieldsFrom(field, all, k);
      ghost var first := DelimitedField(field, EncodeEndpoint(es[k].Value()));
      r := PutEndpoint(dAtA, r, end, field, tag, es[k]);
      Associate(first, done, rest);
      done := first + done;
    }
    assert all[0..] == all;
  }

  lemma {:induction false} NoFields(field: int, es: seq<Endpoint>, rest: bytes)
    requires 1 <= field <= 15
    ensures EndpointFields(field, es[|es|..]) == [] && [] + rest == rest
  {
  }

  lemma {:induction false} EndpointsAt(es: seq<V11Endpoint>, k: nat)
    requires k < |es|
    ensures Endpoints(es)[k] == es[k].Value()
  {
    if k > 0 {
      EndpointsAt(es[1..], k - 1);
    }
  }

  lemma {:induction false} EndpointsHold(es: seq<V11Endpoint>)
    ensures forall k :: 0 <= k < |es| ==> es[k].Host == Endpoints(es)[k].host && es[k].Port == Endpoints(es)[k].port
  {
    forall k | 0 <= k < |es| ensures es[k].Host == Endpoints(es)[k].host && es[k].Port == Endpoints(es)[k].port {
      EndpointsAt(es, k);
    }
  }

  /** The fields from entry `k` on are one field of the whole, which is no longer than all of it. */
  lemma {:induction false} FieldsFrom(field: int, es: seq<Endpoint>, k: nat)
    requires 1 <= field <= 15 && k < |es|
    ensures EndpointFields(field, es[k..]) == DelimitedField(field, EncodeEndpoint(es[k])) + EndpointFields(field, es[k + 1..])
    ensures |EndpointFields(field, es[k..])| <= |EndpointFields(field, es)|
  {
    hide DelimitedField, EncodeEndpoint;
    if k == 0 {
      assert es[k..] == es;
    } else {
      FieldsFrom(field, es[1..], k - 1);
      assert es[1..][k - 1..] == es[k..] && es[1..][k..] == es[k + 1..];
    }
  }

  class V11Handshake {
    var Type: uint32
    var Network: uint32
    var Version: uint32
    var NodeID: uint32
    var ListenPort: slice
    var Loopback: uint64
    var Alternatives: seq<V11Endpoint>
    var XXX_unrecognized: bytes

    constructor ()
      ensures Value() == EMPTY_HANDSHAKE
      ensures Alternatives == []
    {
      Type, Network, Version, NodeID, Loopback := 0, 0, 0, 0, 0;
      ListenPort, Alternatives, XXX_unrecognized := [], [], [];
    }

    function Value(): Handshake
      reads this, Alternatives
    {
      Handshake(Type, Network, Version, NodeID, ListenPort, Loopback, Endpoints(Alternatives), XXX_unrecognized)
    }

    method Size() returns (n: nat)
      ensures n == |EncodeHandshake(Value())|
    {
      hide Sov, NumberField, BlockField, EndpointFields, Endpoints, EncodeHandshake, EncodeFrom2, EncodeFrom3, EncodeFrom4, EncodeFrom5, EncodeFrom6, EncodeFrom7;
      Layout(Value());
      n := 0;
      var l;
      NumberFieldSize(1, Type);
      if Type != 0 {
        n := n + 1 + Sov(Type);
      }
      assert n + |EncodeFrom2(Value())| == |EncodeHandshake(Value())|;
      NumberFieldSize(2, Network);
      if Network != 0 {
        n := n + 1 + Sov(Network);
      }
      assert n + |EncodeFrom3(Value())| == |EncodeHandshake(Value())|;
      NumberFieldSize(3, Version);
      if Version != 0 {
        n := n + 1 + Sov(Version);
      }
      assert n + |EncodeFrom4(Value())| == |EncodeHandshake(Value())|;
      NumberFieldSize(4, NodeID);
      if NodeID != 0 {
        n := n + 1 + Sov(NodeID);
      }
      assert n + |EncodeFrom5(Value())| == |EncodeHandshake(Value())|;
      l := |ListenPort|;
      BlockFieldSize(5, ListenPort);
      if l > 0 {
        n := n + 1 + l + Sov(l);
      }
      assert n + |EncodeFrom6(Value())| == |EncodeHandshake(Value())|;
      NumberFieldSize(6, Loopback);
      if Loopback != 0 {
        n := n + 1 + Sov(Loopback);
      }
      assert n + |EncodeFrom7(Value())| == |EncodeHandshake(Value())|;
      l := SizeEndpoints(7, Alternatives);
      n := n + l;
      n := n + |XXX_unrecognized|;
    }

    /** Fills the end of `dAtA[:end]` and nothing else. */
    method MarshalToSizedBuffer(dAtA: array<byte>, end: nat) returns (n: nat)
      requires |EncodeHandshake(Value())| <= end <= dAtA.Length <= MAX_INT
      modifies dAtA
      ensures n == |EncodeHandshake(Value())|
      ensures dAtA[end - n..end] == EncodeHandshake(Value())
      ensures OnlyChanges(dAtA, end - n, end)
    {
      hide BlockField, NumberField, EndpointFields, Endpoints, EncodeHandshake, EncodeFrom2, EncodeFrom3, EncodeFrom4, EncodeFrom5, EncodeFrom6, EncodeFrom7;
      Layout(Value());
      var i := end;
      i := PutBytes(dAtA, i, end, XXX_unrecognized);
      assert XXX_unrecognized + [] == XXX_unrecognized;
      i := PutEndpoints(dAtA, i, end, 7, 0x3a, Alternatives);
      i := PutNumber(dAtA, i, end, 6, 0x30, Loopback);
      i := PutBlock(dAtA, i, end, 5, 0x2a, ListenPort);
      i := PutNumber(dAtA, i, end, 4, 0x20, NodeID);
      i := PutNumber(dAtA, i, end, 3, 0x18, Version);
      i := PutNumber(dAtA, i, end, 2, 0x10, Network);
      i := PutNumber(dAtA, i, end, 1, 0x8, Type);
      n := end - i;
    }

    method Marshal() returns (data: bytes)
      requires |EncodeHandshake(Value())| <= MAX_INT
      ensures data == EncodeHandshake(Value())
    {
      hide EncodeHandshake;
      var size := Size();
      var dAtA := new byte[size];
      var n := MarshalToSizedBuffer(dAtA, size);
      data := dAtA[..n];
    }

    /**
      What the protobuf library calls with a buffer `b` it has made: the encoding lands at the end of the
      buffer but the front of the buffer is returned, so it is the encoding when there is no slack.
     */
    method XXX_Marshal(b: array<byte>) returns (data: bytes)
      requires |EncodeHandshake(Value())| <= b.Length <= MAX_INT
      modifies b
      ensures data == FrontOf(old(b[..]), EncodeHandshake(Value()))
      ensures b.Length == |EncodeHandshake(Value())| ==> data == EncodeHandshake(Value())
    {
      hide EncodeHandshake;
      var n := MarshalToSizedBuffer(b, b.Length);
      data := b[..n];
      assert b[..] == old(b[..])[..b.Length - n] + b[b.Length - n..];
    }

    /** One iteration of the loop of `Unmarshal`, from `preIndex`. */
    method ReadField(dAtA: slice, preIndex: nat) returns (err: Option<Error>, next: nat)
      requires preIndex < |dAtA|
      modifies this
      ensures match NextRecord(HandshakeSchema, dAtA[preIndex..], preIndex)
              case Err(e) => err == Some(e)
              case Ok(Step(record, n)) =>
                var r := ApplyHandshake(old(Value()), record);
                err == ErrorOf(r) && (r.Ok? ==> next == preIndex + n && Value() == r.value)
    {
      hide UnknownSize, NumberBody, BlockBody, TagEnd, Varint.Payload, FieldNumber, DecodeEndpoint, Low32, Varint.Value, Endpoints, WireTypeOf;
      var tag;
      tag, next := ReadTag(dAtA, preIndex);
      if tag.Err? {
        return Some(tag.error), next;
      }
      if tag.value.wireType == 4 {
        return Some(EndGroupForNonGroup), next;
      }
      if tag.value.field <= 0 {
        return Some(IllegalTag), next;
      }
      match tag.value.field {
        case 1 =>
          var v;
          v, next := ReadNumber(dAtA, preIndex, next, tag.value.wireType, W32);
          if v.Err? {
            return Some(v.error), next;
          }
          Type := v.value;
        case 2 =>
          var v;
          v, next := ReadNumber(dAtA, preIndex, next, tag.value.wireType, W32);
          if v.Err? {
            return Some(v.error), next;
          }
          Network := v.value;
        case 3 =>
          var v;
          v, next := ReadNumber(dAtA, preIndex, next, tag.value.wireType, W32);
          if v.Err? {
            return Some(v.error), next;
          }
          Version := v.value;
        case 4 =>
          var v;
          v, next := ReadNumber(dAtA, preIndex, next, tag.value.wireType, W32);
          if v.Err? {
            return Some(v.error), next;
          }
          NodeID := v.value;
        case 5 =>
          var block;
          block, next := ReadBlock(dAtA, preIndex, next, tag.value.wireType);
          if block.Err? {
            return Some(block.error), next;
          }
          ListenPort := block.value;
        case 6 =>
          var v;
          v, next := ReadNumber(dAtA, preIndex, next, tag.value.wireType, W64);
          if v.Err? {
            return Some(v.error), next;
          }
          Loopback := v.value;
        case 7 =>
          var block;
          block, next := ReadBlock(dAtA, preIndex, next, tag.value.wireType);
          if block.Err? {
            return Some(block.error), next;
          }
          err, Alternatives := AppendEndpoint(Alternatives, block.value);
          if err.Some? {
            return err, next;
          }
        case _ =>
          var raw;
          raw, next := ReadUnknown(dAtA, preIndex);
          if raw.Err? {
            return Some(raw.error), next;
          }
          XXX_unrecognized := XXX_unrecognized + raw.value;
      }
      err := None;
    }

    method Unmarshal(dAtA: slice) returns (err: Option<Error>)
      modifies this
      ensures err == ErrorOf(DecodeHandshake(old(Value()), dAtA))
      ensures err.None? ==> DecodeHandshake(old(Value()), dAtA) == Ok(Value())
      ensures err.None? ==>
                var m := DecodeHandshake(old(Value()), dAtA).value;
                && Type == m.msgType && Network == m.network && Version == m.version && NodeID == m.nodeID
                && ListenPort == m.listenPort && Loopback == m.loopback && XXX_unrecognized == m.unrecognized
                && |Alternatives| == |m.alternatives|
                && forall k :: 0 <= k < |Alternatives| ==>
                     Alternatives[k].Host == m.alternatives[k].host && Alternatives[k].Port == m.alternatives[k].port
    {
      hide NextRecord, ApplyHandshake, Endpoints;
      var l := |dAtA|;
      var iNdEx := 0;
      ghost var m := Value();
      while iNdEx < l
        invariant 0 <= iNdEx <= l
        invariant DecodeHandshake(m, dAtA) == DecodeFrom(HandshakeSchema, ApplyHandshake, Value(), dAtA[iNdEx..], iNdEx)
      {
        ghost var preIndex := iNdEx;
        err, iNdEx := ReadField(dAtA, iNdEx);
        if err.Some? {
          return err;
        }
        SliceOfSlice(dAtA, preIndex, iNdEx, l);
      }
      EndpointsHold(Alternatives);
      err := None;
    }
  }

  class V11Msg {
    var Type: uint32
    var Payload: slice
    var XXX_unrecognized: bytes

    constructor ()
      ensures Value() == EMPTY_MSG
    {
      Type, Payload, XXX_unrecognized := 0, [], [];
    }

    function Value(): Msg
      reads this
    {
      Msg(Type, Payload, XXX_unrecognized)
    }

    method Size() returns (n: nat)
      ensures n == |EncodeMsg(Value())|
    {
      hide Sov, NumberField, BlockField;
      n := 0;
      var l;
      NumberFieldSize(1, Type);
      if Type != 0 {
        n := n + 1 + Sov(Type);
      }
      l := |Payload|;
      BlockFieldSize(2, Payload);
      if l > 0 {
        n := n + 1 + l + Sov(l);
      }
      n := n + |XXX_unrecognized|;
    }

    /** Fills the end of `dAtA[:end]` and nothing else. */
    method MarshalToSizedBuffer(dAtA: array<byte>, end: nat) returns (n: nat)
      requires |EncodeMsg(Value())| <= end <= dAtA.Length <= MAX_INT
      modifies dAtA
      ensures n == |EncodeMsg(Value())|
      ensures dAtA[end - n..end] == EncodeMsg(Value())
      ensures OnlyChanges(dAtA, end - n, end)
    {
      hide BlockField, NumberField;
      var i := end;
      i := PutBytes(dAtA, i, end, XXX_unrecognized);
      assert XXX_unrecognized + [] == XXX_unrecognized;
      i := PutBlock(dAtA, i, end, 2, 0x12, Payload);
      i := PutNumber(dAtA, i, end, 1, 0x8, Type);
      n := end - i;
    }

    method Marshal() returns (data: bytes)
      requires |EncodeMsg(Value())| <= MAX_INT
      ensures data == EncodeMsg(Value())
    {
      hide EncodeMsg;
      var size := Size();
      var dAtA := new byte[size];
      var n := MarshalToSizedBuffer(dAtA, size);
      data := dAtA[..n];
    }

    /**
      What the protobuf library calls with a buffer `b` it has made: the encoding lands at the end of the
      buffer but the front of the buffer is returned, so it is the encoding when there is no slack.
     */
    method XXX_Marshal(b: array<byte>) returns (data: bytes)
      requires |EncodeMsg(Value())| <= b.Length <= MAX_INT
      modifies b
      ensures data == FrontOf(old(b[..]), EncodeMsg(Value()))
      ensures b.Length == |EncodeMsg(Value())| ==> data == EncodeMsg(Value())
    {
      hide EncodeMsg;
      var n := MarshalToSizedBuffer(b, b.Length);
      data := b[..n];
      assert b[..] == old(b[..])[..b.Length - n] + b[b.Length - n..];
    }

    /** One iteration of the loop of `Unmarshal`, from `preIndex`. */
    method ReadField(dAtA: slice, preIndex: nat) returns (err: Option<Error>, next: nat)
      requires preIndex < |dAtA|
      modifies this
      ensures match NextRecord(MsgSchema, dAtA[preIndex..], preIndex)
              case Err(e) => err == Some(e)
              case Ok(Step(record, n)) =>
                var r := ApplyMsg(old(Value()), record);
                err == ErrorOf(r) && (r.Ok? ==> next == preIndex + n && Value() == r.value)
    {
      hide UnknownSize, NumberBody, BlockBody, TagEnd, Varint.Payload, FieldNumber, DecodeEndpoint, Low32, Varint.Value, Endpoints, WireTypeOf;
      var tag;
      tag, next := ReadTag(dAtA, preIndex);
      if tag.Err? {
        return Some(tag.error), next;
      }
      if tag.value.wireType == 4 {
        return Some(EndGroupForNonGroup), next;
      }
      if tag.value.field <= 0 {
        return Some(IllegalTag), next;
      }
      match tag.value.field {
        case 1 =>
          var v;
          v, next := ReadNumber(dAtA, preIndex, next, tag.value.wireType, W32);
          if v.Err? {
            return Some(v.error), next;
          }
          Type := v.value;
        case 2 =>
          var block;
          block, next := ReadBlock(dAtA, preIndex, next, tag.value.wireType);
          if block.Err? {
            return Some(block.error), next;
          }
          Payload := block.value;
        case _ =>
          var raw;
          raw, next := ReadUnknown(dAtA, preIndex);
          if raw.Err? {
            return Some(raw.error), next;
          }
          XXX_unrecognized := XXX_unrecognized + raw.value;
      }
      err := None;
    }

    method Unmarshal(dAtA: slice) returns (err: Option<Error>)
      modifies this
      ensures err == ErrorOf(DecodeMsg(old(Value()), dAtA))
      ensures err.None? ==> DecodeMsg(old(Value()), dAtA) == Ok(Value())
      ensures err.None? ==>
                var m := DecodeMsg(old(Value()), dAtA).value;
                Type == m.msgType && Payload == m.payload && XXX_unrecognized == m.unrecognized
    {
      hide NextRecord, ApplyMsg;
      var l := |dAtA|;
      var iNdEx := 0;
      ghost var m := Value();
      while iNdEx < l
        invariant 0 <= iNdEx <= l
        invariant DecodeMsg(m, dAtA) == DecodeFrom(MsgSchema, ApplyMsg, Value(), dAtA[iNdEx..], iNdEx)
      {
        ghost var preIndex := iNdEx;
        err, iNdEx := ReadField(dAtA, iNdEx);
        if err.Some? {
          return err;
        }
        SliceOfSlice(dAtA, preIndex, iNdEx, l);
      }
      err := None;
    }
  }

  class V11Share {
    var Share: seq<V11Endpoint>
    var XXX_unrecognized: bytes

    constructor ()
      ensures Value() == EMPTY_SHARE
      ensures Share == []
    {
      Share, XXX_unrecognized := [], [];
    }

    function Value(): Messages.Share
      reads this, Share
    {
      Messages.Share(Endpoints(Share), XXX_unrecognized)
    }

    method Size() returns (n: nat)
      ensures n == |EncodeShare(Value())|
    {
      hide Sov, NumberField, BlockField, EndpointFields, Endpoints;
      n := 0;
      var l;
      l := SizeEndpoints(1, Share);
      n := n + l;
      n := n + |XXX_unrecognized|;
    }

    /** Fills the end of `dAtA[:end]` and nothing else. */
    method MarshalToSizedBuffer(dAtA: array<byte>, end: nat) returns (n: nat)
      requires |EncodeShare(Value())| <= end <= dAtA.Length <= MAX_INT
      modifies dAtA
      ensures n == |EncodeShare(Value())|
      ensures dAtA[end - n..end] == EncodeShare(Value())
      ensures OnlyChanges(dAtA, end - n, end)
    {
      hide EndpointFields, Endpoints;
      var i := end;
      i := PutBytes(dAtA, i, end, XXX_unrecognized);
      assert XXX_unrecognized + [] == XXX_unrecognized;
      i := PutEndpoints(dAtA, i, end, 1, 0xa, Share);
      n := end - i;
    }

    method Marshal() returns (data: bytes)
      requires |EncodeShare(Value())| <= MAX_INT
      ensures data == EncodeShare(Value())
    {
      hide EncodeShare;
      var size := Size();
      var dAtA := new byte[size];
      var n := MarshalToSizedBuffer(dAtA, size);
      data := dAtA[..n];
    }

    /** One iteration of the loop of `Unmarshal`, from `preIndex`. */
    method ReadField(dAtA: slice, preIndex: nat) returns (err: Option<Error>, next: nat)
      requires preIndex < |dAtA|
      modifies this
      ensures match NextRecord(ShareSchema, dAtA[preIndex..], preIndex)
              case Err(e) => err == Some(e)
              case Ok(Step(record, n)) =>
                var r := ApplyShare(old(Value()), record);
                err == ErrorOf(r) && (r.Ok? ==> next == preIndex + n && Value() == r.value)
    {
      hide UnknownSize, NumberBody, BlockBody, TagEnd, Varint.Payload, FieldNumber, DecodeEndpoint, Low32, Varint.Value, Endpoints, WireTypeOf;
      var tag;
      tag, next := ReadTag(dAtA, preIndex);
      if tag.Err? {
        return Some(tag.error), next;
      }
      if tag.value.wireType == 4 {
        return Some(EndGroupForNonGroup), next;
      }
      if tag.value.field <= 0 {
        return Some(IllegalTag), next;
      }
      match tag.value.field {
        case 1 =>
          var block;
          block, next := ReadBlock(dAtA, preIndex, next, tag.value.wireType);
          if block.Err? {
            return Some(block.error), next;
          }
          err, Share := AppendEndpoint(Share, block.value);
          if err.Some? {
            return err, next;
          }
        case _ =>
          var raw;
          raw, next := ReadUnknown(dAtA, preIndex);
          if raw.Err? {
            return Some(raw.error), next;
          }
          XXX_unrecognized := XXX_unrecognized + raw.value;
      }
      err := None;
    }

    method Unmarshal(dAtA: slice) returns (err: Option<Error>)
      modifies this
      ensures err == ErrorOf(DecodeShare(old(Value()), dAtA))
      ensures err.None? ==> DecodeShare(old(Value()), dAtA) == Ok(Value())
      ensures err.None? ==>
                var m := DecodeShare(old(Value()), dAtA).value;
                && XXX_unrecognized == m.unrecognized && |Share| == |m.share|
                && forall k :: 0 <= k < |Share| ==> Share[k].Host == m.share[k].host && Share[k].Port == m.share[k].port
    {
      hide NextRecord, ApplyShare, Endpoints;
      var l := |dAtA|;
      var iNdEx := 0;
      ghost var m := Value();
      while iNdEx < l
        invariant 0 <= iNdEx <= l
        invariant DecodeShare(m, dAtA) == DecodeFrom(ShareSchema, ApplyShare, Value(), dAtA[iNdEx..], iNdEx)
      {
        ghost var preIndex := iNdEx;
        err, iNdEx := ReadField(dAtA, iNdEx);
        if err.Some? {
          return err;
        }
        SliceOfSlice(dAtA, preIndex, iNdEx, l);
      }
      EndpointsHold(Share);
      err := None;
    }
  }
}
