/**
  What a decoded message holds, said of the records on the wire and not of the
  order of assignments: the last value of a scalar field, every entry of a
  repeated field, and all unknown fields in their order.
 */
module Merge {
  import opened Words
  import opened Varint
  import opened Records
  import opened Messages

  /** The records of `s`, whatever message they are applied to. */
  function RecordsOf(schema: Schema, s: bytes, base: nat): (r: Result<seq<Record>>)
    requires base + |s| <= MAX_INT
    decreases |s|
  {
    if s == [] then Ok([])
    else
      match NextRecord(schema, s, base)
      case Err(e) => Err(e)
      case Ok(Step(record, n)) =>
        match RecordsOf(schema, s[n..], base + n)
        case Err(e) => Err(e)
        case Ok(rest) => Ok([record] + rest)
  }

  /** `s` is these records, one behind the other. */
  ghost predicate SpeltAll(schema: Schema, s: bytes, rs: seq<Record>)
    decreases |rs|
  {
    if rs == [] then s == []
    else exists j, n :: 0 < j <= n <= |s| && SpeltAs(schema, s[..j], s[j..n], rs[0]) && SpeltAll(schema, s[n..], rs[1..])
  }

  /** The records read are the one way to spell the bytes. */
  lemma {:induction false} RecordsSpelt(schema: Schema, s: bytes, base: nat, rs: seq<Record>)
    requires base + |s| <= MAX_INT
    ensures RecordsOf(schema, s, base) == Ok(rs) <==> SpeltAll(schema, s, rs)
    decreases |s|
  {
    hide NextRecord, SpeltAs, SpeltAll;
    if rs == [] || s == [] {
      NothingSpelt(schema, s, base, rs);
    } else {
      if NextRecord(schema, s, base).Ok? {
        var n := NextRecord(schema, s, base).value.size;
        RecordsSpelt(schema, s[n..], base + n, rs[1..]);
      }
      FirstSpelt(schema, s, base, rs);
    }
  }

  lemma {:induction false} NothingSpelt(schema: Schema, s: bytes, base: nat, rs: seq<Record>)
    requires base + |s| <= MAX_INT && (rs == [] || s == [])
    ensures RecordsOf(schema, s, base) == Ok(rs) <==> SpeltAll(schema, s, rs)
  {
    hide NextRecord, SpeltAs;
  }

  lemma {:induction false} FirstSpelt(schema: Schema, s: bytes, base: nat, rs: seq<Record>)
    requires base + |s| <= MAX_INT && rs != [] && s != []
    requires NextRecord(schema, s, base).Ok? ==>
               var n := NextRecord(schema, s, base).value.size;
               RecordsOf(schema, s[n..], base + n) == Ok(rs[1..]) <==> SpeltAll(schema, s[n..], rs[1..])
    ensures RecordsOf(schema, s, base) == Ok(rs) <==> SpeltAll(schema, s, rs)
  {
    hide NextRecord, SpeltAs;
    if RecordsOf(schema, s, base) == Ok(rs) {
      var Step(r, n) := NextRecord(schema, s, base).value;
      NextIsSpelt(schema, s, base, r, n);
    }
    if SpeltAll(schema, s, rs) {
      var j, n :| 0 < j <= n <= |s| && SpeltAs(schema, s[..j], s[j..n], rs[0]) && SpeltAll(schema, s[n..], rs[1..]);
      NextIsSpelt(schema, s, base, rs[0], n);
      assert [rs[0]] + rs[1..] == rs;
    }
  }

  /** No record from index `k` on is a number for `field`. */
  predicate NoNumberFrom(rs: seq<Record>, k: nat, field: int) {
    forall j :: k <= j < |rs| ==> !(rs[j].Number? && rs[j].field == field)
  }

  predicate NoBlockFrom(rs: seq<Record>, k: nat, field: int) {
    forall j :: k <= j < |rs| ==> !(rs[j].Block? && rs[j].field == field)
  }

  /** `v` is the last number for `field` among `rs`, or `before` if there is none. */
  predicate LastNumber(rs: seq<Record>, field: int, before: nat, v: nat) {
    || (NoNumberFrom(rs, 0, field) && v == before)
    || exists k :: 0 <= k < |rs| && rs[k].Number? && rs[k].field == field && rs[k].value == v && NoNumberFrom(rs, k + 1, field)
  }

  /** The same for a number kept in 32 bits. */
  predicate LastNumber32(rs: seq<Record>, field: int, before: nat, v: nat) {
    || (NoNumberFrom(rs, 0, field) && v == before)
    || exists k :: 0 <= k < |rs| && rs[k].Number? && rs[k].field == field && Low32(rs[k].value) == v && NoNumberFrom(rs, k + 1, field)
  }

  predicate LastBlock(rs: seq<Record>, field: int, before: bytes, c: bytes) {
    || (NoBlockFrom(rs, 0, field) && c == before)
    || exists k :: 0 <= k < |rs| && rs[k].Block? && rs[k].field == field && rs[k].content == c && NoBlockFrom(rs, k + 1, field)
  }

  /** The contents of all blocks for `field`, in order. */
  function Blocks(rs: seq<Record>, field: int): seq<slice> {
    if rs == [] then []
    else (if rs[0].Block? && rs[0].field == field then [rs[0].content] else []) + Blocks(rs[1..], field)
  }

  /** The bytes of all unknown fields, in order. */
  function Raws(rs: seq<Record>): bytes {
    if rs == [] then []
    else (if rs[0].Unknown? then rs[0].raw else []) + Raws(rs[1..])
  }

  /** Each block is an endpoint on its own. */
  predicate Decodes(blocks: seq<slice>, es: seq<Endpoint>) {
    |blocks| == |es| && forall k :: 0 <= k < |es| ==> DecodeEndpoint(EMPTY_ENDPOINT, blocks[k]) == Ok(es[k])
  }

  predicate AllDecode(blocks: seq<slice>) {
    forall k :: 0 <= k < |blocks| ==> DecodeEndpoint(EMPTY_ENDPOINT, blocks[k]).Ok?
  }

  //// One record at the front

  lemma {:induction false} LastNumberCons(r: Record, rest: seq<Record>, field: int, before: nat, v: nat)
    requires LastNumber(rest, field, if r.Number? && r.field == field then r.value else before, v)
    ensures LastNumber([r] + rest, field, before, v)
  {
    var rs := [r] + rest;
    if NoNumberFrom(rest, 0, field) {
      assert NoNumberFrom(rs, 1, field);
      if r.Number? && r.field == field && v == r.value {
        assert rs[0].value == v;
      }
    }
    if k :| 0 <= k < |rest| && rest[k].Number? && rest[k].field == field && rest[k].value == v && NoNumberFrom(rest, k + 1, field) {
      assert rs[k + 1] == rest[k] && NoNumberFrom(rs, k + 2, field);
    }
  }

  lemma {:induction false} LastNumber32Cons(r: Record, rest: seq<Record>, field: int, before: nat, v: nat)
    requires LastNumber32(rest, field, if r.Number? && r.field == field then Low32(r.value) else before, v)
    ensures LastNumber32([r] + rest, field, before, v)
  {
    var rs := [r] + rest;
    if NoNumberFrom(rest, 0, field) {
      assert NoNumberFrom(rs, 1, field);
      if r.Number? && r.field == field && v == Low32(r.value) {
        assert rs[0].value == r.value;
      }
    }
    if k :| 0 <= k < |rest| && rest[k].Number? && rest[k].field == field && Low32(rest[k].value) == v && NoNumberFrom(rest, k + 1, field) {
      assert rs[k + 1] == rest[k] && NoNumberFrom(rs, k + 2, field);
    }
  }

  lemma {:induction false} LastBlockCons(r: Record, rest: seq<Record>, field: int, before: bytes, c: bytes)
    requires LastBlock(rest, field, if r.Block? && r.field == field then r.content else before, c)
    ensures LastBlock([r] + rest, field, before, c)
  {
    var rs := [r] + rest;
    if NoBlockFrom(rest, 0, field) {
      assert NoBlockFrom(rs, 1, field);
      if r.Block? && r.field == field && c == r.content {
        assert rs[0].content == c;
      }
    }
    if k :| 0 <= k < |rest| && rest[k].Block? && rest[k].field == field && rest[k].content == c && NoBlockFrom(rest, k + 1, field) {
      assert rs[k + 1] == rest[k] && NoBlockFrom(rs, k + 2, field);
    }
  }

  lemma {:induction false} BlocksCons(r: Record, rest: seq<Record>, field: int)
    ensures Blocks([r] + rest, field) ==
            (if r.Block? && r.field == field then [r.content] else []) + Blocks(rest, field)
    ensures Raws([r] + rest) == (if r.Unknown? then r.raw else []) + Raws(rest)
  {
    assert ([r] + rest)[1..] == rest;
  }

  lemma {:induction false} RawsCons(before: bytes, r: Record, rest: seq<Record>)
    ensures before + Raws([r] + rest) == before + (if r.Unknown? then r.raw else []) + Raws(rest)
  {
    BlocksCons(r, rest, 0);
    Associate(before, if r.Unknown? then r.raw else [], Raws(rest));
  }

  lemma {:induction false} DecodesCons(c: slice, blocks: seq<slice>, e: Endpoint, es: seq<Endpoint>)
    requires DecodeEndpoint(EMPTY_ENDPOINT, c) == Ok(e) && Decodes(blocks, es)
    ensures Decodes([c] + blocks, [e] + es)
  {
    hide DecodeEndpoint;
  }

  //// Main results

  /** What the handshake `m` became, said of the records `rs`; `added` are the endpoints appended. */
  predicate HandshakeMerged(m: Handshake, rs: seq<Record>, added: seq<Endpoint>, m': Handshake) {
    && LastNumber32(rs, 1, m.msgType, m'.msgType)
    && LastNumber32(rs, 2, m.network, m'.network)
    && LastNumber32(rs, 3, m.version, m'.version)
    && LastNumber32(rs, 4, m.nodeID, m'.nodeID)
    && LastBlock(rs, 5, m.listenPort, m'.listenPort)
    && LastNumber(rs, 6, m.loopback, m'.loopback)
    && Decodes(Blocks(rs, 7), added) && m'.alternatives == m.alternatives + added
    && m'.unrecognized == m.unrecognized + Raws(rs)
  }

  /**
    A handshake is accepted exactly if its records can be read and every alternative is an endpoint;
    then scalars hold their last value, repeated entries and unknown bytes are appended in order.
   */
  lemma {:induction false} HandshakeMeaning(m: Handshake, s: bytes, base: nat) returns (added: seq<Endpoint>)
    requires base + |s| <= MAX_INT
    ensures DecodeFrom(HandshakeSchema, ApplyHandshake, m, s, base).Ok? <==>
            RecordsOf(HandshakeSchema, s, base).Ok? && AllDecode(Blocks(RecordsOf(HandshakeSchema, s, base).value, 7))
    ensures DecodeFrom(HandshakeSchema, ApplyHandshake, m, s, base).Ok? ==>
            HandshakeMerged(m, RecordsOf(HandshakeSchema, s, base).value, added,
                            DecodeFrom(HandshakeSchema, ApplyHandshake, m, s, base).value)
    decreases |s|
  {
    hide NextRecord, ApplyHandshake, HandshakeMerged, AllDecode, Blocks, Readable;
    added := [];
    if s == [] {
      NothingMerged(m);
    } else if NextRecord(HandshakeSchema, s, base).Ok? {
      var Step(r, n) := NextRecord(HandshakeSchema, s, base).value;
      NextMeaning(HandshakeSchema, s, base);
      var rest := RecordsOf(HandshakeSchema, s[n..], base + n);
      ApplyDecides(m, r, if rest.Ok? then rest.value else []);
      if ApplyHandshake(m, r).Ok? {
        var m1 := ApplyHandshake(m, r).value;
        added := HandshakeMeaning(m1, s[n..], base + n);
        var last := DecodeFrom(HandshakeSchema, ApplyHandshake, m1, s[n..], base + n);
        if last.Ok? {
          added := MergedCons(m, r, rest.value, added, last.value);
        }
      }
    }
  }

  lemma {:induction false} NothingMerged(m: Handshake)
    ensures HandshakeMerged(m, [], [], m) && AllDecode(Blocks([], 7))
  {
    hide DecodeEndpoint;
  }

  /** One more record at the front asks one more block to decode, if it is one. */
  lemma {:induction false} AllDecodeCons(r: Record, rest: seq<Record>, field: int)
    ensures AllDecode(Blocks([r] + rest, field)) <==>
            (r.Block? && r.field == field ==> DecodeEndpoint(EMPTY_ENDPOINT, r.content).Ok?) && AllDecode(Blocks(rest, field))
  {
    hide DecodeEndpoint;
    BlocksCons(r, rest, field);
    var blocks := Blocks(rest, field);
    if r.Block? && r.field == field {
      var all := [r.content] + blocks;
      assert Blocks([r] + rest, field) == all;
      if AllDecode(all) {
        assert all[0] == r.content;
        assert forall k :: 0 <= k < |blocks| ==> all[k + 1] == blocks[k];
      }
    } else {
      assert Blocks([r] + rest, field) == blocks;
    }
  }

  lemma {:induction false} ApplyDecides(m: Handshake, r: Record, rest: seq<Record>)
    requires Readable(HandshakeSchema, r)
    ensures AllDecode(Blocks([r] + rest, 7)) <==> ApplyHandshake(m, r).Ok? && AllDecode(Blocks(rest, 7))
  {
    hide DecodeEndpoint, IsUnknown;
    AllDecodeCons(r, rest, 7);
  }

  lemma {:induction false} MergedCons(m: Handshake, r: Record, rest: seq<Record>, added: seq<Endpoint>, m': Handshake)
    returns (all: seq<Endpoint>)
    requires Readable(HandshakeSchema, r) && ApplyHandshake(m, r).Ok?
    requires HandshakeMerged(ApplyHandshake(m, r).value, rest, added, m')
    ensures HandshakeMerged(m, [r] + rest, all, m')
  {
    hide DecodeEndpoint, LastNumber, LastNumber32, LastBlock, Decodes, Blocks, Raws, Low32, IsUnknown;
    var m1 := ApplyHandshake(m, r).value;
    LastNumber32Cons(r, rest, 1, m.msgType, m'.msgType);
    LastNumber32Cons(r, rest, 2, m.network, m'.network);
    LastNumber32Cons(r, rest, 3, m.version, m'.version);
    LastNumber32Cons(r, rest, 4, m.nodeID, m'.nodeID);
    LastBlockCons(r, rest, 5, m.listenPort, m'.listenPort);
    LastNumberCons(r, rest, 6, m.loopback, m'.loopback);
    BlocksCons(r, rest, 7);
    all := added;
    if r.Block? && r.field == 7 {
      var e := DecodeEndpoint(EMPTY_ENDPOINT, r.content).value;
      DecodesCons(r.content, Blocks(rest, 7), e, added);
      all := [e] + added;
      assert m.alternatives + [e] + added == m.alternatives + all;
    } else {
      assert [] + Blocks(rest, 7) == Blocks(rest, 7);
    }
    RawsCons(m.unrecognized, r, rest);
  }

  //// The other messages

  predicate MsgMerged(m: Msg, rs: seq<Record>, m': Msg) {
    && LastNumber32(rs, 1, m.msgType, m'.msgType)
    && LastBlock(rs, 2, m.payload, m'.payload)
    && m'.unrecognized == m.unrecognized + Raws(rs)
  }

  /** A parcel's message is accepted exactly if its records can be read. */
  lemma {:induction false} MsgMeaning(m: Msg, s: bytes, base: nat)
    requires base + |s| <= MAX_INT
    ensures var r, rs := DecodeFrom(MsgSchema, ApplyMsg, m, s, base), RecordsOf(MsgSchema, s, base);
            (r.Ok? <==> rs.Ok?) && (r.Ok? ==> MsgMerged(m, rs.value, r.value))
    decreases |s|
  {
    hide NextRecord, MsgMerged, Readable;
    if s == [] {
      NoMsgMerged(m);
    } else if NextRecord(MsgSchema, s, base).Ok? {
      var Step(r, n) := NextRecord(MsgSchema, s, base).value;
      NextMeaning(MsgSchema, s, base);
      var m1 := ApplyMsg(m, r).value;
      MsgMeaning(m1, s[n..], base + n);
      var last := DecodeFrom(MsgSchema, ApplyMsg, m1, s[n..], base + n);
      if last.Ok? {
        MsgMergedCons(m, r, RecordsOf(MsgSchema, s[n..], base + n).value, last.value);
      }
    }
  }

  lemma {:induction false} NoMsgMerged(m: Msg)
    ensures MsgMerged(m, [], m)
  {
  }

  lemma {:induction false} MsgMergedCons(m: Msg, r: Record, rest: seq<Record>, m': Msg)
    requires Readable(MsgSchema, r) && MsgMerged(ApplyMsg(m, r).value, rest, m')
    ensures MsgMerged(m, [r] + rest, m')
  {
    hide LastNumber32, LastBlock, Raws, Low32, IsUnknown;
    LastNumber32Cons(r, rest, 1, m.msgType, m'.msgType);
    LastBlockCons(r, rest, 2, m.payload, m'.payload);
    RawsCons(m.unrecognized, r, rest);
  }

  predicate EndpointMerged(m: Endpoint, rs: seq<Record>, m': Endpoint) {
    && LastBlock(rs, 1, m.host, m'.host)
    && LastBlock(rs, 2, m.port, m'.port)
    && m'.unrecognized == m.unrecognized + Raws(rs)
  }

  /** So is an endpoint. */
  lemma {:induction false} EndpointMeaning(m: Endpoint, s: bytes, base: nat)
    requires base + |s| <= MAX_INT
    ensures var r, rs := DecodeFrom(EndpointSchema, ApplyEndpoint, m, s, base), RecordsOf(EndpointSchema, s, base);
            (r.Ok? <==> rs.Ok?) && (r.Ok? ==> EndpointMerged(m, rs.value, r.value))
    decreases |s|
  {
    hide NextRecord, EndpointMerged, Readable;
    if s == [] {
      NoEndpointMerged(m);
    } else if NextRecord(EndpointSchema, s, base).Ok? {
      var Step(r, n) := NextRecord(EndpointSchema, s, base).value;
      NextMeaning(EndpointSchema, s, base);
      var m1 := ApplyEndpoint(m, r).value;
      EndpointMeaning(m1, s[n..], base + n);
      var last := DecodeFrom(EndpointSchema, ApplyEndpoint, m1, s[n..], base + n);
      if last.Ok? {
        EndpointMergedCons(m, r, RecordsOf(EndpointSchema, s[n..], base + n).value, last.value);
      }
    }
  }

  lemma {:induction false} NoEndpointMerged(m: Endpoint)
    ensures EndpointMerged(m, [], m)
  {
  }

  lemma {:induction false} EndpointMergedCons(m: Endpoint, r: Record, rest: seq<Record>, m': Endpoint)
    requires Readable(EndpointSchema, r) && EndpointMerged(ApplyEndpoint(m, r).value, rest, m')
    ensures EndpointMerged(m, [r] + rest, m')
  {
    hide LastBlock, Raws, IsUnknown;
    LastBlockCons(r, rest, 1, m.host, m'.host);
    LastBlockCons(r, rest, 2, m.port, m'.port);
    RawsCons(m.unrecognized, r, rest);
  }

  predicate ShareMerged(m: Share, rs: seq<Record>, added: seq<Endpoint>, m': Share) {
    && Decodes(Blocks(rs, 1), added) && m'.share == m.share + added
    && m'.unrecognized == m.unrecognized + Raws(rs)
  }

  /** A share is accepted exactly if its records can be read and every entry is an endpoint. */
  lemma {:induction false} ShareMeaning(m: Share, s: bytes, base: nat) returns (added: seq<Endpoint>)
    requires base + |s| <= MAX_INT
    ensures var r, rs := DecodeFrom(ShareSchema, ApplyShare, m, s, base), RecordsOf(ShareSchema, s, base);
            && (r.Ok? <==> rs.Ok? && AllDecode(Blocks(rs.value, 1)))
            && (r.Ok? ==> ShareMerged(m, rs.value, added, r.value))
    decreases |s|
  {
    hide NextRecord, ApplyShare, ShareMerged, AllDecode, Blocks, Readable;
    added := [];
    if s == [] {
      NoShareMerged(m);
    } else if NextRecord(ShareSchema, s, base).Ok? {
      var Step(r, n) := NextRecord(ShareSchema, s, base).value;
      NextMeaning(ShareSchema, s, base);
      var rest := RecordsOf(ShareSchema, s[n..], base + n);
      ApplyShareDecides(m, r, if rest.Ok? then rest.value else []);
      if ApplyShare(m, r).Ok? {
        var m1 := ApplyShare(m, r).value;
        added := ShareMeaning(m1, s[n..], base + n);
        var last := DecodeFrom(ShareSchema, ApplyShare, m1, s[n..], base + n);
        if last.Ok? {
          added := ShareMergedCons(m, r, rest.value, added, last.value);
        }
      }
    }
  }

  lemma {:induction false} NoShareMerged(m: Share)
    ensures ShareMerged(m, [], [], m) && AllDecode(Blocks([], 1))
  {
    hide DecodeEndpoint;
  }

  lemma {:induction false} ApplyShareDecides(m: Share, r: Record, rest: seq<Record>)
    requires Readable(ShareSchema, r)
    ensures AllDecode(Blocks([r] + rest, 1)) <==> ApplyShare(m, r).Ok? && AllDecode(Blocks(rest, 1))
  {
    hide DecodeEndpoint, IsUnknown;
    AllDecodeCons(r, rest, 1);
  }

  lemma {:induction false} ShareMergedCons(m: Share, r: Record, rest: seq<Record>, added: seq<Endpoint>, m': Share)
    returns (all: seq<Endpoint>)
    requires Readable(ShareSchema, r) && ApplyShare(m, r).Ok?
    requires ShareMerged(ApplyShare(m, r).value, rest, added, m')
    ensures ShareMerged(m, [r] + rest, all, m')
  {
    hide DecodeEndpoint, Decodes, Blocks, Raws, IsUnknown;
    BlocksCons(r, rest, 1);
    RawsCons(m.unrecognized, r, rest);
    all := added;
    if r.Block? {
      var e := DecodeEndpoint(EMPTY_ENDPOINT, r.content).value;
      DecodesCons(r.content, Blocks(rest, 1), e, added);
      all := [e] + added;
      assert m.share + [e] + added == m.share + all;
    } else {
      assert [] + Blocks(rest, 1) == Blocks(rest, 1);
    }
  }
}
