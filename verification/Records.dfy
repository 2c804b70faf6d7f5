/**
  The outer loop shared by the four generated `Unmarshal` methods: a byte
  string is read record by record, and each record is applied to the message.
 */
module Records {
  import opened Words
  import opened Varint
  import opened Skip

  /** A Go slice: never longer than the largest `int`. */
  type slice = s: bytes | |s| <= MAX_INT

  /** How a message declares a field number: a varint, a length-delimited block, or not at all. */
  datatype Kind = NumberKind | BlockKind | NoKind

  /** The fields each message type knows. */
  datatype Schema = HandshakeSchema | EndpointSchema | MsgSchema | ShareSchema {
    function KindOf(field: int): Kind {
      match this
      case HandshakeSchema =>
        if 1 <= field <= 4 || field == 6 then NumberKind else if field == 5 || field == 7 then BlockKind else NoKind
      case EndpointSchema => if 1 <= field <= 2 then BlockKind else NoKind
      case MsgSchema => if field == 1 then NumberKind else if field == 2 then BlockKind else NoKind
      case ShareSchema => if field == 1 then BlockKind else NoKind
    }
  }

  /** What one iteration of the outer loop reads. */
  datatype Record =
    | Number(field: int, value: uint64)
    | Block(field: int, content: slice)
    | Unknown(raw: bytes)

  datatype Step = Step(record: Record, size: nat)

  //// One iteration

  /** `int32(wire >> 3)` of the tag `t`. */
  function FieldNumber(t: bytes): int {
    Wrap32(Value(t, W64) / 8)
  }

  /** A length-delimited body at `j`: where its content begins and ends, with the guards on wrapped lengths. */
  datatype Extent = Extent(from: nat, to: nat)

  function BlockExtent(s: bytes, j: nat, base: nat): (r: Result<Extent>)
    requires j <= |s| && base + |s| <= MAX_INT
    ensures r.Ok? ==> j < r.value.from <= r.value.to <= |s|
  {
    match TagEnd(s, j)
    case Err(e) => Err(e)
    case Ok(k) =>
      var length := Wrap64(Value(s[j..k], W64));
      var postIndex := Wrap64(base + k + length);
      if length < 0 then Err(InvalidLength)
      else if postIndex < 0 then Err(InvalidLength)
      else if postIndex > base + |s| then Err(UnexpectedEOF)
      else Ok(Extent(k, k + length))
  }

  /** A varint body at `j`: its value and where it ends. */
  datatype NumberRead = NumberRead(value: uint64, end: nat)

  function NumberBody(s: bytes, j: nat, wireType: nat): (r: Result<NumberRead>)
    requires j <= |s|
    ensures r.Ok? ==> j < r.value.end <= |s|
  {
    if wireType != 0 then Err(WrongWireType)
    else
      match TagEnd(s, j)
      case Err(e) => Err(e)
      case Ok(k) => Ok(NumberRead(Value(s[j..k], W64), k))
  }

  function BlockBody(s: bytes, j: nat, base: nat, wireType: nat): (r: Result<Extent>)
    requires j <= |s| && base + |s| <= MAX_INT
    ensures r.Ok? ==> j < r.value.from <= r.value.to <= |s|
  {
    if wireType != 2 then Err(WrongWireType) else BlockExtent(s, j, base)
  }

  /** An unknown field at the front of `s`: its size, with the guards on a wrapped index. */
  function UnknownSize(s: bytes, base: nat): (r: Result<nat>)
    requires base + |s| <= MAX_INT
    ensures r.Ok? ==> 0 < r.value <= |s|
  {
    match SkipLen(s)
    case Err(e) => Err(e)
    case Ok(n) =>
      if Wrap64(base + n) < 0 then Err(InvalidLength)
      else if Wrap64(base + n) > base + |s| then Err(UnexpectedEOF)
      else Ok(n)
  }

  /** The iteration that starts `base` bytes into the slice, with `s` left to read. */
  function NextRecord(schema: Schema, s: bytes, base: nat): (r: Result<Step>)
    requires base + |s| <= MAX_INT
    ensures r.Ok? ==> 0 < r.value.size <= |s|
    ensures r.Ok? && r.value.record.Unknown? ==> r.value.record.raw == s[0..r.value.size]
  {
    match TagEnd(s, 0)
    case Err(e) => Err(e)
    case Ok(j) =>
      var wireType, field := WireTypeOf(s[0..j]), FieldNumber(s[0..j]);
      if wireType == 4 then Err(EndGroupForNonGroup)
      else if field <= 0 then Err(IllegalTag)
      else if schema.KindOf(field).NoKind? then
        match UnknownSize(s, base)
        case Err(e) => Err(e)
        case Ok(n) => Ok(Step(Unknown(s[0..n]), n))
      else if schema.KindOf(field).NumberKind? then
        match NumberBody(s, j, wireType)
        case Err(e) => Err(e)
        case Ok(NumberRead(v, end)) => Ok(Step(Number(field, v), end))
      else
        match BlockBody(s, j, base, wireType)
        case Err(e) => Err(e)
        case Ok(Extent(from, to)) => Ok(Step(Block(field, s[from..to]), to))
  }

  //// All iterations

  /** Decodes `s`, which starts `base` bytes into the slice, on top of the message `m`. */
  function DecodeFrom<M>(schema: Schema, apply: (M, Record) -> Result<M>, m: M, s: bytes, base: nat): (r: Result<M>)
    requires base + |s| <= MAX_INT
    decreases |s|
  {
    if s == [] then Ok(m)
    else
      match NextRecord(schema, s, base)
      case Err(e) => Err(e)
      case Ok(Step(record, n)) =>
        match apply(m, record)
        case Err(e) => Err(e)
        case Ok(m') => DecodeFrom(schema, apply, m', s[n..], base + n)
  }

  lemma {:induction false} DecodeStep<M>(schema: Schema, apply: (M, Record) -> Result<M>, m: M, m': M, s: bytes, base: nat, step: Step)
    requires base + |s| <= MAX_INT && NextRecord(schema, s, base) == Ok(step)
    requires apply(m, step.record) == Ok(m')
    ensures DecodeFrom(schema, apply, m, s, base) == DecodeFrom(schema, apply, m', s[step.size..], base + step.size)
  {
    hide NextRecord;
  }

  //// A record is decided by its own bytes

  lemma {:induction false} TagLocal(s: bytes, t: bytes, i: nat, j: nat)
    requires TagEndsAt(s, i, j) && j <= |t| && s[..j] == t[..j]
    ensures TagEndsAt(t, i, j) && s[i..j] == t[i..j]
  {
    assert s[i..j] == s[..j][i..j] == t[..j][i..j] == t[i..j];
    TagMeaning(s, i);
    TagFound(t, i, j);
  }

  predicate TagEndsAt(s: bytes, i: nat, j: nat) {
    i <= j <= |s| && TagEnd(s, i) == Ok(j)
  }

  /** What a successful iteration reads depends neither on the bytes after it nor on where the slice begins. */
  lemma {:induction false} NextLocal(schema: Schema, s: bytes, base: nat, t: bytes, base': nat)
    requires base + |s| <= MAX_INT && base' + |t| <= MAX_INT
    requires NextRecord(schema, s, base).Ok?
    requires var n := NextRecord(schema, s, base).value.size; n <= |t| && s[..n] == t[..n]
    ensures NextRecord(schema, t, base') == NextRecord(schema, s, base)
  {
    hide FieldNumber, WireTypeOf, Payload, VarintLenFrom;
    var Step(record, n) := NextRecord(schema, s, base).value;
    var j := TagEnd(s, 0).value;
    assert j <= n by {
      if record.Unknown? {
        TagWithinItem(s);
      }
    }
    Shorten(s, t, j, n);
    TagLocal(s, t, 0, j);
    match record
    case Unknown(_) =>
      SkipLocal(s, t);
      assert s[0..n] == t[0..n];
    case Number(_, _) =>
      TagLocal(s, t, j, n);
    case Block(_, _) =>
      var k := TagEnd(s, j).value;
      Shorten(s, t, k, n);
      TagLocal(s, t, j, k);
      assert s[k..n] == s[..n][k..] == t[..n][k..] == t[k..n];
  }

  lemma {:induction false} Shorten(s: bytes, t: bytes, j: nat, n: nat)
    requires j <= n <= |s| && n <= |t| && s[..n] == t[..n]
    ensures s[..j] == t[..j]
  {
    assert s[..j] == s[..n][..j] == t[..n][..j] == t[..j];
  }

  lemma {:induction false} TagWithinItem(s: bytes)
    requires |s| <= MAX_INT && SkipLen(s).Ok?
    ensures TagEnd(s, 0).Ok? && TagEnd(s, 0).value <= SkipLen(s).value
  {
  }

  /**
    Concatenation is merge: when `a` is accepted, decoding `a + b` is decoding `b` on top of what `a` gave.
   */
  lemma {:induction false} DecodeConcat<M>(schema: Schema, apply: (M, Record) -> Result<M>, m: M, a: bytes, b: bytes, base: nat)
    requires base + |a + b| <= MAX_INT
    requires DecodeFrom(schema, apply, m, a, base).Ok?
    ensures DecodeFrom(schema, apply, m, a + b, base) ==
            DecodeFrom(schema, apply, DecodeFrom(schema, apply, m, a, base).value, b, base + |a|)
    decreases |a|
  {
    hide NextRecord;
    if a == [] {
      assert a + b == b;
    } else {
      var step := NextRecord(schema, a, base).value;
      var n, m' := step.size, apply(m, step.record).value;
      assert (a + b)[..n] == a[..n];
      NextLocal(schema, a, base, a + b, base);
      DecodeStep(schema, apply, m, m', a, base, step);
      DecodeStep(schema, apply, m, m', a + b, base, step);
      assert (a + b)[n..] == a[n..] + b;
      DecodeConcat(schema, apply, m', a[n..], b, base + n);
    }
  }

  /** Where in the slice the bytes begin matters only to which error is reported. */
  lemma {:induction false} DecodeBase<M>(schema: Schema, apply: (M, Record) -> Result<M>, m: M, s: bytes, base: nat, base': nat)
    requires base + |s| <= MAX_INT && base' + |s| <= MAX_INT
    requires DecodeFrom(schema, apply, m, s, base).Ok?
    ensures DecodeFrom(schema, apply, m, s, base') == DecodeFrom(schema, apply, m, s, base)
    decreases |s|
  {
    hide NextRecord;
    if s != [] {
      var step := NextRecord(schema, s, base).value;
      var n, m' := step.size, apply(m, step.record).value;
      NextLocal(schema, s, base, s, base');
      DecodeStep(schema, apply, m, m', s, base, step);
      DecodeStep(schema, apply, m, m', s, base', step);
      DecodeBase(schema, apply, m', s[n..], base + n, base' + n);
    }
  }

  /** `Unmarshal(a ++ b)` is `Unmarshal(b)` after `Unmarshal(a)`: it is accepted exactly then, with the same message. */
  lemma {:induction false} DecodeMerge<M>(schema: Schema, apply: (M, Record) -> Result<M>, m: M, a: bytes, b: bytes)
    requires |a + b| <= MAX_INT && DecodeFrom(schema, apply, m, a, 0).Ok?
    ensures var m1 := DecodeFrom(schema, apply, m, a, 0).value;
            var whole, second := DecodeFrom(schema, apply, m, a + b, 0), DecodeFrom(schema, apply, m1, b, 0);
            (whole.Ok? <==> second.Ok?) && (whole.Ok? ==> whole == second)
  {
    hide NextRecord, DecodeFrom;
    DecodeConcat(schema, apply, m, a, b, 0);
    var m1 := DecodeFrom(schema, apply, m, a, 0).value;
    if DecodeFrom(schema, apply, m1, b, 0).Ok? {
      DecodeBase(schema, apply, m1, b, 0, |a|);
    }
    if DecodeFrom(schema, apply, m1, b, |a|).Ok? {
      DecodeBase(schema, apply, m1, b, |a|, 0);
    }
  }

  //// Which records can be read, and how short they can be written

  /** The field with the number of the tag `t` is not known, and may stand in a message. */
  predicate UnknownTag(schema: Schema, t: bytes) {
    WireTypeOf(t) != 4 && FieldNumber(t) > 0 && schema.KindOf(FieldNumber(t)).NoKind?
  }

  /** `raw` is exactly one unknown field. */
  predicate IsUnknown(schema: Schema, raw: bytes) {
    && 0 < |raw| <= MAX_INT
    && NextRecord(schema, raw, 0) == Ok(Step(Unknown(raw), |raw|))
  }

  predicate Readable(schema: Schema, record: Record) {
    match record
    case Number(field, _) => schema.KindOf(field).NumberKind?
    case Block(field, _) => schema.KindOf(field).BlockKind?
    case Unknown(raw) => IsUnknown(schema, raw)
  }

  /** The size of the record as the encoder would write it, with a one-byte tag. */
  function CanonicalSize(record: Record): nat {
    match record
    case Number(_, value) => 1 + |EncodeVarint(value)|
    case Block(_, content) => 1 + |EncodeVarint(|content|)| + |content|
    case Unknown(raw) => |raw|
  }

  lemma {:induction false} ExtentLength(s: bytes, j: nat, base: nat)
    requires j <= |s| && base + |s| <= MAX_INT && BlockExtent(s, j, base).Ok?
    ensures var Extent(from, to) := BlockExtent(s, j, base).value;
            TagEnd(s, j) == Ok(from) && to - from == Value(s[j..from], W64) <= Payload(s[j..from])
  {
  }

  /** Every record read could be read again, and was not written in fewer bytes than the encoder needs. */
  lemma {:induction false} NextMeaning(schema: Schema, s: bytes, base: nat)
    requires base + |s| <= MAX_INT && NextRecord(schema, s, base).Ok?
    ensures var Step(record, n) := NextRecord(schema, s, base).value;
            Readable(schema, record) && CanonicalSize(record) <= n
  {
    hide EncodeVarint, WireTypeOf, FieldNumber, Payload, BlockExtent, SkipLen;
    var Step(record, n) := NextRecord(schema, s, base).value;
    var j := TagEnd(s, 0).value;
    match record
    case Unknown(raw) =>
      assert raw[..n] == s[..n];
      NextLocal(schema, s, base, raw, 0);
    case Number(_, value) =>
      EncodeVarintMinimal(s[j..n], value);
    case Block(_, content) =>
      ExtentLength(s, j, base);
      EncodeVarintMinimal(s[j..TagEnd(s, j).value], |content|);
  }

  //// A record, by the wire format alone

  /** The fields that each message declares as varints. */
  ghost predicate DeclaresNumber(schema: Schema, field: int) {
    match schema
    case HandshakeSchema => field in {1, 2, 3, 4, 6}
    case EndpointSchema => false
    case MsgSchema => field == 1
    case ShareSchema => false
  }

  /** And as length-delimited. */
  ghost predicate DeclaresBlock(schema: Schema, field: int) {
    match schema
    case HandshakeSchema => field in {5, 7}
    case EndpointSchema => field in {1, 2}
    case MsgSchema => field == 2
    case ShareSchema => field == 1
  }

  /** The tag `t` and the bytes behind it are this record: a declared field of the wire type it is declared for, or an item. */
  ghost predicate SpeltAs(schema: Schema, t: bytes, body: bytes, r: Record) {
    && IsVarint(t)
    && var v := Payload(t) % 0x1_0000_0000_0000_0000;
       var wireType, field := v % 8, v / 8 % 0x1_0000_0000;
       && 0 < field < 0x8000_0000
       && match r
          case Number(f, x) =>
            && f == field && DeclaresNumber(schema, field) && wireType == 0
            && IsVarint(body) && x == Payload(body) % 0x1_0000_0000_0000_0000
          case Block(f, content) =>
            && f == field && DeclaresBlock(schema, field) && wireType == 2
            && exists k :: 0 <= k <= |body| && IsLength(body, k) && content == body[k..]
          case Unknown(raw) =>
            && !DeclaresNumber(schema, field) && !DeclaresBlock(schema, field) && wireType != 4 && raw == t + body
            && exists item :: WellFormed(item) && Flatten(item) == raw
  }

  /** The first `k` bytes are a varint for the number of bytes behind them. */
  ghost predicate IsLength(body: bytes, k: nat)
    requires k <= |body|
  {
    IsVarint(body[..k]) && Payload(body[..k]) % 0x1_0000_0000_0000_0000 == |body| - k
  }

  lemma {:induction false} FieldNumberMeans(t: bytes)
    ensures var field := Payload(t) % 0x1_0000_0000_0000_0000 / 8 % 0x1_0000_0000;
            FieldNumber(t) == if field < 0x8000_0000 then field else field - 0x1_0000_0000
    ensures WireTypeOf(t) == Payload(t) % 0x1_0000_0000_0000_0000 % 8
  {
    hide Payload;
    LowBits(Payload(t));
  }

  lemma {:induction false} LowBits(p: nat)
    ensures p % 0x1_0000_0000_0000_0000 % 8 == p % 8
  {
    var q, v := p / 0x1_0000_0000_0000_0000, p % 0x1_0000_0000_0000_0000;
    DivModUnique(p, 8, q * 0x2000_0000_0000_0000 + v / 8, v % 8);
  }

  /** A length-delimited body is accepted exactly if as many bytes follow as it announces; the guards refuse nothing else. */
  lemma {:induction false} BlockFits(s: bytes, j: nat, n: nat, base: nat)
    requires j <= n <= |s| && base + |s| <= MAX_INT
    ensures (BlockExtent(s, j, base).Ok? && BlockExtent(s, j, base).value.to == n) <==>
            exists k :: 0 <= k <= n - j && IsLength(s[j..n], k)
    ensures forall k :: 0 <= k <= n - j && IsLength(s[j..n], k) ==> BlockExtent(s, j, base) == Ok(Extent(j + k, n))
  {
    hide Payload, IsVarint, VarintLenFrom;
    if BlockExtent(s, j, base).Ok? && BlockExtent(s, j, base).value.to == n {
      var k := BlockExtent(s, j, base).value.from;
      TagMeaning(s, j);
      assert s[j..n][..k - j] == s[j..k];
      ExtentLength(s, j, base);
      assert IsLength(s[j..n], k - j);
    }
    forall k | 0 <= k <= n - j && IsLength(s[j..n], k) ensures BlockExtent(s, j, base) == Ok(Extent(j + k, n)) {
      assert s[j..n][..k] == s[j..j + k];
      TagFound(s, j, j + k);
    }
  }

  /** One iteration reads a record exactly if the bytes it consumes spell it. */
  lemma {:induction false} NextIsSpelt(schema: Schema, s: bytes, base: nat, r: Record, n: nat)
    requires base + |s| <= MAX_INT
    ensures NextRecord(schema, s, base) == Ok(Step(r, n)) <==>
            n <= |s| && exists j :: 0 < j <= n && SpeltAs(schema, s[..j], s[j..n], r)
  {
    hide NextRecord, SpeltAs;
    if NextRecord(schema, s, base) == Ok(Step(r, n)) {
      RecordSpells(schema, s, base, r, n);
    }
    if n <= |s| {
      forall j | 0 < j <= n && SpeltAs(schema, s[..j], s[j..n], r) ensures NextRecord(schema, s, base) == Ok(Step(r, n)) {
        SpeltIsRead(schema, s, base, r, j, n);
      }
    }
  }

  /** A declared field with another wire type is refused, whatever follows. */
  lemma {:induction false} WrongTypeRefused(schema: Schema, s: bytes, base: nat, j: nat)
    requires base + |s| <= MAX_INT && 0 < j <= |s| && IsVarint(s[..j])
    requires var v := Payload(s[..j]) % 0x1_0000_0000_0000_0000;
             var wireType, field := v % 8, v / 8 % 0x1_0000_0000;
             && 0 < field < 0x8000_0000 && wireType != 4
             && (|| (DeclaresNumber(schema, field) && wireType != 0)
                 || (DeclaresBlock(schema, field) && wireType != 2))
    ensures NextRecord(schema, s, base) == Err(WrongWireType)
  {
    hide Payload, IsVarint, VarintLenFrom, WireTypeOf, FieldNumber, TagEnd;
    assert s[0..j] == s[..j];
    TagFound(s, 0, j);
    FieldNumberMeans(s[..j]);
  }

  lemma {:induction false} RecordSpells(schema: Schema, s: bytes, base: nat, r: Record, n: nat)
    requires base + |s| <= MAX_INT && NextRecord(schema, s, base) == Ok(Step(r, n))
    ensures exists j :: 0 < j <= n && SpeltAs(schema, s[..j], s[j..n], r)
  {
    hide Payload, IsVarint, VarintLenFrom, WireTypeOf, FieldNumber, BlockExtent, SkipLen, TagEnd, IsLength;
    var j := TagEnd(s, 0).value;
    TagMeaning(s, 0);
    assert s[0..j] == s[..j];
    FieldNumberMeans(s[..j]);
    match r
    case Number(_, _) =>
      TagMeaning(s, j);
      assert SpeltAs(schema, s[..j], s[j..n], r);
    case Block(_, content) =>
      BlockFits(s, j, n, base);
      var k :| 0 <= k <= n - j && IsLength(s[j..n], k);
      assert s[j..n][k..] == s[j + k..n];
      assert SpeltAs(schema, s[..j], s[j..n], r);
    case Unknown(raw) =>
      SkipIsGrammar(s, n);
      TagWithinItem(s);
      assert raw == s[..n] == s[..j] + s[j..n];
      assert SpeltAs(schema, s[..j], s[j..n], r);
  }

  lemma {:induction false} SpeltIsRead(schema: Schema, s: bytes, base: nat, r: Record, j: nat, n: nat)
    requires base + |s| <= MAX_INT && 0 < j <= n <= |s| && SpeltAs(schema, s[..j], s[j..n], r)
    ensures NextRecord(schema, s, base) == Ok(Step(r, n))
  {
    hide Payload, IsVarint, VarintLenFrom, WireTypeOf, FieldNumber, BlockExtent, SkipLen, TagEnd, IsLength, WellFormed, Flatten;
    assert s[0..j] == s[..j];
    TagFound(s, 0, j);
    FieldNumberMeans(s[..j]);
    match r
    case Number(_, _) =>
      TagFound(s, j, n);
    case Block(_, content) =>
      BlockFits(s, j, n, base);
      var k :| 0 <= k <= n - j && IsLength(s[j..n], k) && content == s[j..n][k..];
      assert s[j..n][k..] == s[j + k..n];
    case Unknown(raw) =>
      assert raw == s[..j] + s[j..n] == s[..n] == s[0..n];
      var item :| WellFormed(item) && Flatten(item) == raw;
      ItemSkipped(item, s);
  }

  /** An unknown field is one item of the grammar whose tag the message does not know. */
  lemma {:induction false} UnknownIsItem(schema: Schema, raw: bytes)
    requires |raw| <= MAX_INT
    ensures IsUnknown(schema, raw) <==>
            exists item :: WellFormed(item) && Flatten(item) == raw && UnknownTag(schema, FirstTag(item))
  {
    hide BlockExtent, WireTypeOf, FieldNumber, TagEnd, SkipLen, WellFormed;
    assert raw[..|raw|] == raw;
    if IsUnknown(schema, raw) {
      var item := ItemOf(raw);
      FirstTagRead(item, raw);
      assert WellFormed(item) && Flatten(item) == raw && UnknownTag(schema, FirstTag(item));
    }
    if item :| WellFormed(item) && Flatten(item) == raw && UnknownTag(schema, FirstTag(item)) {
      ItemSkipped(item, raw);
      FirstTagRead(item, raw);
    }
  }

  function FirstTag(item: Item): bytes {
    match item
    case Field(tag, _) => tag
    case Group(open, _, _) => open
  }

  lemma {:induction false} FirstTagRead(item: Item, s: bytes)
    requires |s| <= MAX_INT && WellFormed(item) && Flatten(item) == s
    ensures TagEnd(s, 0).Ok? && s[0..TagEnd(s, 0).value] == FirstTag(item)
  {
    assert s[0..|s|] == s;
    match item
    case Field(tag, body) =>
      var j := SplitSlice(tag, body, s, 0, |s|);
      TagFound(s, 0, j);
    case Group(open, items, close) =>
      var j, m := GroupFound(open, items, close, s, 0, |s|);
  }

  //// Runs of unknown fields

  /** `u` is nothing but unknown fields. */
  predicate UnknownRun(schema: Schema, u: slice)
    decreases |u|
  {
    || u == []
    || (var r := NextRecord(schema, u, 0);
        r.Ok? && r.value.record.Unknown? && UnknownRun(schema, u[r.value.size..]))
  }

  lemma {:induction false} UnknownRunAppend(schema: Schema, u: slice, raw: bytes)
    requires UnknownRun(schema, u) && IsUnknown(schema, raw) && |u + raw| <= MAX_INT
    ensures UnknownRun(schema, u + raw)
    decreases |u|
  {
    hide NextRecord;
    if u == [] {
      assert u + raw == raw;
    } else {
      var n := NextRecord(schema, u, 0).value.size;
      assert (u + raw)[..n] == u[..n];
      NextLocal(schema, u, 0, u + raw, 0);
      assert (u + raw)[n..] == u[n..] + raw;
      UnknownRunAppend(schema, u[n..], raw);
    }
  }

  /** `apply` keeps the bytes of unknown fields, by `extend`, in the order they arrive. */
  ghost predicate Retains<M(!new)>(apply: (M, Record) -> Result<M>, extend: (M, bytes) -> M) {
    && (forall m :: extend(m, []) == m)
    && (forall m, raw :: apply(m, Unknown(raw)) == Ok(extend(m, raw)))
    && (forall m, a, b :: extend(extend(m, a), b) == extend(m, a + b))
  }

  lemma {:induction false} DecodeUnknownRun<M(!new)>(schema: Schema, apply: (M, Record) -> Result<M>, extend: (M, bytes) -> M,
                                                     m: M, u: slice, base: nat)
    requires Retains(apply, extend) && UnknownRun(schema, u) && base + |u| <= MAX_INT
    ensures DecodeFrom(schema, apply, m, u, base) == Ok(extend(m, u))
    decreases |u|
  {
    hide NextRecord;
    if u != [] {
      var step := NextRecord(schema, u, 0).value;
      var n, raw := step.size, step.record.raw;
      NextLocal(schema, u, 0, u, base);
      assert raw + u[n..] == u;
      DecodeStep(schema, apply, m, extend(m, raw), u, base, step);
      DecodeUnknownRun(schema, apply, extend, extend(m, raw), u[n..], base + n);
      assert extend(extend(m, raw), u[n..]) == extend(m, raw + u[n..]);
    }
  }

  //// Fields as the encoder writes them

  /** The one-byte tag of a field number below 16. */
  predicate SmallField(schema: Schema, field: int, kind: Kind) {
    1 <= field <= 15 && schema.KindOf(field) == kind && kind != NoKind
  }

  /** A varint field; zero is not written. */
  function NumberField(field: int, v: uint64): bytes
    requires 1 <= field <= 15
  {
    if v == 0 then [] else [8 * field] + EncodeVarint(v)
  }

  /** A length-delimited field, always written. */
  function DelimitedField(field: int, content: bytes): bytes
    requires 1 <= field <= 15
  {
    [8 * field + 2] + EncodeVarint(|content|) + content
  }

  /** A length-delimited field; the empty one is not written. */
  function BlockField(field: int, content: bytes): bytes
    requires 1 <= field <= 15
  {
    if content == [] then [] else DelimitedField(field, content)
  }

  lemma {:induction false} NumberFieldSize(field: int, v: uint64)
    requires 1 <= field <= 15
    ensures |NumberField(field, v)| == if v == 0 then 0 else 1 + Sov(v)
  {
    hide Sov, EncodeVarint;
    SovIsLength(v);
  }

  lemma {:induction false} BlockFieldSize(field: int, content: bytes)
    requires 1 <= field <= 15
    ensures |BlockField(field, content)| == if content == [] then 0 else 1 + Sov(|content|) + |content|
  {
    hide Sov, EncodeVarint;
    SovIsLength(|content|);
  }

  lemma {:induction false} OneByteTag(s: bytes, tag: byte)
    requires s != [] && s[0] == tag && tag < 0x80
    ensures TagEnd(s, 0) == Ok(1) && s[0..1] == [tag]
    ensures WireTypeOf([tag]) == tag % 8 && FieldNumber([tag]) == tag / 8
  {
    assert Payload([tag]) == tag;
  }

  lemma {:induction false} VarintStands(s: bytes, j: nat, k: nat, v: uint64)
    requires j <= k <= |s| && s[j..k] == EncodeVarint(v)
    ensures TagEnd(s, j) == Ok(k) && Value(s[j..k], W64) == v
  {
    hide Pow2, Payload;
    Word64Fits(v);
    EncodeVarintMeaning(v);
    TagFound(s, j, k);
  }

  lemma {:induction false} NumberFieldRead(schema: Schema, field: int, v: uint64, s: bytes, base: nat)
    requires SmallField(schema, field, NumberKind) && base + |s| <= MAX_INT
    requires v != 0 && NumberField(field, v) <= s
    ensures NextRecord(schema, s, base) == Ok(Step(Number(field, v), |NumberField(field, v)|))
  {
    hide EncodeVarint, Payload, WireTypeOf, FieldNumber, UnknownSize;
    var k := |NumberField(field, v)|;
    OneByteTag(s, 8 * field);
    assert s[1..k] == NumberField(field, v)[1..];
    VarintStands(s, 1, k, v);
  }

  lemma {:induction false} DelimitedFieldRead(schema: Schema, field: int, content: slice, s: bytes, base: nat)
    requires SmallField(schema, field, BlockKind) && base + |s| <= MAX_INT
    requires DelimitedField(field, content) <= s
    ensures NextRecord(schema, s, base) == Ok(Step(Block(field, content), |DelimitedField(field, content)|))
  {
    hide EncodeVarint, Payload, WireTypeOf, FieldNumber, UnknownSize;
    var code := DelimitedField(field, content);
    var k, n := 1 + |EncodeVarint(|content|)|, |code|;
    OneByteTag(s, 8 * field + 2);
    assert s[1..k] == code[1..k] == EncodeVarint(|content|);
    assert s[..n] == code;
    assert code[k..] == content;
    assert s[k..n] == code[k..];
    VarintStands(s, 1, k, |content|);
  }

  /** Reading back one varint field applies it and leaves the rest. */
  lemma {:induction false} DecodeNumberField<M>(schema: Schema, apply: (M, Record) -> Result<M>, m: M, m': M, field: int, v: uint64,
                             rest: bytes, base: nat)
    requires SmallField(schema, field, NumberKind) && base + |NumberField(field, v) + rest| <= MAX_INT
    requires if v == 0 then m' == m else apply(m, Number(field, v)) == Ok(m')
    ensures DecodeFrom(schema, apply, m, NumberField(field, v) + rest, base) ==
            DecodeFrom(schema, apply, m', rest, base + |NumberField(field, v)|)
  {
    hide NextRecord;
    var code := NumberField(field, v);
    if v == 0 {
      assert code + rest == rest;
    } else {
      assert code <= code + rest;
      NumberFieldRead(schema, field, v, code + rest, base);
      DecodeStep(schema, apply, m, m', code + rest, base, Step(Number(field, v), |code|));
      assert (code + rest)[|code|..] == rest;
    }
  }

  /** Reading back one length-delimited field applies it and leaves the rest. */
  lemma {:induction false} DecodeDelimitedField<M>(schema: Schema, apply: (M, Record) -> Result<M>, m: M, m': M, field: int, content: slice,
                                rest: bytes, base: nat)
    requires SmallField(schema, field, BlockKind) && base + |DelimitedField(field, content) + rest| <= MAX_INT
    requires apply(m, Block(field, content)) == Ok(m')
    ensures DecodeFrom(schema, apply, m, DelimitedField(field, content) + rest, base) ==
            DecodeFrom(schema, apply, m', rest, base + |DelimitedField(field, content)|)
  {
    hide NextRecord;
    var code := DelimitedField(field, content);
    assert code <= code + rest;
    DelimitedFieldRead(schema, field, content, code + rest, base);
    DecodeStep(schema, apply, m, m', code + rest, base, Step(Block(field, content), |code|));
    assert (code + rest)[|code|..] == rest;
  }

  lemma {:induction false} DecodeBlockField<M>(schema: Schema, apply: (M, Record) -> Result<M>, m: M, m': M, field: int, content: slice,
                            rest: bytes, base: nat)
    requires SmallField(schema, field, BlockKind) && base + |BlockField(field, content) + rest| <= MAX_INT
    requires if content == [] then m' == m else apply(m, Block(field, content)) == Ok(m')
    ensures DecodeFrom(schema, apply, m, BlockField(field, content) + rest, base) ==
            DecodeFrom(schema, apply, m', rest, base + |BlockField(field, content)|)
  {
    hide NextRecord;
    if content == [] {
      var code := BlockField(field, content);
      assert code == [] && code + rest == rest;
    } else {
      DecodeDelimitedField(schema, apply, m, m', field, content, rest, base);
    }
  }
}
