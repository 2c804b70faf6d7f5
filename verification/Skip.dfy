/**
  `skipProtocolV11`: how far an unknown field reaches.
  The code walks over tokens with a depth counter; the reference is a grammar
  of parse trees in which a group holds items up to its closing token.
 */
module Skip {
  import opened Words
  import opened Varint

  //// The grammar: one field, or one balanced group

  /** The bytes of an item, cut into its tags and the bodies of its fields. */
  datatype Item =
    | Field(tag: bytes, body: bytes)
    | Group(open: bytes, items: Items, close: bytes)

  datatype Items = Nil | Cons(head: Item, tail: Items)

  function Flatten(item: Item): bytes {
    match item
    case Field(tag, body) => tag + body
    case Group(open, items, close) => open + (FlattenAll(items) + close)
  }

  function FlattenAll(items: Items): bytes {
    match items
    case Nil => []
    case Cons(head, tail) => Flatten(head) + FlattenAll(tail)
  }

  /** `t` is a varint whose low three bits are the wire type `wireType`. The field number is free. */
  predicate IsTag(t: bytes, wireType: nat) {
    IsVarint(t) && WireTypeOf(t) == wireType
  }

  function WireTypeOf(t: bytes): nat {
    Payload(t) % 8
  }

  /** `b` is the whole body of a field of wire type `wireType`. */
  predicate IsBody(b: bytes, wireType: nat) {
    || (wireType == 0 && IsVarint(b))
    || (wireType == 1 && |b| == 8)
    || (wireType == 2 && VarintLen(b).Ok? && DelimitedLength(b) == |b| - VarintLen(b).value)
    || (wireType == 5 && |b| == 4)
  }

  /** The length announced at the front of a delimited body. */
  function DelimitedLength(b: bytes): nat
    requires VarintLen(b).Ok?
  {
    Value(b[..VarintLen(b).value], W64)
  }

  predicate WellFormed(item: Item) {
    match item
    case Field(tag, body) => IsVarint(tag) && IsBody(body, WireTypeOf(tag))
    case Group(open, items, close) => IsTag(open, 3) && AllWellFormed(items) && IsTag(close, 4)
  }

  predicate AllWellFormed(items: Items) {
    match items
    case Nil => true
    case Cons(head, tail) => WellFormed(head) && AllWellFormed(tail)
  }

  //// The loop as a recursion over its index and depth

  /** Index after the tag at `i`. */
  function TagEnd(s: bytes, i: nat): (r: Result<nat>)
    requires i <= |s|
    ensures r.Ok? ==> i < r.value <= |s|
  {
    match VarintLen(s[i..])
    case Err(e) => Err(e)
    case Ok(n) => Ok(i + n)
  }

  /** `iNdEx += k` followed by the test for a wrapped index. */
  function Advance(i: nat, k: nat): (r: Result<nat>)
    ensures r.Ok? ==> r.value <= MAX_INT
    ensures i + k <= MAX_INT ==> r == Ok(i + k)
    ensures i <= MAX_INT && k <= MAX_INT && r.Ok? ==> r.value == i + k
  {
    var j := Wrap64(i + k);
    if j < 0 then Err(InvalidLength) else Ok(j)
  }

  /** Index after the body, starting at `j`, of a field of wire type `wireType`; it may lie beyond the slice. */
  function BodyEnd(s: bytes, j: nat, wireType: nat): (r: Result<nat>)
    requires j <= |s| <= MAX_INT
    ensures r.Ok? ==> j < r.value <= MAX_INT
  {
    if wireType == 0 then TagEnd(s, j)
    else if wireType == 1 then Advance(j, 8)
    else if wireType == 2 then
      match TagEnd(s, j)
      case Err(e) => Err(e)
      case Ok(k) =>
        var length := Wrap64(Value(s[j..k], W64));
        if length < 0 then Err(InvalidLength) else Advance(k, length)
    else if wireType == 5 then Advance(j, 4)
    else Err(IllegalWireType)
  }

  /** The rest of the loop at index `i` with `depth` groups open. */
  function SkipFrom(s: bytes, i: nat, depth: nat): (r: Result<nat>)
    requires |s| <= MAX_INT
    ensures r.Ok? ==> i < r.value <= MAX_INT
    decreases |s| - i
  {
    if i >= |s| then Err(UnexpectedEOF)
    else
      match TagEnd(s, i)
      case Err(e) => Err(e)
      case Ok(j) =>
        var wireType := WireTypeOf(s[i..j]);
        if wireType == 3 then SkipFrom(s, j, depth + 1)
        else if wireType == 4 then
          if depth == 0 then Err(UnexpectedEndOfGroup)
          else if depth == 1 then Ok(j)
          else SkipFrom(s, j, depth - 1)
        else
          match BodyEnd(s, j, wireType)
          case Err(e) => Err(e)
          case Ok(k) => if depth == 0 then Ok(k) else SkipFrom(s, k, depth)
  }

  function SkipLen(s: bytes): (r: Result<nat>)
    requires |s| <= MAX_INT
    ensures r.Ok? ==> 0 < r.value <= MAX_INT
  {
    SkipFrom(s, 0, 0)
  }

  //// The recursive parser behind the depth counter

  /** What follows a group's opening: its items, its closing tag, and the index after that. */
  datatype Rest = Rest(items: Items, close: bytes, next: nat)

  function GroupRest(s: bytes, i: nat): (r: Result<Rest>)
    requires |s| <= MAX_INT
    ensures r.Ok? ==> i < r.value.next <= |s|
    decreases |s| - i
  {
    if i >= |s| then Err(UnexpectedEOF)
    else
      match TagEnd(s, i)
      case Err(e) => Err(e)
      case Ok(j) =>
        var wireType := WireTypeOf(s[i..j]);
        if wireType == 4 then Ok(Rest(Nil, s[i..j], j))
        else if wireType == 3 then
          match GroupRest(s, j)
          case Err(e) => Err(e)
          case Ok(inner) => Before(Group(s[i..j], inner.items, inner.close), GroupRest(s, inner.next))
        else
          match BodyEnd(s, j, wireType)
          case Err(e) => Err(e)
          case Ok(k) => if k > |s| then Err(UnexpectedEOF) else Before(Field(s[i..j], s[j..k]), GroupRest(s, k))
  }

  function Before(head: Item, r: Result<Rest>): Result<Rest> {
    match r
    case Err(e) => Err(e)
    case Ok(Rest(items, close, next)) => Ok(Rest(Cons(head, items), close, next))
  }

  /** The depth counter is the stack of the recursive parser. */
  lemma {:induction false} DepthIsRecursion(s: bytes, i: nat, depth: nat)
    requires |s| <= MAX_INT
    ensures SkipFrom(s, i, depth + 1) ==
            match GroupRest(s, i)
            case Err(e) => Err(e)
            case Ok(rest) => if depth == 0 then Ok(rest.next) else SkipFrom(s, rest.next, depth)
    decreases |s| - i
  {
    hide Payload, VarintLenFrom, IsVarint, BodyEnd;
    if i < |s| && TagEnd(s, i).Ok? {
      var j := TagEnd(s, i).value;
      var wireType := WireTypeOf(s[i..j]);
      if wireType == 3 {
        DepthIsRecursion(s, j, depth + 1);
        if GroupRest(s, j).Ok? {
          DepthIsRecursion(s, GroupRest(s, j).value.next, depth);
        }
      } else if wireType != 4 && BodyEnd(s, j, wireType).Ok? {
        DepthIsRecursion(s, BodyEnd(s, j, wireType).value, depth);
      }
    }
  }

  //// What is parsed is well formed

  lemma {:induction false} TagMeaning(s: bytes, i: nat)
    requires i <= |s| && TagEnd(s, i).Ok?
    ensures IsVarint(s[i..TagEnd(s, i).value])
  {
    VarintLenMeaning(s[i..], 0);
    var n := VarintLen(s[i..]).value;
    assert s[i..][..n] == s[i..i + n];
  }

  lemma {:induction false} BodyMeaning(s: bytes, j: nat, wireType: nat)
    requires j <= |s| <= MAX_INT && BodyEnd(s, j, wireType).Ok? && BodyEnd(s, j, wireType).value <= |s|
    ensures IsBody(s[j..BodyEnd(s, j, wireType).value], wireType)
  {
    var b := s[j..BodyEnd(s, j, wireType).value];
    if wireType == 0 {
      TagMeaning(s, j);
    } else if wireType == 2 {
      TagMeaning(s, j);
      var k := TagEnd(s, j).value;
      assert s[j..k] == b[..k - j];
      VarintLenOf(s[j..k], b, 0);
    }
  }

  lemma {:induction false} GroupRestMeaning(s: bytes, i: nat)
    requires |s| <= MAX_INT && GroupRest(s, i).Ok?
    ensures var Rest(items, close, next) := GroupRest(s, i).value;
            AllWellFormed(items) && IsTag(close, 4) && FlattenAll(items) + close == s[i..next]
    decreases |s| - i
  {
    var rest := GroupRest(s, i).value;
    var j := TagEnd(s, i).value;
    TagMeaning(s, i);
    var wireType := WireTypeOf(s[i..j]);
    if wireType == 3 {
      var inner := GroupRest(s, j).value;
      GroupRestMeaning(s, j);
      GroupRestMeaning(s, inner.next);
      assert Flatten(rest.items.head) == s[i..j] + s[j..inner.next];
      ConcatSlices(s, i, j, inner.next);
      JoinSlices(rest.items, rest.close, s, i, inner.next, rest.next);
    } else if wireType != 4 {
      var k := BodyEnd(s, j, wireType).value;
      BodyMeaning(s, j, wireType);
      GroupRestMeaning(s, k);
      assert Flatten(rest.items.head) == s[i..j] + s[j..k];
      ConcatSlices(s, i, j, k);
      JoinSlices(rest.items, rest.close, s, i, k, rest.next);
    }
  }

  lemma {:induction false} ConcatSlices(s: bytes, i: nat, j: nat, k: nat)
    requires i <= j <= k <= |s|
    ensures s[i..j] + s[j..k] == s[i..k]
  {
  }

  lemma {:induction false} JoinSlices(items: Items, close: bytes, s: bytes, i: nat, k: nat, next: nat)
    requires i <= k <= next <= |s| && items.Cons?
    requires Flatten(items.head) == s[i..k] && FlattenAll(items.tail) + close == s[k..next]
    ensures FlattenAll(items) + close == s[i..next]
  {
    assert FlattenAll(items) + close == Flatten(items.head) + (FlattenAll(items.tail) + close);
  }

  //// Trees are found again

  /** Cuts a slice that is a concatenation; `m` is where the second part begins. */
  lemma {:induction false} SplitSlice(a: bytes, b: bytes, s: bytes, i: nat, k: nat) returns (m: nat)
    requires i <= k <= |s| && s[i..k] == a + b
    ensures m == i + |a| <= k && s[i..m] == a && s[m..k] == b
  {
    m := i + |a|;
    assert a == (a + b)[..|a|] == s[i..k][..|a|];
    assert b == (a + b)[|a|..] == s[i..k][|a|..];
  }

  lemma {:induction false} TagFound(s: bytes, i: nat, j: nat)
    requires i <= j <= |s| && IsVarint(s[i..j])
    ensures TagEnd(s, i) == Ok(j)
  {
    assert s[i..j] == s[i..][..j - i];
    VarintLenOf(s[i..j], s[i..], 0);
  }

  lemma {:induction false} BodyFound(s: bytes, j: nat, k: nat, wireType: nat)
    requires j <= k <= |s| <= MAX_INT && IsBody(s[j..k], wireType)
    ensures BodyEnd(s, j, wireType) == Ok(k)
  {
    hide Payload, VarintLenFrom, TagEnd, IsVarint;
    if wireType == 0 {
      TagFound(s, j, k);
    } else if wireType == 2 {
      var b := s[j..k];
      var n := VarintLen(b).value;
      VarintLenMeaning(b, 0);
      assert n <= |b|;
      assert s[j..j + n] == b[..n];
      TagFound(s, j, j + n);
      assert Wrap64(DelimitedLength(b)) == k - (j + n);
    }
  }

  /** A group's items followed by a closing tag are parsed back, whatever follows. */
  lemma {:induction false} GroupRestFound(items: Items, s: bytes, i: nat, j: nat, k: nat)
    requires i <= j <= k <= |s| <= MAX_INT
    requires AllWellFormed(items) && s[i..j] == FlattenAll(items) && IsTag(s[j..k], 4)
    ensures GroupRest(s, i) == Ok(Rest(items, s[j..k], k))
    decreases items
  {
    match items
    case Nil =>
      TagFound(s, i, k);
    case Cons(head, tail) =>
      var m := SplitSlice(Flatten(head), FlattenAll(tail), s, i, j);
      GroupRestFound(tail, s, m, j, k);
      HeadFound(head, s, i, m);
  }

  lemma {:induction false} HeadFound(head: Item, s: bytes, i: nat, k: nat)
    requires i <= k <= |s| <= MAX_INT && WellFormed(head) && s[i..k] == Flatten(head)
    ensures GroupRest(s, i) == Before(head, GroupRest(s, k))
    decreases head
  {
    match head
    case Group(open, items, close) =>
      var j, m := GroupFound(open, items, close, s, i, k);
      GroupRestFound(items, s, j, m, k);
    case Field(tag, body) =>
      var j := SplitSlice(tag, body, s, i, k);
      TagFound(s, i, j);
      BodyFound(s, j, k, WireTypeOf(tag));
  }

  lemma {:induction false} GroupFound(open: bytes, items: Items, close: bytes, s: bytes, i: nat, k: nat) returns (j: nat, m: nat)
    requires i <= k <= |s| <= MAX_INT && IsTag(open, 3)
    requires s[i..k] == Flatten(Group(open, items, close))
    ensures i < j <= m <= k && s[i..j] == open && s[j..m] == FlattenAll(items) && s[m..k] == close
    ensures TagEnd(s, i) == Ok(j)
  {
    j := SplitSlice(open, FlattenAll(items) + close, s, i, k);
    m := SplitSlice(FlattenAll(items), close, s, j, k);
    TagFound(s, i, j);
  }

  //// Main results

  /**
    The skipper succeeds inside its slice on exactly the inputs that begin with a well-formed item,
    and its result is that item's length.
   */
  lemma {:induction false} SkipIsGrammar(s: bytes, n: nat)
    requires |s| <= MAX_INT && n <= |s|
    ensures SkipLen(s) == Ok(n) <==> exists item :: WellFormed(item) && Flatten(item) == s[..n]
  {
    if SkipLen(s) == Ok(n) {
      var item := ItemOf(s);
      assert WellFormed(item) && Flatten(item) == s[..n];
    }
    if item :| WellFormed(item) && Flatten(item) == s[..n] {
      ItemSkipped(item, s);
    }
  }

  /** The tree the skipper passes over. */
  lemma {:induction false} ItemOf(s: bytes) returns (item: Item)
    requires |s| <= MAX_INT && SkipLen(s).Ok? && SkipLen(s).value <= |s|
    ensures WellFormed(item) && Flatten(item) == s[..SkipLen(s).value]
  {
    hide Payload, VarintLenFrom, IsVarint, BodyEnd, IsBody, GroupRest;
    var n := SkipLen(s).value;
    var j := TagEnd(s, 0).value;
    TagMeaning(s, 0);
    if WireTypeOf(s[0..j]) == 3 {
      DepthIsRecursion(s, j, 0);
      GroupRestMeaning(s, j);
      var rest := GroupRest(s, j).value;
      item := Group(s[0..j], rest.items, rest.close);
    } else {
      BodyMeaning(s, j, WireTypeOf(s[0..j]));
      item := Field(s[0..j], s[j..n]);
    }
    ConcatSlices(s, 0, j, n);
  }

  lemma {:induction false} ItemSkipped(item: Item, s: bytes)
    requires |s| <= MAX_INT && WellFormed(item) && Flatten(item) <= s
    ensures SkipLen(s) == Ok(|Flatten(item)|)
  {
    hide Payload, IsVarint, BodyEnd;
    var k := |Flatten(item)|;
    match item
    case Group(open, items, close) =>
      var j, m := GroupFound(open, items, close, s, 0, k);
      GroupRestFound(items, s, j, m, k);
      DepthIsRecursion(s, j, 0);
    case Field(tag, body) =>
      var j := SplitSlice(tag, body, s, 0, k);
      TagFound(s, 0, j);
      BodyFound(s, j, k, WireTypeOf(tag));
  }

  /** Only the bytes of the item matter, not what follows it. */
  lemma {:induction false} SkipLocal(s: bytes, t: bytes)
    requires |s| <= MAX_INT && |t| <= MAX_INT
    requires SkipLen(s).Ok? && SkipLen(s).value <= |s| && s[..SkipLen(s).value] <= t
    ensures SkipLen(t) == SkipLen(s)
  {
    var item := ItemOf(s);
    ItemSkipped(item, t);
  }

  /** The grammar is unambiguous: two items at the front of the same bytes are the same tree. */
  lemma {:induction false} ItemUnique(a: Item, b: Item, s: bytes)
    requires |s| <= MAX_INT && WellFormed(a) && WellFormed(b)
    requires Flatten(a) <= s && Flatten(b) <= s
    ensures a == b
  {
    ItemParsed(a, s);
    ItemParsed(b, s);
  }

  /** A tree is determined by the bytes at whose front it stands. */
  lemma {:induction false} ItemParsed(item: Item, s: bytes)
    requires |s| <= MAX_INT && WellFormed(item) && Flatten(item) <= s
    ensures TagEnd(s, 0).Ok?
    ensures var j := TagEnd(s, 0).value;
            if WireTypeOf(s[..j]) == 3 then
              GroupRest(s, j).Ok? && item == Group(s[..j], GroupRest(s, j).value.items, GroupRest(s, j).value.close)
            else
              && BodyEnd(s, j, WireTypeOf(s[..j])).Ok? && BodyEnd(s, j, WireTypeOf(s[..j])).value <= |s|
              && item == Field(s[..j], s[j..BodyEnd(s, j, WireTypeOf(s[..j])).value])
  {
    var k := |Flatten(item)|;
    match item
    case Group(open, items, close) =>
      var j, m := GroupFound(open, items, close, s, 0, k);
      GroupRestFound(items, s, j, m, k);
    case Field(tag, body) =>
      var j := SplitSlice(tag, body, s, 0, k);
      TagFound(s, 0, j);
      BodyFound(s, j, k, WireTypeOf(tag));
  }

  //// What the Protocol Buffers encoding asks

  /** A tag is a uint32 with a field number from 1 on. */
  predicate LegalTag(t: bytes) {
    8 <= Payload(t) < TWO_TO_THE_32
  }

  function NumberOf(t: bytes): nat {
    Payload(t) / 8
  }

  /** A varint holds at most 64 bits, and a length is an int32 that is not negative. */
  predicate LegalBody(b: bytes, wireType: nat) {
    && (wireType == 0 ==> Payload(b) < TWO_TO_THE_64)
    && (wireType == 2 ==> VarintLen(b).Ok? && Payload(b[..VarintLen(b).value]) < 0x8000_0000)
  }

  /** `t` closes a group that was opened with the field number `number`. */
  predicate Closes(t: bytes, number: nat) {
    LegalTag(t) && NumberOf(t) == number
  }

  /** On every level, tags and bodies are legal, and groups close with the field number they opened with. */
  predicate Standard(item: Item) {
    match item
    case Field(tag, body) => LegalTag(tag) && LegalBody(body, WireTypeOf(tag))
    case Group(open, items, close) => LegalTag(open) && AllStandard(items) && Closes(close, NumberOf(open))
  }

  predicate AllStandard(items: Items) {
    match items
    case Nil => true
    case Cons(head, tail) => Standard(head) && AllStandard(tail)
  }

  /**
    A skipper that is strict: at index `i` with these groups open, it keeps their field numbers instead of their count,
    and looks at every tag and body. It says where the item ends, or nothing.
   */
  function StrictFrom(s: bytes, i: nat, open: seq<nat>): (r: Option<nat>)
    requires |s| <= MAX_INT
    decreases |s| - i
  {
    if i >= |s| || TagEnd(s, i).Err? then None
    else
      var j := TagEnd(s, i).value;
      var t := s[i..j];
      if !LegalTag(t) then None
      else if WireTypeOf(t) == 3 then StrictFrom(s, j, open + [NumberOf(t)])
      else if WireTypeOf(t) == 4 then
        if open == [] || open[|open| - 1] != NumberOf(t) then None
        else if |open| == 1 then Some(j)
        else StrictFrom(s, j, open[..|open| - 1])
      else if BodyEnd(s, j, WireTypeOf(t)).Err? then None
      else
        var k := BodyEnd(s, j, WireTypeOf(t)).value;
        if k > |s| || !LegalBody(s[j..k], WireTypeOf(t)) then None
        else if open == [] then Some(k)
        else StrictFrom(s, k, open)
  }

  function StrictLen(s: bytes): Option<nat>
    requires |s| <= MAX_INT
  {
    StrictFrom(s, 0, [])
  }

  /** The stack of field numbers is that of the recursive parser. */
  lemma {:induction false} StrictIsRecursion(s: bytes, i: nat, open: seq<nat>)
    requires |s| <= MAX_INT && open != []
    ensures StrictFrom(s, i, open) ==
            match GroupRest(s, i)
            case Err(_) => None
            case Ok(rest) =>
              if !AllStandard(rest.items) || !Closes(rest.close, open[|open| - 1]) then None
              else if |open| == 1 then Some(rest.next)
              else StrictFrom(s, rest.next, open[..|open| - 1])
    decreases |s| - i
  {
    hide Payload, VarintLenFrom, IsVarint, BodyEnd, LegalBody, WireTypeOf, LegalTag;
    if i < |s| && TagEnd(s, i).Ok? {
      var j := TagEnd(s, i).value;
      var t := s[i..j];
      if WireTypeOf(t) == 3 {
        var inner := open + [NumberOf(t)];
        assert inner[..|inner| - 1] == open;
        StrictIsRecursion(s, j, inner);
        if GroupRest(s, j).Ok? {
          StrictIsRecursion(s, GroupRest(s, j).value.next, open);
        }
      } else if WireTypeOf(t) != 4 && BodyEnd(s, j, WireTypeOf(t)).Ok? {
        StrictIsRecursion(s, BodyEnd(s, j, WireTypeOf(t)).value, open);
      }
    }
  }

  /** On an item at the front, the strict skipper says whether it is of the standard. */
  lemma {:induction false} StrictJudges(s: bytes, item: Item)
    requires |s| <= MAX_INT && WellFormed(item) && Flatten(item) <= s
    ensures StrictLen(s) == if Standard(item) then Some(|Flatten(item)|) else None
  {
    hide Payload, VarintLenFrom, IsVarint, BodyEnd, LegalBody, LegalTag, Flatten, GroupRest, WellFormed;
    ItemParsed(item, s);
    ItemSkipped(item, s);
    var j := TagEnd(s, 0).value;
    assert s[0..j] == s[..j];
    if WireTypeOf(s[..j]) == 3 {
      var number := NumberOf(s[..j]);
      assert [] + [number] == [number];
      StrictIsRecursion(s, j, [number]);
      DepthIsRecursion(s, j, 0);
    }
  }

  /** The strict skipper succeeds on exactly the inputs that begin with an item of the standard, and then as skipped. */
  lemma {:induction false} StrictIsStandard(s: bytes, n: nat)
    requires |s| <= MAX_INT && n <= |s|
    ensures StrictLen(s) == Some(n) <==> exists item :: WellFormed(item) && Standard(item) && Flatten(item) == s[..n]
    ensures StrictLen(s) == Some(n) ==> SkipLen(s) == Ok(n)
  {
    hide StrictLen, SkipLen, Standard, WellFormed, Flatten;
    if StrictLen(s) == Some(n) {
      StrictSkips(s);
      var item := ItemOf(s);
      StrictJudges(s, item);
      assert WellFormed(item) && Standard(item) && Flatten(item) == s[..n];
    }
    if item :| WellFormed(item) && Standard(item) && Flatten(item) == s[..n] {
      StrictJudges(s, item);
    }
  }

  /** What the strict skipper accepts, the code skips. */
  lemma {:induction false} StrictSkips(s: bytes)
    requires |s| <= MAX_INT && StrictLen(s).Some?
    ensures SkipLen(s) == Ok(StrictLen(s).value) && StrictLen(s).value <= |s|
  {
    StrictWithin(s, 0, []);
  }

  lemma {:induction false} StrictWithin(s: bytes, i: nat, open: seq<nat>)
    requires |s| <= MAX_INT && StrictFrom(s, i, open).Some?
    ensures SkipFrom(s, i, |open|) == Ok(StrictFrom(s, i, open).value) && StrictFrom(s, i, open).value <= |s|
    decreases |s| - i
  {
    hide Payload, VarintLenFrom, IsVarint, BodyEnd, LegalBody, WireTypeOf, LegalTag;
    var j := TagEnd(s, i).value;
    var t := s[i..j];
    if WireTypeOf(t) == 3 {
      StrictWithin(s, j, open + [NumberOf(t)]);
    } else if WireTypeOf(t) == 4 {
      if |open| > 1 {
        StrictWithin(s, j, open[..|open| - 1]);
      }
    } else if open != [] {
      StrictWithin(s, BodyEnd(s, j, WireTypeOf(t)).value, open);
    }
  }

  /** What the code skips within its slice is an item of the standard exactly when the strict skipper accepts it too. */
  lemma {:induction false} StandardWhenStrict(s: bytes)
    requires |s| <= MAX_INT && SkipLen(s).Ok? && SkipLen(s).value <= |s|
    ensures (exists item :: WellFormed(item) && Standard(item) && Flatten(item) == s[..SkipLen(s).value]) <==> StrictLen(s).Some?
  {
    hide StrictLen, SkipLen, Standard, WellFormed, Flatten;
    StrictIsStandard(s, SkipLen(s).value);
    if StrictLen(s).Some? {
      StrictSkips(s);
    }
  }

  /** Inside a group the code looks at no field number: here it skips field 0 in a group of field 8. */
  lemma {:induction false} FieldNumberIgnored()
    ensures SkipLen([67, 0, 0, 68]) == Ok(4) && StrictLen([67, 0, 0, 68]) == None
  {
    var field := Field([0], [0]);
    var item := Group([67], Cons(field, Nil), [68]);
    OneByte(0);
    OneByte(67);
    OneByte(68);
    assert Flatten(field) == [0, 0] && FlattenAll(Cons(field, Nil)) == [0, 0];
    assert Flatten(item) == [67, 0, 0, 68];
    assert WellFormed(field) && WellFormed(item);
    assert !Standard(field);
    ItemSkipped(item, [67, 0, 0, 68]);
    StrictJudges([67, 0, 0, 68], item);
  }

  /** A group may also close with another field number than it opened with. */
  lemma {:induction false} EndGroupNumberIgnored()
    ensures SkipLen([1 * 8 + 3, 2 * 8 + 4]) == Ok(2) && StrictLen([1 * 8 + 3, 2 * 8 + 4]) == None
  {
    var item := Group([11], Nil, [20]);
    OneByte(11);
    OneByte(20);
    assert Flatten(item) == [11, 20];
    ItemSkipped(item, [11, 20]);
    StrictJudges([11, 20], item);
  }

  lemma {:induction false} OneByte(b: byte)
    requires b < 0x80
    ensures Payload([b]) == b && IsVarint([b])
  {
  }

  //// The code

  /** The loop that passes over a varint without keeping its value. */
  method PassVarint(d: bytes, i: nat) returns (r: Result<nat>)
    requires i <= |d|
    ensures r == match VarintLen(d[i..])
                 case Err(e) => Err(e)
                 case Ok(n) => Ok(i + n)
  {
    var shift, next := 0, i;
    ghost var s := d[i..];
    while true
      invariant i <= next <= |d| && shift == 7 * (next - i) && next - i <= MAX_VARINT
      invariant VarintLen(s) == VarintLenFrom(s, next - i)
      decreases MAX_VARINT - (next - i)
    {
      if shift >= 64 {
        return Err(IntOverflow);
      }
      if next >= |d| {
        return Err(UnexpectedEOF);
      }
      assert s[next - i] == d[next];
      next := next + 1;
      if d[next - 1] < 0x80 {
        return Ok(next);
      }
      shift := shift + 7;
    }
  }

  /** The arms of the switch that pass over a body at `j`; the index they leave may have wrapped. */
  method PassBody(d: bytes, j: nat, wireType: nat) returns (r: Result<int>)
    requires j <= |d| <= MAX_INT
    ensures BodyEnd(d, j, wireType) ==
            match r
            case Err(e) => Err(e)
            case Ok(k) => if k < 0 then Err(InvalidLength) else Ok(k)
  {
    if wireType == 0 {
      var k := PassVarint(d, j);
      r := if k.Err? then Err(k.error) else Ok(k.value);
    } else if wireType == 1 {
      r := Ok(Wrap64(j + 8));
    } else if wireType == 2 {
      var u, k := DecodeVarint(d, j, W64);
      if u.Err? {
        return Err(u.error);
      }
      var length := Wrap64(u.value);
      if length < 0 {
        return Err(InvalidLength);
      }
      r := Ok(Wrap64(k + length));
    } else if wireType == 5 {
      r := Ok(Wrap64(j + 4));
    } else {
      r := Err(IllegalWireType);
    }
  }

  /** `skipProtocolV11` on the slice `d`. */
  method SkipProtocolV11(d: bytes) returns (r: Result<nat>)
    requires |d| <= MAX_INT
    ensures r == SkipLen(d)
  {
    hide And, BodyEnd, Payload, VarintLenFrom;
    var l := |d|;
    var iNdEx: nat, depth: nat := 0, 0;
    while iNdEx < l
      invariant SkipLen(d) == SkipFrom(d, iNdEx, depth)
      decreases l - iNdEx
    {
      var wire, j := DecodeVarint(d, iNdEx, W64);
      if wire.Err? {
        return Err(wire.error);
      }
      WireTypeBits(Payload(d[iNdEx..j]));
      var wireType := And(wire.value, 0x7);
      if wireType == 3 {
        depth, iNdEx := depth + 1, j;
      } else if wireType == 4 {
        if depth == 0 {
          return Err(UnexpectedEndOfGroup);
        }
        depth, iNdEx := depth - 1, j;
      } else {
        var k := PassBody(d, j, wireType);
        if k.Err? {
          return Err(k.error);
        }
        if k.value < 0 {
          return Err(InvalidLength);
        }
        iNdEx := k.value;
      }
      if depth == 0 {
        return Ok(iNdEx);
      }
    }
    return Err(UnexpectedEOF);
  }

  /** The low three bits survive the truncation to 64. */
  lemma {:induction false} WireTypeBits(p: nat)
    ensures And(p % TWO_TO_THE_64, 0x7) == p % 8
  {
    hide And, Pow2;
    Pow2Constants();
    AndOnes(p % TWO_TO_THE_64, 3);
  }
}
