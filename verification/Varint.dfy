/**
  Base 128 varints: the reference meaning of a varint on the wire, the encoder
  that writes one into a buffer, and the decoding loops that read one back.
 */
module Varint {
  import opened Words

  /** A varint occupies at most this many bytes. */
  const MAX_VARINT: nat := 10

  //// Reference meaning

  /** Little-endian value of the low seven bits of each byte, not truncated. */
  function Payload(s: bytes): nat {
    if s == [] then 0 else s[0] % 0x80 + 0x80 * Payload(s[1..])
  }

  /**
    Length of the varint at the front of `s`, whose first `k` bytes are known to continue.
    A varint ends at its first byte without the high bit.
   */
  function VarintLenFrom(s: bytes, k: nat): (r: Result<nat>)
    requires k <= MAX_VARINT && k <= |s|
    ensures r.Ok? ==> k < r.value <= MAX_VARINT && r.value <= |s|
    decreases MAX_VARINT - k
  {
    if k == MAX_VARINT then Err(IntOverflow)
    else if k == |s| then Err(UnexpectedEOF)
    else if s[k] < 0x80 then Ok(k + 1)
    else VarintLenFrom(s, k + 1)
  }

  function VarintLen(s: bytes): Result<nat> {
    VarintLenFrom(s, 0)
  }

  /** The widths of the variables a varint is read into: uint32 and uint64. */
  datatype Width = W32 | W64 {
    function Bits(): nat {
      if W32? then 32 else 64
    }

    function Modulus(): int {
      if W32? then TWO_TO_THE_32 else TWO_TO_THE_64
    }
  }

  /** The value of the varint `t` in a variable of the given width. */
  function Value(t: bytes, width: Width): (v: nat)
    ensures v < width.Modulus() && v <= Payload(t)
  {
    Payload(t) % width.Modulus()
  }

  /** `t` is exactly one varint of at most ten bytes. */
  predicate IsVarint(t: bytes) {
    && 1 <= |t| <= MAX_VARINT
    && t[|t| - 1] < 0x80
    && forall j :: 0 <= j < |t| - 1 ==> t[j] >= 0x80
  }

  /** Read into 32 bits, a varint gives the low half of what it gives in 64. */
  lemma {:induction false} Value32(t: bytes)
    ensures Value(t, W32) == Low32(Value(t, W64))
  {
    hide Payload;
    LowHalf(Payload(t));
  }

  lemma {:induction false} LowHalf(p: nat)
    ensures p % TWO_TO_THE_64 % TWO_TO_THE_32 == p % TWO_TO_THE_32
  {
    var q, v := p / TWO_TO_THE_64, p % TWO_TO_THE_64;
    DivModUnique(p, TWO_TO_THE_32, q * TWO_TO_THE_32 + v / TWO_TO_THE_32, v % TWO_TO_THE_32);
  }

  /** The shortest varint for `v`. */
  function EncodeVarint(v: nat): (s: bytes)
    ensures |s| >= 1
  {
    if v < 0x80 then [v] else [v % 0x80 + 0x80] + EncodeVarint(v / 0x80)
  }

  /** `sovProtocolV11`: the number of bytes of the varint for `x`. */
  function Sov(x: nat): nat {
    (BitLen(Or(x, 1)) + 6) / 7
  }

  //// Properties of the reference meaning

  /** What is found at the front is one varint; nothing is found only if ten bytes, or all of them, continue. */
  lemma {:induction false} VarintLenMeaning(s: bytes, k: nat)
    requires k <= MAX_VARINT && k <= |s|
    requires forall j :: 0 <= j < k ==> s[j] >= 0x80
    ensures match VarintLenFrom(s, k)
            case Ok(n) => IsVarint(s[..n])
            case Err(e) =>
              && e == (if |s| < MAX_VARINT then UnexpectedEOF else IntOverflow)
              && forall j :: 0 <= j < |s| && j < MAX_VARINT ==> s[j] >= 0x80
    decreases MAX_VARINT - k
  {
    if k < MAX_VARINT && k < |s| && s[k] >= 0x80 {
      VarintLenMeaning(s, k + 1);
    }
  }

  /** A varint is found wherever it stands at the front, whatever follows it. */
  lemma {:induction false} VarintLenOf(t: bytes, s: bytes, k: nat)
    requires IsVarint(t) && t <= s && k < |t|
    ensures VarintLenFrom(s, k) == Ok(|t|)
    decreases |t| - k
  {
    assert s[k] == t[k];
    if k < |t| - 1 {
      VarintLenOf(t, s, k + 1);
    }
  }

  lemma {:induction false} PayloadSnoc(s: bytes, b: byte)
    ensures Payload(s + [b]) == Payload(s) + b % 0x80 * Pow2(7 * |s|)
  {
    hide Pow2;
    Pow2Constants();
    if s == [] {
      assert s + [b] == [b];
    } else {
      assert (s + [b])[1..] == s[1..] + [b];
      PayloadSnoc(s[1..], b);
      Pow2Add(7, 7 * (|s| - 1));
      var p := Pow2(7 * (|s| - 1));
      assert 0x80 * (b % 0x80 * p) == b % 0x80 * (0x80 * p);
    }
  }

  lemma {:induction false} PayloadBound(s: bytes)
    ensures Payload(s) < Pow2(7 * |s|)
  {
    hide Pow2;
    Pow2Constants();
    if s != [] {
      PayloadBound(s[1..]);
      Pow2Add(7, 7 * (|s| - 1));
    }
  }

  /** Encoding and the reference meaning are inverse. */
  lemma {:induction false} EncodeVarintMeaning(v: nat)
    requires v < Pow2(7 * MAX_VARINT)
    ensures IsVarint(EncodeVarint(v))
    ensures Payload(EncodeVarint(v)) == v
  {
    EncodeVarintShape(v, MAX_VARINT);
    EncodeVarintPayload(v);
  }

  /** For example, 150 takes two bytes, and 2^64 - 1 ten. */
  lemma {:induction false} Examples()
    ensures EncodeVarint(150) == [0x96, 0x01]
    ensures EncodeVarint(0xffff_ffff_ffff_ffff) == [0xff, 0xff, 0xff, 0xff, 0xff, 0xff, 0xff, 0xff, 0xff, 0x01]
  {
    assert EncodeVarint(0x1) == [0x01] && EncodeVarint(0xff) == [0xff, 0x01];
    assert EncodeVarint(0x7fff) == [0xff] + EncodeVarint(0xff);
    assert EncodeVarint(0x3f_ffff) == [0xff] + EncodeVarint(0x7fff);
    assert EncodeVarint(0x1fff_ffff) == [0xff] + EncodeVarint(0x3f_ffff);
    assert EncodeVarint(0xf_ffff_ffff) == [0xff] + EncodeVarint(0x1fff_ffff);
    assert EncodeVarint(0x7ff_ffff_ffff) == [0xff] + EncodeVarint(0xf_ffff_ffff);
    assert EncodeVarint(0x3_ffff_ffff_ffff) == [0xff] + EncodeVarint(0x7ff_ffff_ffff);
    assert EncodeVarint(0x1ff_ffff_ffff_ffff) == [0xff] + EncodeVarint(0x3_ffff_ffff_ffff);
    assert EncodeVarint(0xffff_ffff_ffff_ffff) == [0xff] + EncodeVarint(0x1ff_ffff_ffff_ffff);
  }

  /** Every 64-bit word fits in ten groups of seven bits. */
  lemma {:induction false} Word64Fits(v: uint64)
    ensures v < Pow2(7 * MAX_VARINT)
  {
    hide Pow2;
    Pow2Constants();
    Pow2Monotonic(64, 70);
  }

  lemma {:induction false} EncodeVarintPayload(v: nat)
    ensures Payload(EncodeVarint(v)) == v
  {
    if v < 0x80 {
      assert EncodeVarint(v)[1..] == [];
    } else {
      EncodeVarintPayload(v / 0x80);
      assert EncodeVarint(v)[1..] == EncodeVarint(v / 0x80);
    }
  }

  /** A value below 128^n is encoded in at most n bytes, all but the last with the high bit. */
  lemma {:induction false} EncodeVarintShape(v: nat, n: nat)
    requires n >= 1 && v < Pow2(7 * n)
    ensures |EncodeVarint(v)| <= n
    ensures var t := EncodeVarint(v);
            t[|t| - 1] < 0x80 && forall j :: 0 <= j < |t| - 1 ==> t[j] >= 0x80
  {
    hide Pow2;
    Pow2Constants();
    if v >= 0x80 {
      Pow2Add(7, 7 * (n - 1));
      EncodeVarintShape(v / 0x80, n - 1);
    }
  }

  /** No varint for the same value is shorter than the encoder's. */
  lemma {:induction false} EncodeVarintMinimal(t: bytes, v: nat)
    requires t != [] && v <= Payload(t)
    ensures |EncodeVarint(v)| <= |t|
  {
    PayloadBound(t);
    EncodeVarintShape(v, |t|);
  }

  lemma {:induction false} EncodeVarintMonotonic(a: nat, b: nat)
    requires a <= b
    ensures |EncodeVarint(a)| <= |EncodeVarint(b)|
  {
    if a >= 0x80 {
      EncodeVarintMonotonic(a / 0x80, b / 0x80);
    }
  }

  /** The closed size formula counts exactly the bytes the encoder writes. */
  lemma {:induction false} SovIsLength(v: nat)
    ensures Sov(v) == |EncodeVarint(v)|
  {
    OrOne(v);
    var x := Or(v, 1);
    if v < 0x80 {
      BitLenBelow(x, 7);
    } else {
      SovIsLength(v / 0x80);
      OrOne(v / 0x80);
      BitLenDrop(x, 7);
      BitLenDrop(v, 7);
      Pow2Constants();
      BitLenOrOne(v);
      BitLenOrOne(v / 0x80);
    }
  }

  lemma {:induction false} OrOne(v: nat)
    ensures Or(v, 1) == if v % 2 == 1 then v else v + 1
  {
    if v > 0 {
      assert Or(v / 2, 0) == v / 2;
    }
  }

  lemma {:induction false} BitLenOrOne(v: nat)
    ensures v > 0 ==> BitLen(Or(v, 1)) == BitLen(v)
  {
    hide Or;
    OrOne(v);
  }

  lemma {:induction false} BitLenBelow(x: nat, k: nat)
    requires 0 < x < Pow2(k)
    ensures 1 <= BitLen(x) <= k
  {
    if x > 1 {
      BitLenBelow(x / 2, k - 1);
    }
  }

  lemma {:induction false} BitLenDrop(x: nat, k: nat)
    requires x >= Pow2(k)
    ensures BitLen(x) == k + BitLen(x / Pow2(k))
  {
    if k > 0 {
      var p := Pow2(k - 1);
      assert x / 2 >= p;
      BitLenDrop(x / 2, k - 1);
      HalfDivMod(x, p);
    }
  }

  //// The loops

  /** One round of a decoding loop: OR-ing in seven more bits at their place appends a digit modulo the width. */
  lemma {:induction false} OrAppends(v: nat, digits: nat, c: nat, k: nat, width: nat)
    requires digits < Pow2(k) && v == digits % Pow2(width)
    ensures Or(v, Shl(c, k, width)) == (digits + c * Pow2(k)) % Pow2(width)
  {
    if k >= width {
      OrDropped(v, digits, c, k, width);
    } else {
      OrInserted(v, digits, c, k, width);
    }
  }

  lemma {:induction false} OrDropped(v: nat, digits: nat, c: nat, k: nat, width: nat)
    requires k >= width && v == digits % Pow2(width)
    ensures Or(v, Shl(c, k, width)) == (digits + c * Pow2(k)) % Pow2(width)
  {
    hide Or, Pow2;
    var w := Pow2(width);
    Pow2Add(k - width, width);
    var m := c * Pow2(k - width);
    MulAssociate(c, Pow2(k - width), w);
    DroppedAbove(digits, m, w);
    OrZero(v);
  }

  lemma {:induction false} DroppedAbove(digits: nat, m: nat, w: nat)
    requires w > 0
    ensures m * w % w == 0 && (digits + m * w) % w == digits % w
  {
    DivModUnique(m * w, w, m, 0);
    MulDistribute(digits / w, m, w);
    DivModUnique(digits + m * w, w, digits / w + m, digits % w);
  }

  lemma {:induction false} OrZero(v: nat)
    ensures Or(v, 0) == v
  {
  }

  lemma {:induction false} OrInserted(v: nat, digits: nat, c: nat, k: nat, width: nat)
    requires k < width && digits < Pow2(k) && v == digits % Pow2(width)
    ensures Or(v, Shl(c, k, width)) == (digits + c * Pow2(k)) % Pow2(width)
  {
    hide Or, Pow2;
    var w, p, rest := Pow2(width), Pow2(k), Pow2(width - k);
    Pow2Add(width - k, k);
    Pow2Monotonic(k, width);
    DivModUnique(digits, w, 0, digits);
    var q, r := c / rest, c % rest;
    assert c == q * rest + r;
    MulDistribute(q * rest, r, p);
    MulAssociate(q, rest, p);
    assert c * p == q * w + r * p;
    MulMonotonic(r + 1, rest, p);
    MulDistribute(r, 1, p);
    DivModUnique(c * p, w, q, r * p);
    OrDisjoint(digits, r, k);
    DivModUnique(digits + c * p, w, q, digits + r * p);
  }

  lemma {:induction false} DecodeRound(d: bytes, i: nat, next: nat, v: nat, width: Width)
    requires i <= next < |d|
    requires v == Value(d[i..next], width)
    ensures Or(v, Shl(And(d[next], 0x7F), 7 * (next - i), width.Bits())) == Value(d[i..next + 1], width)
  {
    hide Or, And, Payload;
    var b := d[next];
    PayloadBound(d[i..next]);
    PayloadSnoc(d[i..next], b);
    assert d[i..next] + [b] == d[i..next + 1];
    Pow2Constants();
    AndOnes(b, 7);
    OrAppends(v, Payload(d[i..next]), b % 0x80, 7 * (next - i), width.Bits());
  }

  /**
    The decoding loop at index `i` of `d`, into a variable of `width` bits.
    Whatever the width, it stops at the same index or with the same error.
   */
  method DecodeVarint(d: bytes, i: nat, width: Width) returns (r: Result<nat>, next: nat)
    requires i <= |d|
    ensures i <= next <= |d|
    ensures match VarintLen(d[i..])
            case Err(e) => r == Err(e)
            case Ok(n) => next == i + n && r == Ok(Value(d[i..next], width))
  {
    hide Or, And, Shl;
    var v: nat := 0;
    var shift: nat := 0;
    next := i;
    ghost var s := d[i..];
    while true
      invariant i <= next <= |d| && shift == 7 * (next - i) && next - i <= MAX_VARINT
      invariant VarintLen(s) == VarintLenFrom(s, next - i)
      invariant v == Value(d[i..next], width)
      decreases MAX_VARINT - (next - i)
    {
      if shift >= 64 {
        return Err(IntOverflow), next;
      }
      if next >= |d| {
        return Err(UnexpectedEOF), next;
      }
      var b := d[next];
      assert b == s[next - i];
      DecodeRound(d, i, next, v, width);
      v := Or(v, Shl(And(b, 0x7F), shift, width.Bits()));
      next := next + 1;
      if b < 0x80 {
        return Ok(v), next;
      }
      shift := shift + 7;
    }
  }

  /**
    `encodeVarintProtocolV11`: writes the varint for `v` so that it ends just before `offset`,
    and returns where it starts.
   */
  method EncodeVarintInto(dAtA: array<byte>, offset: nat, v: uint64) returns (base: nat)
    requires Sov(v) <= offset <= dAtA.Length
    modifies dAtA
    ensures base == offset - Sov(v)
    ensures dAtA[base..offset] == EncodeVarint(v)
    ensures forall j :: 0 <= j < base || offset <= j < dAtA.Length ==> dAtA[j] == old(dAtA[j])
  {
    hide Or, And, Shl, Shr, Sov, Pow2, EncodeVarint;
    SovIsLength(v);
    base := offset - Sov(v);
    var at, x: nat := base, v;
    ghost var code := EncodeVarint(v);
    ShlOne7();
    while x >= Shl(1, 7, 64)
      invariant base <= at < offset
      invariant code[at - base..] == EncodeVarint(x)
      invariant forall j :: base <= j < at ==> dAtA[j] == code[j - base]
      invariant forall j :: 0 <= j < base || offset <= j < dAtA.Length ==> dAtA[j] == old(dAtA[j])
      decreases x
    {
      EncodeRound(x);
      dAtA[at] := Or(And(x, 0x7f), 0x80);
      x := Shr(x, 7);
      at := at + 1;
    }
    LastByte(x);
    dAtA[at] := x;
  }

  lemma {:induction false} LastByte(x: nat)
    requires x < 0x80
    ensures EncodeVarint(x) == [x]
  {
  }

  lemma {:induction false} ShlOne7()
    ensures Shl(1, 7, 64) == 0x80
  {
    Pow2Constants();
  }

  /** One round of the encoding loop writes the first byte and leaves the rest. */
  lemma {:induction false} EncodeRound(x: nat)
    requires x >= 0x80
    ensures Or(And(x, 0x7f), 0x80) < 0x100
    ensures EncodeVarint(x) == [Or(And(x, 0x7f), 0x80)] + EncodeVarint(Shr(x, 7))
    ensures Shr(x, 7) < x
  {
    Pow2Constants();
    AndOnes(x, 7);
    ShrDivides(x, 7);
    OrDisjoint(x % 0x80, 1, 7);
  }
}
