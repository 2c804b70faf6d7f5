/**
  The pieces the generated methods repeat: putting one field in front of what
  a buffer already holds, and reading one tag, number, block or unknown field.
  A Go slice `dAtA[:end]` of the output buffer is the array together with `end`.
 */
module Buffers {
  import opened Words
  import opened Varint
  import opened Skip
  import opened Records

  //// Writing from the back to the front

  /** Only the part of the buffer from `from` up to `to` may differ. */
  twostate predicate OnlyChanges(dAtA: array<byte>, from: int, to: int)
    reads dAtA
  {
    forall j :: 0 <= j < dAtA.Length && !(from <= j < to) ==> dAtA[j] == old(dAtA[j])
  }

  /** `copy(dAtA[i:], src)` where the target is long enough. */
  method Copy(dAtA: array<byte>, i: nat, src: bytes)
    requires i + |src| <= dAtA.Length
    modifies dAtA
    ensures dAtA[i..i + |src|] == src
    ensures OnlyChanges(dAtA, i, i + |src|)
  {
    for k := 0 to |src|
      invariant forall j :: 0 <= j < k ==> dAtA[i + j] == src[j]
      invariant OnlyChanges(dAtA, i, i + |src|)
    {
      dAtA[i + k] := src[k];
    }
  }

  /** Puts bytes in front of `dAtA[i..end]`. */
  method PutBytes(dAtA: array<byte>, i: nat, end: nat, src: bytes) returns (r: nat)
    requires |src| <= i <= end <= dAtA.Length
    modifies dAtA
    ensures r == i - |src|
    ensures dAtA[r..end] == src + old(dAtA[i..end])
    ensures OnlyChanges(dAtA, r, end)
  {
    r := i - |src|;
    Copy(dAtA, r, src);
    assert dAtA[r..end] == dAtA[r..i] + dAtA[i..end];
    assert dAtA[i..end] == old(dAtA[i..end]);
  }

  /** Puts the varint of `v` in front of `dAtA[i..end]`. */
  method PutVarint(dAtA: array<byte>, i: nat, end: nat, v: uint64) returns (r: nat)
    requires |EncodeVarint(v)| <= i <= end <= dAtA.Length
    modifies dAtA
    ensures r == i - |EncodeVarint(v)|
    ensures dAtA[r..end] == EncodeVarint(v) + old(dAtA[i..end])
    ensures OnlyChanges(dAtA, r, end)
  {
    hide EncodeVarint, Sov;
    SovIsLength(v);
    r := EncodeVarintInto(dAtA, i, v);
    assert dAtA[r..end] == dAtA[r..i] + dAtA[i..end];
    assert dAtA[i..end] == old(dAtA[i..end]);
  }

  /** `i--; dAtA[i] = tag`. */
  method PutTag(dAtA: array<byte>, i: nat, end: nat, tag: byte) returns (r: nat)
    requires 1 <= i <= end <= dAtA.Length
    modifies dAtA
    ensures r == i - 1
    ensures dAtA[r..end] == [tag] + old(dAtA[i..end])
    ensures OnlyChanges(dAtA, r, end)
  {
    r := i - 1;
    dAtA[r] := tag;
    assert dAtA[r..end] == [tag] + dAtA[i..end];
  }

  /** A varint field, when the value is not zero. */
  method PutNumber(dAtA: array<byte>, i: nat, end: nat, ghost field: int, tag: byte, v: uint64) returns (r: nat)
    requires 1 <= field <= 15 && tag == 8 * field
    requires |NumberField(field, v)| <= i <= end <= dAtA.Length
    modifies dAtA
    ensures r == i - |NumberField(field, v)|
    ensures dAtA[r..end] == NumberField(field, v) + old(dAtA[i..end])
    ensures OnlyChanges(dAtA, r, end)
  {
    hide EncodeVarint;
    r := i;
    if v != 0 {
      r := PutVarint(dAtA, r, end, v);
      r := PutTag(dAtA, r, end, tag);
      assert [tag] + (EncodeVarint(v) + old(dAtA[i..end])) == NumberField(field, v) + old(dAtA[i..end]);
    } else {
      assert NumberField(field, v) + old(dAtA[i..end]) == old(dAtA[i..end]);
    }
  }

  /** The length and tag of a delimited field whose content already stands at the front. */
  method PutHeader(dAtA: array<byte>, i: nat, end: nat, ghost field: int, tag: byte, size: uint64, ghost content: bytes)
    returns (r: nat)
    requires 1 <= field <= 15 && tag == 8 * field + 2 && size == |content|
    requires i + size <= end <= dAtA.Length && dAtA[i..i + size] == content
    requires |DelimitedField(field, content)| <= i + size
    modifies dAtA
    ensures r == i + size - |DelimitedField(field, content)|
    ensures dAtA[r..end] == DelimitedField(field, content) + old(dAtA[i + size..end])
    ensures OnlyChanges(dAtA, r, end)
  {
    hide EncodeVarint;
    ghost var rest := dAtA[i + size..end];
    assert dAtA[i..end] == content + rest;
    r := PutVarint(dAtA, i, end, size);
    r := PutTag(dAtA, r, end, tag);
    assert [tag] + (EncodeVarint(size) + (content + rest)) == DelimitedField(field, content) + rest;
  }

  /** A string or bytes field, when it is not empty. */
  method PutBlock(dAtA: array<byte>, i: nat, end: nat, ghost field: int, tag: byte, content: slice) returns (r: nat)
    requires 1 <= field <= 15 && tag == 8 * field + 2
    requires |BlockField(field, content)| <= i <= end <= dAtA.Length
    modifies dAtA
    ensures r == i - |BlockField(field, content)|
    ensures dAtA[r..end] == BlockField(field, content) + old(dAtA[i..end])
    ensures OnlyChanges(dAtA, r, end)
  {
    hide EncodeVarint;
    r := i;
    ghost var rest := dAtA[i..end];
    if |content| > 0 {
      r := PutBytes(dAtA, r, end, content);
      assert dAtA[r..r + |content|] == (content + rest)[..|content|] == content;
      assert dAtA[i..end] == dAtA[r..end][|content|..] == rest;
      r := PutHeader(dAtA, r, end, field, tag, |content|, content);
    } else {
      assert BlockField(field, content) + rest == rest;
    }
  }

  //// Reading, at index `i` of the slice `d`, said of the bytes `d[pre..]` left at the start of an iteration

  lemma {:induction false} SliceOfSlice(d: bytes, pre: nat, i: nat, j: nat)
    requires pre <= i <= j <= |d|
    ensures d[pre..][i - pre..j - pre] == d[i..j]
    ensures d[pre..][i - pre..] == d[i..]
  {
  }

  datatype Tag = Tag(field: int, wireType: nat)

  method ReadTag(d: slice, i: nat) returns (r: Result<Tag>, next: nat)
    requires i < |d|
    ensures match TagEnd(d[i..], 0)
            case Err(e) => r == Err(e)
            case Ok(j) => next == i + j && r == Ok(Tag(FieldNumber(d[i..][0..j]), WireTypeOf(d[i..][0..j])))
  {
    hide And, Shr, VarintLen, Payload;
    var wire;
    wire, next := DecodeVarint(d, i, W64);
    assert d[i..][0..] == d[i..];
    if wire.Err? {
      return Err(wire.error), next;
    }
    SliceOfSlice(d, i, i, next);
    WireTypeBits(Payload(d[i..next]));
    ShrDivides(wire.value, 3);
    Pow2Constants();
    r := Ok(Tag(Wrap32(Shr(wire.value, 3)), And(wire.value, 0x7)));
  }

  /** The case of a varint field, into a variable of the given width. */
  method ReadNumber(d: slice, ghost pre: nat, i: nat, wireType: nat, width: Width) returns (r: Result<nat>, next: nat)
    requires pre <= i <= |d|
    ensures match NumberBody(d[pre..], i - pre, wireType)
            case Err(e) => r == Err(e)
            case Ok(NumberRead(v, k)) => next == pre + k && r == Ok(if width.W32? then Low32(v) else v)
  {
    hide VarintLen, Value, Low32;
    next := i;
    if wireType != 0 {
      return Err(WrongWireType), next;
    }
    r, next := DecodeVarint(d, i, width);
    SliceOfSlice(d, pre, i, next);
    Value32(d[i..next]);
  }

  /** The case of a length-delimited field. */
  method ReadBlock(d: slice, ghost pre: nat, i: nat, wireType: nat) returns (r: Result<slice>, next: nat)
    requires pre <= i <= |d|
    ensures match BlockBody(d[pre..], i - pre, pre, wireType)
            case Err(e) => r == Err(e)
            case Ok(Extent(from, to)) => next == pre + to <= |d| && r == Ok(d[pre..][from..to])
  {
    hide VarintLen, Value;
    next := i;
    if wireType != 2 {
      return Err(WrongWireType), next;
    }
    var u;
    u, next := DecodeVarint(d, i, W64);
    if u.Err? {
      return Err(u.error), next;
    }
    SliceOfSlice(d, pre, i, next);
    var length := Wrap64(u.value);
    if length < 0 {
      return Err(InvalidLength), next;
    }
    var postIndex := Wrap64(next + length);
    if postIndex < 0 {
      return Err(InvalidLength), next;
    }
    if postIndex > |d| {
      return Err(UnexpectedEOF), next;
    }
    SliceOfSlice(d, pre, next, postIndex);
    r, next := Ok(d[next..postIndex]), postIndex;
  }

  /** The `default` case; the guard against a negative result of the skipper has nothing to catch. */
  method ReadUnknown(d: slice, preIndex: nat) returns (r: Result<bytes>, next: nat)
    requires preIndex < |d|
    ensures match UnknownSize(d[preIndex..], preIndex)
            case Err(e) => r == Err(e)
            case Ok(n) => next == preIndex + n <= |d| && r == Ok(d[preIndex..][0..n])
  {
    hide SkipLen;
    next := preIndex;
    var skippy := SkipProtocolV11(d[preIndex..]);
    if skippy.Err? {
      return Err(skippy.error), next;
    }
    var end := Wrap64(preIndex + skippy.value);
    if end < 0 {
      return Err(InvalidLength), next;
    }
    if end > |d| {
      return Err(UnexpectedEOF), next;
    }
    SliceOfSlice(d, preIndex, preIndex, end);
    r, next := Ok(d[preIndex..end]), end;
  }
}
