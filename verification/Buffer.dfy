/**
 Filling a marshalling buffer from its end towards its start.
 */
module Buffer {
  import opened GoTypes
  import opened Varint
  import opened Wire
  import opened Messages

  /** `now` is `was` with exactly `bytes` written in front of index hi; everything else is as it was. */
  predicate Filled(now: seq<byte>, was: seq<byte>, bytes: seq<byte>, hi: nat) {
    && |bytes| <= hi <= |was|
    && now == was[..hi - |bytes|] + bytes + was[hi..]
  }

  /** Writing more in front extends what is filled. */
  lemma FilledMore(now: seq<byte>, mid: seq<byte>, was: seq<byte>, more: seq<byte>, bytes: seq<byte>, hi: nat)
    requires Filled(mid, was, bytes, hi) && Filled(now, mid, more, hi - |bytes|)
    ensures Filled(now, was, more + bytes, hi)
  {
    var j := hi - |bytes|;
    assert mid[..j - |more|] == was[..j - |more|];
    assert mid[j..] == bytes + was[hi..];
  }

  /** A buffer of exactly the right size holds the bytes and nothing else. */
  lemma FilledWhole(now: seq<byte>, was: seq<byte>, bytes: seq<byte>)
    requires Filled(now, was, bytes, |was|) && |was| == |bytes|
    ensures now == bytes
  {
  }

  lemma FilledAt(now: seq<byte>, was: seq<byte>, bytes: seq<byte>, hi: nat)
    requires |now| == |was| && |bytes| <= hi <= |was|
    requires now[..hi - |bytes|] == was[..hi - |bytes|]
    requires now[hi - |bytes|..hi] == bytes
    requires now[hi..] == was[hi..]
    ensures Filled(now, was, bytes, hi)
  {
    var j := hi - |bytes|;
    assert now == now[..j] + now[j..hi] + now[hi..];
  }

  /** The state of a backward fill: `bytes` lie between index i and `end`, and nothing else has changed. */
  predicate Filling(now: seq<byte>, was: seq<byte>, bytes: seq<byte>, i: nat, end: nat) {
    i + |bytes| == end <= |now| && Filled(now, was, bytes, end)
  }

  /** `i -= len(src); copy(dAtA[i:], src)` */
  method CopyBack(dAtA: array<byte>, hi: nat, src: seq<byte>, ghost was: seq<byte>, ghost bytes: seq<byte>, ghost end: nat)
    returns (i: nat, ghost done: seq<byte>)
    requires Filling(dAtA[..], was, bytes, hi, end) && |src| <= hi
    modifies dAtA
    ensures done == src + bytes && Filling(dAtA[..], was, done, i, end)
  {
    i := hi - |src|;
    ghost var mid := dAtA[..];
    forall k | 0 <= k < |src| {
      dAtA[i + k] := src[k];
    }
    FilledAt(dAtA[..], mid, src, hi);
    FilledMore(dAtA[..], mid, was, src, bytes, end);
    done := src + bytes;
  }

  /** Unknown bytes come last in the message, so they are written first. */
  method UnknownBack(dAtA: array<byte>, hi: nat, unknown: Slice) returns (i: nat)
    requires |unknown.Data()| <= hi <= dAtA.Length
    modifies dAtA
    ensures Filling(dAtA[..], old(dAtA[..]), unknown.Data(), i, hi)
  {
    i := hi;
    if !unknown.Nil? {
      ghost var done;
      i, done := CopyBack(dAtA, hi, unknown.b, dAtA[..], [], hi);
      assert done == unknown.Data();
    }
  }

  method VarintBack(dAtA: array<byte>, hi: nat, v: uint64, ghost was: seq<byte>, ghost bytes: seq<byte>, ghost end: nat)
    returns (i: nat, ghost done: seq<byte>)
    requires Filling(dAtA[..], was, bytes, hi, end) && |Encode(v)| <= hi
    modifies dAtA
    ensures done == Encode(v) + bytes && Filling(dAtA[..], was, done, i, end)
  {
    SovIsLength(v);
    ghost var mid := dAtA[..];
    i := EncodeVarintFido2(dAtA, hi, v);
    ghost var now := dAtA[..];
    assert now[..i] == dAtA[..i] && now[i..hi] == dAtA[i..hi] && now[hi..] == dAtA[hi..];
    assert mid[..i] == old(dAtA[..i]) && mid[hi..] == old(dAtA[hi..]);
    FilledAt(now, mid, Encode(v), hi);
    FilledMore(now, mid, was, Encode(v), bytes, end);
    done := Encode(v) + bytes;
  }

  /** `i--; dAtA[i] = tag` */
  method TagBack(dAtA: array<byte>, hi: nat, tag: byte, ghost was: seq<byte>, ghost bytes: seq<byte>, ghost end: nat)
    returns (i: nat, ghost done: seq<byte>)
    requires Filling(dAtA[..], was, bytes, hi, end) && 1 <= hi
    modifies dAtA
    ensures done == [tag] + bytes && Filling(dAtA[..], was, done, i, end)
  {
    i := hi - 1;
    ghost var mid := dAtA[..];
    dAtA[i] := tag;
    FilledAt(dAtA[..], mid, [tag], hi);
    FilledMore(dAtA[..], mid, was, [tag], bytes, end);
    done := [tag] + bytes;
  }

  /** The length and the tag in front of a value of `size` bytes already written. */
  function Header(num: nat, size: nat): seq<byte> {
    Encode(8 * num + 2) + Encode(size)
  }

  method HeaderBack(dAtA: array<byte>, hi: nat, size: nat, tag: byte,
      ghost was: seq<byte>, ghost bytes: seq<byte>, ghost end: nat)
    returns (i: nat, ghost done: seq<byte>)
    requires Filling(dAtA[..], was, bytes, hi, end) && |Header(tag / 8, size)| <= hi
    requires size < U64 && tag < 128 && tag % 8 == 2
    modifies dAtA
    ensures done == Header(tag / 8, size) + bytes && Filling(dAtA[..], was, done, i, end)
  {
    hide Filled;
    assert Encode(8 * (tag / 8) + 2) == [tag];
    i, done := VarintBack(dAtA, hi, size, was, bytes, end);
    i, done := TagBack(dAtA, i, tag, was, done, end);
    assert done == Header(tag / 8, size) + bytes;
  }

  /** The fragment generated for a string or bytes field, which is left out when empty. */
  method FieldBack(dAtA: array<byte>, hi: nat, payload: seq<byte>, tag: byte,
      ghost was: seq<byte>, ghost bytes: seq<byte>, ghost end: nat)
    returns (i: nat, ghost done: seq<byte>)
    requires Filling(dAtA[..], was, bytes, hi, end) && |OptBytes(tag / 8, payload)| <= hi && dAtA.Length <= MAX_INT
    requires tag < 128 && tag % 8 == 2
    modifies dAtA
    ensures done == OptBytes(tag / 8, payload) + bytes && Filling(dAtA[..], was, done, i, end)
  {
    i, done := hi, bytes;
    if |payload| > 0 {
      i, done := ElementBack(dAtA, i, payload, tag, was, bytes, end);
    } else {
      assert OptBytes(tag / 8, payload) + bytes == bytes;
    }
  }

  /** The fragment generated for one element of a repeated field, which is never left out. */
  method ElementBack(dAtA: array<byte>, hi: nat, payload: seq<byte>, tag: byte,
      ghost was: seq<byte>, ghost bytes: seq<byte>, ghost end: nat)
    returns (i: nat, ghost done: seq<byte>)
    requires Filling(dAtA[..], was, bytes, hi, end) && |EncodeItem(Blob(tag / 8, payload))| <= hi && dAtA.Length <= MAX_INT
    requires tag < 128 && tag % 8 == 2
    modifies dAtA
    ensures done == EncodeItem(Blob(tag / 8, payload)) + bytes && Filling(dAtA[..], was, done, i, end)
  {
    hide Encode;
    i, done := CopyBack(dAtA, hi, payload, was, bytes, end);
    i, done := HeaderBack(dAtA, i, |payload|, tag, was, done, end);
    assert done == Header(tag / 8, |payload|) + payload + bytes;
  }

  /** The loop generated for a repeated string field, last element first. */
  method RepeatedBack(dAtA: array<byte>, hi: nat, payloads: seq<seq<byte>>, tag: byte,
      ghost was: seq<byte>, ghost bytes: seq<byte>, ghost end: nat)
    returns (i: nat, ghost done: seq<byte>)
    requires Filling(dAtA[..], was, bytes, hi, end) && dAtA.Length <= MAX_INT
    requires |RepeatedBytes(tag / 8, payloads)| <= hi && tag < 128 && tag % 8 == 2
    modifies dAtA
    ensures done == RepeatedBytes(tag / 8, payloads) + bytes && Filling(dAtA[..], was, done, i, end)
  {
    hide Filled, RepeatedBytes, EncodeItem;
    ghost var num := tag / 8;
    i, done := hi, bytes;
    var k := |payloads|;
    RepeatedNothing(num);
    assert payloads[k..] == [] && [] + bytes == bytes;
    while k > 0
      invariant 0 <= k <= |payloads|
      invariant done == RepeatedBytes(num, payloads[k..]) + bytes
      invariant Filling(dAtA[..], was, done, i, end)
    {
      k := k - 1;
      RepeatedStep(num, payloads, k);
      RepeatedSuffix(num, payloads, k);
      ghost var before := done;
      i, done := ElementBack(dAtA, i, payloads[k], tag, was, done, end);
      assert done == EncodeItem(Blob(num, payloads[k])) + RepeatedBytes(num, payloads[k + 1..]) + bytes;
    }
    assert payloads[0..] == payloads;
  }

  /** `1 + sovFido2(uint64(l))`, for the field numbers below 16 that these messages have. */
  function HeaderSize(l: nat): nat
    requires l < U64
  {
    1 + SovFido2(l)
  }

  lemma HeaderSizeIsLength(num: nat, payload: seq<byte>)
    requires num < 16 && |payload| < U64
    ensures |EncodeItem(Blob(num, payload))| == |payload| + HeaderSize(|payload|)
  {
    SovIsLength(|payload|);
  }

  /** The size of a string or bytes field, which is left out when empty. */
  method FieldSize(ghost num: nat, payload: seq<byte>) returns (n: nat)
    requires num < 16 && |OptBytes(num, payload)| <= MAX_INT
    ensures n == |OptBytes(num, payload)|
  {
    n := 0;
    var l := |payload|;
    if l > 0 {
      HeaderSizeIsLength(num, payload);
      n := l + HeaderSize(l);
    }
  }

  method RepeatedSize(ghost num: nat, payloads: seq<seq<byte>>) returns (n: nat)
    requires num < 16 && |RepeatedBytes(num, payloads)| <= MAX_INT
    ensures n == |RepeatedBytes(num, payloads)|
  {
    hide RepeatedBytes, EncodeItem, HeaderSize;
    n := 0;
    var k := |payloads|;
    RepeatedNothing(num);
    assert payloads[k..] == [];
    while k > 0
      invariant 0 <= k <= |payloads|
      invariant n == |RepeatedBytes(num, payloads[k..])|
    {
      k := k - 1;
      RepeatedStep(num, payloads, k);
      RepeatedSuffix(num, payloads, k);
      ElementFits(num, payloads[k]);
      HeaderSizeIsLength(num, payloads[k]);
      var l := |payloads[k]|;
      n := n + l + HeaderSize(l);
    }
    assert payloads[0..] == payloads;
  }

  lemma ElementFits(num: nat, payload: seq<byte>)
    ensures |payload| < |EncodeItem(Blob(num, payload))|
  {
  }

  /** Reads one item at iNdEx: the part of every generated Unmarshal loop before its assignments. */
  method ReadItem(dAtA: seq<byte>, iNdEx: nat, kind: int -> Kind) returns (r: ItemRead)
    requires iNdEx < |dAtA| <= MAX_INT
    ensures r == NextItem(kind, dAtA[iNdEx..], iNdEx)
    ensures r.ItemAt? ==> 1 <= r.n <= |dAtA| - iNdEx
    ensures r.ItemAt? && r.item.Blob? ==> |r.item.payload| <= MAX_INT
  {
    hide Read, ReadField, ReadUnrecognized;
    var tag := ReadVarint(dAtA, iNdEx, true);
    if tag.Failed? {
      return BadItem(tag.error);
    }
    var next := tag.n;
    var fieldNum, wireType := Int32(tag.v / 8), tag.v % 8;
    if wireType == 4 {
      return BadItem(EndGroup);
    }
    if fieldNum <= 0 {
      return BadItem(IllegalTag(fieldNum, tag.v));
    }
    assert dAtA[iNdEx..][next - iNdEx..] == dAtA[next..];
    if kind(fieldNum).UnknownKind? {
      r := SkipUnknown(dAtA, iNdEx);
    } else {
      var f := ReadFieldAt(dAtA, next, kind(fieldNum), fieldNum, wireType);
      r := if f.BadItem? then f else ItemAt(f.item, next - iNdEx + f.n);
    }
  }

  /** The default branch. */
  method SkipUnknown(dAtA: seq<byte>, iNdEx: nat) returns (r: ItemRead)
    requires iNdEx < |dAtA| <= MAX_INT
    ensures r == ReadUnrecognized(dAtA[iNdEx..], iNdEx)
  {
    var skippy := Skip.SkipFido2(dAtA[iNdEx..]);
    if skippy.Bad? {
      return BadItem(skippy.error);
    }
    if Int64(iNdEx + skippy.n) < 0 {
      return BadItem(InvalidLength);
    }
    if iNdEx + skippy.n > |dAtA| {
      return BadItem(UnexpectedEOF);
    }
    assert dAtA[iNdEx..][..skippy.n] == dAtA[iNdEx..iNdEx + skippy.n];
    r := ItemAt(Unrecognized(dAtA[iNdEx..iNdEx + skippy.n]), skippy.n);
  }

  lemma Int32OfCut(v: nat)
    ensures Int32(Cut(v, false)) == Int32(v)
  {
  }

  /** The branches for declared fields. */
  method ReadFieldAt(dAtA: seq<byte>, iNdEx: nat, kind: Kind, fieldNum: nat, wireType: nat) returns (r: ItemRead)
    requires iNdEx <= |dAtA| <= MAX_INT && !kind.UnknownKind?
    ensures r == ReadField(kind, fieldNum, wireType, dAtA[iNdEx..], iNdEx)
  {
    hide Read;
    if kind.Int32Kind? {
      if wireType != 0 {
        return BadItem(WrongWireType(wireType, fieldNum));
      }
      var code := ReadVarint(dAtA, iNdEx, false);
      if code.Failed? {
        return BadItem(code.error);
      }
      Int32OfCut(Read(dAtA[iNdEx..]).v);
      return ItemAt(Scalar(fieldNum, Int32(code.v)), code.n - iNdEx);
    }
    if wireType != 2 {
      return BadItem(WrongWireType(wireType, fieldNum));
    }
    var len := ReadVarint(dAtA, iNdEx, true);
    if len.Failed? {
      return BadItem(len.error);
    }
    var byteLen := Int64(len.v);
    if byteLen < 0 {
      return BadItem(InvalidLength);
    }
    var postIndex := Int64(len.n + byteLen);
    if postIndex < 0 {
      return BadItem(InvalidLength);
    }
    if postIndex > |dAtA| {
      return BadItem(UnexpectedEOF);
    }
    assert dAtA[iNdEx..][len.n - iNdEx..postIndex - iNdEx] == dAtA[len.n..postIndex];
    r := ItemAt(Blob(fieldNum, dAtA[len.n..postIndex]), postIndex - iNdEx);
  }
}
