/**
 Skipping one record whose field is not known, and the grammar of such records
 (Protocol Buffers "Encoding" guide, sections "Message Structure" and "Groups").
 */
module Skip {
  import opened GoTypes
  import opened Varint

  // ---------- the record grammar ----------

  /**
   One record as raw bytes: its tag varint and what the wire type says follows. A group is
   closed by any end-group tag: field numbers are not matched.
   */
  datatype Record =
    | VarintRecord(tag: seq<byte>, val: seq<byte>)
    | Fixed64Record(tag: seq<byte>, val: seq<byte>)
    | Fixed32Record(tag: seq<byte>, val: seq<byte>)
    | LengthRecord(tag: seq<byte>, len: seq<byte>, payload: seq<byte>)
    | GroupRecord(tag: seq<byte>, body: Records, end: seq<byte>)

  datatype Records = None | More(head: Record, tail: Records)

  /** A varint whose low three bits are the wire type. */
  predicate IsTag(s: seq<byte>, wireType: nat) {
    WellFormed(s) && Value(s) % 8 == wireType
  }

  function Value(s: seq<byte>): nat
    requires WellFormed(s)
  {
    ReadUpToWellFormed(s, [], 10);
    assert s + [] == s;
    Read(s).v
  }

  predicate Valid(r: Record) {
    match r
    case VarintRecord(tag, val) => IsTag(tag, 0) && WellFormed(val)
    case Fixed64Record(tag, val) => IsTag(tag, 1) && |val| == 8
    case LengthRecord(tag, len, payload) => IsTag(tag, 2) && WellFormed(len) && Value(len) == |payload|
    case GroupRecord(tag, body, end) => IsTag(tag, 3) && AllValid(body) && IsTag(end, 4)
    case Fixed32Record(tag, val) => IsTag(tag, 5) && |val| == 4
  }

  predicate AllValid(rs: Records) {
    rs.More? ==> Valid(rs.head) && AllValid(rs.tail)
  }

  function Raw(r: Record): seq<byte> {
    match r
    case VarintRecord(tag, val) => tag + val
    case Fixed64Record(tag, val) => tag + val
    case LengthRecord(tag, len, payload) => tag + len + payload
    case GroupRecord(tag, body, end) => tag + RawAll(body) + end
    case Fixed32Record(tag, val) => tag + val
  }

  function RawAll(rs: Records): seq<byte> {
    if rs.None? then [] else Raw(rs.head) + RawAll(rs.tail)
  }

  // ---------- what skipFido2 computes ----------

  datatype Length = Span(n: nat) | Bad(error: Error)

  /** A tag with what its wire type says follows, apart from group bodies. */
  datatype Head = Head(wireType: nat, size: nat) | BadHead(error: Error)

  function ReadHead(d: seq<byte>): (h: Head)
    ensures h.Head? ==> 1 <= h.size <= |d| + MAX_INT
  {
    match Read(d)
    case Failed(e) => BadHead(e)
    case Got(wire, n) =>
      match BodyLength(wire % 8, d[n..])
      case Bad(e) => BadHead(e)
      case Span(m) => Head(wire % 8, n + m)
  }

  function BodyLength(wireType: nat, d: seq<byte>): (r: Length)
    ensures r.Span? ==> r.n <= |d| + MAX_INT
  {
    if wireType == 0 then
      match Read(d)
      case Failed(e) => Bad(e)
      case Got(_, n) => Span(n)
    else if wireType == 1 then Span(8)
    else if wireType == 2 then
      match Read(d)
      case Failed(e) => Bad(e)
      case Got(len, n) => if len > MAX_INT then Bad(InvalidLength) else Span(n + len)
    else if wireType == 3 || wireType == 4 then Span(0)
    else if wireType == 5 then Span(4)
    else Bad(IllegalWireType(wireType))
  }

  /**
   From inside `depth` open groups, with `pos` bytes done and `d` left. The result counts from the
   start and may lie beyond the input: the caller checks that.
   */
  function SkipFrom(d: seq<byte>, depth: nat, pos: nat): (r: Length)
    ensures r.Span? ==> pos <= r.n <= MAX_INT
    decreases |d|
  {
    if d == [] then Bad(UnexpectedEOF) else
    match ReadHead(d)
    case BadHead(e) => Bad(e)
    case Head(wireType, size) =>
      if wireType == 4 && depth == 0 then Bad(UnexpectedEndOfGroup)
      else if pos + size > MAX_INT then Bad(InvalidLength)  // the index has wrapped
      else if Nest(depth, wireType) == 0 then Span(pos + size)
      else if size > |d| then Bad(UnexpectedEOF)
      else SkipFrom(d[size..], Nest(depth, wireType), pos + size)
  }

  function Nest(depth: nat, wireType: nat): nat
    requires wireType == 4 ==> depth > 0
  {
    if wireType == 3 then depth + 1 else if wireType == 4 then depth - 1 else depth
  }

  function SkipRecord(d: seq<byte>): Length {
    SkipFrom(d, 0, 0)
  }

  // ---------- every record of the grammar is skipped exactly ----------

  lemma VarintRead(s: seq<byte>, rest: seq<byte>)
    requires WellFormed(s)
    ensures Read(s + rest) == Got(Value(s), |s|)
  {
    ReadUpToWellFormed(s, [], 10);
    assert s + [] == s;
    ReadPrefix(s, rest);
  }

  /** A tag and a body that are both there in full. */
  lemma HeadRead(tag: seq<byte>, body: seq<byte>, wireType: nat, rest: seq<byte>)
    requires IsTag(tag, wireType)
    requires BodyLength(wireType, body + rest) == Span(|body|)
    ensures ReadHead(tag + (body + rest)) == Head(wireType, |tag + body|)
  {
    VarintRead(tag, body + rest);
    assert (tag + (body + rest))[|tag|..] == body + rest;
  }

  /** Where the scan stands after a whole record that began inside `depth` groups. */
  function After(rest: seq<byte>, depth: nat, pos: nat): Length {
    if depth == 0 then Span(pos) else SkipFrom(rest, depth, pos)
  }

  lemma Step(tag: seq<byte>, body: seq<byte>, wireType: nat, rest: seq<byte>, depth: nat, pos: nat)
    requires IsTag(tag, wireType) && (wireType == 4 ==> depth > 0)
    requires BodyLength(wireType, body + rest) == Span(|body|)
    requires pos + |tag| + |body| + |rest| <= MAX_INT
    ensures SkipFrom(tag + (body + rest), depth, pos) == After(rest, Nest(depth, wireType), pos + |tag| + |body|)
  {
    var d := tag + (body + rest);
    HeadRead(tag, body, wireType, rest);
    assert d[|tag + body|..] == rest;
  }

  lemma FlatRecordStep(r: Record, rest: seq<byte>, depth: nat, pos: nat)
    requires Valid(r) && !r.GroupRecord? && pos + |Raw(r)| + |rest| <= MAX_INT
    ensures SkipFrom(Raw(r) + rest, depth, pos) == After(rest, depth, pos + |Raw(r)|)
  {
    hide SkipFrom, WellFormed, Read;
    if r.LengthRecord? {
      var body := r.len + r.payload;
      assert Raw(r) + rest == r.tag + (body + rest);
      assert body + rest == r.len + (r.payload + rest);
      VarintRead(r.len, r.payload + rest);
      Step(r.tag, body, 2, rest, depth, pos);
    } else {
      assert Raw(r) + rest == r.tag + (r.val + rest);
      if r.VarintRecord? {
        VarintRead(r.val, rest);
      }
      Step(r.tag, r.val, if r.VarintRecord? then 0 else if r.Fixed64Record? then 1 else 5, rest, depth, pos);
    }
  }

  lemma {:induction false} SkipsRecord(r: Record, rest: seq<byte>, depth: nat, pos: nat)
    requires Valid(r) && pos + |Raw(r)| + |rest| <= MAX_INT
    ensures SkipFrom(Raw(r) + rest, depth, pos) == After(rest, depth, pos + |Raw(r)|)
    decreases r
  {
    hide SkipFrom, IsTag, WellFormed;
    if r.GroupRecord? {
      var afterBody := r.end + rest;
      var inside := RawAll(r.body) + afterBody;
      assert Raw(r) + rest == r.tag + ([] + inside);
      Step(r.tag, [], 3, inside, depth, pos);
      SkipsRecords(r.body, afterBody, depth + 1, pos + |r.tag|);
      assert afterBody == r.end + ([] + rest);
      Step(r.end, [], 4, rest, depth + 1, pos + |r.tag| + |RawAll(r.body)|);
    } else {
      FlatRecordStep(r, rest, depth, pos);
    }
  }

  lemma {:induction false} SkipsRecords(rs: Records, rest: seq<byte>, depth: nat, pos: nat)
    requires AllValid(rs) && depth > 0 && pos + |RawAll(rs)| + |rest| <= MAX_INT
    ensures SkipFrom(RawAll(rs) + rest, depth, pos) == SkipFrom(rest, depth, pos + |RawAll(rs)|)
    decreases rs
  {
    hide SkipFrom, Raw, Valid;
    match rs
    case None =>
      assert [] + rest == rest;
    case More(head, tail) =>
      var then_ := RawAll(tail) + rest;
      assert RawAll(rs) + rest == Raw(head) + then_;
      SkipsRecord(head, then_, depth, pos);
      SkipsRecords(tail, rest, depth, pos + |Raw(head)|);
  }

  // ---------- whatever is skipped within the input is a record ----------

  /** What closes the open groups one by one: records, then an end-group tag. */
  datatype Closing = Closed | Close(body: Records, end: seq<byte>, outer: Closing)

  function RawClosing(c: Closing): seq<byte> {
    if c.Closed? then [] else RawAll(c.body) + (c.end + RawClosing(c.outer))
  }

  predicate ValidClosing(c: Closing, depth: nat) {
    if c.Closed? then depth == 0
    else depth > 0 && AllValid(c.body) && IsTag(c.end, 4) && ValidClosing(c.outer, depth - 1)
  }

  lemma TagOf(d: seq<byte>)
    requires Read(d).Got?
    ensures var tag := d[..Read(d).n]; WellFormed(tag) && Value(tag) == Read(d).v
  {
    var tag := d[..Read(d).n];
    ReadPrefix(d, []);
    assert d == tag + d[|tag|..];
    VarintRead(tag, d[|tag|..]);
  }

  /** A tag and body read off the front form a record, unless they open or close a group. */
  lemma FlatRecord(d: seq<byte>) returns (r: Record)
    requires ReadHead(d).Head? && ReadHead(d).wireType !in {3, 4} && ReadHead(d).size <= |d|
    ensures Valid(r) && Raw(r) == d[..ReadHead(d).size]
  {
    var n, size := Read(d).n, ReadHead(d).size;
    var tag, rest := d[..n], d[n..];
    assert d[..size] == tag + rest[..size - n] by { HeadParts(d); }
    HeadParts(d);
    hide ReadHead, BodyLength, IsTag;
    match ReadHead(d).wireType
    case 0 => r := FlatVarint(tag, rest);
    case 1 => r := FlatFixed(tag, rest, 1, 8);
    case 2 => r := FlatLength(tag, rest);
    case 5 => r := FlatFixed(tag, rest, 5, 4);
  }

  /** The two parts that a head is read from. */
  lemma HeadParts(d: seq<byte>)
    requires ReadHead(d).Head?
    ensures Read(d).Got? && IsTag(d[..Read(d).n], ReadHead(d).wireType)
    ensures ReadHead(d).size - Read(d).n >= 0
    ensures BodyLength(ReadHead(d).wireType, d[Read(d).n..]) == Span(ReadHead(d).size - Read(d).n)
    ensures ReadHead(d).wireType in {0, 1, 2, 3, 4, 5}
  {
    TagOf(d);
  }

  lemma FlatVarint(tag: seq<byte>, rest: seq<byte>) returns (r: Record)
    requires IsTag(tag, 0) && BodyLength(0, rest).Span? && BodyLength(0, rest).n <= |rest|
    ensures Valid(r) && Raw(r) == tag + rest[..BodyLength(0, rest).n]
  {
    hide IsTag;
    TagOf(rest);
    r := VarintRecord(tag, rest[..BodyLength(0, rest).n]);
  }

  lemma FlatFixed(tag: seq<byte>, rest: seq<byte>, wireType: nat, size: nat) returns (r: Record)
    requires (wireType == 1 && size == 8) || (wireType == 5 && size == 4)
    requires IsTag(tag, wireType) && size <= |rest|
    ensures BodyLength(wireType, rest) == Span(size) && Valid(r) && Raw(r) == tag + rest[..size]
  {
    hide IsTag;
    r := if wireType == 1 then Fixed64Record(tag, rest[..size]) else Fixed32Record(tag, rest[..size]);
  }

  lemma FlatLength(tag: seq<byte>, rest: seq<byte>) returns (r: Record)
    requires IsTag(tag, 2) && BodyLength(2, rest).Span? && BodyLength(2, rest).n <= |rest|
    ensures Valid(r) && Raw(r) == tag + rest[..BodyLength(2, rest).n]
  {
    hide IsTag, WellFormed, Read;
    TagOf(rest);
    var k, body := Read(rest).n, rest[..BodyLength(2, rest).n];
    assert body[..k] == rest[..k] && body == body[..k] + body[k..];
    r := LengthRecord(tag, body[..k], body[k..]);
    assert tag + body[..k] + body[k..] == tag + body;
  }

  /** A tag that opens or closes a group stands alone. */
  lemma GroupTag(d: seq<byte>)
    requires ReadHead(d).Head? && ReadHead(d).wireType in {3, 4}
    ensures ReadHead(d).size <= |d| && IsTag(d[..ReadHead(d).size], ReadHead(d).wireType)
  {
    TagOf(d);
  }

  /** A group whose body and end the inner levels have parsed, put before what its own level holds. */
  function CloseGroup(tag: seq<byte>, inner: Closing): Closing
    requires inner.Close? && inner.outer.Close?
  {
    var outer := inner.outer;
    Close(More(GroupRecord(tag, inner.body, inner.end), outer.body), outer.end, outer.outer)
  }

  lemma CloseGroupRaw(tag: seq<byte>, inner: Closing, depth: nat)
    requires depth > 0 && IsTag(tag, 3) && ValidClosing(inner, depth + 1)
    ensures inner.Close? && inner.outer.Close?
    ensures ValidClosing(CloseGroup(tag, inner), depth)
    ensures RawClosing(CloseGroup(tag, inner)) == tag + RawClosing(inner)
  {
    hide IsTag, Valid, Raw;
    var outer := inner.outer;
    var group := GroupRecord(tag, inner.body, inner.end);
    assert ValidClosing(outer, depth);
    GroupParts(tag, inner.body, inner.end);
    assert RawAll(More(group, outer.body)) == Raw(group) + RawAll(outer.body);
  }

  lemma GroupParts(tag: seq<byte>, body: Records, end: seq<byte>)
    requires IsTag(tag, 3) && AllValid(body) && IsTag(end, 4)
    ensures Valid(GroupRecord(tag, body, end)) && Raw(GroupRecord(tag, body, end)) == tag + RawAll(body) + end
  {
    hide IsTag;
  }

  lemma NoneOpen()
    ensures ValidClosing(Closed, 0) && RawClosing(Closed) == []
  {
  }

  /** One more record at the front of the innermost level. */
  function AddRecord(r: Record, inner: Closing): Closing
    requires inner.Close?
  {
    Close(More(r, inner.body), inner.end, inner.outer)
  }

  lemma AddRecordRaw(r: Record, inner: Closing, depth: nat)
    requires depth > 0 && Valid(r) && ValidClosing(inner, depth)
    ensures inner.Close? && ValidClosing(AddRecord(r, inner), depth)
    ensures RawClosing(AddRecord(r, inner)) == Raw(r) + RawClosing(inner)
  {
    hide Valid, IsTag, Raw;
  }

  lemma EndRaw(tag: seq<byte>, inner: Closing, depth: nat)
    requires IsTag(tag, 4) && ValidClosing(inner, depth)
    ensures ValidClosing(Close(None, tag, inner), depth + 1)
    ensures RawClosing(Close(None, tag, inner)) == tag + RawClosing(inner)
  {
    hide IsTag, Raw;
    assert [] + (tag + RawClosing(inner)) == tag + RawClosing(inner);
  }

  /** The parse inside `depth` groups: the records up to each end. */
  lemma {:induction false} ParseClosing(d: seq<byte>, depth: nat, pos: nat) returns (c: Closing)
    requires depth > 0 && SkipFrom(d, depth, pos).Span? && SkipFrom(d, depth, pos).n <= pos + |d|
    ensures pos <= SkipFrom(d, depth, pos).n
    ensures ValidClosing(c, depth) && RawClosing(c) == d[..SkipFrom(d, depth, pos).n - pos]
    decreases |d|
  {
    hide ReadHead, IsTag, Valid, Raw, RawAll, RawClosing, AddRecord, CloseGroup, ValidClosing;
    var wireType, size := ReadHead(d).wireType, ReadHead(d).size;
    var first, rest, taken := d[..size], d[size..], SkipFrom(d, depth, pos).n - pos;
    if wireType == 4 && depth == 1 {
      GroupTag(d);
      NoneOpen();
      EndRaw(first, Closed, 0);
      c := Close(None, first, Closed);
      assert first + [] == first;
    } else {
      var inner := ParseClosing(rest, Nest(depth, wireType), pos + size);
      assert d[..taken] == first + rest[..taken - size];
      if wireType == 3 {
        GroupTag(d);
        CloseGroupRaw(first, inner, depth);
        c := CloseGroup(first, inner);
      } else if wireType == 4 {
        GroupTag(d);
        EndRaw(first, inner, depth - 1);
        c := Close(None, first, inner);
      } else {
        var r := FlatRecord(d);
        AddRecordRaw(r, inner, depth);
        c := AddRecord(r, inner);
      }
    }
  }

  lemma ParseRecord(d: seq<byte>) returns (r: Record)
    requires SkipRecord(d).Span? && SkipRecord(d).n <= |d|
    ensures Valid(r) && Raw(r) == d[..SkipRecord(d).n]
  {
    hide ReadHead, IsTag;
    var size := ReadHead(d).size;
    if ReadHead(d).wireType == 3 {
      GroupTag(d);
      var inner := ParseClosing(d[size..], 1, size);
      r := GroupRecord(d[..size], inner.body, inner.end);
      assert inner.outer.Closed?;
      assert d[..SkipRecord(d).n] == d[..size] + d[size..][..SkipRecord(d).n - size];
    } else {
      r := FlatRecord(d);
    }
  }

  /**
   skipFido2 and the grammar agree in both directions: it returns n within the input exactly when
   the first n bytes are one record.
   */
  lemma SkipIffRecord(d: seq<byte>, n: nat)
    requires n <= |d| <= MAX_INT
    ensures SkipRecord(d) == Span(n) <==> exists r :: Valid(r) && Raw(r) == d[..n]
  {
    if SkipRecord(d) == Span(n) {
      var r := ParseRecord(d);
    }
    if r :| Valid(r) && Raw(r) == d[..n] {
      assert d == Raw(r) + d[n..];
      SkipsRecord(r, d[n..], 0, 0);
    }
  }

  // ---------- the loop ----------

  /** The jump over what the wire type says follows; the index returned may have wrapped. */
  method SkipBody(dAtA: seq<byte>, iNdEx: nat, wireType: nat) returns (next: int, err: Maybe<Error>)
    requires iNdEx <= |dAtA| <= MAX_INT
    ensures match BodyLength(wireType, dAtA[iNdEx..])
            case Bad(e) => err == Just(e)
            case Span(n) => err == Nothing && iNdEx + n < U64 && next == Int64(iNdEx + n)
  {
    hide Read;
    next, err := iNdEx, Nothing;
    match wireType
    case 0 =>
      var val := ReadVarint(dAtA, iNdEx, true);
      if val.Failed? {
        return 0, Just(val.error);
      }
      next := val.n;
    case 1 =>
      next := Int64(iNdEx + 8);
    case 2 =>
      var len := ReadVarint(dAtA, iNdEx, true);
      if len.Failed? {
        return 0, Just(len.error);
      }
      var length := Int64(len.v);
      if length < 0 {
        return 0, Just(InvalidLength);
      }
      next := Int64(len.n + length);
    case 3 =>
    case 4 =>
    case 5 =>
      next := Int64(iNdEx + 4);
    case _ =>
      err := Just(IllegalWireType(wireType));
  }

  /** One tag and the jump over its body. */
  method SkipHead(dAtA: seq<byte>, iNdEx: nat) returns (wireType: nat, next: int, err: Maybe<Error>)
    requires iNdEx < |dAtA| <= MAX_INT
    ensures match ReadHead(dAtA[iNdEx..])
            case BadHead(e) => err == Just(e)
            case Head(w, size) => err == Nothing && wireType == w && iNdEx + size < U64 && next == Int64(iNdEx + size)
  {
    hide Read, BodyLength;
    var tag := ReadVarint(dAtA, iNdEx, true);
    if tag.Failed? {
      return 0, 0, Just(tag.error);
    }
    var i := tag.n;
    assert dAtA[iNdEx..][i - iNdEx..] == dAtA[i..];
    wireType := tag.v % 8;
    next, err := SkipBody(dAtA, i, wireType);
  }

  method SkipFido2(dAtA: seq<byte>) returns (r: Length)
    requires |dAtA| <= MAX_INT
    ensures r == SkipRecord(dAtA)
  {
    hide ReadHead;
    var l, iNdEx, depth := |dAtA|, 0, 0;
    ghost var d := dAtA;
    while iNdEx < l
      invariant 0 <= iNdEx && 0 <= depth
      invariant iNdEx <= l ==> d == dAtA[iNdEx..] && SkipRecord(dAtA) == SkipFrom(d, depth, iNdEx)
      invariant iNdEx > l ==> SkipRecord(dAtA) == Bad(UnexpectedEOF)
      decreases l - iNdEx
    {
      var wireType, next, err := SkipHead(dAtA, iNdEx);
      if err.Just? {
        return Bad(err.value);
      }
      if wireType == 3 {
        depth := depth + 1;
      } else if wireType == 4 {
        if depth == 0 {
          return Bad(UnexpectedEndOfGroup);
        }
        depth := depth - 1;
      }
      if next < 0 {
        return Bad(InvalidLength);
      }
      if depth == 0 {
        return Span(next);
      }
      d := if next <= l then d[next - iNdEx..] else [];
      iNdEx := next;
    }
    return Bad(UnexpectedEOF);
  }
}
