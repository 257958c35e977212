/**
 The generated Unmarshal loop, over any message: items are read off the front of the input and
 applied one by one (Protocol Buffers "Encoding" guide, sections "Message Structure" and
 "Last One Wins"). A message type supplies only its field table and how an item changes it.
 */
module Wire {
  import opened GoTypes
  import opened Varint
  import opened Skip

  datatype Kind = UnknownKind | Int32Kind | BlobKind

  datatype Item =
    | Scalar(num: nat, c: int32)
    | Blob(num: nat, payload: seq<byte>)
    | Unrecognized(raw: seq<byte>)

  datatype ItemRead = ItemAt(item: Item, n: nat) | BadItem(error: Error)
  datatype BlobRead = BlobAt(payload: seq<byte>, n: nat) | BadBlob(error: Error)

  /** The declared fields of a message, and the bytes of records it does not know. */
  datatype Message<+F> = Message(fields: F, unknown: Slice)

  datatype Applied<+F> = Set(fields: F) | Rejected(error: Error)
  datatype Outcome<+F> = Parsed(m: Message<F>) | Refused(error: Error)

  /** A message type: which field numbers it declares, and what one of their items does. */
  datatype Schema<!F> = Schema(kind: int -> Kind, apply: (F, Item) -> Applied<F>)

  // ---------- reading one item ----------

  /** A length-delimited value at absolute index pos. */
  function ReadBlob(d: seq<byte>, pos: nat): (r: BlobRead)
    ensures r.BlobAt? ==> |r.payload| <= r.n <= |d|
  {
    match Read(d)
    case Failed(e) => BadBlob(e)
    case Got(len, k) =>
      if len > MAX_INT then BadBlob(InvalidLength)             // int(len) is negative
      else if pos + k + len > MAX_INT then BadBlob(InvalidLength)  // the end index wraps
      else if k + len > |d| then BadBlob(UnexpectedEOF)
      else BlobAt(d[k..k + len], k + len)
  }

  function ReadUnrecognized(d: seq<byte>, pos: nat): (r: ItemRead)
    ensures r.ItemAt? ==> 1 <= r.n <= |d| && r.item == Unrecognized(d[..r.n])
  {
    match SkipRecord(d)
    case Bad(e) => BadItem(e)
    case Span(k) =>
      if pos + k > MAX_INT then BadItem(InvalidLength)
      else if k > |d| then BadItem(UnexpectedEOF)
      else ItemAt(Unrecognized(d[..k]), k)
  }

  function ReadField(kind: Kind, num: nat, wireType: nat, d: seq<byte>, pos: nat): (r: ItemRead)
    requires !kind.UnknownKind?
    ensures r.ItemAt? ==> r.n <= |d| && !r.item.Unrecognized?
    ensures r.ItemAt? && r.item.Blob? ==> |r.item.payload| <= |d|
  {
    if kind.Int32Kind? then
      if wireType != 0 then BadItem(WrongWireType(wireType, num)) else
      match Read(d)
      case Failed(e) => BadItem(e)
      case Got(v, n) => ItemAt(Scalar(num, Int32(v)), n)
    else
      if wireType != 2 then BadItem(WrongWireType(wireType, num)) else
      match ReadBlob(d, pos)
      case BadBlob(e) => BadItem(e)
      case BlobAt(payload, n) => ItemAt(Blob(num, payload), n)
  }

  /** One pass of the Unmarshal loop up to the point where the message changes. */
  function NextItem(kind: int -> Kind, d: seq<byte>, pos: nat): (r: ItemRead)
    ensures r.ItemAt? ==> 1 <= r.n <= |d|
    ensures r.ItemAt? && r.item.Unrecognized? ==> r.item.raw == d[..r.n]
    ensures r.ItemAt? && r.item.Blob? ==> |r.item.payload| <= |d|
  {
    match Read(d)
    case Failed(e) => BadItem(e)
    case Got(wire, n) =>
      var fieldNum, wireType := Int32(wire / 8), wire % 8;
      if wireType == 4 then BadItem(EndGroup)
      else if fieldNum <= 0 then BadItem(IllegalTag(fieldNum, wire))
      else if kind(fieldNum).UnknownKind? then ReadUnrecognized(d, pos)
      else
        match ReadField(kind(fieldNum), fieldNum, wireType, d[n..], pos + n)
        case BadItem(e) => BadItem(e)
        case ItemAt(item, k) => ItemAt(item, n + k)
  }

  // ---------- the whole loop ----------

  function Absorbed(unknown: Slice, raw: seq<byte>): Slice {
    if raw == [] then unknown else Bytes(unknown.Data() + raw)
  }

  function Take<F>(s: Schema<F>, m: Message<F>, item: Item): Outcome<F> {
    match item
    case Unrecognized(raw) => Parsed(Message(m.fields, Absorbed(m.unknown, raw)))
    case _ =>
      match s.apply(m.fields, item)
      case Rejected(e) => Refused(e)
      case Set(f) => Parsed(Message(f, m.unknown))
  }

  /** Unmarshal `d`, which begins at absolute index pos, into m. */
  function Run<F>(s: Schema<F>, m: Message<F>, d: seq<byte>, pos: nat): Outcome<F>
    decreases |d|
  {
    if d == [] then Parsed(m) else
    match NextItem(s.kind, d, pos)
    case BadItem(e) => Refused(e)
    case ItemAt(item, n) =>
      match Take(s, m, item)
      case Refused(e) => Refused(e)
      case Parsed(m') => Run(s, m', d[n..], pos + n)
  }

  lemma Unfold<F>(s: Schema<F>, m: Message<F>, d: seq<byte>, pos: nat)
    requires d != []
    ensures Run(s, m, d, pos)
         == match NextItem(s.kind, d, pos)
            case BadItem(e) => Refused(e)
            case ItemAt(item, n) =>
              match Take(s, m, item)
              case Refused(e) => Refused(e)
              case Parsed(m') => Run(s, m', d[n..], pos + n)
  {
    hide NextItem, Take;
  }

  /** The loop at absolute index i of `data`. */
  lemma RunStep<F>(s: Schema<F>, m: Message<F>, data: seq<byte>, i: nat)
    requires i < |data|
    ensures Run(s, m, data[i..], i)
         == match NextItem(s.kind, data[i..], i)
            case BadItem(e) => Refused(e)
            case ItemAt(item, n) =>
              match Take(s, m, item)
              case Refused(e) => Refused(e)
              case Parsed(m') => Run(s, m', data[i + n..], i + n)
  {
    hide NextItem, Take, Run;
    Unfold(s, m, data[i..], i);
    var r := NextItem(s.kind, data[i..], i);
    if r.ItemAt? {
      assert data[i..][r.n..] == data[i + r.n..];
    }
  }

  lemma RunEnd<F>(s: Schema<F>, m: Message<F>, data: seq<byte>)
    ensures Run(s, m, data[|data|..], |data|) == Parsed(m)
  {
  }

  function Unmarshal<F>(s: Schema<F>, m: Message<F>, d: seq<byte>): Outcome<F> {
    Run(s, m, d, 0)
  }

  // ---------- concatenation is merge ----------

  lemma SkipPrefix(a: seq<byte>, b: seq<byte>)
    requires SkipRecord(a).Span? && SkipRecord(a).n <= |a| && |a| + |b| <= MAX_INT
    ensures SkipRecord(a + b) == SkipRecord(a)
  {
    var n := SkipRecord(a).n;
    var r := ParseRecord(a);
    hide SkipFrom, Valid;
    assert a + b == Raw(r) + (a[n..] + b);
    SkipsRecord(r, a[n..] + b, 0, 0);
  }

  lemma ReadFieldPrefix(kind: Kind, num: nat, wireType: nat, a: seq<byte>, b: seq<byte>, pos: nat, pos': nat)
    requires !kind.UnknownKind?
    requires ReadField(kind, num, wireType, a, pos).ItemAt? && pos' + |a| + |b| <= MAX_INT
    ensures ReadField(kind, num, wireType, a + b, pos') == ReadField(kind, num, wireType, a, pos)
  {
    hide Read;
    ReadPrefix(a, b);
    if kind.BlobKind? {
      var len, k := Read(a).v, Read(a).n;
      assert (a + b)[k..k + len] == a[k..k + len];
    }
  }

  /** An item that can be read does not depend on what follows it, nor on where it stands. */
  lemma NextItemPrefix(kind: int -> Kind, a: seq<byte>, b: seq<byte>, pos: nat, pos': nat)
    requires NextItem(kind, a, pos).ItemAt? && pos' + |a| + |b| <= MAX_INT
    ensures NextItem(kind, a + b, pos') == NextItem(kind, a, pos)
  {
    hide Read, ReadField, SkipRecord;
    ReadPrefix(a, b);
    var wire, n := Read(a).v, Read(a).n;
    if kind(Int32(wire / 8)).UnknownKind? {
      SkipPrefix(a, b);
      var k := SkipRecord(a).n;
      assert (a + b)[..k] == a[..k];
    } else {
      assert (a + b)[n..] == a[n..] + b;
      ReadFieldPrefix(kind(Int32(wire / 8)), Int32(wire / 8), wire % 8, a[n..], b, pos + n, pos' + n);
    }
  }

  /** If `a` parses, the loop goes on with `b` in the message that `a` gave, errors included. */
  lemma {:induction false} RunConcat<F>(s: Schema<F>, m: Message<F>, a: seq<byte>, b: seq<byte>, pos: nat)
    requires Run(s, m, a, pos).Parsed? && pos + |a| + |b| <= MAX_INT
    ensures Run(s, m, a + b, pos) == Run(s, Run(s, m, a, pos).m, b, pos + |a|)
    decreases |a|
  {
    hide NextItem, Take;
    if a == [] {
      assert a + b == b;
    } else {
      hide Run;
      Unfold(s, m, a, pos);
      Unfold(s, m, a + b, pos);
      NextItemPrefix(s.kind, a, b, pos, pos);
      var n := NextItem(s.kind, a, pos).n;
      assert (a + b)[n..] == a[n..] + b;
      RunConcat(s, Take(s, m, NextItem(s.kind, a, pos).item).m, a[n..], b, pos + n);
    }
  }

  /** Where the input stands decides only which error an over-long length is reported as. */
  lemma {:induction false} RunAnywhere<F>(s: Schema<F>, m: Message<F>, d: seq<byte>, pos: nat, pos': nat)
    requires pos + |d| <= MAX_INT && pos' + |d| <= MAX_INT
    ensures Run(s, m, d, pos).Parsed? <==> Run(s, m, d, pos').Parsed?
    ensures Run(s, m, d, pos).Parsed? ==> Run(s, m, d, pos) == Run(s, m, d, pos')
    decreases |d|
  {
    hide NextItem, Take;
    if d != [] {
      assert d + [] == d;
      var r, r' := NextItem(s.kind, d, pos), NextItem(s.kind, d, pos');
      if r.ItemAt? {
        NextItemPrefix(s.kind, d, [], pos, pos');
      } else if r'.ItemAt? {
        NextItemPrefix(s.kind, d, [], pos', pos);
      }
      if r.ItemAt? && Take(s, m, r.item).Parsed? {
        RunAnywhere(s, Take(s, m, r.item).m, d[r.n..], pos + r.n, pos' + r.n);
      }
    }
  }

  /** Unmarshalling a ++ b is unmarshalling a and then b into the result: one parses iff the other does. */
  lemma {:induction false} ConcatenationIsMerge<F>(s: Schema<F>, m: Message<F>, a: seq<byte>, b: seq<byte>)
    requires |a| + |b| <= MAX_INT
    requires Unmarshal(s, m, a).Parsed?
    ensures var m' := Unmarshal(s, m, a).m;
            && (Unmarshal(s, m, a + b).Parsed? <==> Unmarshal(s, m', b).Parsed?)
            && (Unmarshal(s, m', b).Parsed? ==> Unmarshal(s, m, a + b) == Unmarshal(s, m', b))
  {
    hide Run;
    RunConcat(s, m, a, b, 0);
    RunAnywhere(s, Run(s, m, a, 0).m, b, |a|, 0);
  }

  // ---------- writing items, and reading them back ----------

  const MAX_FIELD := 0x1FFF_FFFF

  function EncodeItem(item: Item): seq<byte> {
    match item
    case Scalar(num, c) => Encode(8 * num) + Encode(SignExtend(c))
    case Blob(num, payload) => Encode(8 * num + 2) + Encode(|payload|) + payload
    case Unrecognized(raw) => raw
  }

  /** An item of a declared field, of the right shape. */
  predicate Declared(kind: int -> Kind, item: Item) {
    && !item.Unrecognized?
    && 1 <= item.num <= MAX_FIELD
    && match item
       case Scalar(num, _) => kind(num).Int32Kind?
       case Blob(num, _) => kind(num).BlobKind?
  }

  predicate Fits(kind: int -> Kind, item: Item) {
    Declared(kind, item) && (item.Blob? ==> |item.payload| <= MAX_INT)
  }

  predicate AllFit(kind: int -> Kind, items: seq<Item>) {
    forall k :: 0 <= k < |items| ==> Fits(kind, items[k])
  }

  function EncodeItems(items: seq<Item>): seq<byte> {
    if items == [] then [] else EncodeItem(items[0]) + EncodeItems(items[1..])
  }

  lemma {:induction false} EncodeItemsConcat(a: seq<Item>, b: seq<Item>)
    ensures EncodeItems(a + b) == EncodeItems(a) + EncodeItems(b)
  {
    hide EncodeItem;
    if a == [] {
      assert a + b == b;
    } else {
      assert (a + b)[1..] == a[1..] + b;
      EncodeItemsConcat(a[1..], b);
    }
  }

  lemma TagRoundTrip(num: int, wireType: nat, rest: seq<byte>)
    requires 1 <= num <= MAX_FIELD && wireType < 8
    ensures var tag := Encode(8 * num + wireType);
            Read(tag + rest) == Got(8 * num + wireType, |tag|) && (tag + rest)[|tag|..] == rest
    ensures Int32((8 * num + wireType) / 8) == num && (8 * num + wireType) % 8 == wireType
  {
    hide Read;
    ReadEncode(8 * num + wireType, rest);
  }

  /** A negative int32 is sent sign-extended, in ten bytes, and still comes back. */
  lemma NextScalar(kind: int -> Kind, num: nat, c: int32, rest: seq<byte>, pos: nat)
    requires Fits(kind, Scalar(num, c))
    ensures var bytes := EncodeItem(Scalar(num, c));
            NextItem(kind, bytes + rest, pos) == ItemAt(Scalar(num, c), |bytes|)
  {
    hide Read, Encode, Int32;
    var after := Encode(SignExtend(c)) + rest;
    assert EncodeItem(Scalar(num, c)) + rest == Encode(8 * num) + after;
    TagRoundTrip(num, 0, after);
    ReadEncode(SignExtend(c), rest);
  }

  lemma NextBlob(kind: int -> Kind, num: nat, payload: seq<byte>, rest: seq<byte>, pos: nat)
    requires Fits(kind, Blob(num, payload)) && pos + |EncodeItem(Blob(num, payload))| + |rest| <= MAX_INT
    ensures var bytes := EncodeItem(Blob(num, payload));
            NextItem(kind, bytes + rest, pos) == ItemAt(Blob(num, payload), |bytes|)
  {
    hide Read, Encode, Int32;
    var after := Encode(|payload|) + (payload + rest);
    assert EncodeItem(Blob(num, payload)) + rest == Encode(8 * num + 2) + after;
    TagRoundTrip(num, 2, after);
    ReadEncode(|payload|, payload + rest);
    var k := |Encode(|payload|)|;
    assert after[k..k + |payload|] == payload;
  }

  lemma NextItemEncode(kind: int -> Kind, item: Item, rest: seq<byte>, pos: nat)
    requires Fits(kind, item) && pos + |EncodeItem(item)| + |rest| <= MAX_INT
    ensures NextItem(kind, EncodeItem(item) + rest, pos) == ItemAt(item, |EncodeItem(item)|)
  {
    hide NextItem, EncodeItem;
    match item
    case Scalar(num, c) => NextScalar(kind, num, c, rest, pos);
    case Blob(num, payload) => NextBlob(kind, num, payload, rest, pos);
  }

  /** Items of declared fields fit as soon as the whole message is no longer than a slice can be. */
  lemma {:induction false} SizeFits(kind: int -> Kind, items: seq<Item>)
    requires |EncodeItems(items)| <= MAX_INT
    requires forall k :: 0 <= k < |items| ==> Declared(kind, items[k])
    ensures AllFit(kind, items)
  {
    hide Encode;
    if items != [] {
      SizeFits(kind, items[1..]);
      assert Fits(kind, items[0]);
      forall k | 0 < k < |items| ensures Fits(kind, items[k]) {
        assert items[k] == items[1..][k - 1];
      }
    }
  }

  /** The items applied in order. */
  function Fold<F>(s: Schema<F>, f: F, items: seq<Item>): Applied<F> {
    if items == [] then Set(f) else
    match s.apply(f, items[0])
    case Rejected(e) => Rejected(e)
    case Set(f') => Fold(s, f', items[1..])
  }

  lemma {:induction false} FoldConcat<F>(s: Schema<F>, f: F, a: seq<Item>, b: seq<Item>)
    ensures Fold(s, f, a + b) == match Fold(s, f, a)
                                 case Rejected(e) => Rejected(e)
                                 case Set(f') => Fold(s, f', b)
  {
    if a == [] {
      assert a + b == b;
    } else {
      assert (a + b)[1..] == a[1..] + b;
      var r := s.apply(f, a[0]);
      if r.Set? {
        FoldConcat(s, r.fields, a[1..], b);
      }
    }
  }

  /** What Marshal writes for a field that is left out when empty. */
  function OptBlob(num: nat, payload: seq<byte>): seq<Item> {
    if payload == [] then [] else [Blob(num, payload)]
  }

  function OptBytes(num: nat, payload: seq<byte>): seq<byte> {
    if payload == [] then [] else EncodeItem(Blob(num, payload))
  }

  lemma EncodeOpt(items: seq<Item>, num: nat, payload: seq<byte>)
    ensures EncodeItems(items + OptBlob(num, payload)) == EncodeItems(items) + OptBytes(num, payload)
  {
    EncodeItemsConcat(items, OptBlob(num, payload));
    if payload == [] {
      assert EncodeItems(OptBlob(num, payload)) == [];
    } else {
      EncodeOne(Blob(num, payload));
    }
  }

  lemma EncodeFirst(num: nat, payload: seq<byte>)
    ensures EncodeItems(OptBlob(num, payload)) == OptBytes(num, payload)
  {
    if payload != [] {
      EncodeOne(Blob(num, payload));
    }
  }

  lemma EncodeOne(item: Item)
    ensures EncodeItems([item]) == EncodeItem(item)
  {
    assert [item][1..] == [];
    assert EncodeItem(item) + [] == EncodeItem(item);
  }

  /** What Marshal writes for a repeated field. */
  function Blobs(num: nat, payloads: seq<seq<byte>>): (items: seq<Item>)
    ensures forall k :: 0 <= k < |items| ==> items[k].Blob? && items[k].num == num
  {
    if payloads == [] then [] else [Blob(num, payloads[0])] + Blobs(num, payloads[1..])
  }

  lemma {:induction false} RunItems<F>(s: Schema<F>, m: Message<F>, items: seq<Item>, rest: seq<byte>, pos: nat)
    requires AllFit(s.kind, items) && pos + |EncodeItems(items)| + |rest| <= MAX_INT
    ensures Run(s, m, EncodeItems(items) + rest, pos)
         == match Fold(s, m.fields, items)
            case Rejected(e) => Refused(e)
            case Set(f) => Run(s, Message(f, m.unknown), rest, pos + |EncodeItems(items)|)
    decreases |items|
  {
    hide NextItem, EncodeItem, Run;
    if items == [] {
      assert EncodeItems(items) + rest == rest;
    } else {
      var d, first := EncodeItems(items) + rest, EncodeItem(items[0]);
      var tail := EncodeItems(items[1..]) + rest;
      assert d == first + tail;
      NextItemEncode(s.kind, items[0], tail, pos);
      assert d[|first|..] == tail;
      Unfold(s, m, d, pos);
      var r := s.apply(m.fields, items[0]);
      if r.Set? {
        RunItems(s, Message(r.fields, m.unknown), items[1..], rest, pos + |first|);
      }
    }
  }

  // ---------- unknown bytes ----------

  /** The bytes are whole records that the message type does not declare. */
  predicate UnknownRecords(kind: int -> Kind, u: seq<byte>)
    decreases |u|
  {
    u != [] ==>
      && NextItem(kind, u, 0).ItemAt?
      && NextItem(kind, u, 0).item.Unrecognized?
      && UnknownRecords(kind, u[NextItem(kind, u, 0).n..])
  }

  predicate Undeclared(kind: int -> Kind, r: Record)
    requires Valid(r)
  {
    Int32(Value(r.tag) / 8) > 0 && kind(Int32(Value(r.tag) / 8)).UnknownKind?
  }

  predicate AllUndeclared(kind: int -> Kind, rs: Records)
    requires AllValid(rs)
  {
    rs.More? ==> Undeclared(kind, rs.head) && AllUndeclared(kind, rs.tail)
  }

  /** A record of an undeclared field is read as one item, whatever follows. */
  lemma NextRecord(kind: int -> Kind, r: Record, rest: seq<byte>)
    requires Valid(r) && Undeclared(kind, r) && |Raw(r)| + |rest| <= MAX_INT
    ensures NextItem(kind, Raw(r) + rest, 0) == ItemAt(Unrecognized(Raw(r)), |Raw(r)|)
  {
    hide Read, SkipFrom;
    var afterTag := Raw(r)[|r.tag|..] + rest;
    assert Raw(r) + rest == r.tag + afterTag;
    VarintRead(r.tag, afterTag);
    SkipsRecord(r, rest, 0, 0);
    assert (Raw(r) + rest)[..|Raw(r)|] == Raw(r);
  }

  /** Unknown bytes in terms of the grammar alone. */
  lemma {:induction false} UnknownIffRecords(kind: int -> Kind, u: seq<byte>)
    requires |u| <= MAX_INT
    ensures UnknownRecords(kind, u) <==> exists rs :: AllValid(rs) && AllUndeclared(kind, rs) && RawAll(rs) == u
    decreases |u|
  {
    hide NextItem, Undeclared;
    if UnknownRecords(kind, u) {
      var rs := RecordsOf(kind, u);
    }
    if rs :| AllValid(rs) && AllUndeclared(kind, rs) && RawAll(rs) == u {
      RecordsAreUnknown(kind, rs);
    }
  }

  lemma FirstRecord(kind: int -> Kind, u: seq<byte>) returns (r: Record)
    requires NextItem(kind, u, 0).ItemAt? && NextItem(kind, u, 0).item.Unrecognized?
    ensures Valid(r) && Undeclared(kind, r) && Raw(r) == u[..NextItem(kind, u, 0).n]
  {
    hide SkipFrom, Read, WellFormed;
    r := ParseRecord(u);
    assert u == r.tag + u[|r.tag|..];
    VarintRead(r.tag, u[|r.tag|..]);
  }

  lemma {:induction false} RecordsOf(kind: int -> Kind, u: seq<byte>) returns (rs: Records)
    requires UnknownRecords(kind, u)
    ensures AllValid(rs) && AllUndeclared(kind, rs) && RawAll(rs) == u
    decreases |u|
  {
    hide NextItem, Undeclared, Valid, Raw;
    if u == [] {
      rs := None;
    } else {
      var r := FirstRecord(kind, u);
      var tail := RecordsOf(kind, u[NextItem(kind, u, 0).n..]);
      rs := More(r, tail);
    }
  }

  lemma {:induction false} RecordsAreUnknown(kind: int -> Kind, rs: Records)
    requires AllValid(rs) && AllUndeclared(kind, rs) && |RawAll(rs)| <= MAX_INT
    ensures UnknownRecords(kind, RawAll(rs))
    decreases rs
  {
    hide NextItem, Undeclared, Valid, Raw;
    if rs.More? {
      NextRecord(kind, rs.head, RawAll(rs.tail));
      assert RawAll(rs)[|Raw(rs.head)|..] == RawAll(rs.tail);
      RecordsAreUnknown(kind, rs.tail);
    }
  }

  /** Unknown records are kept, in order. */
  lemma {:induction false} RunUnknown<F>(s: Schema<F>, m: Message<F>, u: seq<byte>, pos: nat)
    requires UnknownRecords(s.kind, u) && pos + |u| <= MAX_INT
    ensures Run(s, m, u, pos) == Parsed(Message(m.fields, Absorbed(m.unknown, u)))
    decreases |u|
  {
    hide NextItem;
    if u != [] {
      var r := NextItem(s.kind, u, 0);
      assert u + [] == u;
      NextItemPrefix(s.kind, u, [], 0, pos);
      var m' := Message(m.fields, Absorbed(m.unknown, u[..r.n]));
      assert Take(s, m, r.item) == Parsed(m');
      RunUnknown(s, m', u[r.n..], pos + r.n);
      assert m.unknown.Data() + u == m.unknown.Data() + u[..r.n] + u[r.n..];
    }
  }

  /** If as many bytes came out unknown as went in, every record was unknown and nothing else changed. */
  lemma {:induction false} OnlyUnknown<F>(s: Schema<F>, m: Message<F>, u: seq<byte>, pos: nat)
    requires pos + |u| <= MAX_INT && Run(s, m, u, pos).Parsed?
    ensures |Run(s, m, u, pos).m.unknown.Data()| <= |m.unknown.Data()| + |u|
    ensures |Run(s, m, u, pos).m.unknown.Data()| == |m.unknown.Data()| + |u| ==> UnknownRecords(s.kind, u)
    decreases |u|
  {
    hide NextItem;
    if u != [] {
      var r := NextItem(s.kind, u, pos);
      assert u + [] == u;
      NextItemPrefix(s.kind, u, [], pos, 0);
      OnlyUnknown(s, Take(s, m, r.item).m, u[r.n..], pos + r.n);
    }
  }

  // ---------- round trips, for any message type ----------

  /**
   The bytes of a message, unmarshalled into `start`: its items fold into the fields and its
   unknown records are appended.
   */
  lemma {:induction false} MergeEncoded<F>(s: Schema<F>, start: Message<F>, items: seq<Item>, u: seq<byte>)
    requires AllFit(s.kind, items) && |EncodeItems(items)| + |u| <= MAX_INT
    requires Fold(s, start.fields, items).Set? && UnknownRecords(s.kind, u)
    ensures Unmarshal(s, start, EncodeItems(items) + u)
         == Parsed(Message(Fold(s, start.fields, items).fields, Absorbed(start.unknown, u)))
  {
    hide Run, Fold, UnknownRecords;
    RunItems(s, start, items, u, 0);
    RunUnknown(s, Message(Fold(s, start.fields, items).fields, start.unknown), u, |EncodeItems(items)|);
  }

  lemma AbsorbedByNil(x: Slice)
    ensures Absorbed(Nil, x.Data()) == x <==> x != Bytes([])
  {
    assert [] + x.Data() == x.Data();
  }

  /**
   Unmarshalling the bytes of m into an empty message gives m back exactly when its unknown bytes
   are whole undeclared records, are not an empty non-nil slice, and its items fold into its fields.
   */
  lemma {:induction false} RoundTripIff<F>(s: Schema<F>, empty: F, m: Message<F>, items: seq<Item>)
    requires AllFit(s.kind, items) && |EncodeItems(items)| + |m.unknown.Data()| <= MAX_INT
    ensures Unmarshal(s, Message(empty, Nil), EncodeItems(items) + m.unknown.Data()) == Parsed(m)
       <==> && UnknownRecords(s.kind, m.unknown.Data())
            && m.unknown != Bytes([])
            && Fold(s, empty, items) == Set(m.fields)
  {
    hide Run, Fold, UnknownRecords, EncodeItems, AllFit, Absorbed, NextItem;
    var u, start, done := m.unknown.Data(), Message(empty, Nil), |EncodeItems(items)|;
    RunItems(s, start, items, u, 0);
    AbsorbedByNil(m.unknown);
    if Fold(s, empty, items).Set? {
      var middle := Message(Fold(s, empty, items).fields, Nil);
      if UnknownRecords(s.kind, u) {
        RunUnknown(s, middle, u, done);
      } else if Run(s, middle, u, done).Parsed? {
        OnlyUnknown(s, middle, u, done);
      }
    }
  }
}
