/**
 The wire form, in bytes: which input begins with which item, what happens to every other field number
 and wire type, and what a code looks like (Protocol Buffers "Encoding" guide, section "Message Structure").
 */
module WireForm {
  import opened GoTypes
  import opened Varint
  import opened Skip
  import opened Wire
  import opened Messages

  // ---------- items of declared fields, both directions ----------

  /** The tag varint of a field: number and wire type in groups of bits, the number a positive int32. */
  predicate FieldTag(tag: seq<byte>, num: int, wireType: nat) {
    && WellFormed(tag) && Value(tag) % 8 == wireType
    && 0 < num < 0x8000_0000 && Value(tag) / 8 % 0x1_0000_0000 == num
  }

  predicate BlobForm(d: seq<byte>, tag: seq<byte>, len: seq<byte>, num: int, p: seq<byte>) {
    FieldTag(tag, num, 2) && WellFormed(len) && Value(len) == |p| && tag + len + p == d
  }

  predicate ScalarForm(d: seq<byte>, tag: seq<byte>, val: seq<byte>, num: int, c: int32) {
    FieldTag(tag, num, 0) && WellFormed(val) && (Value(val) - c) % 0x1_0000_0000 == 0 && tag + val == d
  }

  lemma NumberIs(wire: nat, num: int)
    ensures Int32(wire / 8) == num && num > 0 <==> 0 < num < 0x8000_0000 && wire / 8 % 0x1_0000_0000 == num
  {
  }

  /** A length-delimited item is read exactly when the input begins with tag, length and that many bytes. */
  lemma BlobItemIff(kind: int -> Kind, d: seq<byte>, pos: nat, num: nat, p: seq<byte>, n: nat)
    requires pos + |d| <= MAX_INT
    ensures NextItem(kind, d, pos) == ItemAt(Blob(num, p), n)
       <==> n <= |d| && kind(num).BlobKind? && exists tag, len :: BlobForm(d[..n], tag, len, num, p)
  {
    if NextItem(kind, d, pos) == ItemAt(Blob(num, p), n) {
      BlobItemForm(kind, d, pos, num, p, n);
    }
    if n <= |d| && kind(num).BlobKind? {
      if tag, len :| BlobForm(d[..n], tag, len, num, p) {
        BlobFormItem(kind, d, pos, num, p, n, tag, len);
      }
    }
  }

  lemma BlobItemParts(kind: int -> Kind, d: seq<byte>, pos: nat, num: nat, p: seq<byte>, n: nat)
    requires NextItem(kind, d, pos) == ItemAt(Blob(num, p), n)
    ensures n <= |d| && num > 0 && kind(num).BlobKind?
    ensures Read(d).Got? && Read(d).v % 8 == 2 && Int32(Read(d).v / 8) == num
    ensures var rest := d[Read(d).n..];
            && Read(rest).Got? && Read(rest).v == |p| && n == Read(d).n + Read(rest).n + |p|
            && rest[Read(rest).n..Read(rest).n + |p|] == p
  {
    hide Read, Int32;
  }

  lemma BlobItemForm(kind: int -> Kind, d: seq<byte>, pos: nat, num: nat, p: seq<byte>, n: nat)
    requires pos + |d| <= MAX_INT && NextItem(kind, d, pos) == ItemAt(Blob(num, p), n)
    ensures n <= |d| && kind(num).BlobKind? && exists tag, len :: BlobForm(d[..n], tag, len, num, p)
  {
    hide Read, WellFormed, Value, Int32, NextItem;
    BlobItemParts(kind, d, pos, num, p, n);
    TagOf(d);
    NumberIs(Read(d).v, num);
    var tag, rest := d[..Read(d).n], d[Read(d).n..];
    TagOf(rest);
    var len := rest[..Read(rest).n];
    assert rest[..n - |tag|] == len + p;
    assert d[..n] == tag + len + p;
    assert BlobForm(d[..n], tag, len, num, p);
  }

  lemma BlobFormItem(kind: int -> Kind, d: seq<byte>, pos: nat, num: nat, p: seq<byte>, n: nat, tag: seq<byte>, len: seq<byte>)
    requires pos + |d| <= MAX_INT && n <= |d| && kind(num).BlobKind? && BlobForm(d[..n], tag, len, num, p)
    ensures NextItem(kind, d, pos) == ItemAt(Blob(num, p), n)
  {
    hide Read, WellFormed, Value, Int32;
    var rest := len + (p + d[n..]);
    assert d == d[..n] + d[n..] == tag + rest;
    VarintRead(tag, rest);
    NumberIs(Value(tag), num);
    assert d[|tag|..] == rest;
    VarintRead(len, p + d[n..]);
    assert rest[|len|..|len| + |p|] == p;
  }

  /** An int32 item is read exactly when the input begins with tag and varint; the value counts modulo 2^32. */
  lemma ScalarItemIff(kind: int -> Kind, d: seq<byte>, pos: nat, num: nat, c: int32, n: nat)
    ensures NextItem(kind, d, pos) == ItemAt(Scalar(num, c), n)
       <==> n <= |d| && kind(num).Int32Kind? && exists tag, val :: ScalarForm(d[..n], tag, val, num, c)
  {
    if NextItem(kind, d, pos) == ItemAt(Scalar(num, c), n) {
      ScalarItemForm(kind, d, pos, num, c, n);
    }
    if n <= |d| && kind(num).Int32Kind? {
      if tag, val :| ScalarForm(d[..n], tag, val, num, c) {
        ScalarFormItem(kind, d, pos, num, c, n, tag, val);
      }
    }
  }

  lemma CodeIs(v: nat, c: int32)
    ensures Int32(v) == c <==> (v - c) % 0x1_0000_0000 == 0
  {
  }

  lemma ScalarItemForm(kind: int -> Kind, d: seq<byte>, pos: nat, num: nat, c: int32, n: nat)
    requires NextItem(kind, d, pos) == ItemAt(Scalar(num, c), n)
    ensures n <= |d| && kind(num).Int32Kind? && exists tag, val :: ScalarForm(d[..n], tag, val, num, c)
  {
    hide Read, WellFormed, Value, Int32;
    TagOf(d);
    NumberIs(Read(d).v, num);
    var tag, rest := d[..Read(d).n], d[Read(d).n..];
    TagOf(rest);
    var val := rest[..Read(rest).n];
    CodeIs(Read(rest).v, c);
    assert d[..n] == tag + val;
    assert ScalarForm(d[..n], tag, val, num, c);
  }

  lemma ScalarFormItem(kind: int -> Kind, d: seq<byte>, pos: nat, num: nat, c: int32, n: nat, tag: seq<byte>, val: seq<byte>)
    requires n <= |d| && kind(num).Int32Kind? && ScalarForm(d[..n], tag, val, num, c)
    ensures NextItem(kind, d, pos) == ItemAt(Scalar(num, c), n)
  {
    hide Read, WellFormed, Value, Int32;
    var rest := val + d[n..];
    assert d == d[..n] + d[n..] == tag + rest;
    VarintRead(tag, rest);
    NumberIs(Value(tag), num);
    assert d[|tag|..] == rest;
    VarintRead(val, d[n..]);
    CodeIs(Value(val), c);
  }

  /** An unknown item is read exactly when the input begins with one whole record whose field is not declared. */
  lemma UnknownItemIff(kind: int -> Kind, d: seq<byte>, pos: nat, n: nat)
    requires n <= |d| && pos + |d| <= MAX_INT
    ensures NextItem(kind, d, pos) == ItemAt(Unrecognized(d[..n]), n)
       <==> exists r, num :: Valid(r) && Raw(r) == d[..n] && kind(num).UnknownKind? && FieldOf(r, num)
  {
    hide NextItem;
    if NextItem(kind, d, pos) == ItemAt(Unrecognized(d[..n]), n) {
      UnknownItemForm(kind, d, pos, n);
    }
    if r, num :| Valid(r) && Raw(r) == d[..n] && kind(num).UnknownKind? && FieldOf(r, num) {
      assert d == Raw(r) + d[n..];
      FieldNumber(r, num);
      NextRecord(kind, r, d[n..]);
      assert d + [] == d;
      NextItemPrefix(kind, d, [], 0, pos);
    }
  }

  /** The record's tag carries this field number, whatever its wire type. */
  predicate FieldOf(r: Record, num: int) {
    exists wireType: nat :: wireType < 8 && FieldTag(r.tag, num, wireType)
  }

  lemma FieldNumber(r: Record, num: int)
    requires Valid(r)
    ensures FieldOf(r, num) <==> num > 0 && Int32(Value(r.tag) / 8) == num
  {
    NumberIs(Value(r.tag), num);
    if num > 0 && Int32(Value(r.tag) / 8) == num {
      assert FieldTag(r.tag, num, Value(r.tag) % 8);
    }
  }

  lemma UnknownItemForm(kind: int -> Kind, d: seq<byte>, pos: nat, n: nat)
    requires pos + |d| <= MAX_INT && n <= |d| && NextItem(kind, d, pos) == ItemAt(Unrecognized(d[..n]), n)
    ensures exists r, num :: Valid(r) && Raw(r) == d[..n] && kind(num).UnknownKind? && FieldOf(r, num)
  {
    hide NextItem;
    assert d + [] == d;
    NextItemPrefix(kind, d, [], pos, 0);
    var r := FirstRecord(kind, d);
    var num := Int32(Value(r.tag) / 8);
    FieldNumber(r, num);
  }

  // ---------- which fields the messages declare, and what happens to all else ----------

  predicate Declares(ints: set<int>, blobs: set<int>, num: int, kind: Kind) {
    (kind.Int32Kind? <==> num in ints) && (kind.BlobKind? <==> num in blobs)
  }

  lemma Declarations(num: int)
    ensures Declares({1}, {2, 3}, num, RPCErrorSchema().kind(num))
    ensures Declares({}, {1, 2}, num, OptionSchema().kind(num))
    ensures Declares({}, {1, 2}, num, RelyingPartySchema().kind(num))
    ensures Declares({}, {1, 2, 3, 4}, num, UserSchema().kind(num))
    ensures Declares({}, {1, 2, 3, 4}, num, DeviceInfoSchema().kind(num))
    ensures Declares({}, {1, 2, 10, 11}, num, CredentialSchema().kind(num))
  {
  }

  /** A record of any other field is appended to the unknown bytes and changes nothing else. */
  lemma {:induction false} OtherFieldKept<F>(s: Schema<F>, m: Message<F>, r: Record, num: int)
    requires Valid(r) && FieldOf(r, num) && s.kind(num).UnknownKind? && |Raw(r)| <= MAX_INT
    ensures Unmarshal(s, m, Raw(r)) == Parsed(Message(m.fields, Bytes(m.unknown.Data() + Raw(r))))
  {
    hide NextItem, Valid, FieldOf;
    var d := Raw(r);
    assert d[..|d|] == d;
    UnknownItemIff(s.kind, d, 0, |d|);
    assert d != [] by { Nonempty(r); }
    Unfold(s, m, d, 0);
    assert d[|d|..] == [];
  }

  lemma Nonempty(r: Record)
    requires Valid(r)
    ensures Raw(r) != []
  {
  }

  /** A declared field with another wire type, an end-group tag, or no field number at all: all refused, with these errors. */
  lemma {:induction false} BadTagRefused<F>(s: Schema<F>, m: Message<F>, tag: seq<byte>, rest: seq<byte>)
    requires WellFormed(tag)
    ensures var wireType, num := Value(tag) % 8, Value(tag) / 8 % 0x1_0000_0000;
            var o := Unmarshal(s, m, tag + rest);
            && (wireType == 4 ==> o == Refused(EndGroup))
            && (wireType != 4 && (num == 0 || num >= 0x8000_0000) ==> o.Refused? && o.error.IllegalTag?)
            && (wireType != 4 && 0 < num < 0x8000_0000 ==>
                  && (s.kind(num).Int32Kind? && wireType != 0 ==> o == Refused(WrongWireType(wireType, num)))
                  && (s.kind(num).BlobKind? && wireType != 2 ==> o == Refused(WrongWireType(wireType, num))))
  {
    hide Read, Value;
    VarintRead(tag, rest);
    Unfold(s, m, tag + rest, 0);
  }

  /** Wire types 6 and 7 do not exist, in an unknown field either. */
  lemma {:induction false} NoSuchWireType<F>(s: Schema<F>, m: Message<F>, num: int, wireType: nat, tag: seq<byte>, rest: seq<byte>)
    requires (wireType == 6 || wireType == 7) && FieldTag(tag, num, wireType) && s.kind(num).UnknownKind?
    ensures Unmarshal(s, m, tag + rest) == Refused(IllegalWireType(wireType))
  {
    hide Read, Value, Int32;
    VarintRead(tag, rest);
    NumberIs(Value(tag), num);
    Unfold(s, m, tag + rest, 0);
  }

  /** A length that goes beyond the input: invalid when it or the index after it wraps, else an unexpected end. */
  lemma {:induction false} LongLengthRefused<F>(s: Schema<F>, m: Message<F>, num: int, tag: seq<byte>, len: seq<byte>, rest: seq<byte>)
    requires FieldTag(tag, num, 2) && !s.kind(num).Int32Kind? && WellFormed(len) && Value(len) > |rest|
    requires |tag| + |len| + |rest| <= MAX_INT
    ensures Unmarshal(s, m, tag + len + rest) ==
              Refused(if Value(len) > MAX_INT || |tag| + |len| + Value(len) > MAX_INT then InvalidLength else UnexpectedEOF)
  {
    hide Read, Value, Int32;
    var d := tag + len + rest;
    assert d == tag + (len + rest);
    VarintRead(tag, len + rest);
    NumberIs(Value(tag), num);
    assert d[|tag|..] == len + rest;
    VarintRead(len, rest);
    Unfold(s, m, d, 0);
  }

  /** An end-group tag where a record should begin. */
  lemma EndWithoutGroup(tag: seq<byte>, rest: seq<byte>)
    requires WellFormed(tag) && Value(tag) % 8 == 4
    ensures SkipRecord(tag + rest) == Bad(UnexpectedEndOfGroup)
  {
    hide Read, Value;
    VarintRead(tag, rest);
  }

  // ---------- what one field does, empty ones included ----------

  lemma {:induction false} OneItem<F>(s: Schema<F>, m: Message<F>, item: Item)
    requires Fits(s.kind, item) && |EncodeItem(item)| <= MAX_INT
    ensures Unmarshal(s, m, EncodeItem(item)) ==
              match s.apply(m.fields, item)
              case Rejected(e) => Refused(e)
              case Set(f) => Parsed(Message(f, m.unknown))
  {
    hide NextItem, EncodeItem, Fits, Run;
    EncodeOne(item);
    assert EncodeItem(item) + [] == EncodeItem(item);
    RunItems(s, m, [item], [], 0);
    FoldSingle(s, m.fields, item);
    RunEnd(s, m, []);
    if s.apply(m.fields, item).Set? {
      RunEnd(s, Message(s.apply(m.fields, item).fields, m.unknown), []);
      Ended(s, Message(s.apply(m.fields, item).fields, m.unknown), |EncodeItem(item)|);
    }
  }

  lemma Ended<F>(s: Schema<F>, m: Message<F>, pos: nat)
    ensures Run(s, m, [], pos) == Parsed(m)
  {
  }

  lemma FoldSingle<F>(s: Schema<F>, f: F, item: Item)
    ensures Fold(s, f, [item]) == s.apply(f, item)
  {
    assert [item][1..] == [];
  }

  /** Bytes of one length-delimited field, as long as a slice can be. */
  predicate Sendable(num: nat, p: seq<byte>) { |EncodeItem(Blob(num, p))| <= MAX_INT }

  lemma CodeReplaced(m: RPCErrorMessage, c: int32)
    ensures Unmarshal(RPCErrorSchema(), m, EncodeItem(Scalar(1, c))) == Parsed(m.(fields := m.fields.(code := c)))
  {
    hide Unmarshal, EncodeItem;
    ScalarShort(c);
    OneItem(RPCErrorSchema(), m, Scalar(1, c));
  }

  lemma ScalarShort(c: int32)
    ensures |EncodeItem(Scalar(1, c))| <= MAX_INT
  {
    hide Encode;
    ReadEncode(SignExtend(c), []);
    ReadEncode(8, []);
  }

  lemma BlobFits(kind: int -> Kind, num: nat, p: seq<byte>)
    requires 1 <= num <= MAX_FIELD && kind(num).BlobKind? && Sendable(num, p)
    ensures Fits(kind, Blob(num, p))
  {
    hide Encode;
  }

  /** A field that comes again replaces what was there, also when it is empty. */
  lemma StringsReplaced(e: RPCErrorMessage, o: OptionMessage, r: RelyingPartyMessage, p: seq<byte>)
    requires Sendable(1, p) && Sendable(2, p) && Sendable(3, p)
    ensures Unmarshal(RPCErrorSchema(), e, EncodeItem(Blob(2, p))) == Parsed(e.(fields := e.fields.(message := p)))
    ensures Unmarshal(RPCErrorSchema(), e, EncodeItem(Blob(3, p))) == Parsed(e.(fields := e.fields.(details := p)))
    ensures Unmarshal(OptionSchema(), o, EncodeItem(Blob(1, p))) == Parsed(o.(fields := o.fields.(name := p)))
    ensures Unmarshal(OptionSchema(), o, EncodeItem(Blob(2, p))) == Parsed(o.(fields := o.fields.(value := p)))
    ensures Unmarshal(RelyingPartySchema(), r, EncodeItem(Blob(1, p))) == Parsed(r.(fields := r.fields.(id := p)))
    ensures Unmarshal(RelyingPartySchema(), r, EncodeItem(Blob(2, p))) == Parsed(r.(fields := r.fields.(name := p)))
  {
    hide Unmarshal, EncodeItem, Fits, Sendable;
    BlobFits(RPCErrorKind, 2, p);
    BlobFits(RPCErrorKind, 3, p);
    BlobFits(BlobsUpTo2, 1, p);
    BlobFits(BlobsUpTo2, 2, p);
    Short(1, p);
    Short(2, p);
    Short(3, p);
    OneItem(RPCErrorSchema(), e, Blob(2, p));
    OneItem(RPCErrorSchema(), e, Blob(3, p));
    OneItem(OptionSchema(), o, Blob(1, p));
    OneItem(OptionSchema(), o, Blob(2, p));
    OneItem(RelyingPartySchema(), r, Blob(1, p));
    OneItem(RelyingPartySchema(), r, Blob(2, p));
  }

  lemma Short(num: nat, p: seq<byte>)
    requires Sendable(num, p)
    ensures |EncodeItem(Blob(num, p))| <= MAX_INT
  {
  }

  /** A bytes field that was sent is not nil afterwards. */
  lemma UserReplaced(u: UserMessage, p: seq<byte>)
    requires Sendable(1, p) && Sendable(2, p) && Sendable(3, p) && Sendable(4, p)
    ensures Unmarshal(UserSchema(), u, EncodeItem(Blob(1, p))) == Parsed(u.(fields := u.fields.(id := Bytes(p))))
    ensures Unmarshal(UserSchema(), u, EncodeItem(Blob(2, p))) == Parsed(u.(fields := u.fields.(name := p)))
    ensures Unmarshal(UserSchema(), u, EncodeItem(Blob(3, p))) == Parsed(u.(fields := u.fields.(displayName := p)))
    ensures Unmarshal(UserSchema(), u, EncodeItem(Blob(4, p))) == Parsed(u.(fields := u.fields.(icon := p)))
  {
    hide Unmarshal, EncodeItem, Fits, Sendable;
    BlobFits(BlobsUpTo4, 1, p);
    BlobFits(BlobsUpTo4, 2, p);
    BlobFits(BlobsUpTo4, 3, p);
    BlobFits(BlobsUpTo4, 4, p);
    Short(1, p);
    Short(2, p);
    Short(3, p);
    Short(4, p);
    OneItem(UserSchema(), u, Blob(1, p));
    OneItem(UserSchema(), u, Blob(2, p));
    OneItem(UserSchema(), u, Blob(3, p));
    OneItem(UserSchema(), u, Blob(4, p));
  }

  /** Repeated fields grow by one element, also by an empty one; an option that does not parse is refused. */
  lemma InfoGrows(d: DeviceInfoMessage, p: seq<byte>)
    requires Sendable(1, p) && Sendable(2, p) && Sendable(3, p) && Sendable(4, p)
    ensures Unmarshal(DeviceInfoSchema(), d, EncodeItem(Blob(1, p))) ==
              Parsed(d.(fields := d.fields.(versions := d.fields.versions + [p])))
    ensures Unmarshal(DeviceInfoSchema(), d, EncodeItem(Blob(2, p))) ==
              Parsed(d.(fields := d.fields.(extensions := d.fields.extensions + [p])))
    ensures Unmarshal(DeviceInfoSchema(), d, EncodeItem(Blob(3, p))) == Parsed(d.(fields := d.fields.(aaguid := Bytes(p))))
    ensures Unmarshal(DeviceInfoSchema(), d, EncodeItem(Blob(4, p))) ==
              match Unmarshal(OptionSchema(), Message(OptionFields([], []), Nil), p)
              case Refused(e) => Refused(e)
              case Parsed(o) => Parsed(d.(fields := d.fields.(options := d.fields.options + [o])))
  {
    hide Unmarshal, EncodeItem, Fits, Sendable;
    BlobFits(BlobsUpTo4, 1, p);
    BlobFits(BlobsUpTo4, 2, p);
    BlobFits(BlobsUpTo4, 3, p);
    BlobFits(BlobsUpTo4, 4, p);
    Short(1, p);
    Short(2, p);
    Short(3, p);
    Short(4, p);
    OneItem(DeviceInfoSchema(), d, Blob(1, p));
    OneItem(DeviceInfoSchema(), d, Blob(2, p));
    OneItem(DeviceInfoSchema(), d, Blob(3, p));
    OneItem(DeviceInfoSchema(), d, Blob(4, p));
  }

  /** A sub-message is read into the one that is there, or into an empty one, which is then there even if nothing was sent in it. */
  lemma CredentialChanged(c: CredentialMessage, p: seq<byte>)
    requires Sendable(1, p) && Sendable(2, p) && Sendable(10, p) && Sendable(11, p)
    ensures Unmarshal(CredentialSchema(), c, EncodeItem(Blob(1, p))) == Parsed(c.(fields := c.fields.(id := Bytes(p))))
    ensures Unmarshal(CredentialSchema(), c, EncodeItem(Blob(2, p))) == Parsed(c.(fields := c.fields.(typ := p)))
    ensures var old_ := if c.fields.rp.Just? then c.fields.rp.value else Message(RelyingPartyFields([], []), Nil);
            Unmarshal(CredentialSchema(), c, EncodeItem(Blob(10, p))) ==
              match Unmarshal(RelyingPartySchema(), old_, p)
              case Refused(e) => Refused(e)
              case Parsed(rp) => Parsed(c.(fields := c.fields.(rp := Just(rp))))
    ensures var old_ := if c.fields.user.Just? then c.fields.user.value else Message(UserFields(Nil, [], [], []), Nil);
            Unmarshal(CredentialSchema(), c, EncodeItem(Blob(11, p))) ==
              match Unmarshal(UserSchema(), old_, p)
              case Refused(e) => Refused(e)
              case Parsed(user) => Parsed(c.(fields := c.fields.(user := Just(user))))
  {
    hide Unmarshal, EncodeItem, Fits, Sendable;
    BlobFits(CredentialKind, 1, p);
    BlobFits(CredentialKind, 2, p);
    BlobFits(CredentialKind, 10, p);
    BlobFits(CredentialKind, 11, p);
    Short(1, p);
    Short(2, p);
    Short(10, p);
    Short(11, p);
    OneItem(CredentialSchema(), c, Blob(1, p));
    OneItem(CredentialSchema(), c, Blob(2, p));
    OneItem(CredentialSchema(), c, Blob(10, p));
    OneItem(CredentialSchema(), c, Blob(11, p));
  }

  // ---------- what merging means, field by field ----------

  /** The last value that is not empty wins; unknown bytes are appended. */
  lemma ScalarsMerge(a: RPCErrorMessage, b: RPCErrorMessage)
    ensures var m := MergeRPCError(a, b);
            && m.fields.code == (if b.fields.code != 0 then b.fields.code else a.fields.code)
            && m.fields.message == (if b.fields.message != [] then b.fields.message else a.fields.message)
            && m.fields.details == (if b.fields.details != [] then b.fields.details else a.fields.details)
            && m.unknown.Data() == a.unknown.Data() + b.unknown.Data()
  {
    assert a.unknown.Data() + [] == a.unknown.Data();
  }

  lemma OptionsMerge(a: OptionMessage, b: OptionMessage)
    ensures var m := MergeOption(a, b);
            && m.fields.name == (if b.fields.name != [] then b.fields.name else a.fields.name)
            && m.fields.value == (if b.fields.value != [] then b.fields.value else a.fields.value)
            && m.unknown.Data() == a.unknown.Data() + b.unknown.Data()
  {
    assert a.unknown.Data() + [] == a.unknown.Data();
  }

  lemma PartiesMerge(a: RelyingPartyMessage, b: RelyingPartyMessage)
    ensures var m := MergeRelyingParty(a, b);
            && m.fields.id == (if b.fields.id != [] then b.fields.id else a.fields.id)
            && m.fields.name == (if b.fields.name != [] then b.fields.name else a.fields.name)
            && m.unknown.Data() == a.unknown.Data() + b.unknown.Data()
  {
    assert a.unknown.Data() + [] == a.unknown.Data();
  }

  lemma UsersMerge(a: UserMessage, b: UserMessage)
    ensures var m := MergeUser(a, b);
            && m.fields.id == (if b.fields.id.Data() != [] then b.fields.id else a.fields.id)
            && m.fields.name == (if b.fields.name != [] then b.fields.name else a.fields.name)
            && m.fields.displayName == (if b.fields.displayName != [] then b.fields.displayName else a.fields.displayName)
            && m.fields.icon == (if b.fields.icon != [] then b.fields.icon else a.fields.icon)
            && m.unknown.Data() == a.unknown.Data() + b.unknown.Data()
  {
    assert a.unknown.Data() + [] == a.unknown.Data();
  }

  /** Repeated fields are appended. An option keeps its values; only an empty unknown slice becomes nil. */
  lemma {:induction false} InfosMerge(a: DeviceInfoMessage, b: DeviceInfoMessage, k: nat)
    ensures var m := MergeDeviceInfo(a, b);
            && m.fields.versions == a.fields.versions + b.fields.versions
            && m.fields.extensions == a.fields.extensions + b.fields.extensions
            && m.fields.aaguid == (if b.fields.aaguid.Data() != [] then b.fields.aaguid else a.fields.aaguid)
            && m.unknown.Data() == a.unknown.Data() + b.unknown.Data()
            && |m.fields.options| == |a.fields.options| + |b.fields.options|
            && (k < |a.fields.options| ==> m.fields.options[k] == a.fields.options[k])
            && (k < |b.fields.options| ==>
                  var o := m.fields.options[|a.fields.options| + k];
                  o.fields == b.fields.options[k].fields && o.unknown.Data() == b.fields.options[k].unknown.Data())
  {
    assert a.unknown.Data() + [] == a.unknown.Data();
    FreshLength(b.fields.options);
    if k < |b.fields.options| {
      FreshAt(b.fields.options, k);
    }
  }

  lemma {:induction false} FreshLength(os: seq<OptionMessage>)
    ensures |Fresh(os)| == |os|
  {
    if os != [] {
      FreshLength(os[1..]);
    }
  }

  lemma {:induction false} FreshAt(os: seq<OptionMessage>, k: nat)
    requires k < |os|
    ensures k < |Fresh(os)| && Fresh(os)[k].fields == os[k].fields && Fresh(os)[k].unknown.Data() == os[k].unknown.Data()
  {
    if k > 0 {
      FreshAt(os[1..], k - 1);
    } else {
      assert [] + os[0].unknown.Data() == os[0].unknown.Data();
    }
  }

  /** A sub-message that both have is merged; one that only b has is read into an empty one; else a's stays. */
  lemma CredentialsMerge(a: CredentialMessage, b: CredentialMessage)
    ensures var m := MergeCredential(a, b);
            && m.fields.id == (if b.fields.id.Data() != [] then b.fields.id else a.fields.id)
            && m.fields.typ == (if b.fields.typ != [] then b.fields.typ else a.fields.typ)
            && m.unknown.Data() == a.unknown.Data() + b.unknown.Data()
            && (b.fields.rp.Nothing? ==> m.fields.rp == a.fields.rp)
            && (b.fields.rp.Just? && a.fields.rp.Just? ==>
                  m.fields.rp == Just(MergeRelyingParty(a.fields.rp.value, b.fields.rp.value)))
            && (b.fields.rp.Just? && a.fields.rp.Nothing? ==>
                  m.fields.rp == Just(MergeRelyingParty(Message(RelyingPartyFields([], []), Nil), b.fields.rp.value)))
            && (b.fields.user.Nothing? ==> m.fields.user == a.fields.user)
            && (b.fields.user.Just? && a.fields.user.Just? ==>
                  m.fields.user == Just(MergeUser(a.fields.user.value, b.fields.user.value)))
            && (b.fields.user.Just? && a.fields.user.Nothing? ==>
                  m.fields.user == Just(MergeUser(Message(UserFields(Nil, [], [], []), Nil), b.fields.user.value)))
  {
    hide MergeRelyingParty, MergeUser;
    assert a.unknown.Data() + [] == a.unknown.Data();
  }

  // ---------- what a code looks like ----------

  lemma Pow128Nine()
    ensures Pow128(9) == 0x8000_0000_0000_0000 && Pow128(10) == 128 * Pow128(9)
  {
    Pow128Values();
    assert Pow128(10) == 128 * Pow128(9);
  }

  /**
   A negative code takes eleven bytes in front of the other fields: the tag, then the ten groups of seven
   bits of the code plus 2^64, all but the last marked as going on.
   */
  lemma NegativeCode(m: RPCErrorMessage)
    requires m.fields.code < 0
    ensures var b, word := RPCErrorBytes(m), m.fields.code + 0x1_0000_0000_0000_0000;
            && |b| >= 11 && b[0] == 0x08
            && (forall k :: 0 <= k < 10 ==> b[1 + k] == word / Pow128(k) % 128 + if k < 9 then 128 else 0)
            && b[11..] == RPCErrorBytes(m.(fields := m.fields.(code := 0)))
  {
    hide Encode, OptBytes, RPCErrorBytes;
    var c: int := m.fields.code;
    var word: nat := c + 0x1_0000_0000_0000_0000;
    var e := Encode(word);
    assert SignExtend(c) == word;
    Pow128Nine();
    EncodeLength(word, 10);
    RPCErrorLayout(m);
    RPCErrorLayout(m.(fields := m.fields.(code := 0)));
    var b, tail := RPCErrorBytes(m), RPCErrorBytes(m.(fields := m.fields.(code := 0)));
    assert b == ([0x08] + e) + tail;
    forall k | 0 <= k < 10
      ensures b[1 + k] == word / Pow128(k) % 128 + if k < 9 then 128 else 0
    {
      EncodeAt(word, k);
      assert b[1 + k] == e[k];
    }
  }

  /** A positive code is written as it is; zero is not written. */
  lemma OtherCode(m: RPCErrorMessage)
    requires m.fields.code >= 0
    ensures RPCErrorBytes(m) ==
              (if m.fields.code == 0 then [] else [0x08] + Encode(m.fields.code))
              + RPCErrorBytes(m.(fields := m.fields.(code := 0)))
  {
    hide Encode, OptBytes, RPCErrorBytes;
    RPCErrorLayout(m);
    RPCErrorLayout(m.(fields := m.fields.(code := 0)));
  }
}
