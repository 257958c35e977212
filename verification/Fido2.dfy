/**
 The generated message classes: sizes, marshalling into a buffer filled from its end, and
 unmarshalling that updates the message in place. Each method is tied to the values of module
 Messages; what those values satisfy is proved there.
 */
module Fido2 {
  import opened GoTypes
  import opened Varint
  import opened Wire
  import opened Messages
  import opened Buffer

  /** What an Unmarshal with outcome o must have done: this error, or all input consumed and m reached. */
  ghost predicate Agrees<F>(o: Outcome<F>, err: Maybe<Error>, m: Message<F>) {
    match o
    case Refused(e) => err == Just(e)
    case Parsed(m') => err == Nothing && m == m'
  }

  class RPCError {
    var code: int32
    var message: seq<byte>
    var details: seq<byte>
    var unrecognized: Slice

    constructor ()
      ensures Value() == Wire.Message(NO_ERROR, Nil)
    {
      code, message, details, unrecognized := 0, [], [], Nil;
    }

    function Value(): RPCErrorMessage
      reads this
    {
      Wire.Message(RPCErrorFields(code, message, details), unrecognized)
    }

    method Size() returns (n: nat)
      requires |RPCErrorBytes(Value())| <= MAX_INT
      ensures n == |RPCErrorBytes(Value())|
    {
      RPCErrorLayout(Value());
      n := 0;
      if code != 0 {
        SovIsLength(SignExtend(code));
        n := 1 + SovFido2(SignExtend(code));
      }
      var l1 := FieldSize(2, message);
      var l2 := FieldSize(3, details);
      n := n + l1 + l2 + |unrecognized.Data()|;
    }

    method MarshalToSizedBuffer(dAtA: array<byte>, hi: nat) returns (n: nat)
      requires |RPCErrorBytes(Value())| <= hi <= dAtA.Length <= MAX_INT
      modifies dAtA
      ensures n == |RPCErrorBytes(Value())|
      ensures Filled(dAtA[..], old(dAtA[..]), RPCErrorBytes(Value()), hi)
    {
      hide Filled, OptBytes, Encode;
      RPCErrorLayout(Value());
      var i := UnknownBack(dAtA, hi, unrecognized);
      ghost var was, bytes := old(dAtA[..]), unrecognized.Data();
      i, bytes := FieldBack(dAtA, i, details, 0x1a, was, bytes, hi);
      i, bytes := FieldBack(dAtA, i, message, 0x12, was, bytes, hi);
      if code != 0 {
        i, bytes := VarintBack(dAtA, i, SignExtend(code), was, bytes, hi);
        i, bytes := TagBack(dAtA, i, 0x8, was, bytes, hi);
      }
      assert bytes == RPCErrorBytes(Value());
      n := hi - i;
    }

    method Marshal() returns (dAtA: array<byte>)
      requires |RPCErrorBytes(Value())| <= MAX_INT
      ensures fresh(dAtA) && dAtA[..] == RPCErrorBytes(Value())
    {
      hide RPCErrorBytes, Filled;
      var size := Size();
      dAtA := new byte[size](_ => 0);
      ghost var was := dAtA[..];
      var n := MarshalToSizedBuffer(dAtA, size);
      FilledWhole(dAtA[..], was, RPCErrorBytes(Value()));
    }

    /** The switch of the Unmarshal loop: the field, or the unknown bytes, that one item changes. */
    method TakeItem(item: Item)
      modifies this
      ensures Take(RPCErrorSchema(), old(Value()), item) == Parsed(Value())
    {
      hide Absorbed;
      match item {
        case Scalar(_, c) =>
          code := c;
        case Blob(num, p) =>
          if num == 2 {
            message := p;
          } else {
            details := p;
          }
        case Unrecognized(raw) =>
          unrecognized := Absorbed(unrecognized, raw);
      }
    }

    method Unmarshal(dAtA: seq<byte>) returns (err: Maybe<Error>)
      requires |dAtA| <= MAX_INT
      modifies this
      ensures Agrees(Wire.Unmarshal(RPCErrorSchema(), old(Value()), dAtA), err, Value())
    {
      hide Run, NextItem, Take;
      var l, iNdEx := |dAtA|, 0;
      assert dAtA[0..] == dAtA;
      while iNdEx < l
        invariant 0 <= iNdEx <= l
        invariant Wire.Unmarshal(RPCErrorSchema(), old(Value()), dAtA) == Run(RPCErrorSchema(), Value(), dAtA[iNdEx..], iNdEx)
        decreases l - iNdEx
      {
        RunStep(RPCErrorSchema(), Value(), dAtA, iNdEx);
        var r := ReadItem(dAtA, iNdEx, RPCErrorKind);
        if r.BadItem? {
          return Just(r.error);
        }
        TakeItem(r.item);
        iNdEx := iNdEx + r.n;
      }
      RunEnd(RPCErrorSchema(), Value(), dAtA);
      err := Nothing;
    }
  }

  class Option {
    var name: seq<byte>
    var value: seq<byte>
    var unrecognized: Slice

    constructor ()
      ensures Value() == Wire.Message(NO_OPTION, Nil)
    {
      name, value, unrecognized := [], [], Nil;
    }

    function Value(): OptionMessage
      reads this
    {
      Wire.Message(OptionFields(name, value), unrecognized)
    }

    method Size() returns (n: nat)
      requires |OptionBytesOf(Value())| <= MAX_INT
      ensures n == |OptionBytesOf(Value())|
    {
      OptionLayout(Value());
      var l0 := FieldSize(1, name);
      var l1 := FieldSize(2, value);
      n := l0 + l1 + |unrecognized.Data()|;
    }

    method MarshalToSizedBuffer(dAtA: array<byte>, hi: nat) returns (n: nat)
      requires |OptionBytesOf(Value())| <= hi <= dAtA.Length <= MAX_INT
      modifies dAtA
      ensures n == |OptionBytesOf(Value())|
      ensures Filled(dAtA[..], old(dAtA[..]), OptionBytesOf(Value()), hi)
    {
      hide Filled, OptBytes, Encode;
      OptionLayout(Value());
      var i := UnknownBack(dAtA, hi, unrecognized);
      ghost var was, bytes := old(dAtA[..]), unrecognized.Data();
      i, bytes := FieldBack(dAtA, i, value, 0x12, was, bytes, hi);
      i, bytes := FieldBack(dAtA, i, name, 0xa, was, bytes, hi);
      assert bytes == OptionBytesOf(Value());
      n := hi - i;
    }

    method Marshal() returns (dAtA: array<byte>)
      requires |OptionBytesOf(Value())| <= MAX_INT
      ensures fresh(dAtA) && dAtA[..] == OptionBytesOf(Value())
    {
      hide OptionBytesOf, Filled;
      var size := Size();
      dAtA := new byte[size](_ => 0);
      ghost var was := dAtA[..];
      var n := MarshalToSizedBuffer(dAtA, size);
      FilledWhole(dAtA[..], was, OptionBytesOf(Value()));
    }

    method TakeItem(item: Item)
      modifies this
      ensures Take(OptionSchema(), old(Value()), item) == Parsed(Value())
    {
      hide Absorbed;
      match item {
        case Blob(num, p) =>
          if num == 1 {
            name := p;
          } else {
            value := p;
          }
        case Scalar(_, _) =>
        case Unrecognized(raw) =>
          unrecognized := Absorbed(unrecognized, raw);
      }
    }

    method Unmarshal(dAtA: seq<byte>) returns (err: Maybe<Error>)
      requires |dAtA| <= MAX_INT
      modifies this
      ensures Agrees(Wire.Unmarshal(OptionSchema(), old(Value()), dAtA), err, Value())
    {
      hide Run, NextItem, Take;
      var l, iNdEx := |dAtA|, 0;
      assert dAtA[0..] == dAtA;
      while iNdEx < l
        invariant 0 <= iNdEx <= l
        invariant Wire.Unmarshal(OptionSchema(), old(Value()), dAtA) == Run(OptionSchema(), Value(), dAtA[iNdEx..], iNdEx)
        decreases l - iNdEx
      {
        RunStep(OptionSchema(), Value(), dAtA, iNdEx);
        var r := ReadItem(dAtA, iNdEx, BlobsUpTo2);
        if r.BadItem? {
          return Just(r.error);
        }
        TakeItem(r.item);
        iNdEx := iNdEx + r.n;
      }
      RunEnd(OptionSchema(), Value(), dAtA);
      err := Nothing;
    }
  }

  class RelyingParty {
    var id: seq<byte>
    var name: seq<byte>
    var unrecognized: Slice

    constructor ()
      ensures Value() == Wire.Message(NO_PARTY, Nil)
    {
      id, name, unrecognized := [], [], Nil;
    }

    function Value(): RelyingPartyMessage
      reads this
    {
      Wire.Message(RelyingPartyFields(id, name), unrecognized)
    }

    method Size() returns (n: nat)
      requires |RelyingPartyBytes(Value())| <= MAX_INT
      ensures n == |RelyingPartyBytes(Value())|
    {
      RelyingPartyLayout(Value());
      var l0 := FieldSize(1, id);
      var l1 := FieldSize(2, name);
      n := l0 + l1 + |unrecognized.Data()|;
    }

    method MarshalToSizedBuffer(dAtA: array<byte>, hi: nat) returns (n: nat)
      requires |RelyingPartyBytes(Value())| <= hi <= dAtA.Length <= MAX_INT
      modifies dAtA
      ensures n == |RelyingPartyBytes(Value())|
      ensures Filled(dAtA[..], old(dAtA[..]), RelyingPartyBytes(Value()), hi)
    {
      hide Filled, OptBytes, Encode;
      RelyingPartyLayout(Value());
      var i := UnknownBack(dAtA, hi, unrecognized);
      ghost var was, bytes := old(dAtA[..]), unrecognized.Data();
      i, bytes := FieldBack(dAtA, i, name, 0x12, was, bytes, hi);
      i, bytes := FieldBack(dAtA, i, id, 0xa, was, bytes, hi);
      assert bytes == RelyingPartyBytes(Value());
      n := hi - i;
    }

    method Marshal() returns (dAtA: array<byte>)
      requires |RelyingPartyBytes(Value())| <= MAX_INT
      ensures fresh(dAtA) && dAtA[..] == RelyingPartyBytes(Value())
    {
      hide RelyingPartyBytes, Filled;
      var size := Size();
      dAtA := new byte[size](_ => 0);
      ghost var was := dAtA[..];
      var n := MarshalToSizedBuffer(dAtA, size);
      FilledWhole(dAtA[..], was, RelyingPartyBytes(Value()));
    }

    method TakeItem(item: Item)
      modifies this
      ensures Take(RelyingPartySchema(), old(Value()), item) == Parsed(Value())
    {
      hide Absorbed;
      match item {
        case Blob(num, p) =>
          if num == 1 {
            id := p;
          } else {
            name := p;
          }
        case Scalar(_, _) =>
        case Unrecognized(raw) =>
          unrecognized := Absorbed(unrecognized, raw);
      }
    }

    method Unmarshal(dAtA: seq<byte>) returns (err: Maybe<Error>)
      requires |dAtA| <= MAX_INT
      modifies this
      ensures Agrees(Wire.Unmarshal(RelyingPartySchema(), old(Value()), dAtA), err, Value())
    {
      hide Run, NextItem, Take;
      var l, iNdEx := |dAtA|, 0;
      assert dAtA[0..] == dAtA;
      while iNdEx < l
        invariant 0 <= iNdEx <= l
        invariant Wire.Unmarshal(RelyingPartySchema(), old(Value()), dAtA) == Run(RelyingPartySchema(), Value(), dAtA[iNdEx..], iNdEx)
        decreases l - iNdEx
      {
        RunStep(RelyingPartySchema(), Value(), dAtA, iNdEx);
        var r := ReadItem(dAtA, iNdEx, BlobsUpTo2);
        if r.BadItem? {
          return Just(r.error);
        }
        TakeItem(r.item);
        iNdEx := iNdEx + r.n;
      }
      RunEnd(RelyingPartySchema(), Value(), dAtA);
      err := Nothing;
    }
  }

  class User {
    var id: Slice
    var name: seq<byte>
    var displayName: seq<byte>
    var icon: seq<byte>
    var unrecognized: Slice

    constructor ()
      ensures Value() == Wire.Message(NO_USER, Nil)
    {
      id, name, displayName, icon, unrecognized := Nil, [], [], [], Nil;
    }

    function Value(): UserMessage
      reads this
    {
      Wire.Message(UserFields(id, name, displayName, icon), unrecognized)
    }

    method Size() returns (n: nat)
      requires |UserBytes(Value())| <= MAX_INT
      ensures n == |UserBytes(Value())|
    {
      UserLayout(Value());
      var l0 := FieldSize(1, id.Data());
      var l1 := FieldSize(2, name);
      var l2 := FieldSize(3, displayName);
      var l3 := FieldSize(4, icon);
      n := l0 + l1 + l2 + l3 + |unrecognized.Data()|;
    }

    method MarshalToSizedBuffer(dAtA: array<byte>, hi: nat) returns (n: nat)
      requires |UserBytes(Value())| <= hi <= dAtA.Length <= MAX_INT
      modifies dAtA
      ensures n == |UserBytes(Value())|
      ensures Filled(dAtA[..], old(dAtA[..]), UserBytes(Value()), hi)
    {
      hide Filled, OptBytes, Encode;
      UserLayout(Value());
      var i := UnknownBack(dAtA, hi, unrecognized);
      ghost var was, bytes := old(dAtA[..]), unrecognized.Data();
      i, bytes := FieldBack(dAtA, i, icon, 0x22, was, bytes, hi);
      i, bytes := FieldBack(dAtA, i, displayName, 0x1a, was, bytes, hi);
      i, bytes := FieldBack(dAtA, i, name, 0x12, was, bytes, hi);
      i, bytes := FieldBack(dAtA, i, id.Data(), 0xa, was, bytes, hi);
      assert bytes == UserBytes(Value());
      n := hi - i;
    }

    method Marshal() returns (dAtA: array<byte>)
      requires |UserBytes(Value())| <= MAX_INT
      ensures fresh(dAtA) && dAtA[..] == UserBytes(Value())
    {
      hide UserBytes, Filled;
      var size := Size();
      dAtA := new byte[size](_ => 0);
      ghost var was := dAtA[..];
      var n := MarshalToSizedBuffer(dAtA, size);
      FilledWhole(dAtA[..], was, UserBytes(Value()));
    }

    method TakeItem(item: Item)
      modifies this
      ensures Take(UserSchema(), old(Value()), item) == Parsed(Value())
    {
      hide Absorbed;
      match item {
        case Blob(num, p) =>
          if num == 1 {
            id := Bytes(p);
          } else if num == 2 {
            name := p;
          } else if num == 3 {
            displayName := p;
          } else {
            icon := p;
          }
        case Scalar(_, _) =>
        case Unrecognized(raw) =>
          unrecognized := Absorbed(unrecognized, raw);
      }
    }

    method Unmarshal(dAtA: seq<byte>) returns (err: Maybe<Error>)
      requires |dAtA| <= MAX_INT
      modifies this
      ensures Agrees(Wire.Unmarshal(UserSchema(), old(Value()), dAtA), err, Value())
    {
      hide Run, NextItem, Take;
      var l, iNdEx := |dAtA|, 0;
      assert dAtA[0..] == dAtA;
      while iNdEx < l
        invariant 0 <= iNdEx <= l
        invariant Wire.Unmarshal(UserSchema(), old(Value()), dAtA) == Run(UserSchema(), Value(), dAtA[iNdEx..], iNdEx)
        decreases l - iNdEx
      {
        RunStep(UserSchema(), Value(), dAtA, iNdEx);
        var r := ReadItem(dAtA, iNdEx, BlobsUpTo4);
        if r.BadItem? {
          return Just(r.error);
        }
        TakeItem(r.item);
        iNdEx := iNdEx + r.n;
      }
      RunEnd(UserSchema(), Value(), dAtA);
      err := Nothing;
    }
  }

  function OptionValues(os: seq<Option>): (vs: seq<OptionMessage>)
    reads os
    ensures |vs| == |os|
  {
    if os == [] then [] else OptionValues(os[..|os| - 1]) + [os[|os| - 1].Value()]
  }

  lemma {:induction false} OptionValuesAt(os: seq<Option>, k: nat)
    requires k < |os|
    ensures OptionValues(os)[k] == os[k].Value()
  {
    if k < |os| - 1 {
      OptionValuesAt(os[..|os| - 1], k);
    }
  }

  class DeviceInfo {
    var versions: seq<seq<byte>>
    var extensions: seq<seq<byte>>
    var aaguid: Slice
    var options: seq<Option>
    var unrecognized: Slice

    constructor ()
      ensures Value() == Wire.Message(NO_INFO, Nil)
    {
      versions, extensions, aaguid, options, unrecognized := [], [], Nil, [], Nil;
    }

    function Value(): DeviceInfoMessage
      reads this, options
    {
      Wire.Message(DeviceInfoFields(versions, extensions, aaguid, OptionValues(options)), unrecognized)
    }

    method Size() returns (n: nat)
      requires |DeviceInfoBytes(Value())| <= MAX_INT
      ensures n == |DeviceInfoBytes(Value())|
    {
      hide OptBytes, RepeatedBytes, OptionBytes;
      DeviceInfoLayout(Value());
      var v := RepeatedSize(1, versions);
      var e := RepeatedSize(2, extensions);
      var a := FieldSize(3, aaguid.Data());
      var o := OptionsSize();
      n := v + e + a + o + |unrecognized.Data()|;
    }

    method OptionsSize() returns (n: nat)
      requires |RepeatedBytes(4, OptionBytes(OptionValues(options)))| <= MAX_INT
      ensures n == |RepeatedBytes(4, OptionBytes(OptionValues(options)))|
    {
      hide OptionBytesOf, Encode, OptionValues, RepeatedBytes;
      ghost var vs := OptionValues(options);
      ghost var ps := OptionBytes(vs);
      n := 0;
      var k := |options|;
      RepeatedNothing(4);
      assert ps[k..] == [];
      while k > 0
        invariant 0 <= k <= |options|
        invariant n == |RepeatedBytes(4, ps[k..])|
      {
        k := k - 1;
        OptionValuesAt(options, k);
        OptionBytesFrom(vs, k);
        RepeatedStep(4, ps, k);
        RepeatedSuffix(4, ps, k);
        ElementFits(4, ps[k]);
        HeaderSizeIsLength(4, ps[k]);
        var l := options[k].Size();
        n := n + l + HeaderSize(l);
      }
      assert ps[0..] == ps;
    }

    method MarshalToSizedBuffer(dAtA: array<byte>, hi: nat) returns (n: nat)
      requires |DeviceInfoBytes(Value())| <= hi <= dAtA.Length <= MAX_INT
      modifies dAtA
      ensures n == |DeviceInfoBytes(Value())|
      ensures Filled(dAtA[..], old(dAtA[..]), DeviceInfoBytes(Value()), hi)
    {
      hide Filled, OptBytes, Encode, RepeatedBytes, OptionBytes;
      DeviceInfoLayout(Value());
      var i := UnknownBack(dAtA, hi, unrecognized);
      ghost var was, bytes := old(dAtA[..]), unrecognized.Data();
      i, bytes := OptionsBack(dAtA, i, was, bytes, hi);
      i, bytes := FieldBack(dAtA, i, aaguid.Data(), 0x1a, was, bytes, hi);
      i, bytes := RepeatedBack(dAtA, i, extensions, 0x12, was, bytes, hi);
      i, bytes := RepeatedBack(dAtA, i, versions, 0xa, was, bytes, hi);
      assert bytes == DeviceInfoBytes(Value());
      n := hi - i;
    }

    /** The options, last one first, each followed by its header. */
    method OptionsBack(dAtA: array<byte>, hi: nat, ghost was: seq<byte>, ghost bytes: seq<byte>, ghost end: nat)
      returns (i: nat, ghost done: seq<byte>)
      requires Filling(dAtA[..], was, bytes, hi, end) && dAtA.Length <= MAX_INT
      requires |RepeatedBytes(4, OptionBytes(OptionValues(options)))| <= hi
      modifies dAtA
      ensures done == RepeatedBytes(4, OptionBytes(OptionValues(options))) + bytes
      ensures Filling(dAtA[..], was, done, i, end)
    {
      hide Filled, OptionBytesOf, Encode, OptionValues, RepeatedBytes;
      ghost var vs := OptionValues(options);
      ghost var ps := OptionBytes(vs);
      i, done := hi, bytes;
      var k := |options|;
      RepeatedNothing(4);
      assert ps[k..] == [];
      while k > 0
        invariant 0 <= k <= |options|
        invariant vs == OptionValues(options)
        invariant done == RepeatedBytes(4, ps[k..]) + bytes
        invariant Filling(dAtA[..], was, done, i, end)
      {
        k := k - 1;
        OptionValuesAt(options, k);
        OptionBytesFrom(vs, k);
        RepeatedStep(4, ps, k);
        RepeatedSuffix(4, ps, k);
        ElementFits(4, ps[k]);
        ghost var mid := dAtA[..];
        var size := options[k].MarshalToSizedBuffer(dAtA, i);
        FilledMore(dAtA[..], mid, was, ps[k], done, end);
        i, done := i - size, ps[k] + done;
        i, done := HeaderBack(dAtA, i, size, 0x22, was, done, end);
        assert done == EncodeItem(Blob(4, ps[k])) + RepeatedBytes(4, ps[k + 1..]) + bytes;
      }
      assert ps[0..] == ps;
    }

    method Marshal() returns (dAtA: array<byte>)
      requires |DeviceInfoBytes(Value())| <= MAX_INT
      ensures fresh(dAtA) && dAtA[..] == DeviceInfoBytes(Value())
    {
      hide DeviceInfoBytes, Filled;
      var size := Size();
      dAtA := new byte[size](_ => 0);
      ghost var was := dAtA[..];
      var n := MarshalToSizedBuffer(dAtA, size);
      FilledWhole(dAtA[..], was, DeviceInfoBytes(Value()));
    }

    method TakeItem(item: Item) returns (err: Maybe<Error>)
      requires item.Blob? ==> |item.payload| <= MAX_INT
      modifies this
      ensures Agrees(Take(DeviceInfoSchema(), old(Value()), item), err, Value())
    {
      hide Wire.Unmarshal, Absorbed;
      match item {
        case Blob(num, p) =>
          if num == 1 {
            versions := versions + [p];
          } else if num == 2 {
            extensions := extensions + [p];
          } else if num == 3 {
            aaguid := Bytes(p);
          } else {
            var o := new Option();
            options := options + [o];
            var e := o.Unmarshal(p);
            if e.Just? {
              return e;
            }
          }
        case Scalar(_, _) =>
        case Unrecognized(raw) =>
          unrecognized := Absorbed(unrecognized, raw);
      }
      err := Nothing;
    }

    method Unmarshal(dAtA: seq<byte>) returns (err: Maybe<Error>)
      requires |dAtA| <= MAX_INT
      modifies this
      ensures Agrees(Wire.Unmarshal(DeviceInfoSchema(), old(Value()), dAtA), err, Value())
    {
      hide Run, NextItem, Take;
      var l, iNdEx := |dAtA|, 0;
      assert dAtA[0..] == dAtA;
      while iNdEx < l
        invariant 0 <= iNdEx <= l
        invariant Wire.Unmarshal(DeviceInfoSchema(), old(Value()), dAtA) == Run(DeviceInfoSchema(), Value(), dAtA[iNdEx..], iNdEx)
        decreases l - iNdEx
      {
        RunStep(DeviceInfoSchema(), Value(), dAtA, iNdEx);
        var r := ReadItem(dAtA, iNdEx, BlobsUpTo4);
        if r.BadItem? {
          return Just(r.error);
        }
        var e := TakeItem(r.item);
        if e.Just? {
          return e;
        }
        iNdEx := iNdEx + r.n;
      }
      RunEnd(DeviceInfoSchema(), Value(), dAtA);
      err := Nothing;
    }
  }

  class Credential {
    var id: Slice
    var typ: seq<byte>
    var rp: RelyingParty?
    var user: User?
    var unrecognized: Slice

    constructor ()
      ensures Value() == Wire.Message(NO_CREDENTIAL, Nil)
    {
      id, typ, rp, user, unrecognized := Nil, [], null, null, Nil;
    }

    ghost function Parts(): set<object>
      reads this
    {
      (if rp == null then {} else {rp as object}) + (if user == null then {} else {user as object})
    }

    function Value(): CredentialMessage
      reads this, Parts()
    {
      Wire.Message(CredentialFields(id, typ,
                                    if rp == null then Nothing else Just(rp.Value()),
                                    if user == null then Nothing else Just(user.Value())), unrecognized)
    }

    method Size() returns (n: nat)
      requires |CredentialBytes(Value())| <= MAX_INT
      ensures n == |CredentialBytes(Value())|
    {
      hide OptBytes, Encode, RelyingPartyBytes, UserBytes;
      CredentialLayout(Value());
      CredentialFits(Value());
      n := FieldSize(1, id.Data());
      var t := FieldSize(2, typ);
      n := n + t;
      if rp != null {
        HeaderSizeIsLength(10, RelyingPartyBytes(rp.Value()));
        var l := rp.Size();
        n := n + l + HeaderSize(l);
      }
      if user != null {
        HeaderSizeIsLength(11, UserBytes(user.Value()));
        var l := user.Size();
        n := n + l + HeaderSize(l);
      }
      n := n + |unrecognized.Data()|;
    }

    method MarshalToSizedBuffer(dAtA: array<byte>, hi: nat) returns (n: nat)
      requires |CredentialBytes(Value())| <= hi <= dAtA.Length <= MAX_INT
      modifies dAtA
      ensures n == |CredentialBytes(Value())|
      ensures Filled(dAtA[..], old(dAtA[..]), CredentialBytes(Value()), hi)
    {
      hide Filled, OptBytes, RelyingPartyBytes, UserBytes, PartyPart, UserPart;
      CredentialLayout(Value());
      var i := UnknownBack(dAtA, hi, unrecognized);
      ghost var was, bytes := old(dAtA[..]), unrecognized.Data();
      i, bytes := UserBack(dAtA, i, was, bytes, hi);
      i, bytes := RPBack(dAtA, i, was, bytes, hi);
      i, bytes := FieldBack(dAtA, i, typ, 0x12, was, bytes, hi);
      i, bytes := FieldBack(dAtA, i, id.Data(), 0xa, was, bytes, hi);
      assert bytes == CredentialBytes(Value());
      n := hi - i;
    }

    method UserBack(dAtA: array<byte>, hi: nat, ghost was: seq<byte>, ghost bytes: seq<byte>, ghost end: nat)
      returns (i: nat, ghost done: seq<byte>)
      requires Filling(dAtA[..], was, bytes, hi, end) && dAtA.Length <= MAX_INT
      requires |UserPart(Value().fields.user)| <= hi
      modifies dAtA
      ensures done == UserPart(Value().fields.user) + bytes && Filling(dAtA[..], was, done, i, end)
    {
      hide Filled, Encode, UserBytes;
      i, done := hi, bytes;
      if user != null {
        ghost var mid, payload := dAtA[..], UserBytes(user.Value());
        ElementFits(11, payload);
        var size := user.MarshalToSizedBuffer(dAtA, i);
        FilledMore(dAtA[..], mid, was, payload, bytes, end);
        i, done := i - size, payload + bytes;
        i, done := HeaderBack(dAtA, i, size, 0x5a, was, done, end);
        assert done == EncodeItem(Blob(11, payload)) + bytes;
      } else {
        assert [] + bytes == bytes;
      }
    }

    method RPBack(dAtA: array<byte>, hi: nat, ghost was: seq<byte>, ghost bytes: seq<byte>, ghost end: nat)
      returns (i: nat, ghost done: seq<byte>)
      requires Filling(dAtA[..], was, bytes, hi, end) && dAtA.Length <= MAX_INT
      requires |PartyPart(Value().fields.rp)| <= hi
      modifies dAtA
      ensures done == PartyPart(Value().fields.rp) + bytes && Filling(dAtA[..], was, done, i, end)
    {
      hide Filled, Encode, RelyingPartyBytes;
      i, done := hi, bytes;
      if rp != null {
        ghost var mid, payload := dAtA[..], RelyingPartyBytes(rp.Value());
        ElementFits(10, payload);
        var size := rp.MarshalToSizedBuffer(dAtA, i);
        FilledMore(dAtA[..], mid, was, payload, bytes, end);
        i, done := i - size, payload + bytes;
        i, done := HeaderBack(dAtA, i, size, 0x52, was, done, end);
        assert done == EncodeItem(Blob(10, payload)) + bytes;
      } else {
        assert [] + bytes == bytes;
      }
    }

    method Marshal() returns (dAtA: array<byte>)
      requires |CredentialBytes(Value())| <= MAX_INT
      ensures fresh(dAtA) && dAtA[..] == CredentialBytes(Value())
    {
      hide CredentialBytes, Filled;
      var size := Size();
      dAtA := new byte[size](_ => 0);
      ghost var was := dAtA[..];
      var n := MarshalToSizedBuffer(dAtA, size);
      FilledWhole(dAtA[..], was, CredentialBytes(Value()));
    }

    /** Field 10: a sub-message already there is unmarshalled into, not replaced. */
    method MergeRP(p: seq<byte>) returns (err: Maybe<Error>)
      requires |p| <= MAX_INT
      modifies this`rp, Parts()
      ensures fresh(Parts() - old(Parts()))
      ensures match SetParty(old(Value()).fields, Wire.Unmarshal(RelyingPartySchema(), PartyOf(old(Value()).fields.rp), p))
              case Rejected(e) => err == Just(e)
              case Set(f) => err == Nothing && Value() == Wire.Message(f, old(unrecognized))
    {
      hide Wire.Unmarshal;
      if rp == null {
        rp := new RelyingParty();
      }
      err := rp.Unmarshal(p);
    }

    /** Field 11. */
    method MergeUser(p: seq<byte>) returns (err: Maybe<Error>)
      requires |p| <= MAX_INT
      modifies this`user, Parts()
      ensures fresh(Parts() - old(Parts()))
      ensures match SetUser(old(Value()).fields, Wire.Unmarshal(UserSchema(), UserOf(old(Value()).fields.user), p))
              case Rejected(e) => err == Just(e)
              case Set(f) => err == Nothing && Value() == Wire.Message(f, old(unrecognized))
    {
      hide Wire.Unmarshal;
      if user == null {
        user := new User();
      }
      err := user.Unmarshal(p);
    }

    method TakeItem(item: Item) returns (err: Maybe<Error>)
      requires item.Blob? ==> |item.payload| <= MAX_INT
      modifies this, Parts()
      ensures fresh(Parts() - old(Parts()))
      ensures Agrees(Take(CredentialSchema(), old(Value()), item), err, Value())
    {
      hide Wire.Unmarshal, Absorbed;
      match item {
        case Blob(num, p) =>
          if num == 1 {
            id := Bytes(p);
          } else if num == 2 {
            typ := p;
          } else if num == 10 {
            var e := MergeRP(p);
            if e.Just? {
              return e;
            }
          } else {
            var e := MergeUser(p);
            if e.Just? {
              return e;
            }
          }
        case Scalar(_, _) =>
        case Unrecognized(raw) =>
          unrecognized := Absorbed(unrecognized, raw);
      }
      err := Nothing;
    }

    method Unmarshal(dAtA: seq<byte>) returns (err: Maybe<Error>)
      requires |dAtA| <= MAX_INT
      modifies this, Parts()
      ensures Agrees(Wire.Unmarshal(CredentialSchema(), old(Value()), dAtA), err, Value())
      ensures fresh(Parts() - old(Parts()))
    {
      hide Run, NextItem, Take;
      var l, iNdEx := |dAtA|, 0;
      assert dAtA[0..] == dAtA;
      while iNdEx < l
        invariant 0 <= iNdEx <= l
        invariant fresh(Parts() - old(Parts()))
        invariant Wire.Unmarshal(CredentialSchema(), old(Value()), dAtA) == Run(CredentialSchema(), Value(), dAtA[iNdEx..], iNdEx)
        decreases l - iNdEx
      {
        RunStep(CredentialSchema(), Value(), dAtA, iNdEx);
        var r := ReadItem(dAtA, iNdEx, CredentialKind);
        if r.BadItem? {
          return Just(r.error);
        }
        var e := TakeItem(r.item);
        if e.Just? {
          return e;
        }
        iNdEx := iNdEx + r.n;
      }
      RunEnd(CredentialSchema(), Value(), dAtA);
      err := Nothing;
    }
  }
}
