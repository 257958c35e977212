/**
 The values of six fido2 messages, their field tables, and what marshalling, unmarshalling and
 concatenating them means. Strings are byte strings: the generated code does not check UTF-8.
 */
module Messages {
  import opened GoTypes
  import opened Varint
  import opened Wire

  datatype RPCErrorFields = RPCErrorFields(code: int32, message: seq<byte>, details: seq<byte>)
  datatype OptionFields = OptionFields(name: seq<byte>, value: seq<byte>)
  datatype RelyingPartyFields = RelyingPartyFields(id: seq<byte>, name: seq<byte>)
  datatype UserFields = UserFields(id: Slice, name: seq<byte>, displayName: seq<byte>, icon: seq<byte>)
  datatype DeviceInfoFields = DeviceInfoFields(
    versions: seq<seq<byte>>, extensions: seq<seq<byte>>, aaguid: Slice, options: seq<OptionMessage>)
  datatype CredentialFields = CredentialFields(
    id: Slice, typ: seq<byte>, rp: Maybe<RelyingPartyMessage>, user: Maybe<UserMessage>)

  type RPCErrorMessage = Message<RPCErrorFields>
  type OptionMessage = Message<OptionFields>
  type RelyingPartyMessage = Message<RelyingPartyFields>
  type UserMessage = Message<UserFields>
  type DeviceInfoMessage = Message<DeviceInfoFields>
  type CredentialMessage = Message<CredentialFields>

  const NO_ERROR := RPCErrorFields(0, [], [])
  const NO_OPTION := OptionFields([], [])
  const NO_PARTY := RelyingPartyFields([], [])
  const NO_USER := UserFields(Nil, [], [], [])
  const NO_INFO := DeviceInfoFields([], [], Nil, [])
  const NO_CREDENTIAL := CredentialFields(Nil, [], Nothing, Nothing)

  // ---------- field tables ----------

  function RPCErrorKind(num: int): Kind {
    if num == 1 then Int32Kind else if num == 2 || num == 3 then BlobKind else UnknownKind
  }

  function BlobsUpTo2(num: int): Kind {
    if num == 1 || num == 2 then BlobKind else UnknownKind
  }

  function BlobsUpTo4(num: int): Kind {
    if 1 <= num <= 4 then BlobKind else UnknownKind
  }

  function CredentialKind(num: int): Kind {
    if num == 1 || num == 2 || num == 10 || num == 11 then BlobKind else UnknownKind
  }

  function ApplyRPCError(f: RPCErrorFields, item: Item): Applied<RPCErrorFields> {
    match item
    case Scalar(_, c) => Set(f.(code := c))
    case Blob(num, p) => Set(if num == 2 then f.(message := p) else f.(details := p))
    case Unrecognized(_) => Set(f)
  }

  function ApplyOption(f: OptionFields, item: Item): Applied<OptionFields> {
    match item
    case Blob(num, p) => Set(if num == 1 then f.(name := p) else f.(value := p))
    case _ => Set(f)
  }

  function ApplyRelyingParty(f: RelyingPartyFields, item: Item): Applied<RelyingPartyFields> {
    match item
    case Blob(num, p) => Set(if num == 1 then f.(id := p) else f.(name := p))
    case _ => Set(f)
  }

  function ApplyUser(f: UserFields, item: Item): Applied<UserFields> {
    match item
    case Blob(num, p) =>
      Set(if num == 1 then f.(id := Bytes(p))
          else if num == 2 then f.(name := p)
          else if num == 3 then f.(displayName := p)
          else f.(icon := p))
    case _ => Set(f)
  }

  function ApplyDeviceInfo(f: DeviceInfoFields, item: Item): Applied<DeviceInfoFields> {
    match item
    case Blob(num, p) =>
      if num == 1 then Set(f.(versions := f.versions + [p]))
      else if num == 2 then Set(f.(extensions := f.extensions + [p]))
      else if num == 3 then Set(f.(aaguid := Bytes(p)))
      else AddOption(f, Unmarshal(OptionSchema(), Message(NO_OPTION, Nil), p))
    case _ => Set(f)
  }

  function AddOption(f: DeviceInfoFields, o: Outcome<OptionFields>): Applied<DeviceInfoFields> {
    match o
    case Refused(e) => Rejected(e)
    case Parsed(x) => Set(f.(options := f.options + [x]))
  }

  function ApplyCredential(f: CredentialFields, item: Item): Applied<CredentialFields> {
    match item
    case Blob(num, p) =>
      if num == 1 then Set(f.(id := Bytes(p)))
      else if num == 2 then Set(f.(typ := p))
      else if num == 10 then SetParty(f, Unmarshal(RelyingPartySchema(), PartyOf(f.rp), p))
      else SetUser(f, Unmarshal(UserSchema(), UserOf(f.user), p))
    case _ => Set(f)
  }

  function PartyOf(rp: Maybe<RelyingPartyMessage>): RelyingPartyMessage {
    if rp.Just? then rp.value else Message(NO_PARTY, Nil)
  }

  function UserOf(user: Maybe<UserMessage>): UserMessage {
    if user.Just? then user.value else Message(NO_USER, Nil)
  }

  function SetParty(f: CredentialFields, o: Outcome<RelyingPartyFields>): Applied<CredentialFields> {
    match o
    case Refused(e) => Rejected(e)
    case Parsed(x) => Set(f.(rp := Just(x)))
  }

  function SetUser(f: CredentialFields, o: Outcome<UserFields>): Applied<CredentialFields> {
    match o
    case Refused(e) => Rejected(e)
    case Parsed(x) => Set(f.(user := Just(x)))
  }

  function RPCErrorSchema(): Schema<RPCErrorFields> { Schema(RPCErrorKind, ApplyRPCError) }
  function OptionSchema(): Schema<OptionFields> { Schema(BlobsUpTo2, ApplyOption) }
  function RelyingPartySchema(): Schema<RelyingPartyFields> { Schema(BlobsUpTo2, ApplyRelyingParty) }
  function UserSchema(): Schema<UserFields> { Schema(BlobsUpTo4, ApplyUser) }
  function DeviceInfoSchema(): Schema<DeviceInfoFields> { Schema(BlobsUpTo4, ApplyDeviceInfo) }
  function CredentialSchema(): Schema<CredentialFields> { Schema(CredentialKind, ApplyCredential) }

  // ---------- what Marshal writes ----------

  function CodeItems(code: int32): seq<Item> {
    if code == 0 then [] else [Scalar(1, code)]
  }

  function RPCErrorItems(f: RPCErrorFields): seq<Item> {
    CodeItems(f.code) + OptBlob(2, f.message) + OptBlob(3, f.details)
  }

  function OptionItems(f: OptionFields): seq<Item> {
    OptBlob(1, f.name) + OptBlob(2, f.value)
  }

  function RelyingPartyItems(f: RelyingPartyFields): seq<Item> {
    OptBlob(1, f.id) + OptBlob(2, f.name)
  }

  function UserItems(f: UserFields): seq<Item> {
    OptBlob(1, f.id.Data()) + OptBlob(2, f.name) + OptBlob(3, f.displayName) + OptBlob(4, f.icon)
  }

  function DeviceInfoItems(f: DeviceInfoFields): seq<Item> {
    Blobs(1, f.versions) + Blobs(2, f.extensions) + OptBlob(3, f.aaguid.Data()) + Blobs(4, OptionBytes(f.options))
  }

  function CredentialItems(f: CredentialFields): seq<Item> {
    OptBlob(1, f.id.Data()) + OptBlob(2, f.typ) + PartyItems(f.rp) + UserItem(f.user)
  }

  /** A sub-message that is present is written even when it is empty. */
  function PartyItems(rp: Maybe<RelyingPartyMessage>): seq<Item> {
    if rp.Just? then [Blob(10, RelyingPartyBytes(rp.value))] else []
  }

  function UserItem(user: Maybe<UserMessage>): seq<Item> {
    if user.Just? then [Blob(11, UserBytes(user.value))] else []
  }

  function RPCErrorBytes(m: RPCErrorMessage): seq<byte> { EncodeItems(RPCErrorItems(m.fields)) + m.unknown.Data() }
  function OptionBytesOf(m: OptionMessage): seq<byte> { EncodeItems(OptionItems(m.fields)) + m.unknown.Data() }
  function RelyingPartyBytes(m: RelyingPartyMessage): seq<byte> { EncodeItems(RelyingPartyItems(m.fields)) + m.unknown.Data() }
  function UserBytes(m: UserMessage): seq<byte> { EncodeItems(UserItems(m.fields)) + m.unknown.Data() }
  function DeviceInfoBytes(m: DeviceInfoMessage): seq<byte> { EncodeItems(DeviceInfoItems(m.fields)) + m.unknown.Data() }
  function CredentialBytes(m: CredentialMessage): seq<byte> { EncodeItems(CredentialItems(m.fields)) + m.unknown.Data() }

  function OptionBytes(os: seq<OptionMessage>): (bs: seq<seq<byte>>)
    ensures |bs| == |os|
  {
    if os == [] then [] else [OptionBytesOf(os[0])] + OptionBytes(os[1..])
  }

  // ---------- the bytes, field by field ----------

  function CodeBytes(code: int32): seq<byte> {
    if code == 0 then [] else [0x8] + Encode(SignExtend(code))
  }

  lemma RPCErrorLayout(m: RPCErrorMessage)
    ensures var f := m.fields;
            RPCErrorBytes(m) == CodeBytes(f.code) + (OptBytes(2, f.message) + (OptBytes(3, f.details) + m.unknown.Data()))
  {
    hide OptBytes, OptBlob, EncodeItems, CodeBytes;
    var f := m.fields;
    var code := CodeItems(f.code);
    EncodeCode(f.code);
    EncodeOpt(code, 2, f.message);
    EncodeOpt(code + OptBlob(2, f.message), 3, f.details);
  }

  lemma EncodeCode(code: int32)
    ensures EncodeItems(CodeItems(code)) == CodeBytes(code)
  {
    if code != 0 {
      EncodeOne(Scalar(1, code));
    }
  }

  lemma OptionLayout(m: OptionMessage)
    ensures OptionBytesOf(m) == OptBytes(1, m.fields.name) + (OptBytes(2, m.fields.value) + m.unknown.Data())
  {
    hide OptBytes, EncodeItems, OptBlob;
    EncodeFirst(1, m.fields.name);
    EncodeOpt(OptBlob(1, m.fields.name), 2, m.fields.value);
  }

  lemma RelyingPartyLayout(m: RelyingPartyMessage)
    ensures RelyingPartyBytes(m) == OptBytes(1, m.fields.id) + (OptBytes(2, m.fields.name) + m.unknown.Data())
  {
    hide OptBytes, EncodeItems, OptBlob;
    EncodeFirst(1, m.fields.id);
    EncodeOpt(OptBlob(1, m.fields.id), 2, m.fields.name);
  }

  lemma UserLayout(m: UserMessage)
    ensures var f := m.fields;
            UserBytes(m) == OptBytes(1, f.id.Data()) + (OptBytes(2, f.name) + (OptBytes(3, f.displayName)
                            + (OptBytes(4, f.icon) + m.unknown.Data())))
  {
    hide OptBytes, EncodeItems, OptBlob;
    var f := m.fields;
    var id := OptBlob(1, f.id.Data());
    EncodeFirst(1, f.id.Data());
    EncodeOpt(id, 2, f.name);
    EncodeOpt(id + OptBlob(2, f.name), 3, f.displayName);
    EncodeOpt(id + OptBlob(2, f.name) + OptBlob(3, f.displayName), 4, f.icon);
  }

  function RepeatedBytes(num: nat, payloads: seq<seq<byte>>): seq<byte> {
    EncodeItems(Blobs(num, payloads))
  }

  lemma DeviceInfoLayout(m: DeviceInfoMessage)
    ensures var f := m.fields;
            DeviceInfoBytes(m) == RepeatedBytes(1, f.versions) + (RepeatedBytes(2, f.extensions)
                + (OptBytes(3, f.aaguid.Data()) + (RepeatedBytes(4, OptionBytes(f.options)) + m.unknown.Data())))
  {
    hide OptBytes, EncodeItems, OptionBytes;
    var f := m.fields;
    EncodeItemsConcat(Blobs(1, f.versions), Blobs(2, f.extensions));
    EncodeOpt(Blobs(1, f.versions) + Blobs(2, f.extensions), 3, f.aaguid.Data());
    EncodeItemsConcat(Blobs(1, f.versions) + Blobs(2, f.extensions) + OptBlob(3, f.aaguid.Data()),
                      Blobs(4, OptionBytes(f.options)));
  }

  lemma RepeatedNothing(num: nat)
    ensures RepeatedBytes(num, []) == [] && OptionBytes([]) == []
  {
  }

  lemma RepeatedStep(num: nat, ps: seq<seq<byte>>, k: nat)
    requires k < |ps|
    ensures RepeatedBytes(num, ps[k..]) == EncodeItem(Blob(num, ps[k])) + RepeatedBytes(num, ps[k + 1..])
  {
    assert ps[k..][1..] == ps[k + 1..];
    var items := Blobs(num, ps[k..]);
    assert items[1..] == Blobs(num, ps[k + 1..]);
  }

  /** A suffix of a repeated field takes no more room than all of it. */
  lemma {:induction false} RepeatedSuffix(num: nat, ps: seq<seq<byte>>, k: nat)
    requires k <= |ps|
    ensures |RepeatedBytes(num, ps[k..])| <= |RepeatedBytes(num, ps)|
    decreases k
  {
    hide RepeatedBytes;
    if k == 0 {
      assert ps[0..] == ps;
    } else {
      RepeatedStep(num, ps, k - 1);
      RepeatedSuffix(num, ps, k - 1);
    }
  }

  lemma {:induction false} OptionBytesFrom(vs: seq<OptionMessage>, k: nat)
    requires k <= |vs|
    ensures OptionBytes(vs[k..]) == OptionBytes(vs)[k..]
    ensures k < |vs| ==> OptionBytes(vs)[k] == OptionBytesOf(vs[k])
    decreases k
  {
    hide OptionBytesOf;
    if k == 0 {
      assert vs[0..] == vs;
    } else {
      assert vs[1..][k - 1..] == vs[k..];
      OptionBytesFrom(vs[1..], k - 1);
    }
  }

  lemma CredentialLayout(m: CredentialMessage)
    ensures var f := m.fields;
            CredentialBytes(m) == OptBytes(1, f.id.Data()) + (OptBytes(2, f.typ)
                                  + (PartyPart(f.rp) + (UserPart(f.user) + m.unknown.Data())))
  {
    hide OptBytes, OptBlob, EncodeItems, PartyItems, UserItem, PartyPart, UserPart;
    var f := m.fields;
    var id, typ := OptBlob(1, f.id.Data()), OptBlob(2, f.typ);
    EncodeFirst(1, f.id.Data());
    EncodeOpt(id, 2, f.typ);
    EncodeItemsConcat(id + typ, PartyItems(f.rp));
    EncodeItemsConcat(id + typ + PartyItems(f.rp), UserItem(f.user));
    EncodeParts(f.rp, f.user);
  }

  lemma EncodeParts(rp: Maybe<RelyingPartyMessage>, user: Maybe<UserMessage>)
    ensures EncodeItems(PartyItems(rp)) == PartyPart(rp)
    ensures EncodeItems(UserItem(user)) == UserPart(user)
  {
    hide RelyingPartyBytes, UserBytes;
    if rp.Just? {
      EncodeOne(Blob(10, RelyingPartyBytes(rp.value)));
    }
    if user.Just? {
      EncodeOne(Blob(11, UserBytes(user.value)));
    }
  }

  function PartyPart(rp: Maybe<RelyingPartyMessage>): seq<byte> {
    if rp.Just? then EncodeItem(Blob(10, RelyingPartyBytes(rp.value))) else []
  }

  function UserPart(user: Maybe<UserMessage>): seq<byte> {
    if user.Just? then EncodeItem(Blob(11, UserBytes(user.value))) else []
  }

  // ---------- merging, said without bytes ----------

  /** Empty values are not sent, so they do not replace anything. */
  function Later(old_: seq<byte>, new_: seq<byte>): seq<byte> {
    if new_ == [] then old_ else new_
  }

  function LaterSlice(old_: Slice, new_: Slice): Slice {
    if new_.Data() == [] then old_ else new_
  }

  /** The unknown bytes are whole records of undeclared fields. */
  predicate Sound<F>(s: Schema<F>, m: Message<F>) {
    UnknownRecords(s.kind, m.unknown.Data())
  }

  function MergeRPCError(a: RPCErrorMessage, b: RPCErrorMessage): RPCErrorMessage {
    Message(RPCErrorFields(if b.fields.code == 0 then a.fields.code else b.fields.code,
                           Later(a.fields.message, b.fields.message),
                           Later(a.fields.details, b.fields.details)),
            Absorbed(a.unknown, b.unknown.Data()))
  }

  function MergeOption(a: OptionMessage, b: OptionMessage): OptionMessage {
    Message(OptionFields(Later(a.fields.name, b.fields.name), Later(a.fields.value, b.fields.value)),
            Absorbed(a.unknown, b.unknown.Data()))
  }

  function MergeRelyingParty(a: RelyingPartyMessage, b: RelyingPartyMessage): RelyingPartyMessage {
    Message(RelyingPartyFields(Later(a.fields.id, b.fields.id), Later(a.fields.name, b.fields.name)),
            Absorbed(a.unknown, b.unknown.Data()))
  }

  function MergeUser(a: UserMessage, b: UserMessage): UserMessage {
    Message(UserFields(LaterSlice(a.fields.id, b.fields.id),
                       Later(a.fields.name, b.fields.name),
                       Later(a.fields.displayName, b.fields.displayName),
                       Later(a.fields.icon, b.fields.icon)),
            Absorbed(a.unknown, b.unknown.Data()))
  }

  /** Repeated sub-messages are appended; each is read into an empty one. */
  function Fresh(os: seq<OptionMessage>): (fs: seq<OptionMessage>) {
    if os == [] then [] else [MergeOption(Message(NO_OPTION, Nil), os[0])] + Fresh(os[1..])
  }

  function MergeDeviceInfo(a: DeviceInfoMessage, b: DeviceInfoMessage): DeviceInfoMessage {
    Message(DeviceInfoFields(a.fields.versions + b.fields.versions,
                             a.fields.extensions + b.fields.extensions,
                             LaterSlice(a.fields.aaguid, b.fields.aaguid),
                             a.fields.options + Fresh(b.fields.options)),
            Absorbed(a.unknown, b.unknown.Data()))
  }

  /** Sub-messages present in both are merged, not replaced. */
  function MergeCredential(a: CredentialMessage, b: CredentialMessage): CredentialMessage {
    Message(CredentialFields(LaterSlice(a.fields.id, b.fields.id),
                             Later(a.fields.typ, b.fields.typ),
                             if b.fields.rp.Nothing? then a.fields.rp
                             else Just(MergeRelyingParty(PartyOf(a.fields.rp), b.fields.rp.value)),
                             if b.fields.user.Nothing? then a.fields.user
                             else Just(MergeUser(UserOf(a.fields.user), b.fields.user.value))),
            Absorbed(a.unknown, b.unknown.Data()))
  }

  // ---------- folding optional fields ----------

  function Bind<F>(r: Applied<F>, s: Schema<F>, item: Item): Applied<F> {
    if r.Set? then s.apply(r.fields, item) else r
  }

  /** The effect of one optional field after other items. */
  lemma FoldOpt<F>(s: Schema<F>, f: F, items: seq<Item>, num: nat, p: seq<byte>)
    ensures Fold(s, f, items + OptBlob(num, p))
         == if p == [] then Fold(s, f, items) else Bind(Fold(s, f, items), s, Blob(num, p))
  {
    FoldConcat(s, f, items, OptBlob(num, p));
    if p == [] {
      assert items + OptBlob(num, p) == items;
    } else {
      FoldOne(s, f, items, Blob(num, p));
    }
  }

  lemma FoldNone<F>(s: Schema<F>, f: F)
    ensures Fold(s, f, []) == Set(f)
  {
  }

  lemma FoldOne<F>(s: Schema<F>, f: F, items: seq<Item>, item: Item)
    ensures Fold(s, f, items + [item]) == Bind(Fold(s, f, items), s, item)
  {
    FoldConcat(s, f, items, [item]);
    if Fold(s, f, items).Set? {
      var g := Fold(s, f, items).fields;
      var r := s.apply(g, item);
      assert [item][1..] == [];
      assert Fold(s, g, [item]) == r;
    }
  }

  // ---------- RPCError ----------

  lemma RPCErrorFold(a: RPCErrorFields, b: RPCErrorFields)
    ensures Fold(RPCErrorSchema(), a, RPCErrorItems(b))
         == Set(RPCErrorFields(if b.code == 0 then a.code else b.code, Later(a.message, b.message), Later(a.details, b.details)))
  {
    var s := RPCErrorSchema();
    var code := CodeItems(b.code);
    if b.code != 0 {
      FoldOne(s, a, [], Scalar(1, b.code));
      assert [] + code == code;
    }
    FoldOpt(s, a, code, 2, b.message);
    FoldOpt(s, a, code + OptBlob(2, b.message), 3, b.details);
  }

  lemma RPCErrorFits(m: RPCErrorMessage)
    requires |RPCErrorBytes(m)| <= MAX_INT
    ensures AllFit(RPCErrorKind, RPCErrorItems(m.fields))
  {
    SizeFits(RPCErrorKind, RPCErrorItems(m.fields));
  }

  lemma RPCErrorMerges(a: RPCErrorMessage, b: RPCErrorMessage)
    requires |RPCErrorBytes(b)| <= MAX_INT && Sound(RPCErrorSchema(), b)
    ensures Unmarshal(RPCErrorSchema(), a, RPCErrorBytes(b)) == Parsed(MergeRPCError(a, b))
  {
    hide Unmarshal, UnknownRecords;
    RPCErrorFits(b);
    RPCErrorFold(a.fields, b.fields);
    MergeEncoded(RPCErrorSchema(), a, RPCErrorItems(b.fields), b.unknown.Data());
  }

  /** What Marshal followed by Unmarshal preserves: see RPCErrorRoundTrip. */
  predicate CanonicalRPCError(m: RPCErrorMessage) {
    Sound(RPCErrorSchema(), m) && m.unknown != Bytes([])
  }

  /** Every code, negative ones included, and all strings come back. */
  lemma RPCErrorRoundTrip(m: RPCErrorMessage)
    requires |RPCErrorBytes(m)| <= MAX_INT
    ensures Unmarshal(RPCErrorSchema(), Message(NO_ERROR, Nil), RPCErrorBytes(m)) == Parsed(m) <==> CanonicalRPCError(m)
  {
    hide Unmarshal, UnknownRecords;
    RPCErrorFits(m);
    RPCErrorFold(NO_ERROR, m.fields);
    RoundTripIff(RPCErrorSchema(), NO_ERROR, m, RPCErrorItems(m.fields));
  }

  // ---------- Option ----------

  lemma OptionFold(a: OptionFields, b: OptionFields)
    ensures Fold(OptionSchema(), a, OptionItems(b)) == Set(OptionFields(Later(a.name, b.name), Later(a.value, b.value)))
  {
    FoldOpt(OptionSchema(), a, [], 1, b.name);
    assert [] + OptBlob(1, b.name) == OptBlob(1, b.name);
    FoldOpt(OptionSchema(), a, OptBlob(1, b.name), 2, b.value);
  }

  lemma OptionFits(m: OptionMessage)
    requires |OptionBytesOf(m)| <= MAX_INT
    ensures AllFit(BlobsUpTo2, OptionItems(m.fields))
  {
    SizeFits(BlobsUpTo2, OptionItems(m.fields));
  }

  lemma OptionMerges(a: OptionMessage, b: OptionMessage)
    requires |OptionBytesOf(b)| <= MAX_INT && Sound(OptionSchema(), b)
    ensures Unmarshal(OptionSchema(), a, OptionBytesOf(b)) == Parsed(MergeOption(a, b))
  {
    hide Unmarshal, UnknownRecords;
    OptionFits(b);
    OptionFold(a.fields, b.fields);
    MergeEncoded(OptionSchema(), a, OptionItems(b.fields), b.unknown.Data());
  }

  predicate CanonicalOption(m: OptionMessage) {
    Sound(OptionSchema(), m) && m.unknown != Bytes([])
  }

  lemma OptionRoundTrip(m: OptionMessage)
    requires |OptionBytesOf(m)| <= MAX_INT
    ensures Unmarshal(OptionSchema(), Message(NO_OPTION, Nil), OptionBytesOf(m)) == Parsed(m) <==> CanonicalOption(m)
  {
    hide Unmarshal, UnknownRecords;
    OptionFits(m);
    OptionFold(NO_OPTION, m.fields);
    RoundTripIff(OptionSchema(), NO_OPTION, m, OptionItems(m.fields));
  }

  // ---------- RelyingParty ----------

  lemma RelyingPartyFold(a: RelyingPartyFields, b: RelyingPartyFields)
    ensures Fold(RelyingPartySchema(), a, RelyingPartyItems(b))
         == Set(RelyingPartyFields(Later(a.id, b.id), Later(a.name, b.name)))
  {
    FoldOpt(RelyingPartySchema(), a, [], 1, b.id);
    assert [] + OptBlob(1, b.id) == OptBlob(1, b.id);
    FoldOpt(RelyingPartySchema(), a, OptBlob(1, b.id), 2, b.name);
  }

  lemma RelyingPartyFits(m: RelyingPartyMessage)
    requires |RelyingPartyBytes(m)| <= MAX_INT
    ensures AllFit(BlobsUpTo2, RelyingPartyItems(m.fields))
  {
    SizeFits(BlobsUpTo2, RelyingPartyItems(m.fields));
  }

  lemma RelyingPartyMerges(a: RelyingPartyMessage, b: RelyingPartyMessage)
    requires |RelyingPartyBytes(b)| <= MAX_INT && Sound(RelyingPartySchema(), b)
    ensures Unmarshal(RelyingPartySchema(), a, RelyingPartyBytes(b)) == Parsed(MergeRelyingParty(a, b))
  {
    hide Unmarshal, UnknownRecords;
    RelyingPartyFits(b);
    RelyingPartyFold(a.fields, b.fields);
    MergeEncoded(RelyingPartySchema(), a, RelyingPartyItems(b.fields), b.unknown.Data());
  }

  predicate CanonicalRelyingParty(m: RelyingPartyMessage) {
    Sound(RelyingPartySchema(), m) && m.unknown != Bytes([])
  }

  lemma RelyingPartyRoundTrip(m: RelyingPartyMessage)
    requires |RelyingPartyBytes(m)| <= MAX_INT
    ensures Unmarshal(RelyingPartySchema(), Message(NO_PARTY, Nil), RelyingPartyBytes(m)) == Parsed(m)
       <==> CanonicalRelyingParty(m)
  {
    hide Unmarshal, UnknownRecords;
    RelyingPartyFits(m);
    RelyingPartyFold(NO_PARTY, m.fields);
    RoundTripIff(RelyingPartySchema(), NO_PARTY, m, RelyingPartyItems(m.fields));
  }

  // ---------- User ----------

  lemma UserFold(a: UserFields, b: UserFields)
    ensures Fold(UserSchema(), a, UserItems(b))
         == Set(UserFields(LaterSlice(a.id, b.id), Later(a.name, b.name),
                           Later(a.displayName, b.displayName), Later(a.icon, b.icon)))
  {
    var s := UserSchema();
    var id := OptBlob(1, b.id.Data());
    FoldOpt(s, a, [], 1, b.id.Data());
    assert [] + id == id;
    FoldOpt(s, a, id, 2, b.name);
    FoldOpt(s, a, id + OptBlob(2, b.name), 3, b.displayName);
    FoldOpt(s, a, id + OptBlob(2, b.name) + OptBlob(3, b.displayName), 4, b.icon);
  }

  lemma UserFits(m: UserMessage)
    requires |UserBytes(m)| <= MAX_INT
    ensures AllFit(BlobsUpTo4, UserItems(m.fields))
  {
    SizeFits(BlobsUpTo4, UserItems(m.fields));
  }

  lemma UserMerges(a: UserMessage, b: UserMessage)
    requires |UserBytes(b)| <= MAX_INT && Sound(UserSchema(), b)
    ensures Unmarshal(UserSchema(), a, UserBytes(b)) == Parsed(MergeUser(a, b))
  {
    hide Unmarshal, UnknownRecords;
    UserFits(b);
    UserFold(a.fields, b.fields);
    MergeEncoded(UserSchema(), a, UserItems(b.fields), b.unknown.Data());
  }

  /** An empty but non-nil id is not sent, so it comes back nil. */
  predicate CanonicalUser(m: UserMessage) {
    Sound(UserSchema(), m) && m.unknown != Bytes([]) && m.fields.id != Bytes([])
  }

  lemma UserRoundTrip(m: UserMessage)
    requires |UserBytes(m)| <= MAX_INT
    ensures Unmarshal(UserSchema(), Message(NO_USER, Nil), UserBytes(m)) == Parsed(m) <==> CanonicalUser(m)
  {
    hide Unmarshal, UnknownRecords;
    UserFits(m);
    UserFold(NO_USER, m.fields);
    RoundTripIff(UserSchema(), NO_USER, m, UserItems(m.fields));
  }

  // ---------- DeviceInfo ----------

  /** What the options come back as: each parsed from its own bytes into an empty message. */
  function Reparse(os: seq<OptionMessage>): Applied<seq<OptionMessage>> {
    if os == [] then Set([]) else
    match Unmarshal(OptionSchema(), Message(NO_OPTION, Nil), OptionBytesOf(os[0]))
    case Refused(e) => Rejected(e)
    case Parsed(x) =>
      match Reparse(os[1..])
      case Rejected(e) => Rejected(e)
      case Set(xs) => Set([x] + xs)
  }

  lemma {:induction false} FoldVersions(f: DeviceInfoFields, vs: seq<seq<byte>>)
    ensures Fold(DeviceInfoSchema(), f, Blobs(1, vs)) == Set(f.(versions := f.versions + vs))
    decreases |vs|
  {
    if vs == [] {
      assert f.versions + vs == f.versions;
    } else {
      var g := f.(versions := f.versions + [vs[0]]);
      assert Blobs(1, vs)[1..] == Blobs(1, vs[1..]);
      FoldVersions(g, vs[1..]);
      assert g.versions + vs[1..] == f.versions + vs;
    }
  }

  lemma {:induction false} FoldExtensions(f: DeviceInfoFields, es: seq<seq<byte>>)
    ensures Fold(DeviceInfoSchema(), f, Blobs(2, es)) == Set(f.(extensions := f.extensions + es))
    decreases |es|
  {
    if es == [] {
      assert f.extensions + es == f.extensions;
    } else {
      var g := f.(extensions := f.extensions + [es[0]]);
      assert Blobs(2, es)[1..] == Blobs(2, es[1..]);
      FoldExtensions(g, es[1..]);
      assert g.extensions + es[1..] == f.extensions + es;
    }
  }

  lemma {:induction false} FoldOptions(f: DeviceInfoFields, os: seq<OptionMessage>)
    ensures Fold(DeviceInfoSchema(), f, Blobs(4, OptionBytes(os)))
         == match Reparse(os)
            case Rejected(e) => Rejected(e)
            case Set(xs) => Set(f.(options := f.options + xs))
    decreases |os|
  {
    hide Unmarshal, OptionBytesOf;
    if os == [] {
      assert f.options + [] == f.options;
    } else {
      var r := AddOption(f, Unmarshal(OptionSchema(), Message(NO_OPTION, Nil), OptionBytesOf(os[0])));
      var items := Blobs(4, OptionBytes(os));
      assert items[1..] == Blobs(4, OptionBytes(os[1..]));
      assert DeviceInfoSchema().apply(f, items[0]) == r;
      if r.Set? {
        FoldOptions(r.fields, os[1..]);
        if Reparse(os[1..]).Set? {
          assert r.fields.options + Reparse(os[1..]).fields == f.options + Reparse(os).fields;
        }
      }
    }
  }

  lemma DeviceInfoFold(a: DeviceInfoFields, b: DeviceInfoFields)
    ensures Fold(DeviceInfoSchema(), a, DeviceInfoItems(b))
         == match Reparse(b.options)
            case Rejected(e) => Rejected(e)
            case Set(xs) => Set(DeviceInfoFields(a.versions + b.versions, a.extensions + b.extensions,
                                                 LaterSlice(a.aaguid, b.aaguid), a.options + xs))
  {
    hide Reparse, Fold;
    var s := DeviceInfoSchema();
    var vs, es, id := Blobs(1, b.versions), Blobs(2, b.extensions), OptBlob(3, b.aaguid.Data());
    var f1 := a.(versions := a.versions + b.versions);
    FoldVersions(a, b.versions);
    FoldConcat(s, a, vs, es);
    FoldExtensions(f1, b.extensions);
    FoldOpt(s, a, vs + es, 3, b.aaguid.Data());
    FoldConcat(s, a, vs + es + id, Blobs(4, OptionBytes(b.options)));
    FoldOptions(f1.(extensions := a.extensions + b.extensions, aaguid := LaterSlice(a.aaguid, b.aaguid)), b.options);
  }

  lemma DeviceInfoFits(m: DeviceInfoMessage)
    requires |DeviceInfoBytes(m)| <= MAX_INT
    ensures AllFit(BlobsUpTo4, DeviceInfoItems(m.fields))
    ensures forall o :: o in m.fields.options ==> |OptionBytesOf(o)| <= MAX_INT
  {
    hide OptionBytesOf, EncodeItems;
    var f := m.fields;
    SizeFits(BlobsUpTo4, DeviceInfoItems(f));
    forall o | o in f.options ensures |OptionBytesOf(o)| <= MAX_INT {
      OptionAmongItems(f.options, o);
      assert Blob(4, OptionBytesOf(o)) in DeviceInfoItems(f);
    }
  }

  lemma {:induction false} OptionAmongItems(os: seq<OptionMessage>, o: OptionMessage)
    requires o in os
    ensures Blob(4, OptionBytesOf(o)) in Blobs(4, OptionBytes(os))
  {
    hide OptionBytesOf;
    assert OptionBytes(os)[1..] == OptionBytes(os[1..]);
    if o != os[0] {
      OptionAmongItems(os[1..], o);
    }
  }

  lemma {:induction false} ReparseFresh(os: seq<OptionMessage>)
    requires forall o :: o in os ==> |OptionBytesOf(o)| <= MAX_INT && Sound(OptionSchema(), o)
    ensures Reparse(os) == Set(Fresh(os))
  {
    hide Unmarshal, OptionBytesOf, Sound;
    if os != [] {
      OptionMerges(Message(NO_OPTION, Nil), os[0]);
      ReparseFresh(os[1..]);
    }
  }

  lemma {:induction false} ReparseIff(os: seq<OptionMessage>)
    requires forall o :: o in os ==> |OptionBytesOf(o)| <= MAX_INT
    ensures Reparse(os) == Set(os) <==> forall o :: o in os ==> CanonicalOption(o)
  {
    hide Unmarshal, OptionBytesOf, CanonicalOption;
    if os != [] {
      OptionRoundTrip(os[0]);
      ReparseIff(os[1..]);
      assert os == [os[0]] + os[1..];
      if Reparse(os) == Set(os) {
        assert Reparse(os).fields[0] == os[0] && Reparse(os).fields[1..] == os[1..];
      }
    }
  }

  lemma DeviceInfoMerges(a: DeviceInfoMessage, b: DeviceInfoMessage)
    requires |DeviceInfoBytes(b)| <= MAX_INT && Sound(DeviceInfoSchema(), b)
    requires forall o :: o in b.fields.options ==> Sound(OptionSchema(), o)
    ensures Unmarshal(DeviceInfoSchema(), a, DeviceInfoBytes(b)) == Parsed(MergeDeviceInfo(a, b))
  {
    hide Unmarshal, UnknownRecords, Fold, OptionBytesOf;
    DeviceInfoFits(b);
    ReparseFresh(b.fields.options);
    DeviceInfoFold(a.fields, b.fields);
    MergeEncoded(DeviceInfoSchema(), a, DeviceInfoItems(b.fields), b.unknown.Data());
  }

  predicate CanonicalDeviceInfo(m: DeviceInfoMessage) {
    && Sound(DeviceInfoSchema(), m) && m.unknown != Bytes([])
    && m.fields.aaguid != Bytes([])
    && forall o :: o in m.fields.options ==> CanonicalOption(o)
  }

  lemma DeviceInfoRoundTrip(m: DeviceInfoMessage)
    requires |DeviceInfoBytes(m)| <= MAX_INT
    ensures Unmarshal(DeviceInfoSchema(), Message(NO_INFO, Nil), DeviceInfoBytes(m)) == Parsed(m)
       <==> CanonicalDeviceInfo(m)
  {
    hide Unmarshal, UnknownRecords, Fold, OptionBytesOf, CanonicalOption, DeviceInfoItems;
    var f := m.fields;
    DeviceInfoFits(m);
    ReparseIff(f.options);
    DeviceInfoFold(NO_INFO, f);
    assert [] + f.versions == f.versions && [] + f.extensions == f.extensions;
    if Reparse(f.options).Set? {
      assert [] + Reparse(f.options).fields == Reparse(f.options).fields;
    }
    RoundTripIff(DeviceInfoSchema(), NO_INFO, m, DeviceInfoItems(f));
  }

  // ---------- Credential ----------

  /** How the sub-messages of b land in a. */
  function PartyInto(f: CredentialFields, rp: Maybe<RelyingPartyMessage>): Applied<CredentialFields> {
    if rp.Nothing? then Set(f)
    else SetParty(f, Unmarshal(RelyingPartySchema(), PartyOf(f.rp), RelyingPartyBytes(rp.value)))
  }

  function UserInto(f: CredentialFields, user: Maybe<UserMessage>): Applied<CredentialFields> {
    if user.Nothing? then Set(f)
    else SetUser(f, Unmarshal(UserSchema(), UserOf(f.user), UserBytes(user.value)))
  }

  lemma CredentialFold(a: CredentialFields, b: CredentialFields)
    ensures var f := a.(id := LaterSlice(a.id, b.id), typ := Later(a.typ, b.typ));
            Fold(CredentialSchema(), a, CredentialItems(b))
            == if PartyInto(f, b.rp).Rejected? then PartyInto(f, b.rp) else UserInto(PartyInto(f, b.rp).fields, b.user)
  {
    hide Unmarshal, RelyingPartyBytes, UserBytes, Fold;
    var s := CredentialSchema();
    assert Fold(s, a, []) == Set(a) by { FoldNone(s, a); }
    var id, typ := OptBlob(1, b.id.Data()), OptBlob(2, b.typ);
    FoldOpt(s, a, [], 1, b.id.Data());
    assert [] + id == id;
    FoldOpt(s, a, id, 2, b.typ);
    if b.rp.Just? {
      FoldOne(s, a, id + typ, Blob(10, RelyingPartyBytes(b.rp.value)));
    } else {
      assert id + typ + PartyItems(b.rp) == id + typ;
    }
    if b.user.Just? {
      FoldOne(s, a, id + typ + PartyItems(b.rp), Blob(11, UserBytes(b.user.value)));
    } else {
      assert CredentialItems(b) == id + typ + PartyItems(b.rp);
    }
  }

  lemma CredentialFits(m: CredentialMessage)
    requires |CredentialBytes(m)| <= MAX_INT
    ensures AllFit(CredentialKind, CredentialItems(m.fields))
    ensures m.fields.rp.Just? ==> |RelyingPartyBytes(m.fields.rp.value)| <= MAX_INT
    ensures m.fields.user.Just? ==> |UserBytes(m.fields.user.value)| <= MAX_INT
  {
    hide EncodeItems, RelyingPartyBytes, UserBytes;
    var items := CredentialItems(m.fields);
    SizeFits(CredentialKind, items);
    assert m.fields.rp.Just? ==> Blob(10, RelyingPartyBytes(m.fields.rp.value)) in items;
    assert m.fields.user.Just? ==> Blob(11, UserBytes(m.fields.user.value)) in items;
  }

  lemma CredentialMerges(a: CredentialMessage, b: CredentialMessage)
    requires |CredentialBytes(b)| <= MAX_INT && Sound(CredentialSchema(), b)
    requires b.fields.rp.Just? ==> Sound(RelyingPartySchema(), b.fields.rp.value)
    requires b.fields.user.Just? ==> Sound(UserSchema(), b.fields.user.value)
    ensures Unmarshal(CredentialSchema(), a, CredentialBytes(b)) == Parsed(MergeCredential(a, b))
  {
    hide Unmarshal, UnknownRecords, Fold, RelyingPartyBytes, UserBytes, CredentialItems;
    CredentialFits(b);
    if b.fields.rp.Just? {
      RelyingPartyMerges(PartyOf(a.fields.rp), b.fields.rp.value);
    }
    if b.fields.user.Just? {
      UserMerges(UserOf(a.fields.user), b.fields.user.value);
    }
    CredentialFold(a.fields, b.fields);
    MergeEncoded(CredentialSchema(), a, CredentialItems(b.fields), b.unknown.Data());
  }

  predicate CanonicalCredential(m: CredentialMessage) {
    && Sound(CredentialSchema(), m) && m.unknown != Bytes([])
    && m.fields.id != Bytes([])
    && (m.fields.rp.Just? ==> CanonicalRelyingParty(m.fields.rp.value))
    && (m.fields.user.Just? ==> CanonicalUser(m.fields.user.value))
  }

  lemma CredentialRoundTrip(m: CredentialMessage)
    requires |CredentialBytes(m)| <= MAX_INT
    ensures Unmarshal(CredentialSchema(), Message(NO_CREDENTIAL, Nil), CredentialBytes(m)) == Parsed(m)
       <==> CanonicalCredential(m)
  {
    hide Unmarshal, UnknownRecords, Fold, RelyingPartyBytes, UserBytes, CredentialItems, CanonicalRelyingParty, CanonicalUser;
    CredentialFits(m);
    if m.fields.rp.Just? {
      RelyingPartyRoundTrip(m.fields.rp.value);
    }
    if m.fields.user.Just? {
      UserRoundTrip(m.fields.user.value);
    }
    CredentialFold(NO_CREDENTIAL, m.fields);
    RoundTripIff(CredentialSchema(), NO_CREDENTIAL, m, CredentialItems(m.fields));
  }
}
