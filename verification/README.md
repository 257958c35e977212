# keysd verification

A Dafny model of the parts of keysd whose correctness is hardest to see from the code, with proofs of
what those parts promise. `dafny verify dfyconfig.toml` checks all of it.

The source's loops and mutable objects are methods and classes here; each is proved equal to a function
on values, and the theorems are about those functions, over every input, run or reachable state.

| modules | what they model |
|---|---|
| `Varint`, `Skip`, `Wire`, `Messages`, `Buffer`, `Fido2` | the generated Protocol Buffers codec: varints, skipping unknown records, and six messages that between them have every field shape |
| `WireForm` | the same codec described by its bytes: which input is which item, what each field does, what a code looks like |
| `Handshake` | the UDP handshake before an SCTP association, over a network that loses, duplicates and reorders |
| `Wormhole` | the message and acknowledgement layer of an open wormhole, on two reliable ordered links |
| `MemCache`, `Auth`, `Disco`, `Requests` | the expiring cache, the nonce and timestamp check, the read-once mailbox, and whole runs of requests |
| `KeyOrder`, `Store`, `StoreRuns`, `StoreIterator` | the document store with its three key families, and its iterators |
| `Firestore`, `Pull`, `PullRuns`, `PullShared` | message logs and documents on the server, the deletion of expired documents, and pulling by version cursor, from one recipient and from several |
| `Sigchain`, `Push` | the server's sigchains and pushing a local one |
| `GoTypes`, `Arithmetic`, `Decimal` | machine integers, byte slices, division facts, decimal text |

## What is assumed

- Wire input and buffers are at most 2^63 - 1 bytes long, as Go's `int` lengths are.
- `Handshake`: packets come only from the two peers. `ListenerAckedLast`, `AlwaysFinishable` and `OneLossCanDoom` take one
  writer iteration (write, then test) as one step; the other theorems also allow reads in between.
- `Requests`: one request is one step with one reading of a clock that does not run backwards and shows
  at least the year 293, so that no deadline is Go's zero time.
- `Store`: paths have been normalised. Where the code uses raw keys (`DeleteAll`, `GetAll`) so does the model.
- `PullRuns`, `PullShared`: a log is in non-decreasing time order and grows at its end, no message id is
  drawn twice, and documents disappear only after they have expired; `Firestore.PostMessage`,
  `Firestore.TaskExpired` and `Firestore.JoinIsLog` show that the server keeps this. The server's clock and
  its database's clock are one clock that does not run backwards. Milliseconds convert to times and back exactly.
- `Sigchain`: the hash is injective, so a statement carries its predecessor; statements are equal when
  their bytes are.
- `Wormhole`: the cipher is transparent and ids are the 32 bytes behind their Base62 text. A cipher that
  lengthens what it encrypts makes the longest frames unreadable: a frame is written when it has at most
  `maxSize` bytes in clear, but read into a buffer of `maxSize` bytes encrypted (wormhole/wormhole.go:86, 348, 360).
  With n bytes of overhead the theorems are about payloads of at most `maxSize` - 33 - n bytes.
- `MemCache`: `Expire` and `Increment` need a live key, as the code does, which dereferences the entry it
  looked up (http/server/memcache.go:84-90, 114-123). Each `Expire` in the server follows a `Set`
  of its key; `Increment` has no caller there.

## Where a promise does not hold

- A round trip fails for a bytes field, or unknown bytes, that are empty but not nil, and for unknown bytes
  that are not whole records of undeclared fields. The round-trip lemmas say that these are the only cases.
- A handshake in which the initiator reads the answer between its write and its test, or in which its one
  ack is lost, can no longer finish: `Handshake.SplitIterationsCanDoom`, `Handshake.OneLossCanDoom`.
  `CanFinishIff` gives the exact condition after any run.
- A timestamp at least 2^63 nanoseconds ahead of the clock passes the window, because negating the least
  duration overflows: `Auth.WindowIff`, `Requests.FarFutureReplayPasses`. Whether such a timestamp can arrive
  depends on `util.TimeFromMillis`, which is not part of this model: if it keeps times in 64-bit nanoseconds
  around 1970 then no clock after 1970 meets one, and the window is thirty minutes (`Auth.WindowIffNear`).
- Repeated pulls stop short of the log when a millisecond has a hundred entries from its first one on and
  more of the log follows, or when all documents of the first page have been deleted before the first pull
  and more of the log follows. The server then answers not found, because it looks at the documents left and
  not at the changes, and the cursor stays at the beginning for ever: `PullRuns.ReachesAllIff`,
  `PullRuns.DeletedFirstPageStalls`.
- The pull cursor is saved for each key id alone, so a pull from one recipient can move it past messages
  from another: `PullShared.NoRecipientLosesIff`, `PullShared.SharedCursorLoses`.
- `DeleteAll` with a raw metadata key leaves a document that cannot be read: `StoreRuns.DeleteAllCanOrphan`.
- The comment on `ReadMessage` says that an ack is sent if the parameter asks for it. The code ignores the
  parameter; the model follows the code.

## Model

| member | source | states |
|---|---|---|
| Varint.SovIsLength | fido2/fido2.pb.go:4484-4486 | the size computed from the bit length is the exact length of the encoding, for every uint64 |
| Varint.EncodeVarintFido2 | fido2/fido2.pb.go:3799-3809 | the writer leaves exactly the encoding in front of the offset, changes no other byte and returns where it begins |
| Varint.ReadEncode | fido2/fido2.pb.go:4495-4509 | reading inverts writing for every uint64, whatever follows, in at most ten bytes |
| Varint.ReadPrefix | fido2/fido2.pb.go:4495-4509 | what is read is a well-formed varint of at most ten bytes, and later bytes do not matter |
| Varint.ReadVarint | fido2/fido2.pb.go:4495-4509 | the shifting loop, on arbitrary bytes and with bits lost beyond the target's width, returns the value modulo 2^64 or 2^32 and the next index, or the right error, never reading out of bounds |
| Varint.EncodeAt | fido2/fido2.pb.go:3799-3809 | byte k of an encoding is the k-th group of seven bits, marked exactly when another byte follows |
| Varint.EncodeLength | fido2/fido2.pb.go:3799-3809 | an encoding has n bytes exactly for the numbers below 128^n and, unless n is 1, not below 128^(n - 1) |
| Varint.ReadAt | fido2/fido2.pb.go:4495-4509 | the number read has the bytes' groups of seven bits, modulo 2^64 |
| Varint.ReadFailsIff | fido2/fido2.pb.go:4495-4509 | reading overflows exactly when ten bytes go on, and meets the end exactly when fewer than ten are left and all go on |
| Skip.SkipsRecord | fido2/fido2.pb.go:8536-8613 | a record, groups nested to any depth, followed by any bytes, is skipped over by exactly its length |
| Skip.ParseRecord | fido2/fido2.pb.go:8536-8613 | any success within the input means that the bytes skipped form one record of the grammar |
| Skip.SkipIffRecord | fido2/fido2.pb.go:8536-8613 | both directions: length n is returned if and only if the first n bytes are one record; end-group field numbers are not matched |
| Skip.SkipFido2 | fido2/fido2.pb.go:8536-8613 | the loop with its wrapping index computes that length and stops on every input |
| Wire.NextItem | fido2/fido2.pb.go:4490-4626 | an item takes at least one byte and at most what is left; an unknown record is exactly the bytes it took |
| Wire.RunConcat | fido2/fido2.pb.go:4933-5118 | after a parses, continuing into b is parsing b from the message reached |
| Wire.ConcatenationIsMerge | fido2/fido2.pb.go:4933-5118 | if a parses, unmarshalling a ++ b equals unmarshalling a and then b into the result, and one parses if and only if the other does |
| Wire.UnknownIffRecords | fido2/fido2.pb.go:5099-5112 | bytes are kept as unknown if and only if they are a list of whole records, none with a declared field number |
| Wire.RunUnknown | fido2/fido2.pb.go:5099-5112 | unknown records are appended in order and change no field |
| Wire.OnlyUnknown | fido2/fido2.pb.go:5099-5112 | if all bytes end up as unknown bytes then every record was unknown |
| Wire.MergeEncoded | fido2/fido2.pb.go:4490-4626 | unmarshalling written items and unknown records into any message folds the items into its fields and appends the records |
| Wire.RoundTripIff | fido2/fido2.pb.go:4490-4626 | for any message type: the round trip gives the message back if and only if its unknown bytes are whole undeclared records, not empty and non-nil, and its items fold into its fields |
| WireForm.BlobItemIff | fido2/fido2.pb.go:4538-4601 | a length-delimited item is read if and only if the input begins with a tag of that field, a length and that many bytes |
| WireForm.ScalarItemIff | fido2/fido2.pb.go:4519-4537 | an int32 item is read if and only if the input begins with a tag of that field and a varint congruent to the value modulo 2^32 |
| WireForm.UnknownItemIff | fido2/fido2.pb.go:4602-4617 | an unknown item is read if and only if the input begins with one whole record whose field is not declared |
| WireForm.Declarations | fido2/fido2.pb.go:4490-5934 | the six messages declare exactly these fields with these kinds |
| WireForm.OtherFieldKept | fido2/fido2.pb.go:4602-4617 | a record of any other field is appended to the unknown bytes and changes no field |
| WireForm.BadTagRefused | fido2/fido2.pb.go:4510-4521 | an end-group tag, a field number that is not positive, and a declared field with another wire type are refused, each with its error |
| WireForm.NoSuchWireType | fido2/fido2.pb.go:8602-8604 | wire types 6 and 7 are refused in unknown fields |
| WireForm.LongLengthRefused | fido2/fido2.pb.go:4557-4568 | a length beyond the input is invalid when it or the index after it wraps, and else an unexpected end |
| WireForm.EndWithoutGroup | fido2/fido2.pb.go:8596-8600 | an end-group tag where a record should begin is refused |
| WireForm.CodeReplaced | fido2/fido2.pb.go:4519-4537 | one code item sets the code and nothing else |
| WireForm.StringsReplaced | fido2/fido2.pb.go:4538-4601 | one string item replaces its field and nothing else, also when it is empty |
| WireForm.UserReplaced | fido2/fido2.pb.go:5237-5420 | one item replaces its field of a user, and bytes that were sent are not nil |
| WireForm.InfoGrows | fido2/fido2.pb.go:4933-5118 | one item appends one element to its repeated field; an option that does not parse is refused with its error |
| WireForm.CredentialChanged | fido2/fido2.pb.go:5743-5934 | a sub-message is read into the one that is there or into an empty one |
| WireForm.NegativeCode | fido2/fido2.pb.go:2394-2423 | a negative code takes exactly eleven bytes: the tag and the ten groups of seven bits of the code plus 2^64 |
| WireForm.OtherCode | fido2/fido2.pb.go:2394-2423 | a positive code is written as its own varint and zero is not written |
| Messages.RPCErrorMerges | fido2/fido2.pb.go:4490-4626 | unmarshalling b's bytes into a: the last non-zero code and non-empty strings win, unknown records are appended |
| Messages.RPCErrorRoundTrip | fido2/fido2.pb.go:2394-2423 | every code, negative ones included, and every string comes back, exactly for canonical values |
| Messages.OptionMerges | fido2/fido2.pb.go:4815-4932 | merging two options field by field |
| Messages.OptionRoundTrip | fido2/fido2.pb.go:2498-2522 | marshal then unmarshal is the identity exactly on canonical options |
| Messages.RelyingPartyMerges | fido2/fido2.pb.go:5119-5236 | merging two relying parties field by field |
| Messages.RelyingPartyRoundTrip | fido2/fido2.pb.go:2605-2629 | marshal then unmarshal is the identity exactly on canonical relying parties |
| Messages.UserMerges | fido2/fido2.pb.go:5237-5420 | merging two users field by field |
| Messages.UserRoundTrip | fido2/fido2.pb.go:2646-2684 | marshal then unmarshal is the identity exactly on canonical users |
| Messages.DeviceInfoMerges | fido2/fido2.pb.go:4933-5118 | repeated strings and sub-messages are appended, each option read into an empty one |
| Messages.DeviceInfoRoundTrip | fido2/fido2.pb.go:2539-2588 | marshal then unmarshal is the identity exactly when the message and each of its options are canonical |
| Messages.CredentialMerges | fido2/fido2.pb.go:5743-5934 | sub-messages present in both are merged, not replaced |
| WireForm.ScalarsMerge | fido2/fido2.pb.go:4490-4626 | merging an error, field by field: the last value that is not empty, or not zero, and the unknown bytes appended |
| WireForm.InfosMerge | fido2/fido2.pb.go:4933-5118 | merging a device info, field by field and option by option |
| WireForm.CredentialsMerge | fido2/fido2.pb.go:5743-5934 | merging a credential: a sub-message that both have is merged, one that only the second has is read into an empty one |
| Messages.CredentialRoundTrip | fido2/fido2.pb.go:2784-2832 | marshal then unmarshal is the identity exactly when the message and the sub-messages present are canonical |
| Buffer.RepeatedSize | fido2/fido2.pb.go:3889-3900 | the size loop over repeated strings adds up to the bytes they take |
| Buffer.RepeatedBack | fido2/fido2.pb.go:2562-2579 | the backward loop over repeated strings writes them in order in front of what is there, and nothing else |
| Buffer.ReadFieldAt | fido2/fido2.pb.go:4518-4601 | the branches for int32 and length-delimited fields, with their 64-bit wrap checks, read exactly the field or give the error |
| Buffer.SkipUnknown | fido2/fido2.pb.go:4602-4617 | the default branch takes exactly one skipped record or gives the error |
| Buffer.ReadItem | fido2/fido2.pb.go:4493-4617 | one pass of a generated loop reads exactly the next item, within bounds and making progress |
| Fido2.RPCError.Size | fido2/fido2.pb.go:3810-3831 | the size is the number of bytes that marshalling writes |
| Fido2.RPCError.MarshalToSizedBuffer | fido2/fido2.pb.go:2394-2423 | the backward fill writes the message's bytes in front of the end, every byte once, and no other byte |
| Fido2.RPCError.Marshal | fido2/fido2.pb.go:2379-2387 | the buffer allocated by size holds exactly the message's bytes: the fill ends at index 0 |
| Fido2.RPCError.Unmarshal | fido2/fido2.pb.go:4490-4626 | on arbitrary bytes the loop stays in bounds, ends, and on success has consumed all input and updated the object to the merged value; otherwise it gives the error of the first bad item |
| Fido2.Option.Size | fido2/fido2.pb.go:3863-3881 | the size is the number of bytes that marshalling writes |
| Fido2.Option.MarshalToSizedBuffer | fido2/fido2.pb.go:2498-2522 | the backward fill writes exactly the option's bytes |
| Fido2.Option.Marshal | fido2/fido2.pb.go:2483-2491 | the buffer holds exactly the option's bytes |
| Fido2.Option.Unmarshal | fido2/fido2.pb.go:4815-4932 | the in-place loop agrees with unmarshalling the value |
| Fido2.RelyingParty.Size | fido2/fido2.pb.go:3917-3935 | the size is the number of bytes that marshalling writes |
| Fido2.RelyingParty.MarshalToSizedBuffer | fido2/fido2.pb.go:2605-2629 | the backward fill writes exactly the relying party's bytes |
| Fido2.RelyingParty.Marshal | fido2/fido2.pb.go:2590-2598 | the buffer holds exactly the relying party's bytes |
| Fido2.RelyingParty.Unmarshal | fido2/fido2.pb.go:5119-5236 | the in-place loop agrees with unmarshalling the value |
| Fido2.User.Size | fido2/fido2.pb.go:3937-3963 | the size is the number of bytes that marshalling writes |
| Fido2.User.MarshalToSizedBuffer | fido2/fido2.pb.go:2646-2684 | the backward fill writes exactly the user's bytes |
| Fido2.User.Marshal | fido2/fido2.pb.go:2631-2639 | the buffer holds exactly the user's bytes |
| Fido2.User.Unmarshal | fido2/fido2.pb.go:5237-5420 | the in-place loop agrees with unmarshalling the value |
| Fido2.DeviceInfo.Size | fido2/fido2.pb.go:3883-3915 | the size, with the loops over repeated fields, is the number of bytes that marshalling writes |
| Fido2.DeviceInfo.MarshalToSizedBuffer | fido2/fido2.pb.go:2539-2588 | the backward fill, nested messages last to first, writes exactly the message's bytes in field order |
| Fido2.DeviceInfo.Marshal | fido2/fido2.pb.go:2524-2532 | the buffer holds exactly the message's bytes |
| Fido2.DeviceInfo.Unmarshal | fido2/fido2.pb.go:4933-5118 | the in-place loop agrees with unmarshalling the value, a fresh object for each option |
| Fido2.Credential.Size | fido2/fido2.pb.go:4009-4035 | the size, with optional sub-messages, is the number of bytes that marshalling writes |
| Fido2.Credential.MarshalToSizedBuffer | fido2/fido2.pb.go:2784-2832 | the backward fill with optional sub-messages writes exactly the message's bytes |
| Fido2.Credential.Marshal | fido2/fido2.pb.go:2769-2777 | the buffer holds exactly the message's bytes |
| Fido2.Credential.Unmarshal | fido2/fido2.pb.go:5743-5934 | the in-place loop agrees with unmarshalling the value; sub-message objects are created when missing and else updated in place |
| Handshake.Endpoint.WriterPass | wormhole/sctp/handshake.go:22-31 | one pass of the writer loop writes `send` and stops exactly after an ack |
| Handshake.Endpoint.ReaderPass | wormhole/sctp/handshake.go:36-60 | one pass of the reader loop updates `send` and stops as the role and packet say |
| Handshake.SendIsLastRead | wormhole/sctp/handshake.go:44-60 | in every run and for both roles: `send` is syn before any read, syn-ack when the packet last read was a syn, and ack when it was a syn-ack or an ack |
| Handshake.ReaderStopsOn | wormhole/sctp/handshake.go:38-61 | in every run: a side has stopped reading if and only if it has read an ack or, as initiator, a syn-ack |
| Handshake.WriterStopsOnAck | wormhole/sctp/handshake.go:22-31 | in every run: a writer has stopped if and only if one of its tests found an ack in `send` |
| Handshake.WrittenWasSend | wormhole/sctp/handshake.go:22-31 | in every run: the packets that a side has written are exactly those that `send` held at its writes |
| Handshake.StepInv | wormhole/sctp/handshake.go:20-63 | every step of the two peers and the network keeps the causal invariant |
| Handshake.ListenerAckedLast | wormhole/sctp/handshake.go:20-63 | in every run, if the listener has its ack then the initiator's reader and writer have both finished |
| Handshake.ListenerAckedLastSplit | wormhole/sctp/handshake.go:20-63 | with reads between write and test, the initiator has then at least stopped reading and writes nothing more |
| Handshake.BothHeard | wormhole/sctp/handshake.go:20-63 | in every run, if either side finishes then each side has read a packet that the other really wrote |
| Handshake.AlwaysFinishable | wormhole/sctp/handshake.go:20-63 | from every reachable state without a drop, at most eleven steps take both sides to done |
| Handshake.CanFinishIff | wormhole/sctp/handshake.go:20-63 | after any run, with losses and split iterations, the handshake can still finish if and only if no side needs a packet that is not in flight and that the other will not write again; eleven more steps are then enough |
| Handshake.OneLossCanDoom | wormhole/sctp/handshake.go:20-63 | a run of whole iterations with one loss after which it cannot finish |
| Handshake.DoomLasts | wormhole/sctp/handshake.go:20-63 | from a state that fails that condition no continuation finishes |
| Handshake.SplitIterationsCanDoom | wormhole/sctp/handshake.go:20-63 | a run of four steps reaches such a state |
| Wormhole.MessageBytes | wormhole/wormhole.go:392-393 | a written message frame is parsed back to its id and payload |
| Wormhole.AckBytes | wormhole/wormhole.go:470-472 | a written ack frame is parsed back to its id |
| Wormhole.Endpoint.WriteMessage | wormhole/wormhole.go:380-410 | refuses what is too large or has an id that is not 32 bytes, else writes one frame and returns a pending message |
| Wormhole.Endpoint.WriteAck | wormhole/wormhole.go:470-472 | writes exactly the ack frame |
| Wormhole.Endpoint.ReadMessage | wormhole/wormhole.go:420-468 | takes one frame, answers a message with its ack, an ack with nothing and a close with a close, and returns what the frame says |
| Wormhole.StepInv | wormhole/wormhole.go:380-472 | every send and receive keeps the conservation of messages and acks in both directions |
| Wormhole.SentIsAckedThenInFlight | wormhole/wormhole.go:380-472 | until a close: ids sent are ids acked back, then acks in flight, then messages in flight, in that order; what was given is a prefix of what was sent, contents included |
| Wormhole.ReceivesLeft | wormhole/wormhole.go:420-472 | with no new sends each receive uses up exactly one of two for a message and one for an ack |
| Wormhole.ExchangeStops | wormhole/wormhole.go:380-472 | the exchange then stops after exactly that many receives, and every id sent has been acked once, in order |
| Decimal.FormatParse | http/server/memcache.go:118-124 | parsing undoes formatting on all 64-bit numbers |
| Decimal.ParseIntIff | http/server/memcache.go:118-121 | exactly which texts are 64-bit numbers, and which number: an optional sign, then digits that denote it by their places |
| Decimal.FormatIs | http/server/memcache.go:123 | formatting gives the one text with a sign exactly for negative numbers, no leading zero and digits that denote the number |
| MemCache.Cache.Lookup | http/server/memcache.go:65-78 | finds the entry object exactly when the key is there and its deadline has not come |
| MemCache.Cache.Get | http/server/memcache.go:52-63 | the value of a live key, else the empty text |
| MemCache.Cache.Expire | http/server/memcache.go:80-91 | sets the deadline of this key's entry in place; other keys keep theirs |
| MemCache.Cache.Delete | http/server/memcache.go:93-98 | removes this key only |
| MemCache.Cache.Set | http/server/memcache.go:100-109 | installs a fresh entry without a deadline under this key only |
| MemCache.Cache.Increment | http/server/memcache.go:111-126 | counts up in place with 64-bit wrap and keeps the deadline; a value that is no number is left |
| MemCache.ReplayRecords | http/server/memcache.go:52-126 | after any history the stored entry is the one that the last operations on its key determine |
| MemCache.GetIsLastWrite | http/server/memcache.go:52-126 | Get returns the value of the last Set since any Delete, counted up by the increments since, unless the deadline of the last Expire after that Set has come |
| Auth.WindowIff | http/api/auth.go:176-183 | the timestamp check passes if and only if the times are within thirty minutes or the timestamp is at least 2^63 nanoseconds ahead |
| Auth.WindowIffNear | http/api/auth.go:176-183 | for timestamps kept in 64-bit nanoseconds around 1970 and clocks after it, the window is exactly thirty minutes |
| Auth.SeenIff | http/api/auth.go:150-159 | a nonce collides if and only if its entry is there, not empty, and its deadline has not come |
| Auth.JudgeIff | http/api/auth.go:131-183 | exactly when each verdict is given, in the order of the checks |
| Auth.AfterCheck | http/api/auth.go:150-165 | a check changes no other key than that of its nonce |
| Auth.CheckAuthorization | http/api/auth.go:131-183 | verdict and cache after the steps in order: a fresh nonce is recorded for an hour even if the timestamp is then refused |
| Disco.KeysApart | http/server/disco.go:14-24 | mailbox keys tell address and type apart and are never a nonce or invite key |
| Disco.ServeReplies | http/server/disco.go:26-164 | exactly when each handler refuses, forbids, or calls the request bad, with the limits on type, address, duration and size |
| Disco.Server.Authorize | http/server/auth.go:31-49 | accepts exactly when the check accepts and the owner matches |
| Disco.Server.PutDisco | http/server/disco.go:26-92 | stores the body under its key with its lifetime, or refuses and stores nothing |
| Disco.Server.GetDisco | http/server/disco.go:94-133 | returns the body and deletes it, or not found |
| Disco.Server.DeleteDisco | http/server/disco.go:135-164 | deletes offer and answer |
| Requests.ActKeepsNonces | http/server/disco.go:26-164 | no handler changes a nonce key |
| Requests.NonceStored | http/api/auth.go:150-165 | at every point of a run a nonce key holds the time of the last request that recorded it, plus an hour |
| Requests.AcceptedIff | http/api/auth.go:131-183 | in every run a request is accepted if and only if it is well signed, its timestamp is in the window, and every earlier request that recorded its nonce did so at least an hour before |
| Requests.RecordedIff | http/api/auth.go:138-165 | in every run a request records its nonce if and only if it is well signed with a nonce of 32 bytes and every earlier recording of it is at least an hour old |
| Requests.ReplayAtMidpoint | http/api/auth.go:150-183 | a request accepted twice: the times are exactly an hour apart and the timestamp is the midpoint, unless it was 2^63 nanoseconds ahead at first |
| Requests.MidpointReplayPasses | http/api/auth.go:150-183 | at exactly that spacing it is accepted twice |
| Requests.FarFutureReplayPasses | http/api/auth.go:150-183 | the exception is real |
| Requests.MailStored | http/server/disco.go:81-88 | at every point of a run a mailbox key holds the body and deadline of the put that is pending, or is absent |
| Requests.PutsIff | http/server/disco.go:26-92 | a request puts if and only if it is accepted for the owner with a known type, an expiry of at most a minute and at most 256 bytes |
| Requests.UntilIs | http/server/disco.go:52-59 | a put lasts for the duration given with it, or else for fifteen seconds |
| Requests.GetReturnsLatestPut | http/server/disco.go:120-132 | an authorised get returns a body if and only if that is the latest put under its key, unexpired, not empty, and not replaced, deleted or taken since |
| Requests.DeliveredOnce | http/server/disco.go:120-132 | each put is returned by at most one get, less than a minute later |
| Store.DB.SetMetadata | db/db.go:164-172 | writes the metadata key |
| Store.DB.SetCollection | db/db.go:174-182 | writes the collection key |
| Store.DB.Put | db/db.go:130-142 | writes metadata, collection and document, in that order |
| Store.DB.Create | db/db.go:79-100 | refuses the root and an existing path, else puts with both times now |
| Store.DB.Set | db/db.go:103-128 | puts, keeping the creation time that the metadata has |
| Store.DB.Delete | db/db.go:228-247 | removes the document key only |
| Store.DB.DeleteAll | db/db.go:250-257 | removes the raw keys given |
| Store.DB.DocumentAt | db/db.go:259-268 | a document with its metadata's times; the metadata must be there |
| Store.DB.Get | db/db.go:185-195 | the document, or missing |
| Store.DB.GetAll | db/db.go:198-212 | the documents of the paths that exist, in order |
| Store.FirstIs | db/db.go:174-182 | the collection of a path is its first component |
| Store.ReadAllMore | db/db.go:198-212 | one path more appends its document, or nothing when it does not exist, or fails when its metadata is malformed |
| StoreRuns.DeleteAllAgreesIff | db/db.go:250-257 | every document keeps its metadata if and only if no metadata key of a document that stays is given |
| StoreRuns.DeleteAllOfPathsAgrees | db/db.go:250-257 | on normalised paths it always does |
| StoreRuns.DeleteAllCanOrphan | db/db.go:250-268 | a raw metadata key makes reading the document fail |
| StoreRuns.StepInv | db/db.go:130-142 | each single write, and each unlocked delete between them, keeps a metadata and a collection key for every document |
| StoreRuns.MetadataNeverMissing | db/db.go:130-268 | at every point of every run, a document that a reader saw still has metadata whenever the reader comes to it |
| StoreRuns.MetadataHistory | db/db.go:79-128 | metadata is there once there was a put, with these times, and is never removed |
| StoreRuns.GetIsLastPut | db/db.go:79-247 | after any history Get returns the last put unless deleted since, created at the last successful Create or else the first Set, whatever was deleted in between |
| StoreRuns.CollectionHistory | db/db.go:174-182 | a collection is listed if and only if something was ever put under it |
| StoreIterator.Documents | db/db.go:271-305 | the iterator is over exactly the keys under the prefix, each once, in order; none is a metadata or collection key |
| KeyOrder.LessIff | db/db.go:297-299 | the order of keys: a proper prefix comes first, and else the character at the first difference decides |
| StoreIterator.DocsIterator.Next | db/iterator.go:16-35 | one call skips up to the index, stops at the limit and otherwise returns the document at its position with live metadata |
| StoreIterator.Iterate | db/iterator.go:16-35 | a whole iteration by repeated calls, the store changing between them as any run allows: the results are exactly the documents at positions max(0, index) on, below the end and the limit, then only missing, and metadata is never missing |
| StoreIterator.KthNext | db/iterator.go:16-35 | call k of a whole iteration returns position max(0, index) + k while below the end and the limit, which counts skipped keys, and nothing from then on |
| StoreIterator.Collections | db/db.go:215-225 | only the root; exactly the collection keys, in order |
| StoreIterator.ColsIterator.Next | db/iterator.go:45-58 | the next collection as a path |
| Firestore.Firestore.Create | firestore/firestore.go:76-102 | creates a document unless its path exists |
| Firestore.Firestore.ChangeAdd | firestore/firestore.go:142-150 | appends a change with the server's time unless the id has one |
| Firestore.Firestore.DeleteAll | firestore/firestore.go:438-445 | removes exactly the documents at these paths; changes stay |
| Firestore.Firestore.TaskExpired | http/server/tasks.go:131-172 | deletes a message document if and only if it has an expiry and more time than that has passed since its creation; every log stays as it was |
| Firestore.Firestore.PostMessage | http/server/messages.go:23-109 | an accepted message comes last in exactly the two logs of the pair, once in each, each change with its own time, and the log of every other pair stays as it was; a refused one changes nothing |
| Firestore.LogNamesApart | http/server/messages.go:93-103 | two ordered pairs of keys have the same log if and only if they are the same pair |
| Firestore.MessagePathsApart | http/server/messages.go:88 | two messages have the same document if and only if they have the same id |
| Firestore.ExpiredIff | http/server/messages.go:192-205 | the deletion and the listing decide by the same condition: there is an expiry, and more time than that has passed since creation |
| Firestore.SweptIff | http/server/tasks.go:131-172 | once the task has run, the log's messages that are deleted are exactly those whose expiry has passed |
| Firestore.DeletedIff | firestore/firestore.go:225-232 | a fetch passes over a change exactly when its document has been deleted |
| Firestore.JoinIsLog | firestore/firestore.go:142-150 | the logs are in time order with unique ids, and of every deleted message more than its expiry has passed since its creation |
| Pull.From | firestore/firestore.go:160-175 | the query begins at the first change that is not older than the cursor |
| Pull.Changes | firestore/firestore.go:153-213 | the first `limit` changes from the cursor on (a hundred for 0), and the last timestamp or the one asked for |
| Pull.GetAll | firestore/firestore.go:216-247 | the documents of a page that still exist, in order |
| Pull.Prune | http/server/messages.go:140-153 | the messages that have not expired, in order |
| Pull.ListMessages | http/server/messages.go:111-190 | the unexpired messages left of the page and the next version; not found when the cursor is at the beginning and no document of the page is left; bad request exactly for a version that is not empty and no number |
| Pull.Service.PullMessages | service/messages.go:214-247 | saves the messages under their paths, then the cursor, which is empty after not found; stopping after any write leaves the cursor as it was |
| Pull.CursorReadsBack | http/server/changes.go:23-31 | the version text saved is read back as the next cursor |
| PullRuns.PullAdds | service/messages.go:214-247 | exactly what a pull adds: the entries of its page that are neither deleted nor expired |
| PullRuns.ServedIff | http/server/messages.go:140-205 | an entry is served if and only if it is on the page, its document is left, and it has no expiry or no more time than that has passed since creation |
| PullRuns.ServedMore | http/server/messages.go:140-153 | entries are served in the order of the page, each as often as it is there |
| PullRuns.PageIs | firestore/firestore.go:153-213 | the page is the first hundred changes that are not before the cursor's millisecond |
| PullRuns.NextIs | http/server/changes.go:75-80 | the next cursor is the millisecond of the page's last change; it is the beginning, saved as an empty text, exactly when it was there and no document of the page is left |
| PullRuns.CollectionsApart | service/messages.go:236 | messages of two ordered pairs of keys are saved in the same place if and only if they are the same pair |
| PullRuns.NewestFirst | service/messages.go:235-238 | of two saved messages the younger, by the millisecond, comes first in the order of the store |
| PullRuns.PageSpans | http/server/changes.go:58-88 | the page holds everything from the old cursor up to the new one and nothing older |
| PullRuns.PullKeepsGapFreeIff | service/messages.go:214-247 | a pull neither makes nor mends a gap behind the cursor |
| PullRuns.NothingMissingBehindCursor | service/messages.go:214-247 | in every run over a growing log whose expired documents disappear, pulls that stop part-way included, no unexpired message older than the saved cursor is missing locally |
| PullRuns.RereadKeeps | service/messages.go:235-243 | re-reads rewrite the same path with the same bytes, and nothing but log entries is stored |
| PullRuns.ReachesAllIff | http/server/messages.go:131-139 | repeated pulls read the whole log, while documents are deleted in between, if and only if no millisecond fills a page from its first entry on with more of the log after it and, when the log is longer than a page, some document of its first page is left at the first pull; then one pull more than the log has entries is enough |
| PullRuns.HeldIff | service/messages.go:214-247 | after n pulls the client holds exactly the entries that one of them had on its page while neither deleted nor expired |
| PullRuns.PullsDeliverIff | service/messages.go:214-247 | under the condition of ReachesAllIff every unexpired entry is held after enough pulls; without it some entry never is |
| PullRuns.DeletedFirstPageStalls | http/server/messages.go:137-139 | a client that first pulls after the first hundred documents were deleted never gets a message, however the log grows |
| PullShared.SharedCursorGapIff | service/messages.go:216-245 | with one cursor per key id, a pull from one recipient loses a message of another exactly when a change on its page is younger than an unexpired message missing from that other |
| PullShared.NoRecipientLosesIff | service/messages.go:216-245 | over any interleaving of pulls from several recipients, no recipient ever has an unexpired message missing behind the cursor if and only if no pull does that |
| PullShared.GapStays | service/messages.go:214-247 | what is missing behind the cursor is never pulled again |
| PullShared.SharedCursorLoses | service/messages.go:216-245 | two recipients and two messages for which one is never pulled |
| Sigchain.TailFixesChain | http/server/sigchain.go:164-171 | two chains with the same statement at a position agree on everything before it |
| Sigchain.Server.LoadSigchain | http/server/sigchain.go:20-53 | adding the stored statements one by one never fails and gives the stored chain |
| Sigchain.Server.PutSigchainStatement | http/server/sigchain.go:114-196 | stores a statement if and only if it is the next one of its chain, within the limits, genuine, allowed, and its user is not linked elsewhere; keeps every chain a chain, and says why it refuses |
| Push.Push | service/push.go:47-91 | the loop over local statements against a server that others may write to in between |
| Push.PushStatement | service/push.go:69-87 | one iteration: compare with the fetched chain, or put |
| Push.PushOnlyExtends | service/push.go:60-91 | however a push ends, the remote chain is extended, never rewritten, and stays a chain |
| Push.PushSuccess | service/push.go:60-91 | if push succeeds the local chain is a prefix of the remote chain, whatever others appended meanwhile |
| Push.PushAlone | service/push.go:60-91 | with no other writer: a difference is reported exactly when the chains conflict, and then nothing changes; else the remote chain is extended by local statements only, and with nothing in the way success is exactly that the rest fits the limits |
| Push.RetryFinishes | service/push.go:60-91 | a push that stopped part-way is completed by a retry |

## Left out

- Fido2.RPCError.Unmarshal: the partly updated object after an error is not described.
- Fido2.Option.Unmarshal: the partly updated object after an error is not described.
- Fido2.RelyingParty.Unmarshal: the partly updated object after an error is not described.
- Fido2.User.Unmarshal: the partly updated object after an error is not described.
- Fido2.DeviceInfo.Unmarshal: the partly updated object after an error is not described.
- Fido2.Credential.Unmarshal: the partly updated object after an error is not described.
- Handshake.AlwaysFinishable: write and socket errors, the sleep and the timeout are not steps of the model.
- Wormhole.Endpoint.ReadMessage: an empty frame, on which the code fails, is excluded, and so is what a read does with a frame that its buffer cannot hold; the status callbacks and the removal of the offer on a close are not modelled.
- MemCache.Cache.Expire: a key that is absent or expired, on which the code fails, is excluded.
- MemCache.Cache.Increment: a key that is absent or expired, on which the code fails, is excluded.
- Auth.CheckAuthorization: header parsing, the signature, Base62 and the conversion of milliseconds to a time enter as data.
- Disco.Server.PutDisco: parsing ids and durations enters as data, and the address of two keys is one text.
- Store.DB.Get: the encryption of values and the JSON of metadata are left out; metadata is a value of its own.
- StoreIterator.Documents: the leveldb iterator is a sorted snapshot of the keys under a prefix.
- Pull.ListMessages: the limit and direction parameters, which a pull does not send, and documents that fail to parse.
- Pull.Changes: descending order is left out; a negative limit, on which the code fails, is excluded.
- Firestore.Firestore.Create: paths that do not have two components, and retries of failed requests.
- Firestore.Firestore.PostMessage: a post that stops between its three writes; `Create` and `ChangeAdd` are also there one by one.
- Sigchain.Server.PutSigchainStatement: the document keys that order a chain are left out: a chain is the sequence of its statements.
- Push.Push: errors while fetching the remote chain, before anything is sent, and the pull that ends a push, beyond whether it succeeds.
- The other fido2 messages, `GoString`, descriptors and gRPC stubs: they repeat the field shapes of the six messages here.
- Cryptography and encodings: signatures, the noise cipher, saltpack, sealed local values, Base62.
- Sockets, STUN, the SCTP association, HTTP routing, gRPC, logging.
- `DB.Last`, `DB.Count`, invite code generation, access checks other than as a parameter.
