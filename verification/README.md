# Teamgram server: five components, modelled and proved

A Dafny model of the parts of the Teamgram server whose correctness is hardest to see by reading one function.

1. **Text positions** (`Utf`, `UtfTables`, `Utf16Util`, `Marks`, `Mention`, `MentionLaws`, `MentionTerms`,
   `MentionCases`, `MentionAgreement`). Go strings are bytes; Telegram message entities count UTF-16 units. `Utf` is
   a byte-level model of UTF-8 (RFC 3629, sections 3 and 4) and UTF-16 (RFC 2781, sections 2.1 and 2.2), with Go's
   treatment of malformed text; `UtfTables` proves that it encodes and decodes exactly by the tables of these
   documents. On it stand the two transcoders, the byte-to-unit index, the two tag scanners and the entities made
   from tags. `MentionTerms` says which tags are found, for all texts, in terms of what the caller passed.
2. **brpc** (`BrpcFrame`, `BrpcWire`, `BrpcStream`, `BrpcCuts`, `BrpcCodec`, `BrpcController`, `BrpcSharing`). The
   frame format (magic `PRBC`, little-endian, total size including the header, meta last), proved byte by byte in
   `BrpcWire`, its decoder on a byte queue fed in arbitrary pieces, and the controller that keeps `AttachmentSize` in
   step with an attachment while sharing its meta with messages.
3. **PubSub** (`PubSub`, `PubSubLife`). Subscribers, unsubscribers, publishers and receivers as interleaved steps under
   a read/write lock, with the channel list as a Go slice on a backing array that is changed in place; and the life of
   a channel from its subscription to the end of its unsubscription.
4. **De-duplication** (`DedupKeys`, `Deduplication`, `DedupWindows`). INCR, EXPIRE, SETEX and GET on a timed store,
   any number of callers between INCR and EXPIRE, each command allowed to fail before or after it took effect.
5. **Admin server** (`AdminSessions`, `ChangeId`, `ChangeIdEffect`, `ChangeIdKeys`, `ChangeIdCases`). Sliding-expiry
   sessions that survive restarts through a file, and the change of a user id across 25 columns in one transaction.

Code that works step by step is modelled as methods with loops, or classes whose methods change fields; the contract of
each such method gives its result or its new state by specification functions, and the theorems are about those. The
controllers, whose runs involve several objects sharing metas, are in addition proved to step along with a system of
values. Concurrent protocols are transition systems. `Go` holds Go's integer types, `Gaps` the gaps between marks in
a history. Operations that can panic return `Panics` (or `Crashed`) instead of demanding that they are not called.

Where the code does not do what one would expect, the exact condition is proved, and an input is given:

- `EncodeStringToUTF16Index` writes out of range exactly on malformed UTF-8, because it advances by the encoded length
  of U+FFFD (three) for a malformed byte that is one byte wide.
- The comment of `GetTags` says that a tag ends at another prefix character; line 54 of `mention.go` takes everything
  up to the next terminator. The model follows the code. A tag ends as the comment says exactly when no prefix
  character occurs in it; in "@a@b" one does.
- An entity made from a tag denotes prefix and tag exactly when the prefix is not doubled: leading prefixes are trimmed
  from the tag but not from its position. The entity of "@@ab" denotes "@@a".
- `GetTags` and `GetUTF16Tags` agree exactly when no supplementary character, and no terminator wider than a byte, sits
  where it matters. An emoji behind the prefix is a tag for the first only.
- `Encode` stamps the attachment size only when there is an attachment, so a message without one comes back exactly if
  its meta said 0 already. If the connection library answers a read of zero bytes with everything it has, payload plus
  attachment and meta must be non-empty too.
- How a byte stream is cut into arrivals does not matter exactly when every frame in it is settled. If reads of zero
  bytes return nothing, that is: no frame decodes whose total leaves no room for its meta. If they return everything: a
  frame with an empty body or an empty meta is the last thing in the stream.
- Encoding a message after its controller gave up the attachment puts that controller out of step, because they share
  the meta; which operations do such harm is proved in both directions.
- A publisher facing a full buffer keeps everybody from unsubscribing until that very channel is read; one subscription
  and two publications lead there.
- A message counts as new exactly if nobody counted it yet, or a whole minute passed between two neighbouring EXPIREs,
  or the last one and now, since its counter was started. So if every EXPIRE fails, it never counts as new again.
- A restart revives a logged-out token exactly if no write to the session file took effect since the logout and the
  file's expiry has not passed.
- Changing a user id looks for the new id in `users` only. It can be taken back, and keeps all joins between the listed
  columns, exactly if the new id occurs in none of them (and no statement that meets the old id was skipped). The
  contact list left behind by a user who no longer exists is enough to spoil it. If that list shares a contact with the
  user's own, the change is refused: the mandatory statements run into a unique key exactly if the change would make
  two rows equal in one.
- Columns that are not listed keep the old id, so joins with them are lost wherever it stands there: `peer_id` of
  dialogs, messages, settings and blocks, and of usernames, whose rows for users have peer type 2 and not 0.

## Model

| member | source | states |
|---|---|---|
| Utf.DecodeInvertsEncode | pkg/mention/utf16_util.go:45-77 | ranging over a string that starts with an encoded rune yields that rune and its width, whatever follows |
| Utf.EncodeInvertsDecode | pkg/mention/utf16_util.go:45-77 | a well-formed step decodes bytes that are exactly the encoding of its rune |
| Utf.Utf8OfRunes | pkg/mention/utf16_util.go:107-142 | re-encoding the runes of a string gives it back if and only if it is valid UTF-8, and something longer otherwise |
| Utf.CutAtBoundary | pkg/mention/utf16_util.go:45-77 | a valid string cut at a rune boundary leaves two valid strings whose runes are those of the whole |
| Utf.DecodeEncode16 | pkg/mention/utf16_util.go:79-142 | decoding the UTF-16 encoding of s gives s if and only if s is valid UTF-8, and its repaired form always |
| Utf.EncodeDecode16 | pkg/mention/utf16_util.go:79-142 | for every unit sequence, decoding and encoding keeps the length and every unit, except that each unpaired surrogate becomes U+FFFD |
| Utf.EncodeDecode16Laws | pkg/mention/utf16_util.go:79-142 | that round trip is the identity if and only if no surrogate is unpaired, and it is idempotent |
| UtfTables.EncodeRuneSpells | pkg/mention/utf16_util.go:107-142 | the bytes of a character are those of the UTF-8 table: lead byte, continuation bytes and the number they spell, as arithmetic on the bytes |
| UtfTables.DecodeRuneExactly | pkg/mention/utf16_util.go:45-77 | ranging over a string decodes a character if and only if the string starts with bytes that the table allows for it, and otherwise U+FFFD one byte wide |
| UtfTables.EncodeRuneKeepsOrder | pkg/mention/utf16_util.go:107-142 | a greater character has a byte sequence that comes later, byte for byte |
| UtfTables.EncodeUnitsSpells | pkg/mention/utf16_util.go:79-105 | a supplementary character is 0x10000 + (high - 0xD800) * 0x400 + (low - 0xDC00) of a high and a low surrogate, any other is its own unit |
| UtfTables.DecodeUnitsExactly | pkg/mention/utf16_util.go:107-142 | decoding reads exactly such pairs and units; a surrogate that is in no pair gives U+FFFD |
| UtfTables.EncodeUnitsKeepsOrder | pkg/mention/utf16_util.go:79-105 | a greater supplementary character has a pair that comes later |
| Utf16Util.EncodeStringToUTF16 | pkg/mention/utf16_util.go:79-105 | count, then fill in place: no write leaves the array, no slot stays unset, and the contents are the UTF-16 encoding: unit by unit they spell the characters which, in valid text, the bytes spell |
| Utf16Util.DecodeUTF16ToString | pkg/mention/utf16_util.go:107-142 | the size announced to the builder is exactly the number of bytes written, and these spell the decoded characters byte by byte, which the units spell unless a surrogate is unpaired |
| Utf16Util.EncodeStringToUTF16Index | pkg/mention/utf16_util.go:45-77 | returns if and only if the string is valid UTF-8, and then every slot holds the number of units before its rune |
| Utf16Util.IndexOfLoneByte | pkg/mention/utf16_util.go:45-77 | for the text of the one byte 0xFF it panics |
| Utf16Util.UnitsBetween | pkg/mention/utf16_util.go:45-142 | for any two byte offsets, the units between their index entries are the encoding of the bytes between the boundaries at or before them, and decode to those bytes |
| Utf16Util.EntityUnits | pkg/mention/examples/examples.go:215-216 | at rune boundaries p and q, the units idx[p] to idx[q] are the encoding of s[p:q] and decode to it |
| Utf16Util.IndexSteps | pkg/mention/utf16_util.go:45-77 | the index starts at 0, ends at the length of the encoding, stands still exactly inside a rune, and steps by 0, 1 or 2 |
| Mention.IsTerminator | pkg/mention/mention.go:78-85 | true if and only if the rune is one of the given terminators, a space, or not printable |
| Mention.GetTags | pkg/mention/mention.go:30-64 | panics if and only if some opening prefix is itself a terminator; otherwise returns the specified tags in order, for all bytes |
| Mention.GetUTF16Tags | pkg/mention/mention.go:104-140 | the same for the scan of UTF-16 units, which neither trims nor joins surrogates |
| MentionTerms.DefaultIsSpace | pkg/mention/mention.go:31-34 | for all texts, a call without terminators finds exactly what the call with a space finds, in both scanners |
| MentionTerms.TagsExactly | pkg/mention/mention.go:30-64 | for every prefix and all bytes, malformed ones included: the tags of GetTags are exactly the non-empty texts behind the prefixes in front, from a byte equal to the low byte of the prefix, at the start or behind a byte where a rune that ends tags starts, up to the next such rune; such a rune is one of the terminators passed, or a space if none were, or what Unicode calls a space or not printable |
| MentionTerms.ClashesExactly | pkg/mention/mention.go:53-54 | GetTags panics if and only if at such a byte itself starts a rune that ends tags |
| MentionTerms.Tags16Exactly | pkg/mention/mention.go:104-140 | for every prefix and all units: the tags of GetUTF16Tags are exactly the non-empty runs from a unit equal to the low 16 bits of the prefix, at the start or behind a unit that ends tags, up to the next that does |
| MentionTerms.ClashesExactly16 | pkg/mention/mention.go:127-130 | GetUTF16Tags panics if and only if such a unit is itself one that ends tags |
| MentionTerms.TagEndsAt | pkg/mention/mention.go:38-61 | on valid text with an ordinary prefix, no rune of a tag is a terminator passed, a space or unprintable, and the rune that ends it is one of these |
| MentionTerms.HyphenStays | app/messenger/msg/msg/plugin/message_entities_util.go:136 | "#go-lang", scanned for "#" without terminators, is the one tag "go-lang" |
| Marks.TermListLists | pkg/mention/mention.go:38-45 | the list of terminator positions starts at -1, and no terminator lies between two neighbours |
| MentionLaws.TermMarksMean | pkg/mention/mention.go:38-45 | on valid text a terminator index is exactly a rune boundary whose rune terminates |
| MentionLaws.OrdinaryPrefixNeverPanics | pkg/mention/mention.go:53-54 | on valid UTF-8 with an ASCII prefix that is not a terminator no slice is out of order |
| MentionLaws.TagsSound | pkg/mention/mention.go:47-61 | every tag returned is the maximal run up to the next terminator, from a prefix that starts the text or follows a one-byte terminator, without leading prefixes |
| MentionLaws.TagsComplete | pkg/mention/mention.go:47-61 | every such run that is not all prefixes has its tag in the result |
| MentionLaws.RunsDisjoint | pkg/mention/mention.go:47-61 | a later tag starts behind the end of an earlier run |
| MentionLaws.TagsOrdered | pkg/mention/mention.go:47-61 | the tags come in strictly increasing order of position |
| MentionLaws.EntityDenotesTag | app/messenger/msg/msg/plugin/message_entities_util.go:98-112 | the units an entity covers decode to the prefix and the tag if and only if the prefix is not doubled |
| MentionLaws.TagEntities | app/messenger/msg/msg/plugin/message_entities_util.go:136-147 | for one scanner, one entity for each tag, in order, with the offset and length in units that the index gives, cut to 32 bits; panics exactly if the scan does or a tag meets malformed text |
| MentionCases.EndsAsDocumented | pkg/mention/mention.go:26-29 | a tag ends where the comment says, at a terminator or another prefix, if and only if no prefix character stands between the prefixes in front and the next terminator |
| MentionCases.TagGoesOn | pkg/mention/mention.go:53-54 | "@a@b" is one tag, although the comment ends it behind the first letter |
| MentionCases.DoubledIsMisplaced | app/messenger/msg/msg/plugin/message_entities_util.go:98-112 | "@@ab" has the tag "ab", whose entity denotes "@@a" |
| MentionAgreement.TagsAreRuneTags | pkg/mention/mention.go:30-64 | on valid text GetTags is a scan of runes, its positions carried to byte offsets |
| MentionAgreement.CarriedTagsAreRuneTags | pkg/mention/mention.go:104-140 | GetUTF16Tags, carried back through the index, trimmed and emptied of empty tags, is another scan of the same runes |
| MentionAgreement.ScannersAgree | pkg/mention/mention.go:30-140 | the two scanners find the same tags if and only if no rune tells them apart, for every valid text |
| MentionAgreement.AgreeOnPlainText | pkg/mention/mention.go:30-140 | in particular on text of the Basic Multilingual Plane whose terminators are one byte wide |
| MentionAgreement.EmojiTagIsLost | pkg/mention/mention.go:84-114 | a printable supplementary character right behind the prefix is the one tag of GetTags, and GetUTF16Tags has none |
| BrpcFrame.FrameReturns | pkg/net2/brpc/baidu_rpc_codec.go:53-143 | a framable message is decoded whole from its encoding, and what follows it stays on the connection |
| BrpcFrame.FrameRoundTrip | pkg/net2/brpc/baidu_rpc_codec.go:53-143 | a message comes back whatever follows it if and only if it is within the limit, has no stale attachment size, and asks for no zero-length read that would return everything |
| BrpcFrame.StaleSizeCutsPayload | pkg/net2/brpc/baidu_rpc_codec.go:58-60 | without an attachment but with a size left in the meta, that many bytes of the payload come back as the attachment |
| BrpcFrame.DecodeTakes | pkg/net2/brpc/baidu_rpc_codec.go:126-142 | what any successful decode leaves on the connection, for totals without room for the meta too |
| BrpcWire.EncodedIsWireFrame | pkg/net2/brpc/baidu_rpc_codec.go:53-80 | every frame sent, byte by byte: the letters PRBC, the length of everything and that of the meta as little-endian numbers of 32 bits, then payload, attachment and meta |
| BrpcWire.DecodeAnswersHeader | pkg/net2/brpc/baidu_rpc_codec.go:94-124 | for all bytes: which header is refused, and why, and which waits for more, by the letters and by the numbers that its bytes form; a refused or waiting one stays on the connection |
| BrpcWire.DecodeTakesParts | pkg/net2/brpc/baidu_rpc_codec.go:126-142 | of a complete frame with room for its meta, and no read of zero bytes that would return everything: which bytes become meta, attachment and payload, when it crashes, and what stays on the connection |
| BrpcStream.DecodeStable | pkg/net2/brpc/baidu_rpc_codec.go:94-143 | if the total leaves room for the meta and no read is of zero bytes that would return everything: once Decode has an answer, bytes that arrive later do not change it and are left in place |
| BrpcStream.DrainAppend | pkg/net2/brpc/baidu_rpc_codec.go:94-143 | on such a stream, decoding a longer buffer is decoding its beginning and then its leftover with the rest |
| BrpcStream.SteadyChunks | pkg/net2/examples/client/client.go:47-66 | a stream on which every answer of Decode stands as soon as it is given comes out the same however it is cut |
| BrpcCuts.ChunksDoNotMatter | pkg/net2/brpc/baidu_rpc_codec.go:94-143 | for arbitrary bytes and both kinds of connection: all ways of cutting the stream give the same messages, the same reason to stop and the same rest if and only if every frame in it is settled |
| BrpcCuts.SomeCutMatters | pkg/net2/brpc/baidu_rpc_codec.go:94-143 | if some frame is not settled, a cut into two pieces already tells |
| BrpcCuts.TightFrame | pkg/net2/brpc/baidu_rpc_codec.go:126-142 | what becomes of a complete frame whose total has no room for its meta |
| BrpcCuts.CutMatters | pkg/net2/brpc/baidu_rpc_codec.go:107-142 | such a frame is a message in one piece and a crash in two |
| BrpcCuts.EmptyMessageCutMatters | pkg/net2/brpc/baidu_rpc_codec.go:128-139 | if reads of zero bytes return everything, a message without payload and attachment gets its own meta and whatever follows as its attachment |
| BrpcStream.StreamDelivered | pkg/net2/brpc/baidu_rpc_codec.go:53-143 | however the concatenated encodings of framable messages are cut, exactly those messages come out, in order, and the buffer ends empty |
| BrpcStream.StreamSoFar | pkg/net2/brpc/baidu_rpc_codec.go:122-124 | at every moment before that, every message whose last byte has arrived is out, and the buffer holds a proper part of the next frame |
| BrpcCodec.BaiduRpcMessage.Encode | pkg/net2/brpc/baidu_rpc_codec.go:53-80 | the four pieces joined are the specified frame, whose bytes are spelled out: PRBC, two little-endian sizes, payload, attachment, meta; the shared meta is stamped even when serialising then fails; panics exactly on a nil meta with an attachment |
| BrpcCodec.Conn.Next | pkg/net2/brpc/baidu_rpc_codec.go:128-129 | takes the next n bytes off the queue, nothing if there are fewer |
| BrpcCodec.Decode | pkg/net2/brpc/baidu_rpc_codec.go:94-143 | result and remaining buffer are those of the specified frame decoder, in every error case too, and each answer to a header is given by the bytes in it |
| BrpcCodec.OnTraffic | pkg/net2/examples/client/client.go:47-66 | the loop delivers what the specified drain delivers and stops for its reason |
| BrpcCodec.Serve | pkg/net2/examples/client/client.go:47-66 | over a list of arrivals the connection behaves as the specified feed, and is not read again once closed |
| BrpcController.ZRpcController.NewController | pkg/net2/brpc/brpc_controller.go:31-35 | a fresh, empty meta and no attachment, in step |
| BrpcController.ZRpcController.Clone | pkg/net2/brpc/brpc_controller.go:37-43 | equal contents in a meta of its own; in step exactly if the original is |
| BrpcController.ZRpcController.SetMethodName | pkg/net2/brpc/brpc_controller.go:59-67 | changes the method name, creating missing records, and nothing else |
| BrpcController.ZRpcController.SetErrorCode | pkg/net2/brpc/brpc_controller.go:109-117 | changes the error code, creating missing records, and nothing else |
| BrpcController.ZRpcController.SetAuthKeyId | pkg/net2/brpc/brpc_controller.go:143-151 | changes the key id, creating missing records, and nothing else |
| BrpcController.ZRpcController.SetCorrelationId | pkg/net2/brpc/brpc_controller.go:136-141 | changes the correlation id and nothing else |
| BrpcController.ZRpcController.SetAttachmentSize | pkg/net2/brpc/brpc_controller.go:253-258 | changes the size only, in the meta already there if there is one |
| BrpcController.ZRpcController.SetAttachment | pkg/net2/brpc/brpc_controller.go:271-274 | stores the bytes and leaves the controller in step, whatever it was before |
| BrpcController.ZRpcController.MoveAttachment | pkg/net2/brpc/brpc_controller.go:264-269 | hands out the old bytes and leaves the controller empty and in step |
| BrpcController.MakeBaiduRpcMessage | pkg/net2/brpc/brpc_controller.go:276-285 | the message shares the controller's meta, nil included; a payload that does not serialise is sent empty |
| BrpcController.SplitBaiduRpcMessage | pkg/net2/brpc/brpc_controller.go:287-311 | an error exactly without a method name, with an unknown one, or if the payload does not parse; otherwise a controller on the message's meta |
| BrpcSharing.StepNew | pkg/net2/brpc/brpc_controller.go:31-35 | controllers, messages and shared metas as objects: what NewController does to them is what New does to the system of values |
| BrpcSharing.StepClone | pkg/net2/brpc/brpc_controller.go:37-43 | the same for Clone |
| BrpcSharing.StepSet | pkg/net2/brpc/brpc_controller.go:59-258 | the same for the setters, seen by everybody who shares the meta |
| BrpcSharing.StepSetAttachment | pkg/net2/brpc/brpc_controller.go:271-274 | the same for SetAttachment |
| BrpcSharing.StepMoveAttachment | pkg/net2/brpc/brpc_controller.go:264-269 | the same for MoveAttachment |
| BrpcSharing.StepMake | pkg/net2/brpc/brpc_controller.go:276-285 | the same for MakeBaiduRpcMessage |
| BrpcSharing.StepEncode | pkg/net2/brpc/baidu_rpc_codec.go:53-80 | the same for Encode, which sends the specified frame |
| BrpcSharing.StepReceive | pkg/net2/brpc/baidu_rpc_codec.go:131-142 | the same for a decoded message |
| BrpcSharing.StepSplit | pkg/net2/brpc/brpc_controller.go:287-311 | the same for SplitBaiduRpcMessage, which changes nothing when it fails |
| BrpcController.StepKeepsSync | pkg/net2/brpc/brpc_controller.go:31-311 | with several controllers and messages sharing metas, an operation keeps every controller in step if and only if it is harmless |
| BrpcController.RunKeepsSync | pkg/net2/brpc/brpc_controller.go:31-311 | so in every run of harmless operations all controllers stay in step and share no meta |
| BrpcController.ControllerRoundTrip | pkg/net2/brpc/brpc_controller.go:276-285 | what any controller in step sends, within the limits, is decoded to the same meta, payload and attachment |
| BrpcController.LateEncodeDesyncs | pkg/net2/brpc/baidu_rpc_codec.go:58-60 | concrete run: set, make, move, then encode leaves the controller with a size but no attachment |
| PubSub.RemoveInPlace | pkg/pubsub/pussub.go:35-38 | on the backing array, removes the first occurrence only, keeps the order, and leaves the slot behind the end as it was |
| PubSub.AppendSafe | pkg/pubsub/pussub.go:29-30 | a subscription adds one new channel at the end, while no publisher has a slice in use |
| PubSub.RemoveSafe | pkg/pubsub/pussub.go:35-37 | an unsubscription takes that channel out and keeps the others in order, while no publisher has a slice in use |
| PubSub.StepKeepsInv | pkg/pubsub/pussub.go:25-52 | every step of every thread keeps the invariant: locks, place in the code, distinct open channels, token balance, the view of each publisher |
| PubSub.RunIsSafe | pkg/pubsub/pussub.go:25-52 | in every interleaving, repeated unsubscribes included, no send meets a closed channel, none is closed twice, and tokens sent are those received plus at most one buffered |
| PubSubLife.ClosedInRuns | pkg/pubsub/pussub.go:25-43 | in every run, at every moment, a channel is closed if and only if it is not listed and no thread is about to close it |
| PubSubLife.NothingPanics | pkg/pubsub/pussub.go:38-50 | in every run the channel sent to is open, and so is the one being closed |
| PubSubLife.SubscribeLists | pkg/pubsub/pussub.go:25-31 | from the lock of a subscription to its unlock, whatever happens between: one new open channel stands behind the others |
| PubSubLife.UnsubscribeCloses | pkg/pubsub/pussub.go:31-42 | from the lock of an unsubscription to its unlock: the channel ends closed and unlisted, the others stay in their order, and nothing else leaves the list, a repeated unsubscription included |
| PubSub.PublisherAt | pkg/pubsub/pussub.go:45-52 | while a publisher iterates the list stands still, and its place is given by what it has sent |
| PubSub.PublishSendsToAll | pkg/pubsub/pussub.go:45-52 | a Publish that returns has sent exactly one token to each channel listed when it took the lock, in order |
| PubSub.OnlyFullBlocks | pkg/pubsub/pussub.go:49-50 | a publisher with channels left can go on if and only if the next one's buffer is empty |
| PubSub.PublishCanFinish | pkg/pubsub/pussub.go:45-52 | with receivers that drain, at most two steps for each remaining channel let it return |
| PubSub.BlockedUntilReceive | pkg/pubsub/pussub.go:45-52 | in every run, until that channel is received from, it stays blocked and nobody subscribes or unsubscribes |
| PubSub.BlockedRun | pkg/pubsub/pussub.go:25-52 | such a state is reached by one subscription and two publications |
| PubSub.FullBufferBlocksPublish | pkg/pubsub/pussub.go:45-52 | a Publish that starts while the first channel is full is blocked at once |
| DedupKeys.KeyInjective | pkg/deduplication/redis_duplicate_messag.go:38-40 | for all pairs of 64-bit integers, equal keys mean equal pairs |
| DedupKeys.PrefixesDisjoint | pkg/deduplication/redis_duplicate_messag.go:32-40 | a counter key never equals a data key |
| DedupKeys.DecimalReads | pkg/deduplication/redis_duplicate_messag.go:38-40 | what stands for a number in a key, read in base ten, is that number |
| DedupKeys.KeysSpelledOut | pkg/deduplication/redis_duplicate_messag.go:32-40 | the two keys of sender 7 and id -5, letter by letter |
| Deduplication.MessageDeDuplicate.HasDuplicateMessage | pkg/deduplication/redis_duplicate_messag.go:52-67 | answer, error and store for every outcome of the two commands, a lost reply included |
| Deduplication.MessageDeDuplicate.PutDuplicateMessage | pkg/deduplication/redis_duplicate_messag.go:69-79 | stores the serialised value, or nothing for one that does not serialise, for 60 seconds |
| Deduplication.MessageDeDuplicate.GetDuplicateMessage | pkg/deduplication/redis_duplicate_messag.go:81-103 | the live value parsed, nothing, or which of the two errors |
| Deduplication.StepKeepsInv | pkg/deduplication/redis_duplicate_messag.go:52-103 | every command of every caller keeps the invariant that a counter cannot start over within a window |
| Deduplication.FirstsAreSpaced | pkg/deduplication/redis_duplicate_messag.go:52-67 | in every run two INCRs of one message that return 1 are at least 60 seconds apart, whatever fails |
| Deduplication.OneWinnerPerWindow | pkg/deduplication/redis_duplicate_messag.go:52-67 | at most one caller in any 60 seconds is told, without error, that a message is no duplicate |
| DedupWindows.NewExactly | pkg/deduplication/redis_duplicate_messag.go:52-67 | in every run the next INCR to take effect returns 1 if and only if none did yet, or since the last that returned 1 a minute passed between neighbouring EXPIREs that reached the store, or between the last and now |
| DedupWindows.ToldExactly | pkg/deduplication/redis_duplicate_messag.go:52-67 | in every run a call that gets an answer is told "no duplicate" if and only if its message was new in that sense when it was counted |
| DedupWindows.StuckStays | pkg/deduplication/redis_duplicate_messag.go:58-63 | in every run, while no EXPIRE reached the store since a counter was started, every call counts above 1, however late |
| DedupWindows.FailedExpiryRun | pkg/deduplication/redis_duplicate_messag.go:58-63 | concrete run: the EXPIRE fails, and a minute later the message still counts 2 |
| Deduplication.GetReturnsLatestPut | pkg/deduplication/redis_duplicate_messag.go:69-103 | in every run a get returns a value if and only if one was put for that pair in the last 60 seconds, and then the latest |
| AdminSessions.Server.constructor | app/admin/internal/server/server.go:81-110 | a start of the process holds the unexpired sessions of the file |
| AdminSessions.Server.LoadSessions | app/admin/internal/server/server.go:136-154 | entries of the file that lie after now are added, others are not |
| AdminSessions.Server.SaveSessions | app/admin/internal/server/server.go:156-169 | whole seconds of every expiry, if the write succeeds |
| AdminSessions.Server.ValidToken | app/admin/internal/server/server.go:310-323 | true exactly up to the expiry, which it then moves; an expired session is deleted |
| AdminSessions.Server.HandleLogin | app/admin/internal/server/server.go:333-357 | a session exactly for a POST with the configured credentials; nothing changes otherwise |
| AdminSessions.Server.Logout | app/admin/internal/server/server.go:325-367 | the token is gone afterwards; the file is written only if the token was valid |
| AdminSessions.ValidExactlyWhileAlive | app/admin/internal/server/server.go:310-367 | without restarts validToken accepts a token if and only if a login issued it, it was not logged out since, and no gap between login, uses and now exceeds 8 hours |
| AdminSessions.FileOkAlways | app/admin/internal/server/server.go:136-169 | in every run a persisted expiry is at most the one in memory, or has passed, or belongs to a logout that was not saved |
| AdminSessions.RestartRevives | app/admin/internal/server/server.go:136-169 | a restart makes a token valid that was not if and only if it was logged out, no write took effect since, and the file's expiry is still ahead |
| AdminSessions.RestartNeverRevives | app/admin/internal/server/server.go:136-169 | with successful writes it never does |
| AdminSessions.RestartRestores | app/admin/internal/server/server.go:136-169 | after a restart exactly the sessions are valid that were in memory at the last write that took effect, each up to the whole second in which it was to expire then, if that is still ahead |
| AdminSessions.RestartsNeverExtend | app/admin/internal/server/server.go:136-169 | over whole runs with any number of restarts, a token accepted is one that a server without restarts would accept, if each restart finds its logouts saved |
| AdminSessions.FailedWriteRevives | app/admin/internal/server/server.go:168-168 | concrete run: a logout whose write fails is undone by a restart |
| AdminSessions.AcceptedIsRecent | app/admin/internal/server/server.go:310-354 | in every run, with any failures and restarts, an accepted token was issued by a login, and a login or an accepted request with it is at most 8 hours ago |
| ChangeId.SequentialIsSimultaneous | app/admin/internal/server/server.go:679-721 | the statements one after the other equal one substitution in the selected cells and change nothing else |
| ChangeId.OrderIsIrrelevant | app/admin/internal/server/server.go:679-721 | lists of the same statements, in any order, do the same |
| ChangeId.ChangingBackRestores | app/admin/internal/server/server.go:679-721 | changing the id back restores the database if and only if the new id occurred in no selected cell |
| ChangeId.JoinsKeptExactly | app/admin/internal/server/server.go:679-721 | every equality join between listed columns is kept if and only if the old id is absent, or the new id is absent and no statement that meets the old id was left out |
| ChangeId.JoinsToOthersExactly | app/admin/internal/server/server.go:679-721 | joins between listed places and other columns are kept if and only if the old id stands at no listed place, or neither id stands in the others |
| ChangeId.RenamedKeepsShape | app/admin/internal/server/server.go:679-721 | tables, columns and row counts stay |
| ChangeId.NoGuardChanges | app/admin/internal/server/server.go:679-708 | none of the 25 listed statements changes the column that the condition of one of them reads |
| ChangeId.Transact | app/admin/internal/server/server.go:673-721 | all or nothing: the database changes only if every mandatory statement and the commit go through |
| ChangeId.RunMandatory | app/admin/internal/server/server.go:710-718 | all the mandatory statements, or an error at the first that fails |
| ChangeId.RunOptional | app/admin/internal/server/server.go:719-721 | the optional statements that can be executed, skipping the others |
| ChangeId.Mysql.HandleChangeID | app/admin/internal/server/server.go:640-726 | every answer by the request and the database: 405, then 400 for a missing id, 0 or the same id, then 409 exactly if the count works and some row of `users`, whichever, has the new id; the database changes only if all mandatory statements and the commit go through, and then by exactly the statements that could be executed |
| ChangeId.TakenExactly | app/admin/internal/server/server.go:662-671 | the count is not zero if and only if the new id stands in the column `id` of some row of `users` |
| ChangeIdEffect.ChangeEffect | app/admin/internal/server/server.go:676-721 | the whole change, cell by cell, in the words of the schema: which columns of which tables change, `username.peer_id` only where the peer type is 0, the four optional ones only if their statement can be executed; every other cell stays |
| ChangeId.CheckedChangeIsClean | app/admin/internal/server/server.go:662-721 | with intact references the check of `users` is enough: joins between listed columns are kept and the change can be taken back |
| ChangeId.HandlerIsClean | app/admin/internal/server/server.go:662-721 | the same for the handler's own statements |
| ChangeIdKeys.UnhinderedExactly | app/admin/internal/server/server.go:710-718 | in whatever order the server goes through the rows, no statement duplicates a unique key at any row if and only if the change makes no two rows equal in a key |
| ChangeIdKeys.MandatoryRunExactly | teamgramd/deploy/sql/1_teamgram.sql:817-1067 | with the unique keys of the schema and a server that refuses exactly the duplicates, the mandatory statements all run if and only if no two rows become equal in a key |
| ChangeIdKeys.MandatoryCannotFail | app/admin/internal/server/server.go:662-718 | so with intact references and keys and a free id they cannot fail |
| ChangeIdCases.FreeInUsersIsNotEnough | app/admin/internal/server/server.go:662-726 | without intact references the check is not enough: on a database on which all mandatory statements run and keep the keys, user 1 takes the free id 2, gets the contact list that 2 left behind, and changing back does not part them |
| ChangeIdCases.SharedContactRefused | app/admin/internal/server/server.go:662-718 | concrete database: the id is free, but the two lists share a contact, so the mandatory statements do not all run |
| ChangeIdCases.PeersAreLeftBehind | app/service/biz/user/internal/dal/dao/mysql_dao/username_dao.go:411-417 | wherever a listed column and the peer of a dialog, message, setting, block or username hold the old id, the change parts them |

## Left out

- MentionLaws.TagsSound: for an ASCII prefix that is not a terminator; MentionTerms.TagsExactly covers every prefix and malformed text.
- MentionAgreement.ScannersAgree: for an ordinary prefix and tables in which no surrogate is printable, as in Unicode.
- MentionLaws.TagEntities: one scanner per call; not the URLs, e-mails and users that the entities also carry, nor the final sorting of all of them.
- BrpcCuts.ChunksDoNotMatter: takes it as given that no bytes parse to a meta without attachment size, as protocol buffers do.
- BrpcCodec.OnTraffic: only the decoding; the example server also sends each message back.
- AdminSessions.RestartRevives: takes one clock that never runs backwards; Go's monotonic reading is lost in the file.
- ChangeId.HandlerIsClean: joins between listed columns only; JoinsToOthersExactly and PeersAreLeftBehind say what becomes of the others.
- ChangeIdKeys.MandatoryRunExactly: a server may refuse statements for other reasons than duplicates, which Transact and HandleChangeID allow; how it compares texts is a parameter, and its conversion of text to numbers is not modelled.
- unicode.IsSpace, unicode.IsPrint: parameters, so the results hold for every version of the tables.
- GetTagsAsUniqueStrings, uniquify and their UTF-16 twins: their inner `continue` skips nothing, so they do not remove duplicates; nothing hard is left to state.
- Protocol buffers: an abstract pair of functions that round-trips where it serialises, a nil meta like the empty one; vars.go, the registry of types, is a partial map.
- Go slices: what Next returns is a copy here; aliasing with gnet's buffer is not captured. Payloads shared between messages are values.
- gnet itself: the connection is a byte queue; what a read of zero bytes returns is a parameter.
- Setters of the controller with the same shape as those modelled; controllers with a nil meta in runs over several objects (no operation makes one).
- Writer preference of sync.RWMutex: a waiting writer does not hold back new readers here, so more interleavings are covered than Go has.
- Redis: the store expires a key at the first millisecond that is not before its time; eviction and restarts of Redis are not modelled, nor is the int64 limit of INCR.
- Concurrent writers of the session file: each save is one step; the cookie, JSON and randomness of tokens are left out, and tokens need not be unique.
- MySQL: errors that end the whole transaction, such as a deadlock, and the effects of other connections; the count of users is taken in the same state as the transaction.
- The rest of the admin server: routing, statistics, lists, flags, bots, bans, deletion, cache flushing, and the username table of profiles, whose agreement with users the code does not keep.
- pkg/goffmpeg, pkg/phonenumber, pkg/hashx, generated code, configuration and the other services.
