# A verified model of the p2p package

The package connects the nodes of a peer-to-peer network. This project models two parts of it in Dafny and proves what
they promise.

**The V11 wire format.** Protocol 11 exchanges Protocol Buffers messages through code that is written out in the
repository: a writer that fills a buffer from its end to its front, a size pass that has to agree with it to the byte,
decoders for four message types that read arbitrary bytes, and a skipper for unknown fields. On top of it are a signature
and length-prefixed frames.

**The bookkeeping of peers.** A ring of hash buckets that stands for a sliding window, a peer store with redundant counts
and a listing that is rebuilt on demand, the loop that handles peers coming and going, a rate limit with a pruned log, a
queue that drops its older half, the choices made when routing, dropping and sharing, and the negotiation of a protocol
version between two nodes.

What is proved, in short:

- Whatever bytes a decoder accepts, encoding the result gives no more bytes than were read, and decoding those gives the
  same message. Decoding undoes encoding on exactly the messages whose retained bytes are runs of unknown fields.
- The size pass and the backwards writer agree; the writer touches only the last `Size()` bytes of the buffer.
- The skipper's depth counter is the stack of a recursive parser: it succeeds within its slice on exactly the inputs that
  begin with one well-formed item of a grammar, with that item's length.
- Decoding two byte strings one after the other is decoding their concatenation; the result is said record by record: last
  scalar wins, repeated fields and unknown bytes are appended in order.
- A handshake and any parcels written to a connection are detected and delivered on its other end, in order and complete,
  however the bytes are cut into reads.
- The ring of buckets is the window of the last drops, in numbers of drops and in time.
- Every count of the store, and every listing it gives out, agrees with the peers stored.
- The peers a node holds are a function of the notifications it has handled; a replaced peer that goes offline late does
  not evict its replacement.
- A message that a peer has sent is in its window when it is delivered, and is not handed back to it by a filtered
  broadcast until as many buckets have been dropped as there are.
- In every run of the queue, what was sent is what was received, dropped or is queued, and parcels stay in order.
- Two nodes that connect, over a connection that may break at any byte, speak the same version, and exactly the compatible
  ones connect when it does not break. What the listener writes behind its reply is not lost.

## How the model is built

| module | models |
|---|---|
| `Words` | bytes, words, the wrapping 64-bit `int`, and the bit operators, defined bit by bit |
| `Varint` | varints: reference meaning, encoding loop, decoding loop in 32 and 64 bits |
| `Skip` | `skipProtocolV11` and the grammar of an unknown field |
| `Records` | the outer loop of the four `Unmarshal` methods, one record at a time |
| `Messages` | the four messages as values: encoding, decoding, round trips |
| `Merge` | what a decoded message holds, in terms of the records on the wire |
| `Buffers` | writing a field in front of what is written already; reading tags and bodies |
| `V11Codec` | the four message classes with `Size`, `MarshalToSizedBuffer`, `Marshal`, `XXX_Marshal`, `Unmarshal` |
| `Network` | endpoints, handshakes, parcels; a connection whose bytes arrive in arbitrary pieces; `bufio.Reader` |
| `ProtocolV11` | framing, handshake and parcels on a connection, peer shares |
| `Negotiation` | the handshake of either side, and the detection of a protocol from the first message |
| `Agreement` | both sides and a connection that may break, as a system of steps |
| `FaithfulLibrary` | encodings that meet what negotiation assumes of gob and JSON |
| `Conversation` | one side speaking, the connection cutting its bytes, the other side listening |
| `PeerHashCache` | the ring of buckets and the window |
| `ParcelChannel` | the lossy queue |
| `Limiter` | the rate limit of the listener |
| `Peers` | one peer: stopping, sending, reading |
| `PeerStore` | the store |
| `Online` | the peers stored as a function of the notifications handled |
| `Selection` | permutations, and choosing some entries of a list |
| `Controller` | handling notifications, routing, the CAT round, shares |

Code that changes things step by step is a method of a class or a method over an array. Each is stated by a function of
its inputs or of the old state, and the properties are lemmas about these functions. Words are natural numbers, and where
the code's 64-bit `int` may wrap, the model wraps it.

`rand.Perm` and `rand.Shuffle` are an arbitrary function that gives a permutation for every length. SHA-1, gob, JSON, and
the checks of ports and endpoints are parameters; of gob and JSON it is assumed that they read back what they wrote, JSON
for valid endpoints only (`Negotiation.Faithful`, which `FaithfulLibrary.FaithfulExists` shows can be met). Readings of the
clock, and the ticks that pass while a peer waits for a parcel, are parameters. Each
stored peer is taken to have a send queue of its own, and a window when the resend filter is on, as `newPeer` makes them
(`peer.go:76-82`). What other goroutines may do to the store between the two
lock sections of `Slice` is a parameter as well, also where routing, the CAT round and sharing ask for a listing.

## Where the code and its description differ

- `configuration.go:127` says that the resend filter covers buckets times interval. A hash is sure to be remembered only
  up to the age of buckets - 1 intervals; from buckets intervals on it is sure to be forgotten. `PeerHashCache.WindowExact`
  says exactly when it is remembered, `PeerHashCache.CoverageFallsShort` gives a hash forgotten sooner than described.
- In the Protocol Buffers encoding a tag is a uint32 whose field number is at least 1, a group closes with the field number
  it opened with, a varint has at most 64 bits, and a length is an int32. `skipProtocolV11` looks at none of this, and
  `Unmarshal` only at the field number of the outermost tag. `Skip.EndGroupNumberIgnored` and `Skip.FieldNumberIgnored` are
  inputs it skips all the same, and `Messages.NonStandardRetained` one that a handshake retains. What is skipped is an item
  of the standard exactly when a strict skipper, which keeps a stack of field numbers, accepts it
  (`Skip.StandardWhenStrict`).
- `XXX_Marshal` returns the front of a buffer that was filled at the back. That is the encoding, whatever the buffer held,
  exactly when the buffer has no byte too many (`V11Codec.NoSlackNeeded`, `V11Codec.SlackCorrupts`).

## Model

| member | source | states |
|---|---|---|
| Varint.VarintLenMeaning | protocolV11.pb.go:620-633 | A varint is found at the front exactly when one of at most ten bytes stands there; otherwise the error says whether bytes ran out or ten of them continued. |
| Varint.VarintLenOf | protocolV11.pb.go:620-633 | A varint at the front is found whatever follows it. |
| Varint.EncodeVarintMeaning | protocolV11.pb.go:503-513 | What the encoding loop writes is one varint and has the value encoded. |
| Varint.EncodeVarintMinimal | protocolV11.pb.go:503-513 | No varint of the same value is shorter. |
| Varint.EncodeVarintMonotonic | protocolV11.pb.go:503-513 | A larger value never has a shorter varint. |
| Varint.Examples | protocolV11.pb.go:503-513 | The bytes for 150 and for the largest 64-bit word. |
| Varint.SovIsLength | protocolV11.pb.go:608-610 | The formula over the bit length is the length of the varint, for every 64-bit word. |
| Varint.Value32 | protocolV11.pb.go:648-661 | The 32-bit loops yield the 64-bit value modulo 2^32. |
| Varint.OrAppends | protocolV11.pb.go:628-629 | Or-ing in seven more bits, shifted to the left, adds them above those read so far, modulo the width. |
| Varint.DecodeVarint | protocolV11.pb.go:620-633 | The decoding loop stops where the varint ends, with its value modulo the width of the variable, and with the same error for either width. |
| Varint.EncodeVarintInto | protocolV11.pb.go:503-513 | The varint ends just before `offset`, starts where is returned, and nothing else in the buffer changes. |
| Words.OrDisjoint | protocolV11.pb.go:505-506 | Or-ing a number below a power of two with a multiple of it is adding them. |
| Words.AndOnes | protocolV11.pb.go:505-506 | Masking the low bits is the remainder. |
| Words.ShrDivides | protocolV11.pb.go:505-507 | Shifting to the right is dividing. |
| Skip.DepthIsRecursion | protocolV11.pb.go:1142-1219 | The loop with one more group open does what the recursive parser of a group's rest does, and then goes on. |
| Skip.SkipIsGrammar | protocolV11.pb.go:1142-1219 | The skipper returns n inside the slice if and only if the first n bytes are one well-formed field or balanced group. |
| Skip.SkipLocal | protocolV11.pb.go:1142-1219 | The result does not depend on the bytes after it. |
| Skip.ItemUnique | protocolV11.pb.go:1142-1219 | The grammar is unambiguous: the same bytes do not begin with two different items. |
| Skip.ItemParsed | protocolV11.pb.go:1142-1219 | The tree of an item is the one the recursive parser finds. |
| Skip.EndGroupNumberIgnored | protocolV11.pb.go:1196-1204 | A group may close with another field number than it opened with. |
| Skip.FieldNumberIgnored | protocolV11.pb.go:1142-1165 | Inside a group, field number 0 is skipped. |
| Skip.StrictIsRecursion | protocolV11.pb.go:1142-1219 | Keeping the open field numbers in a stack is judging the tree that the recursive parser finds. |
| Skip.StrictJudges | protocolV11.pb.go:1142-1219 | On an item at the front, the strict skipper accepts exactly the items of the standard, with their length. |
| Skip.StrictIsStandard | protocolV11.pb.go:1142-1219 | The strict skipper succeeds with n if and only if the first n bytes are an item of the standard, and then the code skips n. |
| Skip.StandardWhenStrict | protocolV11.pb.go:1142-1219 | What the code skips is an item of the standard if and only if the strict skipper accepts it. |
| Skip.PassVarint | protocolV11.pb.go:1167-1178 | The loop over a varint whose value is not needed ends where the varint ends. |
| Skip.PassBody | protocolV11.pb.go:1166-1210 | Where each wire type's body ends, with wrapped indices caught. |
| Skip.SkipProtocolV11 | protocolV11.pb.go:1142-1219 | The loop with its depth counter and guards computes the length that the grammar characterises, for any bytes, without leaving the slice. |
| Records.NextLocal | protocolV11.pb.go:617-822 | One iteration depends only on the bytes it consumes, not on what follows or where the slice began. |
| Records.DecodeConcat | protocolV11.pb.go:614-828 | Decoding a concatenation is decoding the second part on top of the result of the first. |
| Records.DecodeBase | protocolV11.pb.go:614-828 | What is decoded does not depend on the index it starts at. |
| Records.DecodeMerge | protocolV11.pb.go:614-828 | If the first string decodes, the concatenation decodes exactly when the second does on top of it, with the same message. |
| Records.NextMeaning | protocolV11.pb.go:617-822 | Every record read has a declared kind and takes at least as many bytes as its canonical form. |
| Records.NextIsSpelt | protocolV11.pb.go:617-822 | One iteration reads a record if and only if the bytes it consumes spell it: a tag with a 31-bit field number, and a body of the wire type declared for that field, or an item of an undeclared one. |
| Records.WrongTypeRefused | protocolV11.pb.go:642-645 | A declared field with another wire type is refused, whatever follows. |
| Records.BlockFits | protocolV11.pb.go:718-749 | A length-delimited body is accepted if and only if as many bytes follow as it announces: the guards refuse nothing else. |
| Records.FieldNumberMeans | protocolV11.pb.go:634-641 | The field number is the tag without its low three bits, cut to 32 bits and read as signed. |
| Records.UnknownIsItem | protocolV11.pb.go:804-821 | Bytes are retained as an unknown field exactly when they are an item whose tag is valid and undeclared. |
| Records.UnknownRunAppend | protocolV11.pb.go:804-821 | Appending an unknown field to retained bytes keeps them a run of unknown fields. |
| Records.DecodeUnknownRun | protocolV11.pb.go:804-821 | A run of unknown fields decodes to itself, in order. |
| Records.NumberFieldRead | protocolV11.pb.go:642-661 | A varint field as written is read back whole. |
| Records.DelimitedFieldRead | protocolV11.pb.go:770-803 | A length-delimited field as written is read back whole. |
| Records.NumberFieldSize | protocolV11.pb.go:514-532 | The size pass is right about a varint field, absent when zero. |
| Records.BlockFieldSize | protocolV11.pb.go:533-536 | The size pass is right about a length-delimited field, absent when empty. |
| Messages.HandshakeKept | protocolV11.pb.go:614-828 | Decoding into a handshake whose encoding and retained bytes are well formed keeps them so, and the encoding grows by at most the bytes read. |
| Messages.EndpointKept | protocolV11.pb.go:829-946 | The same for an endpoint. |
| Messages.MsgKept | protocolV11.pb.go:947-1053 | The same for a parcel's message. |
| Messages.ShareKept | protocolV11.pb.go:1054-1141 | The same for a share. |
| Messages.HandshakeRoundTrip | protocolV11.pb.go:324-380 | Decoding the encoding returns the handshake if and only if its retained bytes, and those of its alternatives, are runs of unknown fields. |
| Messages.EndpointRoundTrip | protocolV11.pb.go:397-421 | The same for an endpoint. |
| Messages.MsgRoundTrip | protocolV11.pb.go:438-460 | The same for a parcel's message. |
| Messages.ShareRoundTrip | protocolV11.pb.go:477-501 | The same for a share. |
| Messages.HandshakeCanonical | protocolV11.pb.go:614-828 | For every byte string accepted into a fresh handshake, encoding the result takes no more bytes and decodes to the same handshake. |
| Messages.MsgCanonical | protocolV11.pb.go:947-1053 | The same for a parcel's message. |
| Messages.ShareCanonical | protocolV11.pb.go:1054-1141 | The same for a share. |
| Messages.NonStandardRetained | protocolV11.pb.go:804-821 | A handshake retains a group that is not of the standard. |
| Messages.EndpointFieldsAppend | protocolV11.pb.go:333-346 | A repeated field with one more entry is the repeated field followed by that entry's field. |
| Merge.HandshakeMeaning | protocolV11.pb.go:614-828 | Bytes are accepted exactly when they split into records whose alternatives decode; then each scalar is its last value, alternatives are appended in order, and so are unknown bytes. |
| Merge.ApplyDecides | protocolV11.pb.go:770-803 | Among readable records, only a nested endpoint that does not decode can refuse a message. |
| Merge.RecordsSpelt | protocolV11.pb.go:614-828 | The records read are the one way to spell the bytes, one behind the other. |
| Merge.MergedCons | protocolV11.pb.go:614-828 | The account of the remaining records extends to one more record at the front. |
| Merge.EndpointMeaning | protocolV11.pb.go:829-946 | Bytes are accepted exactly when they split into records; host and port are their last values, unknown bytes are appended in order. |
| Merge.MsgMeaning | protocolV11.pb.go:947-1053 | The same for type and payload of a parcel's message. |
| Merge.ShareMeaning | protocolV11.pb.go:1054-1141 | Bytes are accepted exactly when they split into records whose entries decode; entries and unknown bytes are appended in order. |
| Buffers.PutVarint | protocolV11.pb.go:503-513 | A varint is put in front of what is written, and the buffer changes nowhere else. |
| Buffers.PutNumber | protocolV11.pb.go:361-379 | A nonzero varint field is put in front of what is written; zero leaves everything as it is. |
| Buffers.PutHeader | protocolV11.pb.go:340-344 | Tag and length turn content that is already in place into a delimited field. |
| Buffers.PutBlock | protocolV11.pb.go:352-358 | A nonempty length-delimited field is put in front of what is written. |
| Buffers.ReadTag | protocolV11.pb.go:617-641 | Wire type and 32-bit field number of the tag, or the error of its varint. |
| Buffers.ReadNumber | protocolV11.pb.go:642-661 | The body of a varint field, or a wrong wire type. |
| Buffers.ReadBlock | protocolV11.pb.go:718-749 | The content of a length-delimited field; negative and overflowing lengths are refused and the slice is never left. |
| Buffers.ReadUnknown | protocolV11.pb.go:804-821 | The bytes of an unknown field; the guard against a wrapped index suffices. |
| V11Codec.SlackCorrupts | protocolV11.pb.go:47-58 | With one byte of slack the bytes returned are not the encoding. |
| V11Codec.NoSlackNeeded | protocolV11.pb.go:47-58 | The bytes returned are the encoding whatever the buffer held if and only if there is no slack or nothing to encode. |
| V11Codec.PutEndpoint | protocolV11.pb.go:333-346 | One round of the backwards loop writes a nested endpoint with its header in front of what is written. |
| V11Codec.PutEndpoints | protocolV11.pb.go:333-346 | The loop from the last entry to the first writes the whole repeated field in order. |
| V11Codec.SizeEndpoints | protocolV11.pb.go:540-545 | The size loop gives the exact length of the repeated field. |
| V11Codec.AppendEndpoint | protocolV11.pb.go:770-803 | A nested endpoint is appended and read from its own content. |
| V11Codec.V11Handshake.Size | protocolV11.pb.go:514-549 | The exact length of the encoding. |
| V11Codec.V11Handshake.MarshalToSizedBuffer | protocolV11.pb.go:324-380 | Writing backwards fills exactly the last bytes of the buffer with the encoding, leaves the rest, and returns the encoding's length. |
| V11Codec.V11Handshake.Marshal | protocolV11.pb.go:309-317 | The encoding. |
| V11Codec.V11Handshake.XXX_Marshal | protocolV11.pb.go:47-58 | The front of the buffer after the encoding was written at its back; the whole encoding when the buffer has its size. |
| V11Codec.V11Handshake.ReadField | protocolV11.pb.go:617-822 | One iteration reads one record and applies it. |
| V11Codec.V11Handshake.Unmarshal | protocolV11.pb.go:614-828 | The object ends up as the message decoded on top of what it held, field by field, or the same error is reported. |
| V11Codec.V11Endpoint.Size | protocolV11.pb.go:551-569 | The exact length of the encoding. |
| V11Codec.V11Endpoint.MarshalToSizedBuffer | protocolV11.pb.go:397-421 | As for a handshake. |
| V11Codec.V11Endpoint.Unmarshal | protocolV11.pb.go:829-946 | The object ends up as the message decoded on top of what it held, field by field, or the same error is reported. |
| V11Codec.V11Msg.Size | protocolV11.pb.go:571-588 | The exact length of the encoding. |
| V11Codec.V11Msg.MarshalToSizedBuffer | protocolV11.pb.go:438-460 | As for a handshake. |
| V11Codec.V11Msg.XXX_Marshal | protocolV11.pb.go:192-203 | As for a handshake. |
| V11Codec.V11Msg.Unmarshal | protocolV11.pb.go:947-1053 | The object ends up as the message decoded on top of what it held, field by field, or the same error is reported. |
| V11Codec.V11Share.Size | protocolV11.pb.go:590-606 | The exact length of the encoding. |
| V11Codec.V11Share.MarshalToSizedBuffer | protocolV11.pb.go:477-501 | As for a handshake. |
| V11Codec.V11Share.Marshal | protocolV11.pb.go:462-470 | The encoding. |
| V11Codec.V11Share.Unmarshal | protocolV11.pb.go:1054-1141 | The object ends up as the message decoded on top of what it held, field by field, or the same error is reported. |
| Network.BufferedReader.Peek | controller_connections.go:129-134 | The next bytes, which stay unread. |
| Network.BufferedReader.ReadFull | protocolV11.go:85-90 | Exactly the next n bytes however they arrive, and no byte more is consumed. |
| Network.TextDecides | endpoint.go:50-52 | The texts of two endpoints without a colon in the port are equal if and only if both IP and port are. |
| ProtocolV11.BigEndian | protocolV11.go:133-134 | The first of the four bytes is the most significant one. |
| ProtocolV11.BigEndianRoundTrip | protocolV11.go:97-134 | The four length bytes give the length back. |
| ProtocolV11.TakenFrame | protocolV11.go:92-113 | A frame is taken if and only if its length bytes announce at most 134217728 bytes and as many follow; a longer one is refused as too large. |
| ProtocolV11.HandshakeWritten | protocolV11.go:30-51 | The bytes of a handshake are the signature and one frame whose message holds network, version, node ID, type, port, loopback number and each endpoint in the field of that name. |
| ProtocolV11.ParcelWritten | protocolV11.go:146-152 | The bytes of a parcel are one frame whose message holds its type and payload. |
| ProtocolV11.TakenHandshake | protocolV11.go:53-83 | A handshake is taken exactly if signature, length and message allow it, and each of its fields is that of the message, type and version cut to 16 bits. |
| ProtocolV11.TakenParcel | protocolV11.go:154-161 | The same for a parcel. |
| ProtocolV11.FrameTaken | protocolV11.go:92-144 | A frame the writer emits passes the reader's limit and is read back whole, with what follows untouched; the 32-bit length does not truncate. |
| ProtocolV11.HandshakeTaken | protocolV11.go:30-83 | The handshake sent is the handshake read, with what follows untouched. |
| ProtocolV11.ParcelTaken | protocolV11.go:146-161 | The same for a parcel. |
| ProtocolV11.ParcelsTaken | protocolV11.go:146-161 | A run of parcels is read back in order with no byte lost or read twice. |
| ProtocolV11.ConversationTaken | protocolV11.go:30-161 | A handshake and then any parcels, sent one after the other, are read back as that handshake and those parcels. |
| ProtocolV11.ProtocolV11.WriteCheck | protocolV11.go:115-122 | All of the data, or as much as there is room for and an error. |
| ProtocolV11.ProtocolV11.WriteMessage | protocolV11.go:124-144 | One frame, or an error when it is over the limit or does not fit, and then at most a part of that frame. |
| ProtocolV11.ProtocolV11.ReadMessage | protocolV11.go:92-113 | The frame at the front of what arrives, or the error it deserves. |
| ProtocolV11.ProtocolV11.SendHandshake | protocolV11.go:30-51 | What is sent decodes to a message with each field of the handshake in its place; a handshake over the limit leaves only the signature on the connection. |
| ProtocolV11.ProtocolV11.ReadHandshake | protocolV11.go:53-83 | Each field is that of the message at the front of what arrives, type and version truncated to 16 bits, and the bytes behind it are left. |
| ProtocolV11.ProtocolV11.Send | protocolV11.go:146-152 | One frame with the parcel; a parcel over the limit leaves nothing on the connection, a failed write at most a part of the frame. |
| ProtocolV11.ProtocolV11.Receive | protocolV11.go:154-161 | Type and payload of the message at the front of what arrives, and the bytes after it are left. |
| ProtocolV11.MakePeerShare | protocolV11.go:171-182 | The payload decodes to a share whose entries have host and port of the endpoints, in order. |
| ProtocolV11.ParsePeerShare | protocolV11.go:184-196 | The endpoints are host and port of the entries decoded, in order. |
| ProtocolV11.ShareRoundTrip | protocolV11.go:171-196 | The endpoints shared are the endpoints parsed. |
| Negotiation.LittleEndianRoundTrip | protocolV9.go:44-45 | The loopback number survives its eight bytes. |
| Negotiation.EightRead | protocolV9.go:90-91 | Of the eight bytes, the first is the least significant one. |
| Negotiation.WrittenSays | protocolV9.go:35-74 | What is sent says the handshake, field by field: in protocols 9 and 10 with the type of a peer request for 9, and the alternatives or the loopback number as payload. |
| Negotiation.FromV9Reads | protocolV9.go:76-101 | What is read of a legacy message, field by field; a rejection has alternatives and no loopback number. |
| Negotiation.DetectSees | controller_connections.go:125-187 | A protocol is detected if and only if a first message stands at the front that is welcome; protocol 11 by its signature, 9 and 10 by the version, and 9 for 10 on a node of version 9. |
| Negotiation.SendHandshake | protocolV9.go:35-74 | What goes out for each protocol: all of it, or a failure and at most the front of it. |
| Negotiation.Valid | handshake.go:21-46 | Nothing exactly if version, network, port and alternatives are welcome, otherwise the first reason against it. |
| Negotiation.DetectProtocolFromFirstMessage | controller_connections.go:125-187 | Succeeds exactly when a welcome first message stands at the front, with its protocol and fields, and leaves the bytes after it to the protocol. |
| Negotiation.HandshakeOutgoing | controller_connections.go:216-276 | What the dialer sends, field by field, and how it ends: a peer with the fields of the reply, the alternatives of a rejection, or a failure. |
| Negotiation.HandshakeIncoming | controller_connections.go:75-121 | What the listener sends, field by field, and the peer it makes of what arrives; a refused connection is told network, version, node ID, port and the alternatives. |
| Agreement.Detects | controller_connections.go:125-187 | A first message that arrives whole is judged as it was sent, whatever follows, and what follows is left; nothing comes of a part of it. |
| Agreement.GobDetects | controller_connections.go:152-160 | The same of a legacy message and the gob decoder. |
| Agreement.ConversationDetected | controller_connections.go:129-151 | After the peek at the signature and a valid V11 handshake, all parcels that were sent behind it are read, in order. |
| Agreement.HandshakeCut | protocolV11.go:53-113 | A V11 handshake that is cut short is refused. |
| Agreement.FrameCut | protocolV11.go:92-113 | A frame that is cut short is refused. |
| Agreement.GreetingRead | protocolV9.go:67-101 | A handshake or reply is read as sent, except that protocol 9 turns it into a request for peers. |
| Agreement.RejectionRead | protocolV9.go:76-101 | A rejection is read as one, with its alternatives if JSON carries them; without any, protocols 9 and 10 cannot read it. |
| Agreement.ListenerDetects | controller_connections.go:75-187 | The listener makes a peer of the first message exactly when it is whole and acceptable. |
| Agreement.DialerDetects | controller_connections.go:216-276 | The dialer makes a peer exactly when the reply is whole and the two are compatible, however much of what the listener wrote behind it has arrived; exactly that is left to the protocol. |
| Agreement.RejectionRefused | controller_connections.go:247-252 | A rejection never makes a peer, and the alternatives that get through are those offered, if JSON carries them. |
| Agreement.StepKeeps | controller_connections.go:75-290 | Every step keeps the invariant of the two, also when either writes to its peer at once. |
| Agreement.ListenerAnswerKeeps | controller_connections.go:75-121 | So does the listener's answer, whatever part of the greeting it has read. |
| Agreement.DialerReadKeeps | controller_connections.go:216-276 | So does the dialer's reading, whatever part of the answer and of what follows it has arrived. |
| Agreement.VersionAgreement | controller_connections.go:75-290 | In every run, either side that gets a peer holds the agreed version and the other's identity: 11 if the dialer is 11, 10 if the dialer is 10 and the listener not 9, otherwise 9. The dialer has a peer only if the listener has, and what it received beyond the reply is the front of what the listener wrote. A declined dial never makes a peer. |
| Agreement.CompatibleConnect | controller_connections.go:75-276 | When nothing breaks, both sides get a peer if and only if their configurations are compatible. |
| Agreement.RejectionArrives | controller_connections.go:280-290 | When nothing breaks, the dialer of a full listener is told the alternatives if and only if its minimum is at most the listener's version, networks are equal, port and alternatives are valid, its own number is not 0, the messages fit, and protocols 9 and 10 have alternatives to carry and a supported version. |
| Agreement.CompatibleMeans | controller_connections.go:75-276 | Which nodes are compatible, in terms of their configurations alone. |
| FaithfulLibrary.FaithfulExists | protocolV9.go:35-131 | What is assumed of gob and JSON can be met, for any checks of ports and endpoints. |
| Conversation.Speak | protocolV11.go:30-152 | The handshake and then every parcel go out, or a failure exactly when there is not room for all. |
| Conversation.Listen | peer.go:149-194 | The protocol is detected from what arrives, and the parcels behind the handshake are delivered. |
| Conversation.Whole | controller_connections.go:129-151 | In the bytes of a whole conversation, the handshake is detected and exactly the parcels follow. |
| Conversation.Converse | peer.go:149-194 | Parcels sent by one side, cut in any way, are delivered by the other: all of them, in order, and no more. |
| PeerHashCache.BucketMeaning | peerHashCache.go:58-110 | The bucket of age k holds exactly the hashes added with k drops since. |
| PeerHashCache.AddedAgoSnoc | peerHashCache.go:71-104 | What one more addition or drop does to the age of an entry. |
| PeerHashCache.LatestDecides | peerHashCache.go:96-104 | A later addition has seen no more drops than an earlier one. |
| PeerHashCache.RememberedByLatest | peerHashCache.go:58-75 | A hash is remembered exactly when fewer than n drops happened since its latest addition. |
| PeerHashCache.TicksSince | peerHashCache.go:84-94 | How many ticks of an ideal ticker lie between an addition and the present. |
| PeerHashCache.WindowInTime | peerHashCache.go:39-104 | With n buckets of width I, a hash is remembered up to the age (n-1)I, and forgotten from nI on unless added again. |
| PeerHashCache.WindowExact | configuration.go:127-131 | In between, it is remembered if and only if fewer than n tick boundaries lie in between. |
| PeerHashCache.CoverageFallsShort | configuration.go:127-131 | The coverage of buckets times interval that is described is not reached. |
| PeerHashCache.PeerHashCache.Ptr | peerHashCache.go:106-110 | The ring index, in bounds, that wraps once. |
| PeerHashCache.PeerHashCache.constructor | peerHashCache.go:40-49 | An empty cache with n buckets, possibly none, and no history. |
| PeerHashCache.PeerHashCache.Has | peerHashCache.go:58-68 | True exactly for the hashes remembered in the window of the history. |
| PeerHashCache.PeerHashCache.Add | peerHashCache.go:71-75 | The history grows by this addition, and the buckets agree with it again. |
| PeerHashCache.PeerHashCache.DropOldestBucket | peerHashCache.go:96-104 | The history grows by a drop, and the buckets agree with it again. |
| ParcelChannel.RunSnoc | parcelChannel.go:17-36 | One more operation continues a run where it ended. |
| ParcelChannel.RoomSuffices | parcelChannel.go:17-36 | As long as there is room for all sends of a run, nothing is dropped. |
| ParcelChannel.RoomAfterOverflow | parcelChannel.go:25-28 | An overflow drops exactly the cap - cap/2 oldest, and at least cap - cap/2 - 1 further sends follow before the next drop. |
| ParcelChannel.TallyOfRun | parcelChannel.go:17-36 | A run adds exactly what is sent in it to what was received, dropped or queued. |
| ParcelChannel.OrderKept | parcelChannel.go:17-36 | No operation changes the order of what was received and is queued behind it. |
| ParcelChannel.Conservation | parcelChannel.go:17-36 | In every run, for every capacity of at least one, what was sent is what was received, dropped, or is queued, each as often. |
| ParcelChannel.DeliveredInOrder | parcelChannel.go:17-36 | In every run, what was received, followed by what is queued, is a subsequence of what was sent. |
| ParcelChannel.ParcelChannel.Send | parcelChannel.go:17-36 | The run goes on with this send: the newest parcel gets in for every capacity of at least one, and an overflow drops exactly the cap - cap/2 oldest. |
| ParcelChannel.ParcelChannel.Receive | parcelChannel.go:39-41 | The run goes on with this receive: the oldest entry leaves the queue. |
| Limiter.Prune | limiter.go:42-65 | Entries that are too old may be cut off the front of the history. |
| Limiter.PruningAgrees | limiter.go:69-78 | A pruned history answers as a scan of the full log does. |
| Limiter.Recorded | limiter.go:81-84 | Recording a connection keeps those of one host apart by the limit. |
| Limiter.LimitedListener.New | limiter.go:25-39 | A negative limit is refused, and so is an address that cannot be listened to. |
| Limiter.LimitedListener.ClearHistory | limiter.go:42-65 | Only entries later than the cutoff stay, by the fast path or by the loop, and no other one is lost. |
| Limiter.LimitedListener.IsInHistory | limiter.go:69-78 | True exactly when the full log has this host less than the limit ago. |
| Limiter.LimitedListener.AddToHistory | limiter.go:81-84 | The log grows by this connection. |
| Limiter.LimitedListener.Accept | limiter.go:88-109 | A connection is refused exactly when its host was accepted less than the limit ago; those accepted are at least the limit apart. |
| Peers.Peer.Stop | peer.go:92-106 | Only the first call notifies the controller. |
| Peers.Peer.Send | peer.go:112-122 | Nothing is sent once stopped; what is dropped is counted. |
| Peers.Peer.Remember | peer.go:185-187 | The hash of a parcel of type 6 or 7 enters the window, that of another does not. |
| Peers.Peer.Elapse | peerHashCache.go:84-94 | Ticks of the cleanup drop as many buckets. |
| Peers.Peer.ReadLoop | peer.go:149-194 | What is delivered is the valid parcels at the front of the stream; the window has seen exactly the hashes of their application messages, between the drops that happened while waiting for each. |
| Peers.StreamDelivered | peer.go:149-194 | Valid parcels that were sent are all delivered, in order. |
| Peers.InvalidEnds | peer.go:163-169 | A parcel without payload or of an unknown type ends what is delivered. |
| Peers.DeliveredIsRemembered | peer.go:185-190 | An application message is in the window when it is delivered, and unless it is added again it stays there exactly until n buckets have been dropped. |
| Peers.WindowFrom | peerHashCache.go:84-104 | Of the drops after a delivery, those up to a later one are the ticks between the two. |
| Peers.RememberedAtEnd | peer.go:149-194 | When the connection ends, every message delivered fewer than n ticks ago is in the window. |
| PeerStore.WhereAdded | peerStore.go:29-50 | Storing a peer adds one to each count it belongs to and to no other. |
| PeerStore.WhereRemoved | peerStore.go:55-78 | Removing a peer takes one from each count it belonged to and from no other. |
| PeerStore.CountedAdd | peerStore.go:41-42 | The two increments keep the counts by IP and by address right. |
| PeerStore.CountedRemove | peerStore.go:62-69 | The two decrements keep them right and leave no entry of zero. |
| PeerStore.PeerStore.Add | peerStore.go:29-50 | Nil and known hashes are refused; otherwise the peer is stored, and all redundant fields agree. |
| PeerStore.PeerStore.Remove | peerStore.go:55-78 | This very object is removed, not another one with its hash, and all redundant fields agree. |
| PeerStore.PeerStore.Get | peerStore.go:102-106 | The peer with this hash, or nil. |
| PeerStore.PeerStore.Total | peerStore.go:81-99 | The number of peers, which is the incoming and the outgoing ones together. |
| PeerStore.PeerStore.Incoming | peerStore.go:95-99 | The number of incoming peers stored. |
| PeerStore.PeerStore.Outgoing | peerStore.go:88-92 | The number of outgoing peers stored. |
| PeerStore.CountMeans | peerStore.go:123-127 | Under an IP without a colon the peers with that IP are counted, under the text of an endpoint those with its IP and its port. |
| PeerStore.PeerStore.Count | peerStore.go:123-127 | The number of peers with this IP, and with this IP and port if it is the text of an endpoint. |
| PeerStore.PlainDecides | peerStore.go:116-120 | For ports without a colon, and if no IP is the text of the endpoint, a peer has that text exactly if it has that IP and that port. |
| PeerStore.PeerStore.Connected | peerStore.go:116-120 | Whether a peer has this IP and this port, or the endpoint's text for an IP. |
| PeerStore.PeerStore.RebuildSlice | peerStore.go:140-147 | A listing of every stored peer, once each. |
| PeerStore.PeerStore.Slice | peerStore.go:132-148 | Whatever others do between the two lock sections, the result lists the peers stored at one instant of the call. |
| Online.OccupantIsLatest | controller_connections.go:18-46 | A peer is stored if and only if it came online, no peer with its hash did so after it, and it did not go offline after it. |
| Online.ReplacementStays | controller_connections.go:25-36 | Late offline notifications of a replaced peer do not evict its replacement. |
| Online.OccupantsAppend | controller_connections.go:18-46 | Handling further notifications continues from the peers stored so far. |
| Online.StatusesAreOps | controller_connections.go:24-37 | Handling notifications is the store operations that each turn of the loop makes. |
| Online.OccupantsAfterGap | peerStore.go:132-148 | Notifications handled in the gap of a listing leave the store at the occupants of the longer history. |
| Online.OfflineRemoves | controller_connections.go:34-36 | When stored peers go offline, exactly they are gone. |
| Selection.PermutedMultiset | controller_cat.go:77 | A shuffled list has the same entries, as often. |
| Selection.ChanceSelection | controller_cat.go:29-42 | The first n entries of a kind in any order are distinct and as many as there are up to n. |
| Selection.Reached | controller_cat.go:29 | Any different entries may come first in a permutation, in any order. |
| Selection.ReachedOfKind | controller_cat.go:29-42 | Any different entries of a kind may be the first of that kind. |
| Controller.BroadcastChooses | controller_routing.go:152-178 | For every shuffle, a broadcast goes to every special peer and to exactly min(fanout, number) regular ones, to none twice. |
| Controller.BroadcastMeans | controller_routing.go:152-178 | The same in terms of the endpoints that the configuration marks. |
| Controller.EveryBroadcast | controller_routing.go:173-175 | Every choice of regular peers is made by some shuffle. |
| Controller.DropChooses | controller_cat.go:25-43 | For every permutation, exactly min(total - DropTo, non-special) peers are stopped, none twice and no special one. |
| Controller.StoppedMeans | controller_cat.go:25-43 | The same in terms of the endpoints that the configuration marks. |
| Controller.EveryDrop | controller_cat.go:29 | Every such choice is made by some permutation. |
| Controller.ListingCount | peerStore.go:132-148 | A listing has as many peers of a kind as are stored. |
| Controller.CatRoundSettles | controller_cat.go:25-43 | Once the notifications are handled, a store above DropTo holds max(DropTo, special) peers. |
| Controller.ShareChooses | controller_cat.go:84-98 | A share has min(amount, others) entries, none twice from one peer, never the excluded endpoint. |
| Controller.ShareMeans | controller_cat.go:84-98 | How many endpoints are shared: as many as asked for, if as many stored peers have another IP or another port than the excluded one. |
| Controller.EveryShare | controller_cat.go:88 | Every such choice is made by some permutation. |
| Controller.ShareWithin | controller_cat.go:84-98 | The endpoints shared are among those of the peers, none more often. |
| Controller.TrimmedShareWithin | controller_cat.go:72-82 | The trimmed list takes from the given one as many endpoints as there are up to the amount, none more often. |
| Controller.EveryTrim | controller_cat.go:77 | Every choice of as many entries as are kept, in any order, is made by some shuffle. |
| Controller.Controller.HandleStatus | controller_connections.go:25-36 | The peers stored are the occupants of the longer history; a replaced peer is stopped and notifies once, and no other is stopped. |
| Controller.Controller.SelectNoResendPeers | controller_routing.go:134-150 | Exactly the peers stored when the listing is made whose window lacks the payload's hash, each once. |
| Controller.Controller.Choose | controller_routing.go:18-56 | Whom a parcel goes to: of those allowed, everybody whose `ip:port` is marked and min(fanout, others) of the others for a broadcast, the drawn entry of a listing for a random peer, the one with the hash otherwise. |
| Controller.Controller.Route | controller_routing.go:18-56 | Every chosen peer that is not stopped is handed the parcel once, and no other peer's queue changes; a filtered broadcast is not handed to a peer whose window holds the hash. |
| Controller.NotAllowed | controller_routing.go:143-147 | The filter lets no peer through whose window holds the hash. |
| Controller.SenderHasIt | peer.go:185-190 | The window of a peer that has sent a message holds its hash until as many buckets were dropped as it has. |
| Controller.Controller.RunCatRound | controller_cat.go:12-44 | Nothing before the round time; then exactly min(total - DropTo, peers whose `ip:port` is not marked) of the latter are stopped and notify, in order, and no other is stopped. |
| Controller.Controller.MakePeerShare | controller_cat.go:84-98 | Endpoints of stored peers, none more often than stored: min(amount, number of peers with another IP or another port than the excluded one), and not the excluded one. |
| Controller.WithoutHash | controller_routing.go:141-149 | The loop keeps exactly the peers whose window lacks the hash. |
| Controller.SelectBroadcastPeers | controller_routing.go:152-178 | The loop, the shuffle and the cut give the selection that BroadcastChooses is about. |
| Controller.SendAll | controller_routing.go:27-43 | Each peer in the list is handed the parcel once. |
| Controller.DropPeers | controller_cat.go:29-42 | The drop loop, with its early exit, stops the selection that DropChooses is about. |
| Controller.ShareFrom | controller_cat.go:88-97 | The share loop, with its early exit, gives the selection that ShareChooses is about. |
| Controller.ShuffleTrimShare | controller_cat.go:72-82 | The result is the trimmed share of TrimmedShareWithin. |

## Left out

- V11Codec.V11Handshake.ReadField: does not say what an object holds after an error, where a varint cut short may have left
  a part of its value; the code throws such an object away.
- V11Codec.V11Handshake.Unmarshal: the same.
- V11Codec.V11Endpoint.Unmarshal: the same.
- V11Codec.V11Msg.Unmarshal: the same.
- V11Codec.V11Share.Unmarshal: the same.
- The difference between a nil and an empty slice, and the sharing of memory between slices (`Payload[:0]` is reused by the
  decoder, `Slice` hands out the listing it has just cached).
- The varint loops that the generated code repeats in place are one method each in the model, and an iteration of each
  outer loop is a method of its own.
- Sizes and indices of the writer do not wrap: an encoding longer than the largest `int` cannot be held by a buffer, and
  `MAX_INT` bounds every slice.
- Getters, `XXX_Merge`, `XXX_DiscardUnknown`, the deterministic path of `XXX_Marshal`, `sozProtocolV11` and the descriptor.
- Negotiation.ReadGob: takes in all that will arrive before it decodes, where the gob decoder stops reading at the end of a
  message; gob's and JSON's own formats are not modelled, nor are the header fields that no handshake reads back (checksum,
  length, application names).
- Negotiation.HandshakeIncoming: takes the verdict of `allowIncoming` (bans, connection limits) and the share for a refused
  node as parameters; a hard cap on connections is not claimed, as the check is made before a concurrent handshake is done.
- What becomes of a peer request after a handshake in protocol 9, beyond recording that there is one.
- Parcels of protocols 9 and 10 after the handshake.
- Sockets, deadlines, dialling, seeds, bans, metrics, logging, the peer cache file, and the loop that replenishes
  connections.
- Peers.Peer.ReadLoop: neither the blocking delivery, which ends when the peer is stopped, nor the stop at its end.
- A stopped peer's place in the store for all interleavings: a peer's loops start before its online notification is queued,
  so its offline notification may come first; `Online.OccupantIsLatest` says what then happens.
- Blocking and closing races of channels: an operation on a queue is one atomic step, and a send to a capacity of zero finds
  no receiver waiting.
- The endless loops of `manageOnline`, `route` and the CAT round are one turn at a time; the history of notifications is a
  ghost field.
- Controller.Controller.Choose: the index that picks a random peer is a parameter, so nothing is said about how evenly peers
  are picked.
- PeerStore.PeerStore.Connected: an endpoint's text may coincide with another's if a port has a colon or an IP is such a
  text; what is counted then is said in terms of the texts.
- A cache with no buckets: adding to it and dropping from it panic in the code, and ask for a bucket in the model.
- The drops that may happen while a delivery blocks: they count as drops before the next parcel.
