# GroupControl connection core in Dafny

This project models the client side of GroupControl. GroupControl is an
Android library that talks to a local daemon over a Unix socket. The daemon
relays control messages to and from a remote group-control server. The model
covers the full stack of that library:

- **Wire formats.**
  - The 8-byte packet header: a 12-bit magic and a 4-bit type, then pid, vid and paddingSize, all little-endian.
  - The packet: a 13-bit message id with large, ACK and response flags, the sequence number, and for large messages the fragment count and index.
  - Messages with a CRC-16 appended.
  - Splitting a long payload into 4080-byte fragments, and putting them back together.
- **Byte utilities.** The integer codecs, the XOR checksums, the CRC-16, `divide`/`concatenate`/`ensureLength`, and the hex and bit dumps.
- **The connection pipeline.**
  - The packet reader, which carves frames out of arbitrary socket chunks.
  - The packet router, which groups fragments and dispatches them to collectors and listeners.
  - The bounded drop-oldest result queue of a collector.
  - The writer's FIFO queue and heartbeat.
  - The connection's connected flag, synchronous request/reply, and listener registration.
- **The connection manager.**
  - The connect gate.
  - Its executor tasks, modelled as an explicit queue the executor may run in any order: ConnectTask, WaitForConnectTask, DisConnectTask and SendTask.
  - Login and logout against the daemon.
  - The mapping from daemon state bytes to listener codes.
  - The two reconnection policies: the native one the manager uses, and the older one.
  - The application facade `GroupControlManager`.
- **Small utilities from the other two modules.**
  - `ClientInfo.parse` and `getStateString` from the app.
  - The long codec of the remote-display `BytesUtils`.
  - `IsIpv4` and `byteToBit` from the remote-display `Utils`.

Modelling conventions:

- Java integers are subset types of `int` with explicit wrap-around casts (`JavaTypes`). A Java `byte[]` is a `seq` of unsigned bytes.
- `null` is an `Option`. An exception is the `Failure` of a `Result`.
- A call that changes state and then throws returns a `Step` that holds both the new state and the exception.
- Every mutable Java object is an immutable record, and each method is a pure transition function.
- Threads, timeouts, the socket and the daemon's replies are parameters:
  - a wait that times out is an empty arrival list or a `None` reply;
  - a scheduled retry is a `pending` flag plus a `Fire` transition;
  - socket failures are the booleans `socketOk` and `streamsOk`.

Some behaviour of the code is easy to miss when reading it, and the model states it as it is:

- A DisConnectTask notifies its listeners only for the codes it lists. For 1013, 1015, 1016 and raw daemon bytes it notifies nothing. So a daemon that reports "connect failed" on a first attempt is never reported to the application (`ConnectionManagers.RemoteFailureUnreported`).
- `onDestroy` queues a clean close and then clears the configuration. When the task runs after `onDestroy` has returned, the usual order, it takes the early-return branch and the connection is kept (`ConnectionManagers.DestroyKeepsConnection`).
- `ClientInfo.parse` prints the address bytes in reverse order (`ClientInfos.ParseIpReversed`).
- `IsIpv4` accepts `"1.2.3.4."`, because Java's `split` drops trailing empty strings (`IpUtils.TrailingDotAccepted`).
- A client key whose CRC is 0 is accepted by `setClientKey`, but every later `getClientKey` still throws (`MessageSn.ZeroChecksumKey`).
- `removeRcvListener` removes by the listener object from a map keyed by filter. It therefore misses any listener registered under a different filter object (`PacketRouters.RemoveRcvListenerMisses`). The same keying breaks the documented promise of `addRcvListener`; see the third row under "## Findings".
- A payload that needs more than 0x7FFF fragments makes `getPackets`' short loop counter wrap negative, and the next `payloads.get(i)` throws an index exception. The model fails with `IndexOutOfBounds` at the same point (`Messages.FramesShape`); `sendMessage` swallows the exception and queues nothing (`PacketWriters.FramesFor`).
- `ArrayUtils.byteToBit` and `Utils.byteToBit` are the same code, modelled once as `IpUtils.ByteToBit`.
- The remote-display `intToBytes2`, `bytesToInt2` and `asBytes` are textually identical to the groupcontrol ones. They are modelled once, in `BytesUtils`.

## Model

Paths are relative to the repository root.

| member | source | states |
|---|---|---|
| BytesUtils.IntToBytes | groupcontrol/src/main/java/larson/groupcontrol/app/util/BytesUtils.java:25-32 | four bytes whose little-endian value is the int's unsigned 32-bit pattern |
| BytesUtils.IntToBytes2 | groupcontrol/src/main/java/larson/groupcontrol/app/util/BytesUtils.java:39-46 | four bytes whose big-endian value is the int's unsigned 32-bit pattern |
| BytesUtils.ShortToBytes | groupcontrol/src/main/java/larson/groupcontrol/app/util/BytesUtils.java:56-61 | two bytes whose little-endian value is the short's unsigned pattern |
| BytesUtils.BytesToInt | groupcontrol/src/main/java/larson/groupcontrol/app/util/BytesUtils.java:89-96 | the int whose unsigned pattern is the little-endian value of the four bytes at the offset |
| BytesUtils.BytesToInt2 | groupcontrol/src/main/java/larson/groupcontrol/app/util/BytesUtils.java:102-109 | the int whose unsigned pattern is the big-endian value of the four bytes at the offset |
| BytesUtils.BytesToShort | groupcontrol/src/main/java/larson/groupcontrol/app/util/BytesUtils.java:119-124 | the short whose unsigned pattern is the little-endian value of the two bytes at the offset |
| BytesUtils.ShortRoundTrip | groupcontrol/src/main/java/larson/groupcontrol/app/util/BytesUtils.java:56-61 | every short survives shortToBytes then bytesToShort |
| BytesUtils.IntRoundTrip | groupcontrol/src/main/java/larson/groupcontrol/app/util/BytesUtils.java:25-32 | every int survives intToBytes then bytesToInt |
| BytesUtils.IntBigEndianRoundTrip | groupcontrol/src/main/java/larson/groupcontrol/app/util/BytesUtils.java:39-46 | every int survives intToBytes2 then bytesToInt2 (remote-display lines 14-34 are the same code) |
| BytesUtils.MagicTypeToBytes | groupcontrol/src/main/java/larson/groupcontrol/app/util/BytesUtils.java:73-79 | two bytes packing the magic's low 12 bits under the type's low 4 bits |
| BytesUtils.BytesToType | groupcontrol/src/main/java/larson/groupcontrol/app/util/BytesUtils.java:135-139 | the top nibble of the little-endian short at the offset, always 0..15 |
| BytesUtils.BytesToMagic | groupcontrol/src/main/java/larson/groupcontrol/app/util/BytesUtils.java:150-155 | the low 12 bits of the little-endian short at the offset |
| BytesUtils.MagicTypeRoundTrip | groupcontrol/src/main/java/larson/groupcontrol/app/util/BytesUtils.java:73-155 | unpacking gives back exactly `magic & 0x0FFF` and `type & 0x0F` |
| BytesUtils.AsBytes | groupcontrol/src/main/java/larson/groupcontrol/app/util/BytesUtils.java:182-188 | a one-element array holding the byte (remote-display lines 64-70 are the same code) |
| BytesUtils.ToHexStringForLog | groupcontrol/src/main/java/larson/groupcontrol/app/util/BytesUtils.java:163-173 | null gives the empty string; otherwise three characters per byte |
| BytesUtils.HexLogAt | groupcontrol/src/main/java/larson/groupcontrol/app/util/BytesUtils.java:163-173 | byte i occupies characters 3i..3i+3: its two hex digits, then a space |
| BytesUtils.HexLogReadsBack | groupcontrol/src/main/java/larson/groupcontrol/app/util/BytesUtils.java:163-173 | each byte can be read back from its two hex digits in the log line |
| BytesUtils.HexLogInjective | groupcontrol/src/main/java/larson/groupcontrol/app/util/BytesUtils.java:163-173 | two byte arrays with the same log line are equal |
| BytesUtils.Int2IpOctets | groupcontrol/src/main/java/larson/groupcontrol/app/util/BytesUtils.java:195-204 | the four printed octets are the int's big-endian bytes, most significant first |
| BytesUtils.Int2Ip | groupcontrol/src/main/java/larson/groupcontrol/app/util/BytesUtils.java:195-204 | `int2Ip`: no contract of its own; Int2IpOctets states that it prints the int's four big-endian bytes as dotted decimal |
| ArrayUtils.Divide | groupcontrol/src/main/java/larson/groupcontrol/app/util/ArrayUtils.java:252-271 | the source's copying loop yields the reference chunking |
| ArrayUtils.DivideShape | groupcontrol/src/main/java/larson/groupcontrol/app/util/ArrayUtils.java:252-271 | null or empty input gives one empty chunk; a length outside 1..n-1 gives the whole array; the chunks concatenate back to the input; every chunk but the last has `len` bytes and the last has 1..len |
| ArrayUtils.ConcatBytesList | groupcontrol/src/main/java/larson/groupcontrol/app/util/ArrayUtils.java:306-322 | the non-null arrays in order, with length equal to the sum of their lengths |
| ArrayUtils.ConcatenateAgrees | groupcontrol/src/main/java/larson/groupcontrol/app/util/ArrayUtils.java:230-243 | skipping empty parts gives the same bytes as the list concatenation |
| ArrayUtils.Concatenate | groupcontrol/src/main/java/larson/groupcontrol/app/util/ArrayUtils.java:230-243 | `concatenate`: no contract of its own; ConcatenateAgrees states that skipping null and empty parts gives the in-order concatenation of all parts |
| ArrayUtils.ConcatBytes | groupcontrol/src/main/java/larson/groupcontrol/app/util/ArrayUtils.java:331-343 | succeeds exactly when no array is null (otherwise NullPointerException); the result is the first array followed by the rest in order |
| ArrayUtils.ConcatBytesLength | groupcontrol/src/main/java/larson/groupcontrol/app/util/ArrayUtils.java:331-343 | the result's length is the sum of the parts' lengths |
| ArrayUtils.EnsureLength | groupcontrol/src/main/java/larson/groupcontrol/app/util/ArrayUtils.java:189-201 | exactly `len` bytes: zero-padded on the left when short, cut to the prefix when long, all zeros for null or empty input; a negative length fails |
| ArrayUtils.XorCheck | groupcontrol/src/main/java/larson/groupcontrol/app/util/ArrayUtils.java:174-186 | 0 for null or empty input, otherwise the XOR of every byte |
| ArrayUtils.GetCheckSum4JT808 | groupcontrol/src/main/java/larson/groupcontrol/app/util/ArrayUtils.java:156-166 | succeeds exactly when the array is present and the range fits; the result is the XOR over [start, end), or 0 for an empty range |
| ArrayUtils.CheckSumWhole | groupcontrol/src/main/java/larson/groupcontrol/app/util/ArrayUtils.java:156-186 | the checksum over the whole array equals xorCheck |
| ArrayUtils.XorCheckAppended | groupcontrol/src/main/java/larson/groupcontrol/app/util/ArrayUtils.java:174-186 | appending the checksum makes the XOR of the whole frame 0 |
| ArrayUtils.SubBytes | groupcontrol/src/main/java/larson/groupcontrol/app/util/ArrayUtils.java:293-297 | succeeds exactly when the slice lies inside the array; its bytes are the source bytes from `begin`; a negative count is a NegativeArraySizeException |
| ArrayUtils.VerifyCode | groupcontrol/src/main/java/larson/groupcontrol/app/util/ArrayUtils.java:90-107 | every byte but the last, so that appending the last gives the input back |
| ArrayUtils.Escape | groupcontrol/src/main/java/larson/groupcontrol/app/util/ArrayUtils.java:134-144 | the identity on non-null input, empty for null |
| ArrayUtils.Unescape | groupcontrol/src/main/java/larson/groupcontrol/app/util/ArrayUtils.java:115-126 | the identity on non-null input, empty for null |
| CrcUtils.ReversalByte | groupcontrol/src/main/java/larson/groupcontrol/app/util/CrcUtils.java:105-113 | the bit-by-bit loop yields the bit-reversed byte |
| CrcUtils.RegisterMirror | groupcontrol/src/main/java/larson/groupcontrol/app/util/CrcUtils.java:70-97 | a left-shifting register fed reflected bytes is the mirror image of the right-shifting reflected register |
| CrcUtils.Crc16IsKermit | groupcontrol/src/main/java/larson/groupcontrol/app/util/CrcUtils.java:70-97 | type 2 of crc16Ccitt is CRC-16/KERMIT, the reflected form of polynomial 0x1021 with initial value 0 |
| CrcUtils.Crc16 | groupcontrol/src/main/java/larson/groupcontrol/app/util/CrcUtils.java:70-97 | `crc16Ccitt`: no contract of its own. Type 2 has an independent reference definition (Crc16IsKermit). Types 1 and 3, and any other type value, have none: they are pinned only by the catalogue check values below |
| CrcCheckValues.XmodemCheckValue | groupcontrol/src/main/java/larson/groupcontrol/app/util/CrcUtils.java:70-97 | type 1 on "123456789" gives 0x31C3, the catalogue check value of CRC-16/XMODEM |
| CrcCheckValues.CcittFalseCheckValue | groupcontrol/src/main/java/larson/groupcontrol/app/util/CrcUtils.java:70-97 | type 3 on "123456789" gives 0x29B1, the catalogue check value of CRC-16/CCITT-FALSE |
| CrcCheckValues.KermitCheckValue | groupcontrol/src/main/java/larson/groupcontrol/app/util/CrcUtils.java:70-97 | type 2 on "123456789" gives 0x2189, the catalogue check value of CRC-16/KERMIT |
| CrcUtils.GetCrc16Bytes | groupcontrol/src/main/java/larson/groupcontrol/app/util/CrcUtils.java:24-37 | null or empty input gives an empty array; otherwise the input followed by its CRC, low byte first |
| CrcUtils.GetDataBytes | groupcontrol/src/main/java/larson/groupcontrol/app/util/CrcUtils.java:46-58 | inputs shorter than three bytes give an empty array; otherwise null exactly when the trailing two bytes are not the CRC of the rest, else the rest |
| CrcUtils.CrcRoundTrip | groupcontrol/src/main/java/larson/groupcontrol/app/util/CrcUtils.java:24-58 | checking a framed array returns the original data |
| CrcUtils.CrcAcceptsOnlyFramed | groupcontrol/src/main/java/larson/groupcontrol/app/util/CrcUtils.java:24-58 | every array the check accepts is exactly its data re-framed |
| PacketHeaders.EmptyHeader | groupcontrol/src/main/java/larson/groupcontrol/app/packet/PacketHeader.java:35-41 | the no-argument constructor: an ACK header with magic 0 and all other fields 0 |
| PacketHeaders.DefaultBuilder | groupcontrol/src/main/java/larson/groupcontrol/app/packet/PacketHeader.java:117-123 | the Builder defaults: ACK, the default magic, all other fields 0 |
| PacketHeaders.NewHeader | groupcontrol/src/main/java/larson/groupcontrol/app/packet/PacketHeader.java:51-57 | the given fields with the default magic |
| PacketHeaders.ConstructorMagic | groupcontrol/src/main/java/larson/groupcontrol/app/packet/PacketHeader.java:35-57 | Builder and four-argument headers pass the reader's magic test; the no-argument header does not |
| PacketHeaders.GetBytes | groupcontrol/src/main/java/larson/groupcontrol/app/packet/PacketHeader.java:79-87 | eight bytes: packed magic and type, then pid, vid and paddingSize little-endian |
| PacketHeaders.Parse | groupcontrol/src/main/java/larson/groupcontrol/app/packet/PacketHeader.java:100-108 | succeeds exactly when eight bytes start at the index; type and magic come back masked |
| PacketHeaders.HeaderRoundTrip | groupcontrol/src/main/java/larson/groupcontrol/app/packet/PacketHeader.java:79-108 | a header with a 12-bit magic and a 4-bit type parses back to itself |
| PacketHeaders.HeaderRoundTripMasked | groupcontrol/src/main/java/larson/groupcontrol/app/packet/PacketHeader.java:79-108 | any other header parses back with only the magic and type masked |
| PacketHeaders.ParseLocal | groupcontrol/src/main/java/larson/groupcontrol/app/packet/PacketHeader.java:100-108 | parse depends only on the eight bytes at the index |
| Packets.NewBuilder | groupcontrol/src/main/java/larson/groupcontrol/app/packet/Packet.java:200-213 | a default-magic header with the given fields; no flags, ids 0, empty body |
| Packets.FullMsgId | groupcontrol/src/main/java/larson/groupcontrol/app/packet/Packet.java:123-136 | the three flags and the 13-bit id can each be read back from the id word |
| Packets.GetBytes | groupcontrol/src/main/java/larson/groupcontrol/app/packet/Packet.java:107-121 | succeeds exactly when paddingSize+8 is between 0 and the bytes written, which fit 4096; then it is that prefix of header, sub-header and body; each other case fails with its named exception |
| Packets.Decode | groupcontrol/src/main/java/larson/groupcontrol/app/packet/Packet.java:81-105 | succeeds exactly when the raw bytes hold the header and the sub-header the large flag asks for; the body is the rest; the id is 13 bits; a non-large packet has no fragment fields |
| Packets.WellFormedEncodes | groupcontrol/src/main/java/larson/groupcontrol/app/packet/Packet.java:107-121 | when paddingSize counts exactly the written bytes, nothing is cut |
| Packets.PacketRoundTrip | groupcontrol/src/main/java/larson/groupcontrol/app/packet/Packet.java:81-121 | decoding the bytes of a well-formed packet gives the packet back |
| Packets.DecodeLayout | groupcontrol/src/main/java/larson/groupcontrol/app/packet/Packet.java:81-105 | bytes laid out as header, id word, sequence number, fragment fields and body decode to exactly those fields, with the flags and 13-bit id taken apart from the id word |
| Packets.MsgIdMasked | groupcontrol/src/main/java/larson/groupcontrol/app/packet/Packet.java:123-136 | only `msgId & 0x1FFF` survives the wire |
| MessageSn.NextSn | groupcontrol/src/main/java/larson/groupcontrol/app/message/MessageSnBuilder.java:39-43 | the counter advances by one, wraps from 0xFFFF to 1, never yields 0, and leaves the key alone |
| MessageSn.SnCycle | groupcontrol/src/main/java/larson/groupcontrol/app/message/MessageSnBuilder.java:39-43 | call n hands out `(n-1) mod 0xFFFF + 1` |
| MessageSn.GetClientKey | groupcontrol/src/main/java/larson/groupcontrol/app/message/MessageSnBuilder.java:50-55 | throws exactly while the key is 0 |
| MessageSn.SetClientKey | groupcontrol/src/main/java/larson/groupcontrol/app/message/MessageSnBuilder.java:63-68 | throws exactly for a null or empty key; otherwise the key is the key's CRC-16 and the counter is kept |
| MessageSn.ZeroChecksumKey | groupcontrol/src/main/java/larson/groupcontrol/app/message/MessageSnBuilder.java:50-68 | a key whose checksum is 0 is accepted, yet getClientKey still throws |
| MessageBuilders.Build | groupcontrol/src/main/java/larson/groupcontrol/app/message/Message.java:50-60 | fails exactly for a null body; copies every field; the large flag is "body longer than 4084" |
| MessageBuilders.SendBuilder | groupcontrol/src/main/java/larson/groupcontrol/app/message/BaseMessageBuilder.java:55-60 | a sequence number is consumed even when the missing client key then throws; the draft carries a fresh non-zero sn and the key as pid |
| MessageBuilders.ReplyBuilder | groupcontrol/src/main/java/larson/groupcontrol/app/message/BaseMessageBuilder.java:62-68 | echoes the caller's sn, marks a response, and throws without a client key |
| MessageBuilders.SetAck | groupcontrol/src/main/java/larson/groupcontrol/app/message/BaseMessageBuilder.java:73-76 | sets the ACK flag and nothing else |
| MessageBuilders.SetBody | groupcontrol/src/main/java/larson/groupcontrol/app/message/BaseMessageBuilder.java:78-81 | sets the body and nothing else |
| MessageBuilders.SetType | groupcontrol/src/main/java/larson/groupcontrol/app/message/BaseMessageBuilder.java:83-86 | sets the type and nothing else |
| MessageBuilders.SetVid | groupcontrol/src/main/java/larson/groupcontrol/app/message/BaseMessageBuilder.java:89-92 | sets the vid and nothing else |
| MessageBuilders.GetPid | groupcontrol/src/main/java/larson/groupcontrol/app/message/Message.java:125-127 | the pid read as unsigned, whose short cast is the stored pid |
| MessageBuilders.SendsDiffer | groupcontrol/src/main/java/larson/groupcontrol/app/message/BaseMessageBuilder.java:55-60 | two successive sends carry different sequence numbers, neither of them 0 |
| Messages.Payload | groupcontrol/src/main/java/larson/groupcontrol/app/message/Message.java:64 | an empty body travels as nothing; otherwise the body plus two CRC bytes |
| Messages.ParsePacket | groupcontrol/src/main/java/larson/groupcontrol/app/message/Message.java:213-229 | copies the header fields; a non-large frame also yields its CRC-checked body and fails exactly when the CRC check does |
| Messages.CopyInto | groupcontrol/src/main/java/larson/groupcontrol/app/message/Message.java:194 | arraycopy succeeds exactly when the source fits at the start; it overwrites that window and nothing else |
| Messages.Reassemble | groupcontrol/src/main/java/larson/groupcontrol/app/message/Message.java:172-206 | no frames is an index error; a lone large frame or a count that differs from subCount is UnFormatMessage; a lone frame yields its CRC-checked body; a success is a consistent message |
| Messages.FramesShape | groupcontrol/src/main/java/larson/groupcontrol/app/message/Message.java:63-91 | a short payload becomes one frame; a long one becomes at least two large frames, each 4080 bytes except the last, with 1-based indexes, carrying subCount and concatenating to the payload; it fails exactly when the short fragment counter would wrap |
| Messages.FragmentsShape | groupcontrol/src/main/java/larson/groupcontrol/app/message/Message.java:66-80 | fragments made of full chunks and a last partial one are tiled from index 1, carry the chunks in order and all name the fragment count |
| Messages.FramesHeaders | groupcontrol/src/main/java/larson/groupcontrol/app/message/Message.java:63-91 | every frame carries the message's id, sn, pid, vid, type and flags |
| Messages.GetPacketsShape | groupcontrol/src/main/java/larson/groupcontrol/app/message/Message.java:63-91 | the corrected getPackets splits the CRC-framed body as described for FramesShape |
| Messages.GetPacketsAsWritten | groupcontrol/src/main/java/larson/groupcontrol/app/message/Message.java:63-91 | `getPackets` as written, the split the writer queues: no contract of its own; AsWrittenAgrees ties it to the corrected split and AsWrittenBoundaryUnderflow shows where it fails |
| Messages.GetPackets | groupcontrol/src/main/java/larson/groupcontrol/app/message/Message.java:63-91 | the corrected `getPackets`: no contract of its own; GetPacketsShape states its frames and RoundTrip that they reassemble to the message |
| Messages.AsWrittenAgrees | groupcontrol/src/main/java/larson/groupcontrol/app/message/Message.java:63-91 | the source's frames equal the corrected ones for every body length except 4083 and 4084 |
| Messages.AsWrittenBoundaryUnderflow | groupcontrol/src/main/java/larson/groupcontrol/app/message/Message.java:63-91 | with 4083 or 4084 body bytes the source makes two non-large frames, and encoding the first throws BufferUnderflowException |
| Messages.BoundaryFrames | groupcontrol/src/main/java/larson/groupcontrol/app/message/Message.java:63-91 | a 4085- or 4086-byte payload split with the large flag off gives a first frame whose paddingSize asks for more than is written |
| Messages.RoundTrip | groupcontrol/src/main/java/larson/groupcontrol/app/message/Message.java:63-229 | reassembling the frames of a consistent message, in order, gives the message back |
| Messages.RoundTripAsWritten | groupcontrol/src/main/java/larson/groupcontrol/app/message/Message.java:63-229 | the same round trip for the source's frames, away from the two boundary lengths |
| Messages.FragmentsRoundTrip | groupcontrol/src/main/java/larson/groupcontrol/app/message/Message.java:172-206 | tiled fragments whose bytes pass the CRC check reassemble to the message |
| Messages.FramesWellFormed | groupcontrol/src/main/java/larson/groupcontrol/app/message/Message.java:63-91 | every frame's paddingSize counts exactly its sub-header and body |
| Messages.FramesOnTheWire | groupcontrol/src/main/java/larson/groupcontrol/app/message/Message.java:63-91 | every frame of a message with a 13-bit id and a 4-bit type encodes, and decodes back to itself |
| Messages.FillPointwise | groupcontrol/src/main/java/larson/groupcontrol/app/message/Message.java:181-200 | with non-overlapping slots, each buffer byte comes from the fragment that covers it, or stays as it was |
| Messages.FillHead | groupcontrol/src/main/java/larson/groupcontrol/app/message/Message.java:181-200 | one pass of the copy loop copies the frame to its slot, leaves every other byte alone, and takes the header fields exactly when the frame has index 1 |
| Messages.Fill | groupcontrol/src/main/java/larson/groupcontrol/app/message/Message.java:181-200 | the copy loop of `parsePackets`: no contract of its own; FillHead, FillPointwise and FillOrderIndependent state what it copies |
| Messages.FillOrderIndependent | groupcontrol/src/main/java/larson/groupcontrol/app/message/Message.java:181-200 | copying the same non-overlapping fragments in any order fills the same buffer |
| Messages.TotalBodiesPermutation | groupcontrol/src/main/java/larson/groupcontrol/app/message/Message.java:175-180 | the reassembly size, a sum over the frames, does not depend on their order |
| Messages.DisjointPermutation | groupcontrol/src/main/java/larson/groupcontrol/app/message/Message.java:181-200 | whether slots overlap does not depend on the frames' order |
| Messages.ReassembleOrderIndependent | groupcontrol/src/main/java/larson/groupcontrol/app/message/Message.java:172-206 | fragments of one message with non-overlapping slots reassemble alike in every arrival order |
| Messages.ArrivalOrderIrrelevant | groupcontrol/src/main/java/larson/groupcontrol/app/message/Message.java:63-229 | the frames of a consistent message, in any arrival order, reassemble to that message |
| Messages.TiledReorder | groupcontrol/src/main/java/larson/groupcontrol/app/message/Message.java:172-206 | tiled fragments reassemble alike in any order |
| Filters.AndAccept | groupcontrol/src/main/java/larson/groupcontrol/app/filter/AndFilter.java:71-78 | accepts exactly when every member does; it asks members in order and stops at the first refusal |
| Filters.OrAccept | groupcontrol/src/main/java/larson/groupcontrol/app/filter/OrFilter.java:71-78 | accepts exactly when some member does; it asks members in order and stops at the first acceptance |
| Filters.NewAndFilter | groupcontrol/src/main/java/larson/groupcontrol/app/filter/AndFilter.java:44-55 | a null array or a null member is a NullPointerException; otherwise the members in order |
| Filters.NewOrFilter | groupcontrol/src/main/java/larson/groupcontrol/app/filter/OrFilter.java:43-54 | a null array or a null member is a NullPointerException; otherwise the members in order |
| Filters.Members | groupcontrol/src/main/java/larson/groupcontrol/app/filter/AndFilter.java:44-55 | the non-null references, one for one |
| Filters.AddFilter | groupcontrol/src/main/java/larson/groupcontrol/app/filter/AndFilter.java:63-68 | null throws; otherwise the filter is appended and the combination keeps its kind |
| Filters.AddFilterAccept | groupcontrol/src/main/java/larson/groupcontrol/app/filter/OrFilter.java:62-78 | appending narrows a conjunction by the new member and widens a disjunction by it |
| MessageCollectors.NewCollector | groupcontrol/src/main/java/larson/groupcontrol/app/connection/MessageCollector.java:33-37 | an empty, live queue holding the filter |
| MessageCollectors.ProcessMessage | groupcontrol/src/main/java/larson/groupcontrol/app/connection/MessageCollector.java:46-59 | the offer-or-drop-oldest loop has the reference effect: a null or rejected message changes nothing, and an accepted one is appended, dropping the oldest when 500 are queued |
| MessageCollectors.QueueIsNewestAccepted | groupcontrol/src/main/java/larson/groupcontrol/app/connection/MessageCollector.java:46-59 | after any stream of messages the queue is the newest 500 of the old queue plus the accepted messages |
| MessageCollectors.NextResult | groupcontrol/src/main/java/larson/groupcontrol/app/connection/MessageCollector.java:72-78 | the head of the queue and the rest, or none (a timeout) when the queue is empty |
| MessageCollectors.DrainIsQueue | groupcontrol/src/main/java/larson/groupcontrol/app/connection/MessageCollector.java:72-78 | repeated nextResult calls hand out the queue in order |
| MessageCollectors.FifoUpToCapacity | groupcontrol/src/main/java/larson/groupcontrol/app/connection/MessageCollector.java:46-78 | a filterless collector that receives at most 500 messages hands them out in arrival order |
| MessageCollectors.AcceptedAll | groupcontrol/src/main/java/larson/groupcontrol/app/connection/MessageCollector.java:46-52 | a null filter accepts every message |
| PacketRouters.CreateCollector | groupcontrol/src/main/java/larson/groupcontrol/app/connection/PacketRouter.java:49-54 | a fresh collector joins the end of the active ones; nothing else changes |
| PacketRouters.RemoveFirst | groupcontrol/src/main/java/larson/groupcontrol/app/connection/PacketRouter.java:70-72 | Collection.remove takes out one occurrence when present, and otherwise changes nothing |
| PacketRouters.RemoveFirstCount | groupcontrol/src/main/java/larson/groupcontrol/app/connection/PacketRouter.java:70-72 | exactly one copy leaves the multiset |
| PacketRouters.RemoveCollector | groupcontrol/src/main/java/larson/groupcontrol/app/connection/PacketRouter.java:70-72 | the collector is no longer active; every other active collector stays |
| PacketRouters.Cancel | groupcontrol/src/main/java/larson/groupcontrol/app/connection/MessageCollector.java:87-93 | the collector is marked cancelled and, on the first call, leaves the active ones |
| PacketRouters.CreateThenCancel | groupcontrol/src/main/java/larson/groupcontrol/app/connection/MessageCollector.java:87-93 | creating and then cancelling a collector restores the active collectors |
| PacketRouters.AddRcvListener | groupcontrol/src/main/java/larson/groupcontrol/app/connection/PacketRouter.java:115-121 | a null listener or filter key throws; otherwise the entry is put under the filter key, as the code does; the documented replace-by-listener promise is broken (## Findings) |
| PacketRouters.AddRcvListenerKeepsOld | groupcontrol/src/main/java/larson/groupcontrol/app/connection/PacketRouter.java:107-121 | as written, re-adding a listener under a second filter object keeps both entries, and a message both accept reaches the listener at least twice |
| PacketRouters.AddRcvListenerByListener | groupcontrol/src/main/java/larson/groupcontrol/app/connection/PacketRouter.java:107-121 | the documented registration keyed by listener: a null listener throws; otherwise its entry is replaced by one under the new filter and every other entry stays |
| PacketRouters.ReAddUsesNewFilter | groupcontrol/src/main/java/larson/groupcontrol/app/connection/PacketRouter.java:107-114 | keyed by listener, after re-adding with a new filter a message reaches the listener once exactly when the new filter accepts it, else not at all |
| PacketRouters.RemoveByListenerHits | groupcontrol/src/main/java/larson/groupcontrol/app/connection/PacketRouter.java:132-139 | keyed by listener, removing a registered listener leaves no entry that reaches it |
| PacketRouters.RemoveRcvListener | groupcontrol/src/main/java/larson/groupcontrol/app/connection/PacketRouter.java:137-139 | null throws; otherwise the key equal to the listener object is removed |
| PacketRouters.Reached | groupcontrol/src/main/java/larson/groupcontrol/app/connection/PacketRouter.java:141-155 | responses reach no listener; any other message reaches exactly the listeners whose filter accepts it |
| PacketRouters.DispatchEffect | groupcontrol/src/main/java/larson/groupcontrol/app/connection/PacketRouter.java:141-155 | every active collector processes the message; inactive ones, listeners and pending fragments are untouched |
| PacketRouters.Dispatch | groupcontrol/src/main/java/larson/groupcontrol/app/connection/PacketRouter.java:141-155 | `handlerMessage` on a well-formed router: no contract of its own; DispatchEffect states its effect on collectors, listeners and pending fragments, and Reached which listeners it calls |
| PacketRouters.OnPacket | groupcontrol/src/main/java/larson/groupcontrol/app/connection/PacketRouter.java:159-193 | a received frame never changes the active collectors or the listeners |
| PacketRouters.DeliverValid | groupcontrol/src/main/java/larson/groupcontrol/app/connection/PacketRouter.java:141-193 | delivering a decoded message, or dropping one that failed, keeps the router well formed |
| PacketRouters.OnDataReceive | groupcontrol/src/main/java/larson/groupcontrol/app/connection/PacketRouter.java:159-193 | bytes too short to decode are an index error |
| PacketRouters.GroupAccumulates | groupcontrol/src/main/java/larson/groupcontrol/app/connection/PacketRouter.java:159-193 | fragments of one group gather under their key until the last arrives; the group is then reassembled and the key cleared |
| PacketRouters.GroupDispatchedOnce | groupcontrol/src/main/java/larson/groupcontrol/app/connection/PacketRouter.java:159-193 | feeding a whole group dispatches its reassembly exactly once and leaves no pending fragments |
| PacketRouters.SentFramesOneGroup | groupcontrol/src/main/java/larson/groupcontrol/app/connection/PacketRouter.java:159-193 | the frames of one message, in any order, share one grouping key |
| PacketRouters.MessageDelivered | groupcontrol/src/main/java/larson/groupcontrol/app/connection/PacketRouter.java:159-193 | frames of a message in any arrival order are dispatched as that message |
| PacketRouters.SingleDelivered | groupcontrol/src/main/java/larson/groupcontrol/app/connection/PacketRouter.java:159-193 | a one-frame message is dispatched as soon as its frame arrives |
| PacketRouters.Clear | groupcontrol/src/main/java/larson/groupcontrol/app/connection/PacketRouter.java:198-202 | no active collectors, listeners or pending fragments remain |
| PacketReaders.FrameSize | groupcontrol/src/main/java/larson/groupcontrol/app/connection/PacketReader.java:185 | the frame length with paddingSize read unsigned; it equals the source's length whenever paddingSize is not negative |
| PacketReaders.Step | groupcontrol/src/main/java/larson/groupcontrol/app/connection/PacketReader.java:167-202 | one pass of the loop: a short tail is stashed, an emitted frame is the bytes it spans, and with the unsigned reading every pass moves forward |
| PacketReaders.AsWrittenHangs | groupcontrol/src/main/java/larson/groupcontrol/app/connection/PacketReader.java:185-196 | with paddingSize -8 the loop as written stays at index 0 and hands on one empty frame, on which the router throws and ends the data thread; the corrected reading keeps the bytes instead |
| PacketReaders.AsWrittenHangsOnAck | groupcontrol/src/main/java/larson/groupcontrol/app/connection/PacketReader.java:185-196 | the same fixpoint for an ACK header |
| PacketReaders.Scan | groupcontrol/src/main/java/larson/groupcontrol/app/connection/PacketReader.java:158-203 | every input byte is accounted for once: in a frame, skipped, in an ACK, or in the kept tail (paddingSize read unsigned, the corrected reading; see ## Findings) |
| PacketReaders.ScannedFrames | groupcontrol/src/main/java/larson/groupcontrol/app/connection/PacketReader.java:175-194 | every frame handed on has the right magic, is not an ACK, and is as long as its header says |
| PacketReaders.FramesRecovered | groupcontrol/src/main/java/larson/groupcontrol/app/connection/PacketReader.java:158-203 | a stream made of frames comes out as exactly those frames, with nothing skipped or kept |
| PacketReaders.FrameStep | groupcontrol/src/main/java/larson/groupcontrol/app/connection/PacketReader.java:158-203 | a whole frame at the front of the buffer is handed on in one step, whatever bytes follow it |
| PacketReaders.ResidualIsTail | groupcontrol/src/main/java/larson/groupcontrol/app/connection/PacketReader.java:171-200 | the bytes kept for next time are the end of the input |
| PacketReaders.EncodedIsFrame | groupcontrol/src/main/java/larson/groupcontrol/app/connection/PacketReader.java:175-194 | a well-formed non-ACK packet with the default magic encodes to a frame the reader hands on |
| PacketReaders.ChunkingIrrelevant | groupcontrol/src/main/java/larson/groupcontrol/app/connection/PacketReader.java:158-203 | parsing in two chunks, the tail carried over, gives the same frames, skips and tail as parsing the whole |
| PacketReaders.ParseData | groupcontrol/src/main/java/larson/groupcontrol/app/connection/PacketReader.java:158-203 | overflows the 8192-byte buffer exactly when the tail plus the chunk exceed it; otherwise every byte is accounted for (paddingSize read unsigned, the corrected reading; see ## Findings) |
| PacketReaders.FeedIsScan | groupcontrol/src/main/java/larson/groupcontrol/app/connection/PacketReader.java:142-203 | the data thread, over any chunking that does not overflow, hands on what one parse of all the bytes would (paddingSize read unsigned, the corrected reading; see ## Findings) |
| PacketReaders.Feed | groupcontrol/src/main/java/larson/groupcontrol/app/connection/PacketReader.java:142-155 | `DataRunnable.run` over a sequence of socket chunks: no contract of its own; FeedIsScan states that it hands on what one parse of all the bytes would (paddingSize read unsigned, the corrected reading) |
| PacketReaders.SentinelIsBuilt | groupcontrol/src/main/java/larson/groupcontrol/app/connection/PacketReader.java:132-139 | the wake-up packet `stop` enqueues is an empty ACK frame |
| PacketReaders.SentinelConsumed | groupcontrol/src/main/java/larson/groupcontrol/app/connection/PacketReader.java:132-155 | the wake-up frame is consumed whole and never handed on |
| PacketWriters.Enqueue | groupcontrol/src/main/java/larson/groupcontrol/app/connection/PacketWriter.java:156-174 | frames go to the end of the queue as one run; nothing is queued after shutdown |
| PacketWriters.FramesFor | groupcontrol/src/main/java/larson/groupcontrol/app/connection/PacketWriter.java:155-167 | the frames `getPackets` builds as written; none when it throws, since the exception is swallowed |
| PacketWriters.SendMessage | groupcontrol/src/main/java/larson/groupcontrol/app/connection/PacketWriter.java:155-174 | nothing after shutdown; otherwise the message's frames, split as written, go to the end of the queue and nothing else changes |
| PacketWriters.Shutdown | groupcontrol/src/main/java/larson/groupcontrol/app/connection/PacketWriter.java:81-104 | the writer is closed and the heartbeat stops |
| PacketWriters.NextPacket | groupcontrol/src/main/java/larson/groupcontrol/app/connection/PacketWriter.java:214-226 | closed exactly after shutdown, waits exactly on an empty queue, otherwise hands out the head |
| PacketWriters.DrainIsQueue | groupcontrol/src/main/java/larson/groupcontrol/app/connection/PacketWriter.java:189-226 | a running writer hands out exactly its queue, in order; a closed one hands out nothing |
| PacketWriters.EnqueueInOrder | groupcontrol/src/main/java/larson/groupcontrol/app/connection/PacketWriter.java:156-174 | batches queued one after another sit in the queue in queuing order |
| PacketWriters.SendsInOrder | groupcontrol/src/main/java/larson/groupcontrol/app/connection/PacketWriter.java:156-174 | messages sent one after another queue their as-written frames in sending order |
| PacketWriters.KeepAlive | groupcontrol/src/main/java/larson/groupcontrol/app/connection/PacketWriter.java:123-149 | a period that is not positive becomes the default; the heartbeat is always positive |
| PacketWriters.WriteAll | groupcontrol/src/main/java/larson/groupcontrol/app/connection/PacketWriter.java:189-206 | the bytes of each frame taken, in order; succeeds whenever every frame encodes |
| PacketWriters.SendableFrames | groupcontrol/src/main/java/larson/groupcontrol/app/connection/PacketWriter.java:156-174 | for a message whose body is not 4083 or 4084 bytes long, the queued as-written frames are well formed, with the default magic and the message's type |
| PacketWriters.WireRoundTrip | groupcontrol/src/main/java/larson/groupcontrol/app/connection/PacketWriter.java:156-206 | what a writer puts on the wire for a run of sendable messages (no body of 4083 or 4084 bytes) is read back by the reader as exactly those frames |
| PacketWriters.WrittenAreFrames | groupcontrol/src/main/java/larson/groupcontrol/app/connection/PacketWriter.java:189-206 | written frames concatenated on the wire parse back one for one |
| PacketWriters.BoundaryWriteFails | groupcontrol/src/main/java/larson/groupcontrol/app/connection/PacketWriter.java:189-206 | a body of 4083 or 4084 bytes queues two frames, and writing them out fails with BufferUnderflowException at the first |
| PacketWriters.WriteAllFails | groupcontrol/src/main/java/larson/groupcontrol/app/connection/PacketWriter.java:189-206 | a frame that does not encode fails the whole write-out, whatever was queued before it |
| PacketWriters.WriteAllHeadFails | groupcontrol/src/main/java/larson/groupcontrol/app/connection/PacketWriter.java:189-206 | a head frame that does not encode ends the write-out with its own error |
| PacketWriters.Heartbeat | groupcontrol/src/main/java/larson/groupcontrol/app/connection/PacketWriter.java:228-246 | consumes a sequence number and throws exactly without a client key |
| PacketWriters.HeartbeatShape | groupcontrol/src/main/java/larson/groupcontrol/app/connection/PacketWriter.java:228-246 | the heartbeat, split as written, is one empty frame of the heart type with paddingSize 4 that reassembles to itself |
| Connections.NewConnection | groupcontrol/src/main/java/larson/groupcontrol/app/connection/Connection.java:62-65 | not connected, no writer, an empty router |
| Connections.ResetConnection | groupcontrol/src/main/java/larson/groupcontrol/app/connection/Connection.java:127-166 | the writer, router and listener are dropped; the connected flag is kept |
| Connections.Connect | groupcontrol/src/main/java/larson/groupcontrol/app/connection/Connection.java:75-116 | a socket failure throws and changes nothing; a stream failure resets and clears the flag; otherwise a running writer, and then: a null connect option (the builder's default) throws NullPointerException with no heartbeat and the connected flag never set; with an option the connection is connected, and registering the configured listeners throws exactly when there is no router |
| Connections.Register | groupcontrol/src/main/java/larson/groupcontrol/app/connection/Connection.java:121-125 | every configured listener is registered; collectors are untouched |
| Connections.SendMessage | groupcontrol/src/main/java/larson/groupcontrol/app/connection/Connection.java:206-216 | nothing happens while disconnected or for null; otherwise the writer queues the as-written frames, or NullPointerException without a writer |
| Connections.DispatchAllCollector | groupcontrol/src/main/java/larson/groupcontrol/app/connection/Connection.java:219-253 | an active collector sees every dispatched message |
| Connections.AwaitEffect | groupcontrol/src/main/java/larson/groupcontrol/app/connection/Connection.java:219-253 | the wait's collector is always cancelled; the reply is the oldest kept accepted arrival, or none exactly when none was accepted |
| Connections.AwaitSound | groupcontrol/src/main/java/larson/groupcontrol/app/connection/Connection.java:219-253 | any reply arrived and passes the filter |
| Connections.Await | groupcontrol/src/main/java/larson/groupcontrol/app/connection/Connection.java:219-253 | the collector wait of `sendSyncMessage`: keeps the router well formed; AwaitEffect and AwaitSound state the reply |
| Connections.CollectorFilter | groupcontrol/src/main/java/larson/groupcontrol/app/connection/Connection.java:219-253 | the two-argument overload collects by the message's id; the three-argument one uses its filter as given, null included |
| Connections.SendSync | groupcontrol/src/main/java/larson/groupcontrol/app/connection/Connection.java:219-253 | null without sending while disconnected or for a null message; NullPointerException exactly when writer or router is missing, with the message already queued when only the router is |
| Connections.SendSyncRestores | groupcontrol/src/main/java/larson/groupcontrol/app/connection/Connection.java:219-253 | a synchronous call leaves the active collectors as they were, queues the request, and any reply arrived and passes the overload's filter |
| Connections.SendSyncMatchesId | groupcontrol/src/main/java/larson/groupcontrol/app/connection/Connection.java:219-237 | without a filter the first arrival with the same id is the reply, whatever its response flag |
| Connections.SendSyncNullFilterTakesAny | groupcontrol/src/main/java/larson/groupcontrol/app/connection/Connection.java:239-253 | with a null filter the first arrival is the reply, whatever its id |
| Connections.SendSyncQueuesBeforeThrowing | groupcontrol/src/main/java/larson/groupcontrol/app/connection/Connection.java:239-253 | without a router the message is queued before the NullPointerException |
| Connections.SendSyncReply | groupcontrol/src/main/java/larson/groupcontrol/app/connection/Connection.java:219-253 | with writer and router present, the reply is what the wait collects under the overload's filter |
| Connections.WaitForMessage | groupcontrol/src/main/java/larson/groupcontrol/app/connection/Connection.java:270-280 | null when the router is gone |
| Connections.AddMsgListener | groupcontrol/src/main/java/larson/groupcontrol/app/connection/Connection.java:255-257 | NullPointerException without a router; otherwise fails exactly for a null listener or filter |
| Connections.RemoveMsgListener | groupcontrol/src/main/java/larson/groupcontrol/app/connection/Connection.java:259-261 | NullPointerException without a router; otherwise fails exactly for a null listener |
| Retries.Reset | groupcontrol/src/main/java/larson/groupcontrol/app/connection/NativeReconnectionManager.java:111-115 | the retry is withdrawn and the count starts over; nothing else changes |
| Retries.Schedule | groupcontrol/src/main/java/larson/groupcontrol/app/connection/NativeReconnectionManager.java:120-125 | one retry is pending, replacing any earlier one |
| Retries.Count | groupcontrol/src/main/java/larson/groupcontrol/app/connection/NativeReconnectionManager.java:186-187 | the counter goes up by one |
| Retries.Attach | groupcontrol/src/main/java/larson/groupcontrol/app/connection/NativeReconnectionManager.java:78-89 | bound with a zero count; 12 attempts and 5000 ms when configured as 0; a null option throws and leaves the policy disabled |
| NativeReconnections.OnConnectStateChange | groupcontrol/src/main/java/larson/groupcontrol/app/connection/NativeReconnectionManager.java:163-201 | a disabled policy detaches; a pending retry ignores every event; a clean close detaches; a reconnect success resets; a failure is counted and schedules a retry, or reports max-reached and detaches once the count reaches the limit |
| NativeReconnections.Fire | groupcontrol/src/main/java/larson/groupcontrol/app/connection/NativeReconnectionManager.java:64-70 | the pending flag is cleared before the retry and nothing else changes |
| NativeReconnections.MaxFailuresGiveUp | groupcontrol/src/main/java/larson/groupcontrol/app/connection/NativeReconnectionManager.java:186-196 | from count c, max-c failures in a row give max-c-1 retries and one max-reached report, then detach |
| Reconnections.OnConnectStateChange | groupcontrol/src/main/java/larson/groupcontrol/app/connection/ReconnectionManager.java:114-151 | disabled or a clean close detaches; a connect failure is counted and retries until the limit; a close failure retries uncounted with an exception and detaches without one; a success resets |
| Reconnections.Fire | groupcontrol/src/main/java/larson/groupcontrol/app/connection/ReconnectionManager.java:55-61 | the retry is used up, and it reconnects exactly when not connected |
| Reconnections.MaxFailuresGiveUp | groupcontrol/src/main/java/larson/groupcontrol/app/connection/ReconnectionManager.java:127-136 | max-c failed connects in a row give max-c-1 retries and one max-reached report, then detach |
| Reconnections.CloseFailuresNotCounted | groupcontrol/src/main/java/larson/groupcontrol/app/connection/ReconnectionManager.java:138-144 | any run of close failures with an exception keeps the count and leaves one retry pending |
| ConnectionManagers.NewManager | groupcontrol/src/main/java/larson/groupcontrol/app/connection/ConnectionManager.java:73-77 | a null listener is an IllegalArgumentException; otherwise the gate is open, nothing is connected, and the listener is the only one |
| ConnectionManagers.IsConnected | groupcontrol/src/main/java/larson/groupcontrol/app/connection/ConnectionManager.java:98-100 | a connection exists and says it is connected |
| ConnectionManagers.Caught | groupcontrol/src/main/java/larson/groupcontrol/app/connection/ConnectionManager.java:392-438 | a swallowed exception keeps the state the call reached |
| ConnectionManagers.Submit | groupcontrol/src/main/java/larson/groupcontrol/app/connection/ConnectionManager.java:140-147 | the task is queued while the executor lives, and is a NullPointerException afterwards |
| ConnectionManagers.SetNative | groupcontrol/src/main/java/larson/groupcontrol/app/connection/ConnectionManager.java:339-359 | the policy moves; a detached policy leaves the listener list; other listeners stay |
| ConnectionManagers.React | groupcontrol/src/main/java/larson/groupcontrol/app/connection/ConnectionManager.java:321-323 | the native policy hears the code; reaching the maximum queues a DisConnectTask for that code |
| ConnectionManagers.Notify | groupcontrol/src/main/java/larson/groupcontrol/app/connection/ConnectionManager.java:361-365 | every listener hears the code once; one notice is recorded; only the native policy can change |
| ConnectionManagers.NotifyTimes | groupcontrol/src/main/java/larson/groupcontrol/app/connection/ConnectionManager.java:485-494 | k identical notices are recorded in a row |
| ConnectionManagers.NotifyRepeat | groupcontrol/src/main/java/larson/groupcontrol/app/connection/PacketRouter.java:152-154 | k registrations each record the notice; an exception in one stops the rest |
| ConnectionManagers.RegisterConnectListener | groupcontrol/src/main/java/larson/groupcontrol/app/connection/ConnectionManager.java:287-293 | null is an IllegalArgumentException; otherwise the listener is appended |
| ConnectionManagers.UnregisterConnectListener | groupcontrol/src/main/java/larson/groupcontrol/app/connection/ConnectionManager.java:296-300 | one registration is removed when present; otherwise nothing changes |
| ConnectionManagers.RegisterThenUnregister | groupcontrol/src/main/java/larson/groupcontrol/app/connection/ConnectionManager.java:287-300 | registering then unregistering a listener restores the multiset of listeners |
| ConnectionManagers.Connect | groupcontrol/src/main/java/larson/groupcontrol/app/connection/ConnectionManager.java:80-95 | nothing happens while the gate is closed or connected; otherwise the gate closes first; a null configuration throws; only then is one ConnectTask queued |
| ConnectionManagers.Disconnect | groupcontrol/src/main/java/larson/groupcontrol/app/connection/ConnectionManager.java:103-108 | the native policy detaches, and a clean-close DisConnectTask is queued |
| ConnectionManagers.OnDestroy | groupcontrol/src/main/java/larson/groupcontrol/app/connection/ConnectionManager.java:153-170 | gate closed, policy detached, executor gone, listeners and configuration cleared, a clean close queued, and the connection left in place |
| ConnectionManagers.ControlRequest | groupcontrol/src/main/java/larson/groupcontrol/app/connection/ConnectionManager.java:392-400 | a control-type request with the given id and body and a fresh sn; it throws exactly without a client key |
| ConnectionManagers.Exchange | groupcontrol/src/main/java/larson/groupcontrol/app/connection/ConnectionManager.java:392-467 | no connection is a NullPointerException; while disconnected there is no answer; when ready the answer is the daemon's reply and only the connection changes |
| ConnectionManagers.Login | groupcontrol/src/main/java/larson/groupcontrol/app/connection/ConnectionManager.java:392-438 | never throws; the executor and configuration are untouched |
| ConnectionManagers.LoginAnswer | groupcontrol/src/main/java/larson/groupcontrol/app/connection/ConnectionManager.java:407-434 | an empty answer is an index error; a timeout or refusal queues a DisConnectTask for that code without a notice; a success that attaches the native policy without a connect option throws NullPointerException with no notice; any other verdict is reported once, carrying an exception exactly for a successful reconnect (as the source does) |
| ConnectionManagers.LoginReported | groupcontrol/src/main/java/larson/groupcontrol/app/connection/ConnectionManager.java:392-438 | the login outcome against the reference verdict: first attempt 0x02 succeeds, another byte is refused, no answer times out; a reconnect succeeds only on 0x02; a success that attaches the native policy without a connect option throws, is swallowed and is reported to no one |
| ConnectionManagers.Logout | groupcontrol/src/main/java/larson/groupcontrol/app/connection/ConnectionManager.java:443-467 | true exactly when an answer arrives whose first byte is the disconnected state |
| ConnectionManagers.AttachNative | groupcontrol/src/main/java/larson/groupcontrol/app/connection/ConnectionManager.java:339-359 | a null configuration, or a null connect option, throws NullPointerException; otherwise the policy listens and one more remote-disconnect registration is added, and a ready manager with an option never throws |
| ConnectionManagers.OnConnectSuccess | groupcontrol/src/main/java/larson/groupcontrol/app/connection/ConnectionManager.java:332-337 | a null configuration throws before any notice; a client without a connect option throws while attaching; otherwise exactly one connect-success notice, and a ready manager with an option never throws |
| ConnectionManagers.RemoteStateMessage | groupcontrol/src/main/java/larson/groupcontrol/app/connection/ConnectionManager.java:64-71 | an empty non-response body throws in the first registration's filter, whatever the id; a remote-disconnect state message raises one remote-closed notice per registration; anything else changes nothing |
| ConnectionManagers.AttachTwiceNotifiesTwice | groupcontrol/src/main/java/larson/groupcontrol/app/connection/ConnectionManager.java:339-359 | after two attaches on one connection (with a connect option) a remote-disconnect message is reported twice |
| ConnectionManagers.NativeFire | groupcontrol/src/main/java/larson/groupcontrol/app/connection/NativeReconnectionManager.java:132-160 | with no connected notice the retry feeds a reconnect failure back into the policy |
| ConnectionManagers.ParseLocalState | groupcontrol/src/main/java/larson/groupcontrol/app/connection/ConnectionManager.java:531-547 | bytes 1..6 map to listener codes above 1000 (connected to connect-success, disconnected to remote-closed); every other byte maps to itself |
| ConnectionManagers.Drop | groupcontrol/src/main/java/larson/groupcontrol/app/connection/ConnectionManager.java:252-258 | the connection is gone with its remote-disconnect registrations, and the gate open |
| ConnectionManagers.RunDisConnectTask | groupcontrol/src/main/java/larson/groupcontrol/app/connection/ConnectionManager.java:225-260 | a clean close without a configuration only closes the gate; otherwise the listed notices are raised, then the connection is dropped and the gate reopens |
| ConnectionManagers.ReportAndDrop | groupcontrol/src/main/java/larson/groupcontrol/app/connection/ConnectionManager.java:225-260 | the state is reported once; unless a listener throws, the connection is dropped and the gate reopens |
| ConnectionManagers.FailedLoginDisconnects | groupcontrol/src/main/java/larson/groupcontrol/app/connection/ConnectionManager.java:407-434 | a failed first login is reported exactly once, with an exception, by the task it queues, which drops the connection |
| ConnectionManagers.StateWait | groupcontrol/src/main/java/larson/groupcontrol/app/connection/ConnectionManager.java:480-496 | the wait never answers "connecting"; no answer means no arrival was accepted |
| ConnectionManagers.StateWaitFirst | groupcontrol/src/main/java/larson/groupcontrol/app/connection/ConnectionManager.java:480-496 | the wait answers with the first accepted state, after one connecting notice per connecting message before it |
| ConnectionManagers.ConnectingBeforeFront | groupcontrol/src/main/java/larson/groupcontrol/app/connection/ConnectionManager.java:485-494 | the count of connecting messages can be taken from the front |
| ConnectionManagers.RunWaitForConnectTask | groupcontrol/src/main/java/larson/groupcontrol/app/connection/ConnectionManager.java:480-521 | without a connection it is a NullPointerException |
| ConnectionManagers.RemoteFailureUnreported | groupcontrol/src/main/java/larson/groupcontrol/app/connection/ConnectionManager.java:496-520 | a daemon "connect failed" on a first attempt queues a DisConnectTask whose code notifies no one |
| ConnectionManagers.RunConnectTask | groupcontrol/src/main/java/larson/groupcontrol/app/connection/ConnectionManager.java:181-210 | with a connect option, connected exactly when socket and streams open; on failure the gate reopens and connect-failed is reported, or a close-failed DisConnectTask is queued when reconnecting; without one, open streams end in a NullPointerException out of the task, unconnected, with no notice and the gate left closed |
| ConnectionManagers.AfterConnect | groupcontrol/src/main/java/larson/groupcontrol/app/connection/ConnectionManager.java:198-208 | an IOException reopens the gate and either queues a close-failed DisConnectTask (reconnecting) or reports connect-failed; any other outcome leaves the gate closed |
| ConnectionManagers.RunSendTask | groupcontrol/src/main/java/larson/groupcontrol/app/connection/ConnectionManager.java:140-147 | the connection's send, with its error |
| ConnectionManagers.RunTask | groupcontrol/src/main/java/larson/groupcontrol/app/connection/ConnectionManager.java:177-260 | running any queued task keeps the manager well formed |
| ConnectionManagers.DestroyKeepsConnection | groupcontrol/src/main/java/larson/groupcontrol/app/connection/ConnectionManager.java:153-170 | the clean close queued by onDestroy leaves the connection in place and reports nothing |
| ConnectionManagers.SocketClosed | groupcontrol/src/main/java/larson/groupcontrol/app/connection/ConnectionManager.java:380-383 | the gate reopens and a close-failed DisConnectTask is queued |
| ConnectionManagers.SocketClosedReported | groupcontrol/src/main/java/larson/groupcontrol/app/connection/ConnectionManager.java:380-383 | a closed socket is reported once, with an exception, and the connection is dropped |
| ConnectionManagers.SendMessage | groupcontrol/src/main/java/larson/groupcontrol/app/connection/ConnectionManager.java:140-147 | a SendTask is queued |
| ConnectionManagers.SendSync | groupcontrol/src/main/java/larson/groupcontrol/app/connection/ConnectionManager.java:123-130 | no connection is a NullPointerException; otherwise the connection's overload, with its reply and exception; a reply comes back only while connected and for a non-null message |
| ConnectionManagers.AddMsgListener | groupcontrol/src/main/java/larson/groupcontrol/app/connection/ConnectionManager.java:303-309 | an UnconnectedException while not connected; otherwise only the connection changes |
| ConnectionManagers.RemoveMsgListener | groupcontrol/src/main/java/larson/groupcontrol/app/connection/ConnectionManager.java:312-318 | an UnconnectedException while not connected; otherwise only the connection changes |
| GroupControl.NewFacade | groupcontrol/src/main/java/larson/groupcontrol/app/GroupControlManager.java:54-58 | a null listener is an IllegalArgumentException; then a null configuration, or one built without a connect option, is a NullPointerException; otherwise an unconnected manager over the configuration |
| GroupControl.Connect | groupcontrol/src/main/java/larson/groupcontrol/app/GroupControlManager.java:61-64 | delegates to the manager, or a NullPointerException without one |
| GroupControl.Disconnect | groupcontrol/src/main/java/larson/groupcontrol/app/GroupControlManager.java:67-70 | delegates to the manager, or a NullPointerException without one |
| GroupControl.OnDestroy | groupcontrol/src/main/java/larson/groupcontrol/app/GroupControlManager.java:73-81 | the option is always dropped; with a live executor so is the manager |
| GroupControl.IsConnected | groupcontrol/src/main/java/larson/groupcontrol/app/GroupControlManager.java:84-86 | false without a manager; otherwise the manager's answer |
| GroupControl.SendMessage | groupcontrol/src/main/java/larson/groupcontrol/app/GroupControlManager.java:89-91 | a SendTask is queued, or a NullPointerException without a manager |
| GroupControl.SendSync | groupcontrol/src/main/java/larson/groupcontrol/app/GroupControlManager.java:94-107 | a zero timeout throws first; then a missing manager throws; otherwise the manager's overload, null filter included; a reply implies connected |
| GroupControl.AddMessageListener | groupcontrol/src/main/java/larson/groupcontrol/app/GroupControlManager.java:110-116 | without a manager nothing changes; while unconnected an UnconnectedException |
| GroupControl.RemoveMessageListener | groupcontrol/src/main/java/larson/groupcontrol/app/GroupControlManager.java:119-125 | without a manager nothing changes; while unconnected an UnconnectedException |
| GroupControl.DestroyedFacadeInert | groupcontrol/src/main/java/larson/groupcontrol/app/GroupControlManager.java:73-125 | after onDestroy: not connected, listener calls change nothing, a second destroy is harmless, and connect or send throw |
| ClientInfos.Parse | app/src/main/java/cn/larson/groupcontrol/main/bean/ClientInfo.java:98-107 | fails exactly for a body shorter than 7 bytes; the ids are copied, the state is body[0], and the port is the unsigned little-endian body[5..7] |
| ClientInfos.ParseIpReversed | app/src/main/java/cn/larson/groupcontrol/main/bean/ClientInfo.java:104 | the address is printed as body[4].body[3].body[2].body[1] |
| ClientInfos.Encode | app/src/main/java/cn/larson/groupcontrol/main/bean/ClientInfo.java:102-105 | a 7-byte client body |
| ClientInfos.ParseEncoded | app/src/main/java/cn/larson/groupcontrol/main/bean/ClientInfo.java:98-107 | parsing an encoded body gives back the state, the printed address and the port |
| ClientInfos.StateString | app/src/main/java/cn/larson/groupcontrol/main/bean/ClientInfo.java:62-86 | "unknown" exactly outside 0x07..0x0C; connect-failed reads "disconnected" and disconnected reads "remove" |
| RemoteBytes.LongToBytes | remotedisplay/src/main/java/com/larson/remotedisplay/utils/BytesUtils.java:51-55 | eight bytes whose big-endian value is the long's unsigned pattern |
| RemoteBytes.BytesToLong | remotedisplay/src/main/java/com/larson/remotedisplay/utils/BytesUtils.java:40-45 | succeeds exactly when eight bytes start at the offset, otherwise an index error; the value is their big-endian reading |
| RemoteBytes.LongRoundTrip | remotedisplay/src/main/java/com/larson/remotedisplay/utils/BytesUtils.java:40-55 | every long survives longToBytes then bytesToLong |
| RemoteBytes.BytesRoundTrip | remotedisplay/src/main/java/com/larson/remotedisplay/utils/BytesUtils.java:40-55 | every eight bytes survive bytesToLong then longToBytes |
| RemoteBytes.BigEndianInjective | remotedisplay/src/main/java/com/larson/remotedisplay/utils/BytesUtils.java:40-45 | equal-length byte strings with one big-endian value are equal |
| IpUtils.SplitJoin | remotedisplay/src/main/java/com/larson/remotedisplay/utils/Utils.java:102 | splitting loses nothing: the pieces join back to the input |
| IpUtils.JoinSplit | remotedisplay/src/main/java/com/larson/remotedisplay/utils/Utils.java:102 | separator-free pieces are recovered exactly by splitting their join |
| IpUtils.DropTrailingEmpty | remotedisplay/src/main/java/com/larson/remotedisplay/utils/Utils.java:102 | a prefix of the pieces that ends in a non-empty piece, and drops only empty ones |
| IpUtils.IsIpv4 | remotedisplay/src/main/java/com/larson/remotedisplay/utils/Utils.java:97-121 | true exactly for a non-null, non-empty string that splits into four pieces, each parsing as 0..255 |
| IpUtils.AllOctets | remotedisplay/src/main/java/com/larson/remotedisplay/utils/Utils.java:108-118 | the loop passes exactly when every piece is an octet |
| IpUtils.PiecesIsIpv4 | remotedisplay/src/main/java/com/larson/remotedisplay/utils/Utils.java:97-121 | four separator-free octets joined by dots pass |
| IpUtils.QuadIsIpv4 | remotedisplay/src/main/java/com/larson/remotedisplay/utils/Utils.java:97-121 | four printed numbers below 256 joined by dots pass |
| IpUtils.Int2IpIsIpv4 | remotedisplay/src/main/java/com/larson/remotedisplay/utils/Utils.java:97-121 | every address int2Ip prints passes |
| IpUtils.TrailingDotAccepted | remotedisplay/src/main/java/com/larson/remotedisplay/utils/Utils.java:102-107 | "1.2.3.4." passes, because split drops the trailing empty piece |
| IpUtils.ByteBits | remotedisplay/src/main/java/com/larson/remotedisplay/utils/Utils.java:86-89 | eight characters, the high bit first |
| IpUtils.ByteToBit | remotedisplay/src/main/java/com/larson/remotedisplay/utils/Utils.java:83-92 | eight characters per byte |
| IpUtils.ByteToBitGroup | groupcontrol/src/main/java/larson/groupcontrol/app/util/ArrayUtils.java:276-290 | the i-th group of eight characters is the i-th byte's bits |
| IpUtils.ByteBitsReadBack | remotedisplay/src/main/java/com/larson/remotedisplay/utils/Utils.java:83-92 | each group read as a binary number is the byte, so the dump loses nothing |

## Left out

- Socket I/O, threads, executors, `synchronized`/`wait`/`notify`, real timeouts, the heartbeat timer and the handler delays. Replies, arrivals, socket outcomes and timer firings are parameters instead.
- Logging and `toString` methods: they print only.
- `Utils.getMACAddress` and `Utils.getIPAddress`: they query the platform's network interfaces.
- The float functions of groupcontrol's `BytesUtils` (`bytesToFloat`, `floatToBytes` and variants): floating point.
- The `isEmpty` overloads for `short[]`, `int[]`, `long[]` and `T[]`: only the `byte[]` one is used by the modelled code.
- `ArrayUtils.toPrimitives`: a boxing helper with no behaviour of its own.
- `CrcUtils.reversalShort`: modelled as a closed-form 16-bit reversal (`CrcUtils.Reverse16`) rather than its bit loop.
- `getCollectors`, `getRcvListeners`, `getConnectionConfiguration` and the other getters: they return fields.
- The configuration classes, constants, interfaces and exception classes: transcribed as records, constants and error values. The configuration's connect option is an `Option`, as the builder leaves it null unless `setSkSocketOption` is called; every other configuration field the model reads has no null case.
- ConnectionManagers.NativeFire: states the outcome only for a connected manager whose retry gets no answer. The reconnect-login branch is modelled but has no separate contract.
- ConnectionManagers.RunWaitForConnectTask: states only the missing-connection error directly. Its verdicts are stated through `StateWaitFirst`, `RemoteFailureUnreported` and the login lemmas.
- ConnectionManagers.RunTask: states only that the manager stays well formed. Each task's effect is stated by its own function.
- BytesUtils.BytesToInt: requires four bytes at the offset, so the source's ArrayIndexOutOfBoundsException for a short array or a bad offset is not modelled. Its modelled caller, `ClientInfos.Parse`, checks the length first.
- BytesUtils.BytesToInt2: requires four bytes at the offset, so the source's ArrayIndexOutOfBoundsException is not modelled. No modelled code calls it with a shorter array.
- BytesUtils.BytesToShort: requires two bytes at the offset, so the source's ArrayIndexOutOfBoundsException is not modelled. Its modelled callers, `Packets.Decode` and `ClientInfos.Parse`, check the length first.
- BytesUtils.BytesToType: requires two bytes at the offset, so the source's ArrayIndexOutOfBoundsException is not modelled. Its caller `PacketHeaders.Parse` checks the length first.
- BytesUtils.BytesToMagic: requires two bytes at the offset, so the source's ArrayIndexOutOfBoundsException is not modelled. Its caller `PacketHeaders.Parse` checks the length first.
- IpUtils.IsIpv4: digits are ASCII only. `Integer.parseInt` also accepts every other Unicode decimal digit (through `Character.digit`), so a string such as "١.٢.٣.٤" passes in Java and fails here. The digit table depends on the Java runtime's Unicode version.
- IpUtils.AllOctets: the per-piece test has the same ASCII-only digits as `IsIpv4`.
- ConnectionManagers.RemoteStateMessage: the router's listener map is a hash map with no defined order, so which other listeners miss a message after the empty-body exception is not modelled. Only the remote-disconnect registrations are.
- Retries.Count: the wrap of the Java int counter at 2^31-1 is modelled, but no contract states it. The counter never gets near it, because the policy detaches at `max`.
- PacketReaders.Scan: reads paddingSize as the unsigned 16-bit field, the corrected reading of the second row under "## Findings". For a header with the right magic and paddingSize 0x8000 or more, the source computes a negative frame length: for a type other than ACK, `new byte[packetSize]` (PacketReader.java:190) throws NegativeArraySizeException, which nothing catches, so the data thread ends; at 0xFFF8 an ACK header is skipped at the same index forever and any other type hands on an empty frame. The model keeps those bytes as the tail instead. The source's behaviour is stated by `PacketReaders.AsWrittenHangs` and `PacketReaders.AsWrittenHangsOnAck` over `Step(_, _, false)`.
- PacketReaders.ParseData: built on `Scan`, so it has the same unsigned reading of paddingSize; where the source ends the thread, the model keeps the bytes and later reports BufferOverflow.
- PacketReaders.FeedIsScan: relates `Feed` to `Scan`, both with the unsigned reading of paddingSize; it says nothing about the source's loop on a paddingSize of 0x8000 or more.
- ConnectionManagers.DestroyKeepsConnection: `onDestroy` is modelled as one atomic step. In the source it hands the DisConnectTask to the executor before it clears the listeners, shuts the executor down and sets `socketOption` to null (ConnectionManager.java:153-170). A worker that starts the task before that last assignment takes the normal path: logout, notify, deInit, and the connection is dropped. That interleaving is not modelled.
- Filters.AddFilter: `AndFilter.addFilter` and `OrFilter.addFilter` change the filter's list in place, so every holder of the same filter object sees the new member. The model returns a new value. The modelled code never adds to a filter that someone else holds.

## Findings

| source | as written | input that shows it | evidently intended | confidence | as-written member | corrected member |
|---|---|---|---|---|---|---|
| groupcontrol/src/main/java/larson/groupcontrol/app/message/Message.java:63-91 | the fragments' large flag is `isLongMsg`, which the constructor sets from the body length, but the split is decided by the payload length (body + 2 CRC bytes) | a message whose body has 4083 or 4084 bytes: its payload is split into two fragments flagged not large, and encoding the first one throws BufferUnderflowException. The writer queues these frames and its thread fails on them (`PacketWriters.BoundaryWriteFails`) | the large flag follows the same test that decides the split, so every frame round-trips | not executed | Messages.AsWrittenBoundaryUnderflow | Messages.RoundTrip |
| groupcontrol/src/main/java/larson/groupcontrol/app/connection/PacketReader.java:185-196 | the frame length is the signed short paddingSize plus 8 | a header with the right magic and paddingSize 0xFFF8 (-8): the frame length is 0, so the loop does not advance. An ACK header is skipped at the same index forever. Any other type hands on an empty frame, on which the router's `new Packet(data)` (PacketRouter.java:160, outside its try) throws, ending the data thread | paddingSize read as the unsigned 16-bit field, so every pass moves forward | not executed | PacketReaders.AsWrittenHangs | PacketReaders.ChunkingIrrelevant |
| groupcontrol/src/main/java/larson/groupcontrol/app/connection/PacketRouter.java:107-121 | the documentation says a listener added again with a different filter keeps only the new filter, but the map is keyed by the filter object | one listener added under two different filter objects: both entries stay, and a message both filters accept notifies the listener twice; `removeRcvListener` (line 138) looks the listener up as a filter key and misses both | entries keyed by the listener, so re-adding replaces the filter and removing finds it | not executed | PacketRouters.AddRcvListenerKeepsOld | PacketRouters.ReAddUsesNewFilter |

For the third row, the rest of the model keeps the code's keying by filter object. The connection registers its configured listeners through `PacketRouters.AddRcvListener`, and what the application sees depends on that keying. The listener-keyed registration is modelled beside it, with the documented property proved.
