# Seastar networking queues, RPC framing and signal-safe printing in Dafny

This project models the following parts of Seastar as pure functions over immutable datatypes:

- **Queue pairs.** The per-cpu queue pair (`qp`) of the native network stack, with:
  - its packet providers and the proxy inbox;
  - the `poll_tx` refill and batch-send cycle;
  - its 64-bit counters.
- **The network device.** Hashing an RSS hash to a hardware queue and forwarding to proxy cpus.
- **`forward_hash`.** The fixed 64-byte key buffer used for flow hashing.
- **The RPC core:**
  - the negotiation frame and feature map;
  - the request, response and compressed frame layouts;
  - exception payloads;
  - the outgoing queue of a connection, with its expiry fix-up in the send loop;
  - the client's message ids, its outstanding-reply map and its read loop;
  - the server's handler table and request routing;
  - `snd_buf` chunking;
  - the request-size estimate;
  - the `client_info` auxiliary map;
  - `cancellable::cancel`;
  - statistics.
- **The logger's level filter.**
- **The async-signal-safe hex and decimal printers.**

Bytes are `seq<byte>`, with `byte` a subtype of `nat` below 256. Wire integers are little-endian and modelled by `Bytes.LE` / `Bytes.FromLE`. Signed 64-bit message ids travel as their two's complement (`Bytes.ToU64` / `Bytes.FromU64`). Unsigned counters that wrap are written out explicitly (`RpcTypes.Inc`, `QueuePair.PollTx`).

Futures, timers and sockets are not modelled as such:

- An input stream is the sequence of bytes that has arrived.
- What a connection writes is appended to its `wire` field.
- A queued message carries a numeric tag in place of its list iterator.
- A handler is a number.
- A compressor is a pair of functions (`RpcFrames.Codec`) passed as a parameter.

Modules, one per file:

- `Wrappers`: `Option` and `Result`.
- `Bytes`: little-endian encoding and 64-bit signed views.
- `ForwardHash`: the 64-byte flow-hash key buffer.
- `QueuePair`: `net::qp`.
- `Device`: `net::device`.
- `Log`: the logger's levels.
- `PrintSafe`: the hex and decimal printers.
- `RpcTypes`: stats, `client_info`, `cancellable` and `snd_buf`.
- `RpcFrames`: all byte layouts.
- `RpcConnection`: connection, client, server and negotiation logic.

## Model

| member | source | states |
|---|---|---|
| Bytes.FromLEOfLE | rpc/rpc_impl.hh:386-389 | reading back a value written little-endian in `w` bytes gives the value, for every value below 256^w |
| Bytes.LEOfFromLE | rpc/rpc_impl.hh:876-881 | every byte string is the little-endian encoding of the number it is read as, so the header decoder loses no information |
| Bytes.LEInjective | rpc/rpc_impl.hh:386-389 | two different values below 256^w never produce the same little-endian bytes |
| Bytes.LEConcat | rpc/rpc_impl.hh:386-389 | the encoding of a wide value is the encoding of its low part followed by the encoding of its high part, which is how adjacent header fields line up |
| Bytes.SignedRoundTrip | rpc/rpc_impl.hh:388 | a signed 64-bit message id written as its two's complement and read back as `int64_t` is unchanged, negative ids included |
| Bytes.Neg64 | rpc/rpc_impl.hh:443 | negating a message id stays in the 64-bit range and is the arithmetic negation; at the minimum, where C++ leaves the result undefined, the model picks the two's-complement wrap, the minimum itself |
| Bytes.Abs64 | rpc/rpc_impl.hh:1072 | `std::abs` of an id other than the minimum is non-negative and is either the id or its negation; the minimum maps to itself, the two's-complement choice for a case C++ leaves undefined |
| ForwardHash.Empty | net/net.hh:26-29 | a new key buffer holds no bytes and is within capacity |
| ForwardHash.PushByte | net/net.hh:33-36 | appending a byte succeeds exactly when fewer than 64 bytes are held; it then adds that byte at the end and keeps every earlier byte |
| ForwardHash.Push16 | net/net.hh:37-40 | a 16-bit value goes in as its two little-endian bytes, and the push succeeds exactly when both fit |
| ForwardHash.Halves | net/net.hh:41-44 | the little-endian bytes of a 32-bit value are those of its low half followed by those of its high half |
| ForwardHash.Push32 | net/net.hh:41-44 | a 32-bit value goes in as two 16-bit halves, low half first, and the push succeeds exactly when all four bytes fit |
| ForwardHash.Push32ReadBack | net/net.hh:41-47 | after pushing a 32-bit value, reading its four bytes back in little-endian order gives the value |
| ForwardHash.FullIsFatal | net/net.hh:33-36 | pushing into a full buffer is the fatal capacity error |
| QueuePair.NewQp | net/net.hh:117-128 | a fresh queue pair is well formed, with an empty transmit queue, no providers and no proxies, so it does not forward |
| QueuePair.UpdateRxCount | net/net.hh:131-134 | the last receive bunch becomes `count`, the receive total grows by `count`, dropping 2^64 when the 64-bit sum overflows, and nothing else changes |
| QueuePair.RegisterPacketProvider | net/net.hh:193-195 | the provider joins the end of the provider list, nothing else changes, and well-formedness is kept |
| QueuePair.AddProxy | net/net.hh:177-189 | the first proxy also registers the drain of the proxy inbox as a provider and later ones do not; the cpu is appended; afterwards the queue may forward |
| QueuePair.ProxySend | net/net.hh:190-192 | a forwarded packet joins the back of the proxy inbox and nothing else changes |
| QueuePair.Poll | net/net.hh:202-204 | one provider call leaves the transmit queue alone, and yields nothing exactly when that provider has nothing |
| QueuePair.PollYieldsHead | net/net.hh:179-186 | what a provider yields is the head of what it held, and the rest stays in order |
| QueuePair.PollDrains | net/net.hh:202-204 | a provider call only takes packets from the front of that provider |
| QueuePair.PollConserves | net/net.hh:202-206 | a yielded packet leaves the pool of packets still available, and no other packet does |
| QueuePair.RoundFrom | net/net.hh:202-211 | a round grows the queue by exactly the number of packets it reports, never past 128, and changes nothing when no provider yields |
| QueuePair.RoundOrder | net/net.hh:202-211 | with at most one drain provider, a round appends the next packet of every provider that has one, in registration order, cut off where the queue reaches 128 |
| QueuePair.RoundDrains | net/net.hh:200-212 | a round only moves packets from provider fronts to the back of the transmit queue |
| QueuePair.RoundIdle | net/net.hh:200-212 | a round with no work happens only when every provider is empty |
| QueuePair.RoundConserves | net/net.hh:200-212 | a round loses and duplicates no packet: the queue plus what remains available is the same multiset as before |
| QueuePair.RefillLoop | net/net.hh:200-212 | the refill loop never shrinks the queue and never takes it past 128 |
| QueuePair.RefillLoopSpec | net/net.hh:200-212 | the refill loop only moves packets, loses none, and stops only when the queue holds 128 packets or nothing is left to take |
| QueuePair.Refill | net/net.hh:197-214 | a queue holding 16 or more packets is not refilled; a shorter one is filled from the providers without losing packets, until it is full or they are empty |
| QueuePair.RefillAmount | net/net.hh:197-214 | a refill from below 16 ends with everything that was available queued, capped at 128 |
| QueuePair.DefaultBatchSend | net/net.hh:166-174 | the batch send hands over every queued packet in queue order, leaves the queue empty, and returns the count truncated to 32 bits, which is the count itself below 2^32 |
| QueuePair.PollTx | net/net.hh:196-222 | `poll_tx` reports work exactly when the refilled queue is non-empty; the batch is that queue in order; the last-bunch and sent counters are updated with their wrap-around; otherwise only the refill happens |
| QueuePair.PollTxKeepsWf | net/net.hh:196-222 | a transmit cycle keeps the queue pair well formed: counters in range, queue within the cap, drain provider registered exactly when there are proxies |
| QueuePair.SingleProviderCycle | net/net.hh:196-222 | with one provider holding n packets and an empty queue, one cycle sends the first min(n, 128) packets in order and the rest stay with the provider |
| QueuePair.SingleProviderOrder | net/net.hh:200-212 | with one source, the packets a refill queues are exactly a prefix of what the source held, and the source keeps the rest |
| QueuePair.SingleSourceRefill | net/net.hh:200-212 | during a single-source refill, the queue is always the earlier packets followed by a prefix of the source, in order |
| QueuePair.ProxyDrainFifo | net/net.hh:179-192 | the proxy inbox is first-in first-out: the drain yields the oldest forwarded packet |
| QueuePair.RunRound | net/net.hh:202-211 | the imperative provider loop computes exactly one refill round |
| QueuePair.RunRefill | net/net.hh:197-214 | the imperative do-while loop computes the refill step |
| QueuePair.RunBatchSend | net/net.hh:166-174 | the pop-front loop of the batch send computes the batch send |
| QueuePair.PollTxLoop | net/net.hh:196-222 | the imperative `poll_tx` computes the transmit cycle |
| Device.NewDevice | net/net.hh:231-233 | a new device has one empty slot per cpu, no RSS bits and one hardware queue |
| Device.QueueForCpu | net/net.hh:235 | returns the queue pair installed for the cpu |
| Device.SetLocalQueue | net/net.hh:251-255 | installing succeeds exactly when the cpu's slot is empty; it fills only that slot, and installing twice is an error |
| Device.SetLocalQueueOnce | net/net.hh:252 | a second installation on the same cpu is refused |
| Device.Hash2Qid | net/net.hh:248-250 | the queue chosen for a hash is below the hardware queue count |
| Device.Hash2QidPeriodic | net/net.hh:248-250 | hashes that differ by a multiple of the queue count go to the same queue |
| Device.Hash2QidOnto | net/net.hh:248-250 | every hardware queue is chosen by some hash |
| Device.Shift | net/net.hh:262 | shifting right never increases the hash |
| Device.ShiftBlock | net/net.hh:262 | shifting by the RSS bits discards exactly the low bits and keeps the block number |
| Device.ForwardDst | net/net.hh:256-265 | the destination is the source cpu or one of its proxies, and always the source when there are no proxies |
| Device.ForwardDstByBlock | net/net.hh:256-265 | the low RSS bits play no part: block k goes to the source when k is a multiple of one more than the proxy count, otherwise to proxy number k modulo that count |
| Device.ForwardDstReachesAll | net/net.hh:256-265 | the source and every proxy are each chosen by some hash |
| Device.Hash2Cpu | net/net.hh:266-270 | the cpu for a hash is its hardware queue's cpu or one of that cpu's proxies |
| Device.Hash2CpuNoProxies | net/net.hh:266-270 | without proxies the cpu is the hash modulo the queue count |
| Log.Rank | util/log.hh:43-49 | the five levels take the enumerator values in declaration order: error 0, warn 1, info 2, debug 3, trace 4, so rank grows with verbosity |
| Log.RankInjective | util/log.hh:43-49 | different levels have different ranks |
| Log.AtMostTotal | util/log.hh:40-49 | the level order is total and antisymmetric |
| Log.NewLogger | util/log.hh:80-81 | a new logger keeps its name and starts at info: error, warn and info are enabled, debug and trace are not |
| Log.Level | util/log.hh:189-191 | the current level is enabled, and a level is enabled exactly when it is at most the current one |
| Log.SetLevel | util/log.hh:195-197 | after setting a level, exactly the levels at most that one are enabled |
| Log.EnabledDownwardClosed | util/log.hh:40-41 | if a level is enabled, so is every less verbose level |
| Log.ErrorAlwaysEnabled | util/log.hh:110-112 | error is enabled whatever the logger's level |
| Log.LogCall | util/log.hh:119-178 | a message below the threshold is skipped; an enabled one is emitted with its level and text, or reported as a failure to log when formatting throws; the `error` to `trace` shorthands are this call at a fixed level |
| Log.Emit | util/log.hh:119-129 | a sequence of log calls emits at most one line per call |
| Log.EmitOnlyEnabled | util/log.hh:119-129 | every emitted line has an enabled level |
| Log.EmitAllWhenTrace | util/log.hh:119-129 | at trace level every call that formats is emitted, in order, with its own level and text |
| PrintSafe.HexValue | util/print_safe.hh:65 | a hex digit's value is below 16 and indexes that digit in the digit table |
| PrintSafe.Hex | util/print_safe.hh:58-74 | the zero-padded hex rendering has exactly the requested width, all of it hex digits |
| PrintSafe.ParseHex | util/print_safe.hh:58-74 | reading w hex digits gives a value below 16^w |
| PrintSafe.ParseHexOfHex | util/print_safe.hh:58-74 | reading a padded rendering back gives the number whenever it fits the width |
| PrintSafe.HexOfParseHex | util/print_safe.hh:58-74 | every string of hex digits is the padded rendering of the value it denotes |
| PrintSafe.HexOfZero | util/print_safe.hh:67 | zero renders as all `'0'` characters, which is the buffer's initial fill |
| PrintSafe.Pow16Bytes | util/print_safe.hh:66 | 2 hex digits per byte cover exactly the range of the integral type |
| PrintSafe.PrintZeroPaddedHex | util/print_safe.hh:58-74 | the printer emits exactly `2 * sizeof(n)` characters, and they read back as n |
| PrintSafe.WriteHexDigits | util/print_safe.hh:67-72 | the digit loop leaves zero padding in front of the digits it wrote, and together they are the padded rendering |
| PrintSafe.HexExample | util/print_safe.hh:59 | a 16-bit 12 prints as `000c` |
| PrintSafe.Dec | util/print_safe.hh:76-90 | the decimal rendering is non-empty, all digits, and starts with `'0'` only for zero |
| PrintSafe.ParseDecOfDec | util/print_safe.hh:76-90 | the decimal rendering reads back as the number |
| PrintSafe.DecOfParseDec | util/print_safe.hh:76-90 | every digit string without a leading zero, or `0` itself, is the rendering of the value it denotes |
| PrintSafe.CanonicalDecOfDec | util/print_safe.hh:76-90 | renderings never carry leading zeros |
| PrintSafe.Pow256BelowPow10 | util/print_safe.hh:83 | three decimal digits per byte are enough for every value of the type, so the buffer never overflows |
| PrintSafe.PrintDecimal | util/print_safe.hh:76-90 | the printer emits the shortest decimal rendering of n |
| PrintSafe.DecStep | util/print_safe.hh:85-88 | one turn of the digit loop writes the last digit just before the part already written and divides by ten |
| PrintSafe.DecExample | util/print_safe.hh:77 | 12 prints as `12` |
| RpcTypes.ZeroStats | rpc/rpc_types.hh:40-48 | every counter of new statistics is zero |
| RpcTypes.Inc | rpc/rpc_types.hh:40-48 | a 64-bit counter increment adds one, wrapping to zero at 2^64 |
| RpcTypes.AttachAuxiliary | rpc/rpc_types.hh:55-57 | attaching keeps an existing value under the key and adds the object only for a new key; no other entry changes |
| RpcTypes.RetrieveAuxiliary | rpc/rpc_types.hh:59-63 | retrieving gives the value stored under the key |
| RpcTypes.AttachThenRetrieve | rpc/rpc_types.hh:55-63 | after any number of attachments under one key, retrieval gives the first object attached |
| RpcTypes.AttachAllKeeps | rpc/rpc_types.hh:55-57 | once a key is present, later attachments leave its value alone |
| RpcTypes.Cancel | rpc/rpc_types.hh:148-155 | cancel withdraws the queued send and abandons the reply wait, each exactly when it is armed and the send first; nothing happens when neither is armed |
| RpcTypes.ChunksCover | rpc/rpc.cc:8-20 | the chunks of a large buffer together hold exactly `size` bytes |
| RpcTypes.ChunksShape | rpc/rpc.cc:8-20 | every chunk holds between 1 and 128 KiB bytes, and all but the last are full |
| RpcTypes.ChunksCount | rpc/rpc.cc:8-20 | a buffer is split into ceil(size / 128 KiB) chunks |
| RpcTypes.NewSndBuf | rpc/rpc.cc:8-20 | the size is kept as a 32-bit value; a size up to one chunk is one buffer and a larger one is a chunk vector |
| RpcTypes.AllocateChunks | rpc/rpc.cc:11-17 | the allocation loop builds exactly the chunk vector |
| RpcTypes.NewSndBufContents | rpc/rpc.cc:8-20 | a new send buffer holds `size` bytes |
| RpcTypes.SndBufOf | rpc/rpc_types.hh:169-178 | a buffer made from given bytes holds exactly those bytes; the 32-bit size field keeps their count modulo 2^32, so it is the byte count, and the buffer well-formed, exactly when the count fits |
| RpcTypes.Front | rpc/rpc.cc:22-29 | the front buffer is a prefix of the whole contents |
| RpcTypes.NewSndBufFront | rpc/rpc.cc:22-29 | the front of a new buffer holds at least min(size, 128 KiB) bytes, so header writes fit |
| RpcTypes.WriteAt | rpc/rpc_impl.hh:386-389 | writing at an offset replaces exactly those bytes and keeps the rest |
| RpcTypes.WriteFrontFlat | rpc/rpc.hh:200 | a write into the front buffer is a write at the same offset into the whole contents |
| RpcTypes.TrimFront | rpc/rpc.hh:201-204 | trimming the front shrinks the size by the trimmed count |
| RpcTypes.TrimFrontFlat | rpc/rpc.hh:201-204 | trimming k bytes of the front drops exactly the first k bytes of the contents |
| RpcFrames.Lookup | rpc/rpc.hh:98 | a feature is present exactly when some record has its id, and the result is that record's data |
| RpcFrames.Emplace | rpc/rpc_impl.hh:717 | `emplace` keeps the map sorted, adds only the given record, and leaves a map that already has the id unchanged |
| RpcFrames.EmplaceLookup | rpc/rpc_impl.hh:717 | after `emplace` the id maps to its old data if it had one, otherwise to the new data, and other ids are unaffected |
| RpcFrames.Assign | rpc/rpc_impl.hh:828-851 | assignment keeps the map sorted and introduces only the given record |
| RpcFrames.AssignLookup | rpc/rpc_impl.hh:828-851 | after assignment the id maps to the new data and other ids are unaffected |
| RpcFrames.EmplaceAbove | rpc/rpc_impl.hh:703-718 | emplacing an id above all present ones appends it, which is how an ordered frame is rebuilt |
| RpcFrames.EncodeNegotiation | rpc/rpc_impl.hh:657-677 | the frame is the 8-byte magic and 4-byte length followed by the records, 12 bytes plus the record bytes in all |
| RpcFrames.ReceiveNegotiation | rpc/rpc_impl.hh:682-722 | every failure is `closed_error`; a success needs at least the 12-byte header with the right magic |
| RpcFrames.ParseRecords | rpc/rpc_impl.hh:703-718 | an empty record list gives the map built so far; a front of fewer than 8 bytes, or a record whose length runs past the end, fails with `closed_error`; every failure is `closed_error` |
| RpcFrames.MalformedAfterRecords | rpc/rpc_impl.hh:703-718 | a partial record header or an overrunning length is refused after any number of well-formed records |
| RpcFrames.NegotiationRejectsMalformed | rpc/rpc_impl.hh:682-722 | a negotiation frame with the right magic and length whose record list ends in a malformed record is refused with `closed_error` |
| RpcFrames.ParseRecordsStep | rpc/rpc_impl.hh:703-718 | parsing a record emplaces it and continues with the rest |
| RpcFrames.ParseRecordsOfEncode | rpc/rpc_impl.hh:703-718 | encoded records with increasing ids parse back to the same records, in order |
| RpcFrames.NegotiationRoundTrip | rpc/rpc_impl.hh:657-722 | a negotiation frame sent for a valid feature map is received as exactly that map, and the rest of the stream is untouched |
| RpcFrames.NegotiationRejectsMagic | rpc/rpc_impl.hh:690-693 | a frame with the wrong magic is refused with `closed_error` |
| RpcFrames.NegotiationRejectsTruncated | rpc/rpc_impl.hh:646-654 | any proper prefix of a negotiation frame is refused |
| RpcFrames.RecordOverrunRejected | rpc/rpc_impl.hh:710-713 | a record announcing more data than remains is refused with `closed_error` |
| RpcFrames.DuplicateRecordIgnored | rpc/rpc_impl.hh:717 | when a feature repeats, the first record wins |
| RpcFrames.DecodeHeader | rpc/rpc_impl.hh:876-881 | a request header of 20 bytes, or 28 with the expiry, decodes to verb, id and length, with the expiry present exactly in the 28-byte layout; a response header has id and length |
| RpcFrames.ReadFrame | rpc/rpc_impl.hh:761-785 | a frame is read exactly when the header and the whole announced payload are there; the payload is the announced bytes and the rest of the stream follows; an empty stream is end of stream |
| RpcFrames.ReadFrameCompressed | rpc/rpc_impl.hh:790-824 | with a compressor, a 32-bit length and that many bytes are read, decompressed and read as a frame; without one this is the plain read |
| RpcFrames.CompressFrame | rpc/rpc.hh:146-154 | with a compressor, the compressed bytes go out behind their 32-bit length; without one, the frame is unchanged |
| RpcFrames.RequestBody | rpc/rpc_impl.hh:383-389 | a queued request has a 28-byte header in front of the payload |
| RpcFrames.FixupRequest | rpc/rpc.hh:192-204 | with timeouts negotiated the first 8 bytes carry the milliseconds left; otherwise they are cut off |
| RpcFrames.RequestRoundTrip | rpc/rpc_impl.hh:905-921 | a request as the send loop writes it, compressed or not, is read by the server with its expiry (only when negotiated), verb, id and payload, and the rest of the stream is untouched |
| RpcFrames.RequestHeaderRoundTrip | rpc/rpc_impl.hh:863-888 | the fixed-up request bytes read as a frame carrying exactly the sent fields and payload |
| RpcFrames.DecodeRequestHeader | rpc/rpc_impl.hh:876-881 | header bytes laid out field by field decode to those fields |
| RpcFrames.ResponseBody | rpc/rpc_impl.hh:417-423 | a queued response has a 12-byte header in front of the payload |
| RpcFrames.ResponseRoundTrip | rpc/rpc_impl.hh:1007-1031 | a response, compressed or not, is read by the client with its id and payload, and the rest of the stream is untouched |
| RpcFrames.ResponseHeaderRoundTrip | rpc/rpc_impl.hh:1020-1024 | the 12-byte response header reads back as the id, negative ids included, and the payload length |
| RpcFrames.CStr | rpc/rpc_impl.hh:434 | the C string is the prefix up to, but not including, the first NUL |
| RpcFrames.UserExceptionPayload | rpc/rpc_impl.hh:433-444 | a USER exception takes 8 bytes plus the message |
| RpcFrames.UnknownVerbPayload | rpc/rpc_impl.hh:964-979 | an UNKNOWN_VERB exception takes 16 bytes |
| RpcFrames.UnmarshalException | rpc/rpc_impl.hh:264-292 | a payload under 8 bytes is an underflow; USER gives a `std::runtime_error` with the announced message, and succeeds exactly when the message fits; UNKNOWN_VERB gives `unknown_verb_error` with the 64-bit verb, and succeeds exactly when those 8 bytes are present; any other type gives `unknown_exception_error`; every failure is an underflow |
| RpcFrames.UserExceptionRoundTrip | rpc/rpc_impl.hh:264-292 | a USER exception built by the server unmarshals to the same message |
| RpcFrames.UnknownVerbRoundTrip | rpc/rpc_impl.hh:264-292 | an UNKNOWN_VERB exception unmarshals to the same verb |
| RpcConnection.FactoryNegotiate | rpc/lz4_compressor.hh:37-39 | a compressor is created exactly when the peer's feature string equals the factory's advertised name, as the LZ4 factory decides |
| RpcConnection.ServerNegotiateSpec | rpc/rpc_impl.hh:828-851 | the reply names the compressor when the client asked for compression and a factory exists, and has an empty timeout record when the client asked for timeouts; it has nothing else; compression is on exactly when the names match |
| RpcConnection.ClientNegotiateFromSpec | rpc/rpc_impl.hh:925-944 | the client turns timeouts on exactly when the reply has the timeout record, and compression on exactly when the reply's name matches its factory |
| RpcConnection.ClientFeatures | rpc/rpc_impl.hh:1059-1065 | the client offers its compressor's name when it has a factory, and an empty timeout record when it sends timeout data |
| RpcConnection.NegotiationAgreement | rpc/rpc_impl.hh:828-944 | after the exchange both ends agree: timeouts are on exactly when the client sends timeout data, and compression is on at both ends exactly when both have factories with the same name |
| RpcConnection.NegotiationOverTheWire | rpc/rpc_impl.hh:657-722 | both negotiation frames of the exchange survive the wire unchanged |
| RpcConnection.SendNegotiationFrame | rpc/rpc.hh:245-251 | sending the negotiation frame appends to the wire, counts one sent message and changes nothing else |
| RpcConnection.NegotiationFrameReadBack | rpc/rpc.hh:245-251 | the bytes the negotiation send writes are read back by the peer as exactly the feature map sent |
| RpcConnection.ReplyShape | rpc/rpc_impl.hh:828-851 | the server's reply is a valid feature map that fits one frame |
| RpcConnection.NewConnection | rpc/rpc.hh:109-144 | a new connection has zero statistics, no error and an empty queue |
| RpcConnection.SetSocket | rpc/rpc.hh:236-244 | attaching a socket fails exactly when the connection is already connected, and otherwise only marks it connected |
| RpcConnection.Send | rpc/rpc.hh:254-275 | a failed connection refuses with `closed_error`; otherwise the buffer joins the back of the queue under a fresh tag and nothing else changes |
| RpcConnection.RemoveTag | rpc/rpc.hh:257-259 | removal keeps only entries with other tags, all of them from the queue |
| RpcConnection.RemoveTagKeepsOthers | rpc/rpc.hh:257-259 | withdrawing one entry removes exactly it and keeps the others in order |
| RpcConnection.RemoveTagNone | rpc/rpc.hh:257-259 | withdrawing an entry no longer queued changes nothing |
| RpcConnection.ServerStats | rpc/rpc.hh:311-315 | the server's pending count is the length of the outgoing queue |
| RpcConnection.SendLoopStep | rpc/rpc.hh:176-219 | one turn of the send loop takes the front entry off the queue, writes it fixed up and possibly compressed, and counts it in `sent_messages` |
| RpcConnection.NewClient | rpc/rpc.hh:380 | a new client starts its message ids at 1, with nobody waiting for a reply, so every waiting id is below the next one to be handed out |
| RpcConnection.ClientStats | rpc/rpc.hh:448-453 | the client reports its queue length as pending and its outstanding map size as waiting for a reply |
| RpcConnection.NextMessageId | rpc/rpc.hh:458 | the next id is the current counter, and the counter advances by one |
| RpcConnection.TakeIdsAscending | rpc/rpc.hh:458 | successive calls hand out consecutive ids, so no id repeats |
| RpcConnection.WaitForReply | rpc/rpc.hh:459-473 | the handler is registered under its id unless one is already there |
| RpcConnection.WaitTimedOut | rpc/rpc.hh:474-478 | a timed-out wait forgets the handler, counts a timeout and notifies the handler with `timeout_error`; nothing else in the client changes, and waiting ids stay below the next id |
| RpcConnection.CancelWait | rpc/rpc.hh:403-410 | a cancelled wait forgets the handler and notifies it with `canceled_error`; waiting ids stay below the next id |
| RpcConnection.CancelCall | rpc/rpc_types.hh:148-155 | cancelling withdraws the queued request when its send is armed and abandons the wait when its wait is armed |
| RpcConnection.SendRequest | rpc/rpc_impl.hh:376-396 | a client whose connection failed refuses with `closed_error` and uses no id; otherwise the request takes the next id, is queued with its 28-byte header, and nothing else in the connection changes; when every waiting id is below the next id, the new id is not already waited on, so the handler is registered under it, and that freshness is kept |
| RpcConnection.DispatchResponse | rpc/rpc_impl.hh:1070-1096 | a missing frame fails the connection; a response nobody waits for under the absolute id is ignored; otherwise that handler is removed and nothing else in the client changes except: a reply is delivered and counted in `replied`; an exception is counted in `exception_received` and delivered as the decoded error, or, when it does not decode, fails the connection and leaves the handler without a value |
| RpcConnection.DispatchOnce | rpc/rpc_impl.hh:1070-1096 | a reply reaches its waiting handler exactly once and counts in `replied`; a second response with the same id is ignored |
| RpcConnection.DispatchError | rpc/rpc_impl.hh:1070-1096 | an error reply under the negated id reaches the handler waiting under the positive id with the server's message, and counts in `exception_received` |
| RpcConnection.RegisterReceiver | rpc/rpc.hh:537-539 | registering keeps an existing handler for the verb and adds a new one otherwise |
| RpcConnection.UnregisterHandler | rpc/rpc.hh:509-511 | unregistering removes only that verb |
| RpcConnection.RegisterUnregister | rpc/rpc.hh:509-539 | registering a new verb and unregistering it restores the table |
| RpcConnection.RouteRequest | rpc/rpc_impl.hh:955-975 | a registered verb goes to its handler with the id and payload; an unknown verb is answered with UNKNOWN_VERB under the negated id; either way the request carries the expiry as its deadline exactly when a non-zero expiry came |
| RpcConnection.ServeRequest | rpc/rpc_impl.hh:950-983 | one turn of the server's read loop: a missing frame fails the connection; a registered verb leaves the connection to the handler; an unknown verb queues the UNKNOWN_VERB response under the negated id with the request's deadline |
| RpcConnection.Respond | rpc/rpc_impl.hh:417-423 | a response is queued with its 12-byte header under the given id and with the request's deadline, taking the next tag; a failed connection queues nothing |
| RpcConnection.Reply | rpc/rpc_impl.hh:426-451 | on a healthy connection the result is queued under the id, or a USER exception under the negated id, with the request's deadline, and nothing else but the tag counter changes; on a failed connection nothing is queued |
| RpcConnection.ReplyReachesCaller | rpc/rpc_impl.hh:426-451 | a handler's result, sent by the server's send loop and read back by the client, reaches the handler waiting under the call's id as the value, or as a `std::runtime_error` with the exception's message |
| RpcConnection.UnknownVerbReachesCaller | rpc/rpc_impl.hh:964-979 | a call of an unknown verb comes back through the wire to the caller's handler as `unknown_verb_error` with that verb |
| RpcConnection.DefaultLimits | rpc/rpc.hh:65-69 | default limits have no basic size and a bloat factor of one |
| RpcConnection.EstimateRequestSize | rpc/rpc.hh:81-85 | the estimate is the basic size plus the serialized size times the bloat factor, as a 64-bit value |
| RpcConnection.DefaultEstimate | rpc/rpc.hh:81-85 | under the defaults the estimate is the serialized size |
| RpcConnection.EstimateMonotone | rpc/rpc.hh:81-85 | a larger message never gets a smaller estimate, as long as the larger estimate does not overflow 64 bits |

## Left out

- `l3_protocol`, `interface::dispatch_packet`, `interface::register_l3` and `interface::register_packet_provider` (net/net.hh:67-113): these are the protocol-demultiplexing layer above the queue pair, which is out of scope. Its provider registration reaches the queue pair through `QueuePair.RegisterPacketProvider`.
- The hardware `qp::send(packet)` of each driver, `rx_start`, the receive stream and `l2receive`: these are driver code. A packet is an opaque id and the batch send hands it over. Drivers that override the batch send are not modelled. `hash2qid` is virtual too (net/net.hh:248-250): only the base rule, the hash modulo the hardware queue count, is modelled, and driver overrides are not.
- The scollectd and metrics registrations of the queue pair and of the RPC statistics: they are reporting only.
- Futures, continuations, timers, condition variables and the `do_until` loops: a loop turn is one function application. Timer expiry and cancellation are explicit calls (`WaitTimedOut`, `CancelWait`, `Withdraw`).
- Clock arithmetic: the milliseconds left to a deadline are the parameter `left` of `SendLoopStep`.
- The LZ4 compression itself and the `compressor` interface (rpc/rpc_types.hh:190-207); factories follow the LZ4 factory's rule of accepting exactly their own name: a compressor is the `Codec` pair of functions. The round trips assume decompression inverts compression.
- Serializers, `marshall` and `unmarshall` of arguments: payloads are byte sequences.
- Handler invocation, `wait_for_resources` and its semaphore, `stop`, `stop_send_loop`, `_write_side_closed`, and logging of protocol errors: these are concurrency and shutdown behaviour.
- The `write` system call loop of `print_safe(str, len)`: the printers return the characters they would write.
- The logger's format strings, its output sinks and its registry: a formatted message is an `Option<string>`, with `None` when formatting throws.
- `rcv_buf` as a type: a received payload is a byte sequence whose size is its length.
- `read_rcv_buf` reassembling a payload from several partial reads: the stream is the bytes available, so a short stream is a truncated frame.
- `ForwardHash.At`: reading past the end of the key buffer is excluded by a precondition instead of modelled.
- `RpcFrames.EncodeNegotiation`: requires the records to fit the 32-bit length field. The source does not check this.
- `Device.ForwardDst`: requires fewer than 32 RSS bits, because a larger shift of the 32-bit hash is undefined in C++.
- `RpcTypes.NewSndBufContents`: states the contents only for sizes below 2^32. For larger sizes, `NewSndBuf` keeps the truncated 32-bit size, as the source's field does.
- `RpcConnection.NextMessageId`: requires the counter below the int64 maximum. Id overflow is not modelled.
- `RpcFrames.RequestBody`: the eight leading expiry bytes, which the sender leaves uninitialised, are zeros in the model.
- `RpcTypes.NewSndBuf`: freshly allocated chunks are zeros in the model. Their contents are unspecified in the source.
- `QueuePair.Provider`: an upper-layer packet provider is an arbitrary function returning an optional packet. The model makes it a fixed queue of pending packets, so a provider that returns nothing and later returns a packet again is not modelled.
- `RpcTypes.RetrieveAuxiliary`: requires the key to be present, as the source asserts. The `boost::any_cast` type check, which throws on a mismatch, is not modelled, because the model stores untyped values.
- `RpcFrames.DecodeHeader`: the verb is reduced modulo 2^32, because the message type is the default `uint32_t` (rpc/rpc.hh:107). Other instantiations of the message type are not modelled.
- `RpcConnection.DispatchResponse`: after the read loop ends, the client's teardown (rpc/rpc_impl.hh:1098-1108) stops the send loop and clears the outstanding handlers, which then fail with `closed_error`. That teardown is not modelled.
- `RpcConnection.DispatchResponse`: an exception response for an id nobody waits for is only logged in the source, so the model ignores it.
- `RpcConnection.ServeRequest`: the UNKNOWN_VERB response is queued at once. The source first waits for 28 bytes of resources and drops the response when the reply gate is already closed at shutdown; neither is modelled. The server's teardown after its read loop (rpc/rpc_impl.hh:985-993) is not modelled either.
- `RpcConnection.Respond`: the request's deadline travels as a flag on the queued frame. The absolute time point, `now()` plus the expiry, is clock arithmetic and is left out.
- `RpcConnection.EstimateMonotone`: holds only while the larger estimate stays below 2^64. Past that the 64-bit sum wraps, so a larger message can get a smaller estimate, as in the source.
