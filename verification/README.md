# p2p-clipboard: a verified model

p2p-clipboard keeps the clipboards of several machines in step without a server. This project models
the parts of it that carry state or hand-written encodings, in the form the program gives them
(classes whose methods change fields, loops over buffers), and proves what those parts are for.

| files | what they model |
|---|---|
| `Bytes`, `Utf8`, `Addresses` | fixed-width integers and their byte orders; the UTF-8 check and lossy decoding; peer ids and multiaddresses |
| `ClipboardContent`, `Chunking` | the contents, the network messages, their bincode 1 bytes; splitting into chunks |
| `Reassembly`, `Transfers`, `Acceptance` | the receiver's table of transfers, over any trace of messages, clock readings and sweeps |
| `EventLoop`, `EndToEnd` | the network task's loop as sender and receiver, and several of them together |
| `Legacy` | which buffers of older peers are taken for what |
| `DnsWire`, `DnsEncoder`, `MdnsPeer`, `PrintedForm`, `MdnsRoundTrip` | a parser for RFC 1035 section 4.1 messages, the mDNS encoder, the consumer of responses, a text form of addresses that parses back |
| `Discovery`, `DiscoveryRuns`, `Interface` | the mDNS behaviour's table and event queue; one interface's polling task |
| `Connections`, `ConnectionRuns` | the endpoint cache and the retry scheduler, event by event and over whole runs |
| `Echo` | the clipboard reader and writer with the deduplication state |
| `HDrop` | the CF_HDROP buffer |

How the model is built:

- A component that changes state is a class. Each method's contract equates the new state with a
  function of the old one (or with that function of a ghost `history` which `Valid()` ties to every
  field); the lemmas are about that function and its runs.
- SHA-256, the two `DefaultHasher` hashes, UUIDs, the random peer name, clocks, the printed form of
  multiaddresses and everything the network, the file system or the clipboard decides are parameters.
  Nothing is assumed of a hash: where collision-freedom would be needed, the conclusion is "equal, or
  these two byte strings collide".
- Strings are their UTF-8 bytes. `usize` is 64 bits wide. A `Representable` content is one whose strings
  are UTF-8 and whose lengths fit 64 bits, which every value of the program is. `CountFits` says that
  the 32-bit chunk count does not wrap (contents of under about 6.4 petabytes).

Where the code does not do what its comments or design suggest, the model follows the code and the
exact condition is proved:

- Once a ChunkEnd's count matches, the receiver reserves the size its ChunkStart announced. A size the machine does
  not grant (never more than `isize::MAX`) ends the program. `SurvivesIffNoneFatal` says exactly when;
  `TwoMessagesAreFatalIff` shows how little it takes; `SendersAreSurvived` that no sender of this program does it.
- `MAX_TXT_RECORD_SIZE` is documented as a conservative maximum and is not one: `RecordSize`,
  `FullRecordsOverflow`. `PacketsFitIff` and `AnnouncementFitsIff` say when packets fit.
- The receive buffer holds 4096 bytes and the encoder fills packets to more: `AllAddressesThroughBufferIff`.
- The comment on the split says data smaller than the chunk size is sent whole; so is data of exactly that size.
- A TXT value with a space does not come back as sent, because its length is taken before quoting:
  `TxtDataIffNoSpace`. As a rule it takes its whole packet with it: `PacketBack`, `SpacedDataIsBroken`,
  `OneSpacedPathLosesBoth`.
- A bare file, file list or very long text of an older peer can be taken for a network message:
  `BareFileIsLegacyIff`, `BareFilesIsLegacyIff`, `BareTextIsLegacyIff`.
- A received image is recorded under the hash of its PNG bytes and compared under the hash of its pixels:
  `ImageEchoesIff`, `ImagesStorm`.
- A paths list with an empty path or one holding a null does not come back: `HDrop.RoundTrip`.

## Model

| member | source | states |
|---|---|---|
| Utf8.LossyIsValid | src/network.rs:332-335 | lossy decoding always yields valid UTF-8, and leaves its input unchanged exactly when that was valid |
| Utf8.ValidIffEncoded | src/network.rs:332-335 | a buffer is taken for UTF-8 exactly when it is the UTF-8 form of some series of Unicode scalar values |
| Utf8.CharIffEncoded | src/network.rs:332-335 | the scanner takes n bytes for a character exactly when they are the UTF-8 form of a scalar value |
| Utf8.BrokenIsMaximal | src/network.rs:332-335 | a broken piece is the longest beginning of a character that stands there, or one byte, and no character stands there |
| Utf8.LossyKeepsValid | src/network.rs:332-335 | lossy decoding leaves a valid beginning as it is and goes on behind it |
| Utf8.LossyReplacesBroken | src/network.rs:332-335 | and puts one U+FFFD in place of each broken piece |
| ClipboardContent.ContentRoundTrip | src/clipboard_content.rs:62-68 | decoding an encoded content gives it back, whatever bytes trail it |
| ClipboardContent.MessageRoundTrip | src/clipboard_content.rs:93-99 | the same for network messages |
| ClipboardContent.ContentCanonical | src/clipboard_content.rs:67-69 | whatever decodes is that content's encoding followed by ignored bytes, and is a value the program can hold |
| ClipboardContent.EncodingIsInjective | src/clipboard_content.rs:62-64 | two contents with the same bytes are the same content |
| ClipboardContent.OfEachContent | src/clipboard_content.rs:62-64 | the tags, the order of the fields and their widths, on one content of each kind byte by byte |
| ClipboardContent.OfEachMessage | src/clipboard_content.rs:93-95 | the same for the messages |
| Chunking.SameHexSameBytesOrCollision | src/clipboard_content.rs:103-108 | equal printed hashes mean equal data or a collision of the hash function: printing loses nothing |
| Chunking.HexDigitsAre | src/clipboard_content.rs:103-108 | the printed hash is two lower-case hexadecimal digits a byte, the high one first |
| Chunking.SplitToNetworkMessages | src/clipboard_content.rs:113-145 | the loop emits exactly the messages of the specified split, counts cast to 32 bits as the code casts them |
| Chunking.PiecesJoin | src/clipboard_content.rs:125-137 | the pieces of a buffer put together are the buffer, for every number of leading pieces |
| Chunking.SentWholeIff | src/clipboard_content.rs:113-122 | a content goes out as one direct message if and only if it serialises to at most 1500000 bytes |
| Chunking.SplitArithmetic | src/clipboard_content.rs:113-145 | ceil(len / chunk size) chunks between one start and one end, numbered from 0, all full but a non-empty last one, joining to the serialised bytes |
| Chunking.SplitIsRepresentable | src/clipboard_content.rs:113-145 | every emitted message is one the receiver's decoder gives back |
| Chunking.MessageSizes | src/clipboard_content.rs:4-5 | no message serialises to more than the chunk size plus 60 bytes, below the transmit limit; a chunk to exactly its data plus 60 |
| Reassembly.Receiver.constructor | src/network.rs:369 | the table starts empty |
| Reassembly.Receiver.HandleIncomingMessage | src/network.rs:261-340 | the method moves the table and replies as the specification does on the classified buffer, every branch included, and the crash of a reservation the machine does not grant; what the specification gives for messages is settled by the rows of `Transfers` and `Acceptance`, for anything else by those of `Legacy` |
| Reassembly.Receiver.Finish | src/network.rs:293-319 | count test, reservation (a crash when the announced size is above what the machine grants, an arbitrary number of at most `isize::MAX`), gather loop, hash test and decoding, as one function of the stored state |
| Reassembly.Receiver.CleanupStaleChunkStates | src/network.rs:342-353 | exactly the transfers older than 120 seconds are gone, all others untouched |
| Reassembly.KeptForTwoMinutes | src/network.rs:342-353 | a sweep keeps a transfer, unchanged, if and only if at most 120 seconds have passed since its start |
| Reassembly.GatherExact | src/network.rs:294-302 | the gather loop succeeds exactly when every index is present |
| Reassembly.AcceptanceIsExact | src/network.rs:292-302 | count test and gather loop pass exactly when the received indices are 0..total-1; the one other case is all 2^32 indices stored under an announced count of 0 |
| Reassembly.NonInterference | src/network.rs:261-353 | over any trace the receiver survives, from any table, the state of a transfer and everything returned at its messages are those of the trace with all other transfers' messages removed, which it survives too |
| Reassembly.SurvivalIsPerTransfer | src/network.rs:261-353 | the receiver survives a trace if and only if it survives each transfer's own messages and the sweeps by themselves |
| Transfers.PublishedIsRead | src/network.rs:267-268 | bytes published for a message of a split are read as that message |
| Transfers.MessagesOf | src/clipboard_content.rs:113-145 | a chunked split is its start message, its chunks in order and its end message |
| Transfers.CompleteTransfer | src/network.rs:291-323 | a state holding all pieces of a content, with the size its split announces, yields that content if the machine grants its size, and crashes if not |
| Transfers.ReassemblyRoundTrip | src/network.rs:261-353 | the split's first message once and first, chunks in any order with any duplicates, its last message after them, anything else between: the content is returned there, nothing at the transfer's other messages, and no state is left, at every message the receiver lives to see |
| Transfers.OnlyOthersStopIt | src/network.rs:261-353 | such a trace is survived if and only if each other transfer by itself is: the transfer does no harm of its own |
| Acceptance.LedgerAlways | src/network.rs:273-353 | the table always is what the trace says: which transfers are in progress and since when, their latest start, the indices sent since, and the last-written chunk per index |
| Acceptance.AcceptedMatchesTrace | src/network.rs:291-323 | a returned content decodes from the last-written chunks since the latest start, all present, in order, matching the announced hash |
| Acceptance.AcceptedIsAuthentic | src/network.rs:303-312 | if the announced hash is the sender's, the returned content is the sender's whatever was dropped, reordered or altered, or the hash collides |
| Acceptance.SurvivesIffNoneFatal | src/network.rs:291-302 | from an empty table the receiver survives a trace if and only if no ChunkEnd in it meets a transfer in progress whose count matches the distinct indices sent since the latest start and whose announced size the machine does not grant |
| Acceptance.ModestStartsAreSurvived | src/network.rs:273-302 | a trace in which no start announces more than the machine grants is survived, whatever else is in it |
| Acceptance.TwoMessagesAreFatalIff | src/network.rs:291-294 | after any history a start announcing no chunks, and its end, are survived if and only if the machine grants the size announced |
| EventLoop.Loop.constructor | src/network.rs:369-371 | a loop starts with nothing pending, nothing stored |
| EventLoop.Loop.EnqueueLocal | src/network.rs:384-412 | the first message to publish and those pending are the copy's split, serialised, in order |
| EventLoop.Loop.TakeTurn | src/network.rs:374-698 | one iteration: sweep, then a pending chunk before any event, then publish; a turn over a minute ends the run without publishing, a crash ends it at once |
| EventLoop.PendingComesFirst | src/network.rs:374-413 | while chunks are pending a turn publishes the oldest of them and leaves the offered event waiting |
| EventLoop.CopyIsAccepted | src/network.rs:384-412 | with nothing pending a local copy is accepted: the first message of its split is published, the others are pending |
| EventLoop.GossipIsHandled | src/network.rs:415-429 | with nothing pending a buffer goes to the receiver after the sweep: what that returns is delivered, and its crash ends the run |
| EventLoop.OtherEventsPass | src/network.rs:430-698 | any other event leaves queues and deliveries as they are |
| EventLoop.EndedStays | src/network.rs:374-698 | a run that overran or crashed stays as it ended, whatever turns are offered after that |
| EventLoop.QueueIsConcatenation | src/network.rs:377-413 | at every loop head until the restart, published then pending is the concatenation of the splits of all accepted copies: transfers of one sender never interleave; after it a prefix has been published |
| EventLoop.PublishedIsPrefix | src/network.rs:687-697 | what was published is always a prefix of that concatenation, and all of it if the loop runs on with nothing pending |
| EventLoop.LoopFollowsTrace | src/network.rs:374-429 | the loop's deliveries and table are those of the receiver over the trace of its sweeps and messages, and it is dead exactly when the receiver did not survive them |
| EndToEnd.CopyAdvances | src/network.rs:261-340 | the next message of a copy in progress moves its transfer on, none of them crashes, and only the last returns the copy |
| EndToEnd.CaughtCopyIsSilent | src/network.rs:282-323 | the rest of a copy whose transfer a sweep dropped returns nothing and leaves nothing |
| EndToEnd.CursorMoves | src/network.rs:261-340 | the next message of a sender's own stream advances its place by one, and only the last of a copy that no sweep caught returns that copy |
| EndToEnd.CursorStays | src/network.rs:261-353 | another sender's message moves no sender's place, nor does a sweep, which may catch the transfer in progress |
| EndToEnd.SendersAreSurvived | src/network.rs:261-353 | nothing that senders' splits put on the wire crashes the receiver, lost, repeated or reordered as it may be, whenever the sweeps come |
| EndToEnd.DeliveredInOrder | src/network.rs:261-353 | with distinct ids and one sender's stream in its order, other senders' buffers lost, repeated, reordered or cut short: the contents returned for that sender are its copies wholly received that no sweep caught past the timeout, in order, each once |
| EndToEnd.EndToEnd | src/network.rs:374-698 | sending loops to receiving loop: the receiver never crashes and hands over exactly the copies of a sender whose messages all arrived and whose transfer no sweep caught past the timeout; with none caught and nothing missing from a sender that runs on, all it accepted |
| Legacy.BareIsGivenBackIff | src/network.rs:326-338 | for every content the program can hold: the receiver returns it for its bare bytes, whatever it has stored, and leaves its table alone, if and only if those bytes do not decode as a network message |
| Legacy.UndecodedIsGivenBackAsText | src/network.rs:326-338 | for a buffer that fails both decoders the receiver returns a text that is valid UTF-8, equal to the buffer if and only if that is, and leaves its table alone |
| Legacy.GivenBackIsDelivered | src/network.rs:326-338 | and what the receiver so returns is delivered, once, at the end of any trace it survives, with nothing else changed |
| Legacy.BareTextIsLegacyIff | src/network.rs:326-331 | the receiver returns a bare text of any length unchanged if and only if its bytes do not form a direct message, told from its length modulo 2^32, its first four bytes and what they make of the rest |
| Legacy.BareTextIsUnambiguous | src/network.rs:326-331 | so it returns a bare text under 2^32 bytes, or whose length leaves more than 3 modulo 2^32, unchanged |
| Legacy.LongTextIsMisread | src/network.rs:267-272 | and for 2^32 NUL characters it returns a text holding one |
| Legacy.BareImageIsUnambiguous | src/network.rs:326-331 | a bare image never decodes as a network message, and the receiver returns it unchanged |
| Legacy.RawTextIsVerbatimIff | src/network.rs:326-338 | the receiver returns raw UTF-8 verbatim as text if and only if it fails both decoders |
| Legacy.RawTextIsVerbatim | src/network.rs:326-338 | which it does unless it starts with one of 0 to 3 and three NULs; so the receiver returns NUL-free text as it came |
| Legacy.TwelveNulsAreEmptyText | src/network.rs:326-331 | and for twelve NULs it returns an empty text |
| Legacy.BareFileIsLegacyIff | src/network.rs:326-331 | the receiver returns a bare file of any length as sent if and only if it has fewer than four bytes or fewer after them than its length and those four bytes ask for |
| Legacy.ShortFileIsLegacyIff | src/network.rs:326-331 | under 2^32 bytes that means: if and only if its bytes do not open with four NULs |
| Legacy.BareFilesIsLegacyIff | src/network.rs:326-331 | the receiver returns a bare list of n files as sent if and only if its first n bytes of entries are not UTF-8 |
| DnsWire.NameBack | lib/mdns/src/behaviour/iface/dns.rs:315-328 | a written name parses, under RFC 1035 section 3.1, to its labels with nothing consumed beyond it |
| DnsWire.NoPrefixParses | lib/mdns/src/behaviour/iface/query.rs:51-56 | no strict prefix of a message that fills its buffer parses |
| DnsEncoder.AppendQname | lib/mdns/src/behaviour/iface/dns.rs:315-328 | the method appends the wire form of the dot-separated labels, whose limits are the two assertions of the source |
| DnsEncoder.AppendU32 | lib/mdns/src/behaviour/iface/dns.rs:273-278 | appends the value's four big-endian bytes |
| DnsEncoder.AppendU16 | lib/mdns/src/behaviour/iface/dns.rs:281-284 | appends the value's two big-endian bytes |
| DnsEncoder.AppendCharacterString | lib/mdns/src/behaviour/iface/dns.rs:331-357 | plain text verbatim, text with a space quoted and escaped, non-ASCII refused with nothing written |
| DnsEncoder.AppendTxtRecord | lib/mdns/src/behaviour/iface/dns.rs:360-388 | a whole record, or the right error with only the record's head written |
| DnsEncoder.QueryResponsePacket | lib/mdns/src/behaviour/iface/dns.rs:223-262 | header, PTR answer and records, in order |
| DnsEncoder.BuildQuery | lib/mdns/src/behaviour/iface/dns.rs:73-99 | the bytes of the service query |
| DnsEncoder.BuildQueryResponse | lib/mdns/src/behaviour/iface/dns.rs:104-177 | the accumulating loop with its three push sites emits exactly the batches of the encodable addresses among the first 65535 |
| DnsEncoder.DurationRoundsUp | lib/mdns/src/behaviour/iface/dns.rs:265-270 | the time to live is the least number of whole seconds not below the duration, or the most 32 bits hold if that is more |
| DnsEncoder.EscapeCanBeUndone | lib/mdns/src/behaviour/iface/dns.rs:331-357 | taking away the backslash before each quote and backslash of an escaped string gives the string back |
| DnsEncoder.WrittenIff | lib/mdns/src/behaviour/iface/dns.rs:360-388 | a value can be announced if and only if it is at most 255 bytes, all of them ASCII |
| MdnsPeer.NewPeer | lib/mdns/src/behaviour/iface/query.rs:241-289 | the filtering loop that settles on the first peer id computes the specified peer |
| MdnsPeer.AnnouncedIff | lib/mdns/src/behaviour/iface/query.rs:256-279 | a string announces an address if and only if, plain or in quotes, it is the mark and what parses to that address, with a peer id at its end |
| MdnsPeer.PeerIsFirstAnnounced | lib/mdns/src/behaviour/iface/query.rs:241-289 | the peer of a response is the one at the end of the first address announced for the name, with exactly the addresses that end in it, in order, and the given time to live; with none announced there is no peer |
| MdnsPeer.SameNameIff | lib/mdns/src/behaviour/iface/query.rs:248-250 | names count as the same if and only if they agree byte by byte but for the case of letters |
| MdnsPeer.PeersAreAnswers | lib/mdns/src/behaviour/iface/query.rs:160-178 | the peers of a response are exactly those its PTR answers under the service's name speak of |
| MdnsPeer.TxtDataIffNoSpace | lib/mdns/src/behaviour/iface/dns.rs:380-385 | TXT data is one character string holding the value if and only if the value has no space |
| MdnsPeer.SpacedDataIsBroken | lib/mdns/src/behaviour/iface/dns.rs:331-385 | with a space and nothing to escape, TXT data is no series of strings at all, unless the value's last byte is 1 |
| MdnsPeer.TxtRecordBack | lib/mdns/src/behaviour/iface/dns.rs:360-388 | a TXT record as written parses as name, TXT, class IN with cache flush, time to live and that one string, if and only if the value has no space |
| MdnsPeer.PtrRecordBack | lib/mdns/src/behaviour/iface/dns.rs:236-251 | a PTR record as written parses with its owner and target |
| MdnsRoundTrip.QueryIsRecognised | lib/mdns/src/behaviour/iface/query.rs:51-91 | a query built for any name is taken, with its id, for a query if that is the node's own service, for a service discovery if it is the meta service, and otherwise for nothing |
| MdnsRoundTrip.QueryBack | lib/mdns/src/behaviour/iface/dns.rs:73-99 | a built query parses wholly, to one PTR question for the name and nothing else |
| MdnsRoundTrip.PacketBack | lib/mdns/src/behaviour/iface/dns.rs:223-262 | a response packet parses under RFC 1035 section 4.1 to one PTR answer and one TXT additional per value, every byte consumed, if and only if no value has a space; and does not parse at all if and only if some value's data is broken |
| MdnsRoundTrip.RecordsAreKept | lib/mdns/src/behaviour/iface/dns.rs:128-140 | the records are those of the values of the encodable addresses, in order, spaces or not |
| MdnsRoundTrip.ValueAnnounces | lib/mdns/src/behaviour/iface/query.rs:256-281 | an announced value is read back as its address with the announcing peer's id |
| MdnsRoundTrip.PacketGivesPeer | lib/mdns/src/behaviour/iface/query.rs:160-178 | from one packet a node gets the announcing peer with the packet's addresses, or no peer when it has none |
| MdnsRoundTrip.BatchingConserves | lib/mdns/src/behaviour/iface/dns.rs:142-176 | batches in order are the records; all but the last hold exactly 29; there are max(1, ceil(k / 29)) |
| MdnsRoundTrip.BatchSizeIsDerived | lib/mdns/src/behaviour/iface/dns.rs:45-48 | 29 is the quotient the source computes |
| MdnsRoundTrip.AnnouncementCount | lib/mdns/src/behaviour/iface/dns.rs:104-177 | the number of packets is that of the batches of encodable addresses |
| MdnsRoundTrip.AnnouncementGivesPeer | lib/mdns/src/behaviour/iface/query.rs:241-289 | when batch i of the encodable addresses has no space in its values, packet i parses with no byte left and gives the local peer id with that batch; through the 4096-byte receive buffer it gives the same if it fits and is malformed if it does not |
| MdnsRoundTrip.AnnouncementLosesBatchIff | lib/mdns/src/behaviour/iface/query.rs:51-56 | packet i is taken for malformed, with all its addresses, if and only if some value in it has broken data |
| MdnsRoundTrip.OneSpaceLosesBatch | lib/mdns/src/behaviour/iface/dns.rs:380-385 | among values with nothing to escape, one space costs the packet all its addresses |
| MdnsRoundTrip.OneSpacedPathLosesBoth | lib/mdns/src/behaviour/iface/dns.rs:380-385 | a peer with two addresses, one a path with a space, is heard of at neither |
| MdnsRoundTrip.AnnouncementGivesAllAddresses | lib/mdns/src/behaviour/iface/dns.rs:104-177 | when the encodable addresses among the first 65535 have no space in their values, a consumer gets exactly those over all packets, in order |
| MdnsRoundTrip.AllAddressesThroughBufferIff | lib/mdns/src/behaviour/iface.rs:282-290 | through the receive buffer, with nothing to escape in the values, a consumer gets all of them if and only if there are none, or no value has a space and every packet is at most 4096 bytes |
| MdnsRoundTrip.RecordSize | lib/mdns/src/behaviour/iface/dns.rs:37-39 | a record's exact size, and that it meets the documented maximum if and only if peer name plus characters written are at most 289 bytes |
| MdnsRoundTrip.PacketsFitIff | lib/mdns/src/behaviour/iface/dns.rs:41-48 | all packets fit the maximum packet size if and only if every batch of records with the two names leaves room for 22 bytes |
| MdnsRoundTrip.AnnouncementFitsIff | lib/mdns/src/behaviour/iface/dns.rs:104-177 | the same for an announcement, from the values of its encodable addresses |
| MdnsRoundTrip.PacketsFit | lib/mdns/src/behaviour/iface/dns.rs:41-48 | so they do with records within the documented maximum and names within 210 bytes |
| MdnsRoundTrip.AnnouncementFits | lib/mdns/src/behaviour/iface/dns.rs:104-177 | and an announcement does when the peer name leaves each value room in a record and the two names are within 210 bytes |
| MdnsRoundTrip.FullRecordsOverflow | lib/mdns/src/behaviour/iface/dns.rs:37-48 | a peer with the longest name and 29 addresses with 255-byte values announces one packet that is too large |
| PrintedForm.FormIsFaithful | lib/mdns/src/behaviour/iface/query.rs:264-278 | there is a text form of addresses that parses back with its trailing peer id, as the results about the consumer ask |
| MdnsRoundTrip.FullRecordsExist | lib/mdns/src/behaviour/iface/dns.rs:37-48 | there are 29 different such addresses, in a text form that parses back |
| Discovery.Behaviour.DrainResponses | lib/mdns/src/behaviour.rs:328-354 | every waiting announcement is absorbed: known pairs are refreshed, new pairs are listed, and one address event per new pair is queued; that the later expiration is what is kept is the row of `ExpiryIsTimely` |
| Discovery.Behaviour.RetainAlive | lib/mdns/src/behaviour.rs:361-378 | exactly the pairs due are dropped and collected, and the earliest expiration left is found |
| Discovery.Behaviour.Poll | lib/mdns/src/behaviour.rs:272-388 | the looping poll equals one refill of the queue and one pop: it restarts at most once; a disabled behaviour emits nothing and drops its queue |
| Discovery.Behaviour.ExpireNode | lib/mdns/src/behaviour.rs:197-205 | all the peer's entries become due now, and the timer is set |
| Discovery.Behaviour.PendingOutbound | lib/mdns/src/behaviour.rs:225-242 | the addresses offered for a dial, in table order |
| Discovery.ExpiryMembers | lib/mdns/src/behaviour.rs:361-372 | what stays is what expires later than now, what lapses is the rest |
| Discovery.InTableOrder | lib/mdns/src/behaviour.rs:225-242 | each entry of a table gives its own part of what stays, what lapses and what is offered for a dial, in table order |
| Discovery.EarliestIsMinimum | lib/mdns/src/behaviour.rs:361-378 | the earliest expiration is attained and no entry has a smaller one |
| DiscoveryRuns.LogAgreesWithTable | lib/mdns/src/behaviour.rs:281-378 | over every run: table pairs unique; each Discovered followed at once by one address event per item in order; discoveries and expiries of a pair alternate, discovery first; a pair is in the table exactly when its last event is a discovery |
| DiscoveryRuns.DialledAddressesAreLive | lib/mdns/src/behaviour.rs:225-242 | the addresses offered for dialling a peer are exactly those whose last event is a discovery |
| DiscoveryRuns.ExpiryIsTimely | lib/mdns/src/behaviour.rs:328-378 | without `expire_node`, over every run: whenever a pair is dropped, every announcement of it since its previous drop has expired by then, and there was one; a pair is in the table exactly when it was announced since its last drop, under an expiration that one such announcement has and none exceeds |
| DiscoveryRuns.AnnouncementsAreSeen | lib/mdns/src/behaviour.rs:328-354 | over every run, the announcements read, then those waiting, are all that were made, in order |
| DiscoveryRuns.FoundInOrder | lib/mdns/src/behaviour.rs:328-354 | the pairs reported as new join the end of the table as they are reported, in the order of their first announcements |
| DiscoveryRuns.DropsAreExpiredEvents | lib/mdns/src/behaviour.rs:361-378 | the pairs dropped over a run are those of its Expired events, in order |
| DiscoveryRuns.QuietPollIsUpToDate | lib/mdns/src/behaviour.rs:361-388 | a poll that returns nothing leaves nothing due and nothing unread, a timer at the exact minimum with a non-empty table, and the timer as it was with an empty one |
| Interface.InterfaceState.constructor | lib/mdns/src/behaviour/iface.rs:52-73 | a task starts probing at 500 ms with empty queues |
| Interface.InterfaceState.OnTick | lib/mdns/src/behaviour/iface.rs:228-245 | the method is the specification's tick: one query joins the send buffer, and the probing interval doubles or probing ends, as `IterationMoves` and `IterationProbes` state from the outside |
| Interface.InterfaceState.OnRead | lib/mdns/src/behaviour/iface.rs:282-358 | each kind of datagram queues what it must, and decides whether the task goes on |
| Interface.InterfaceState.Step | lib/mdns/src/behaviour/iface.rs:226-360 | one iteration in the source's priorities, with the pops undone by push_front when a write or hand-over must wait |
| Interface.InterfaceState.Poll | lib/mdns/src/behaviour/iface.rs:223-362 | the loop runs those iterations up to and including the first that is done or must wait, and stops there |
| Interface.QueuesAreLossless | lib/mdns/src/behaviour/iface.rs:248-279 | over every run both queues lose and reorder nothing they were given, but for the one item in hand when the receiver is gone, which ends the task |
| Interface.IterationMoves | lib/mdns/src/behaviour/iface.rs:226-360 | one iteration puts into the send buffer the tick's query and, if it neither writes nor offers an address, the answers of its datagram, and into the discovered queue the addresses of a response it read; it takes out what it sent or handed over, and ends as the calls it got to make say |
| Interface.NothingAskedIsLost | lib/mdns/src/behaviour/iface.rs:226-360 | over every run, packets taken for sending, then those waiting, are every query a tick asked for and every answer a datagram asked for, in order; addresses handed over, then those waiting, are every address a response brought, but for the one in hand when the receiver is gone |
| Interface.IterationProbes | lib/mdns/src/behaviour/iface.rs:228-327 | a response that leaves addresses to hand over ends probing; else a tick doubles the probing interval, or ends probing when the double reaches the query interval; nothing else touches it |
| Interface.ProbeFollowsTicks | lib/mdns/src/behaviour/iface.rs:228-327 | over every run the probe state is what the number of ticks and whether a response was heard make it |
| Interface.ProbingBacksOff | lib/mdns/src/behaviour/iface.rs:234-244 | probing intervals are 500 ms times 2^k, all but the first below the query interval, and the timer always has the state's period |
| Interface.FinishedIsAbsorbing | lib/mdns/src/behaviour/iface.rs:319-327 | once finished, probing stays finished at the query interval |
| Interface.ProbingEnds | lib/mdns/src/behaviour/iface.rs:234-244 | with a query interval above 500 ms all probing intervals together are shorter than twice it |
| Connections.NetworkTask.OnNewListenAddr | src/network.rs:478-481 | the address is among those listened on |
| Connections.NetworkTask.OnListenAddrExpired | src/network.rs:499-519 | the address is listened on no more, and the boot node is queued for a retry, its count kept if it was failing, when some non-local address remains |
| Connections.NetworkTask.OnConnectionEstablished | src/network.rs:520-533 | the endpoint moves to or enters the front of the cache, and the peer's failing entries go |
| Connections.NetworkTask.OnConnectionClosed | src/network.rs:534-557 | the peer's or the address's endpoints go from cache and index alike; an I/O error of a dialler queues a retry |
| Connections.NetworkTask.OnOutgoingConnectionError | src/network.rs:558-608 | the loop over failed addresses, then the dead peer's removal if any error calls for it |
| Connections.NetworkTask.OnRetryThreadReceives | src/network.rs:111-117 | the oldest queued task sleeps for its count squared plus one seconds |
| Connections.NetworkTask.OnSleeperWakes | src/network.rs:102-109 | a sleeping task, in any order, becomes a callback |
| Connections.NetworkTask.OnRetryCallback | src/network.rs:625-655 | requeue without a network, give up after three, stop when connected, else count and dial the task's target; a dial is named if and only if the address is reachable (written out on the listen addresses in `Reachable`), the count at most 3 and the peer not connected |
| Connections.CacheAgreesWithIndex | src/network.rs:520-605 | over every series of events the cache is duplicate-free, its elements are the index, most recently established first |
| Connections.ForgottenOnClose | src/network.rs:534-557 | after a close an endpoint is cached if and only if it was and neither its peer's last connection closed nor its address failed |
| Connections.RetriedOnClose | src/network.rs:543-554 | a close removes no failing entry and adds the closed endpoint exactly when a dialled connection broke with an I/O error |
| Connections.ForgottenOnFailedDial | src/network.rs:558-608 | after a failed dial an endpoint is cached if and only if it was, its address did not fail for good, and the error does not condemn its peer |
| Connections.LastErrorSettles | src/network.rs:566-588 | after a list of transport errors an entry is failing exactly when the last retryable or final error of its address is retryable, or, without one, when it was failing |
| Connections.RetriesAreBoundedAndNotLost | src/network.rs:499-655 | in every reachable state keys are task targets, counts are at most 4 and count the dials since insertion, sleeps are 1 to 17 seconds, and an entry not dialled since its last enqueue is queued, sleeping or called back |
| Connections.BootNodeIsRetried | src/network.rs:499-519 | losing a listen address puts the boot node back on its way exactly when there is one and another non-local address is left, and otherwise changes no retry |
| Connections.DelayBound | src/network.rs:113-116 | for every reachable count the square does not overflow and the delay is at most 17 seconds |
| Connections.NetworkOkIsReachable | src/network.rs:627-640 | the nested test comes to: some peer is connected, or there is a non-local listen address and, for a link-local target, a link-local one, for any other target, fewer link-local than non-local ones |
| ConnectionRuns.NonP2pIsPrefix | src/network.rs:787-792 | popping leaves the first two components of an address |
| ConnectionRuns.EstablishedIsFirst | src/network.rs:520-533 | the established endpoint, under the first two components of its address, is at the head of the cache and nowhere else in it, all others stay cached, and exactly the peer's failing entries are gone |
| ConnectionRuns.QueuedOnClose | src/network.rs:543-554 | a close queues exactly one retry, of the closed endpoint with the count it has, when a dialled connection broke with an I/O error, and else none |
| ConnectionRuns.QueuedOnErrors | src/network.rs:566-588 | a failed dial queues one retry for each address error worth one, in their order, and nothing else |
| ConnectionRuns.ThreadTakesOldest | src/network.rs:111-117 | the retry thread takes the oldest task and lets its endpoint sleep the square of its count plus one seconds |
| ConnectionRuns.WakingCallsBack | src/network.rs:102-109 | a sleeper that wakes is called back after those that woke before it, and no other is |
| ConnectionRuns.CallbackDecides | src/network.rs:625-655 | a called-back entry is dialled with its count up by one if and only if its address is reachable, the count is at most 3 and its peer is not connected; removed if and only if reachable and the count is above 3 or the peer connected; else queued again unchanged; no other entry changes |
| ConnectionRuns.ListeningIsCurrent | src/network.rs:478-519 | over every run the task listens on exactly the addresses it was last told of as new |
| ConnectionRuns.EveryCallbackDials | src/network.rs:499-655 | over every run, an entry whose callbacks all find some peer connected but not its own has been dialled at each callback since it was put in |
| ConnectionRuns.FourDialsThenRemoved | src/network.rs:499-655 | such an entry is dialled at each of its first four callbacks and removed at the fifth |
| Echo.ClipboardNode.GetClipboardContent | src/main.rs:139-286 | file list, then image, then text; a known value says nothing, an unknown one is recorded alone and handed over |
| Echo.ClipboardNode.SetClipboardContent | src/main.rs:289-351 | the deduplication state is set before the write, per kind, and the clipboard afterwards; what that comes to is stated without the specification by `TextArrives`, `ImageArrives` and `FilesArrive` |
| Echo.ClipboardNode.SetFileClipboard | src/main.rs:425-466 | the paths' hash, and on the text fallback the joined text as well |
| Echo.ReadSpeaksOnce | src/main.rs:139-286 | a reading hands over the clipboard's content exactly when deduplication does not know it and the channel takes it, and then not again |
| Echo.FaithfulWriteIsSilent | src/main.rs:289-466 | a write that reads back as expected gives the node nothing new to say, the text fallback included |
| Echo.TextArrives | src/main.rs:298-307 | a received text, if the write goes through, is what the clipboard then offers and what is remembered; a node without memory reading it hands over that text |
| Echo.ImageArrives | src/main.rs:309-335 | a received image leaves exactly its decoded pixels on the clipboard and the hash of its PNG bytes in memory; one that does not decode leaves the clipboard alone |
| Echo.FilesArrive | src/main.rs:425-466 | received files leave exactly the saved paths on the clipboard, or, written as text, one text that cut at its newlines is those paths when none has a newline, which is remembered too; with nothing saved nothing changes |
| Echo.NotOpenedNotTouched | src/main.rs:289-297 | a clipboard that cannot be opened leaves clipboard and memory as they were |
| Echo.FilesAreAllSent | src/main.rs:139-215 | an unknown file list is handed over whole: one content with every file found, in order, a single file as itself |
| Echo.TextReachesTheOther | src/main.rs:139-307 | a text copied at one node, noticed there and received at another is broadcast once, ends on the other's clipboard, and is broadcast again by neither |
| Echo.ImageEchoesIff | src/main.rs:309-335 | a received image is handed back to the network if and only if its PNG bytes and its pixels hash differently |
| Echo.OnlyTheLastCopyIsKnown | src/main.rs:149-160 | after a reading that spoke, a next clipboard goes unsaid if and only if it offers nothing or is taken for the same copy: same kind and same text, pixel hash or path hash, so a file copied again from its path is not said even if its contents changed |
| Echo.OnlyTheReceivedIsKnown | src/main.rs:289-466 | after receiving a text or files, a next clipboard goes unsaid if and only if it offers nothing, or is taken for the very text received, or for the list of saved paths, or, when the list could not be written natively, for the text of those paths |
| Echo.BroadcastsAreBounded | src/main.rs:139-466 | over every run of any number of nodes, broadcasts plus nodes yet to speak never exceed user copies, plus clipboards not empty at the start, plus unfaithful writes |
| Echo.NoEchoStorm | src/main.rs:139-466 | with text and file lists, writes that read back and a network that delivers only what was broadcast, broadcasts never outnumber user copies |
| Echo.ImagesStorm | src/main.rs:139-351 | for every n two nodes passing on an image whose two hashes differ have a run with one user copy, genuine deliveries and writes only, and n + 1 broadcasts |
| HDrop.SetClipboardFileList | src/native_clipboard.rs:263-371 | the writer's loops stay inside the allocated buffer and fill it exactly: header, null-ended paths, a last null |
| HDrop.GetClipboardFileList | src/native_clipboard.rs:28-122 | the list the buffer holds, wide or narrow, or none if it is empty |
| HDrop.WalkNames | src/native_clipboard.rs:70-108 | both nested loops end inside the buffer and return the paths before the first empty one |
| HDrop.DoubleNullEndsTheWalk | src/native_clipboard.rs:70-88 | units ending in two nulls are walked in bounds whatever they hold |
| HDrop.NamesAreTheUnits | src/native_clipboard.rs:70-88 | returned paths are non-empty and null-free, and their null-ended form with one more null is exactly what was walked |
| HDrop.RoundTrip | src/native_clipboard.rs:282-351 | any written buffer is walked in bounds, and gives the list back if and only if it is not empty and its paths are non-empty and null-free |
| HDrop.WrittenBytes | src/native_clipboard.rs:282-351 | a written buffer is the twenty header bytes, then two bytes for each unit of the null-ended paths and of the last null, the low byte first, and nothing more |
| HDrop.ForeignListIsRead | src/native_clipboard.rs:28-108 | any program's buffer, with any offset, wide or narrow, whatever follows, is read as the plain paths that stand, null-ended and with one more null, at its offset |

## Left out

- libp2p: the swarm, gossipsub with its mesh and duplicate suppression, Kademlia, Identify, TLS, and sockets, timers and channel capacities; they appear as events and parameters.
- zstd, PNG, SHA-256 and UUID generation: functions or parameters; the transmit limit is compared before compression.
- EndToEnd.EndToEnd: failed publishes; what a loop does after its restart (the run considered ends there); each copy is asked to draw a fresh id even if it is sent whole, and to be of a size the receiving machine grants.
- Reassembly.Receiver.CleanupStaleChunkStates: one clock reading serves a whole sweep, where the source reads the clock once per entry.
- Reassembly.Receiver.HandleIncomingMessage: what the machine grants is one number for a whole run, though memory comes and goes; the log lines, whose index arithmetic could overflow in a debug build, have no counterpart.
- bincode's error results on encoding: they cannot occur for these types, so encoding is a plain function.
- MdnsRoundTrip.PacketBack: the parser reads no compressed names, since the encoder writes none; the library's escapes in printed names are not modelled.
- MdnsRoundTrip.AnnouncementGivesPeer: asks for values without spaces in its batch, for the others are `AnnouncementLosesBatchIff` and `PacketBack`, and for a printed form of addresses that parses back.
- MdnsRoundTrip.AllAddressesThroughBufferIff: asks for values without quotes and backslashes whose last byte is not 1, as an address and a peer id print.
- MdnsRoundTrip.PacketsFit: conditional because the unconditional bound is false (`FullRecordsOverflow`); the exact condition is `PacketsFitIff`.
- Interface.ProbingBacksOff: durations are unbounded; the source's would overflow after probing intervals of ages.
- The service-discovery response builder, `extract_discovered` and the address translation: table-like code beside what is modelled.
- Interface tasks and the interface watcher of the mDNS behaviour; announcements reach the table through one inbox.
- Discovery.Behaviour.Poll: `closest_expiration` is never cleared, so with an empty table the timer keeps whatever time it had.
- Connections.NetworkTask.OnOutgoingConnectionError: what an error's debug text contains is an input that classifies the failed address; Kademlia's own tables are left to the library.
- Connections.NetworkTask.OnRetryCallback: which addresses are local or link-local is given as two functions; the source looks at an address's first component and so asks that it has one.
- Echo.NoEchoStorm: a monitor event between the deduplication update and the clipboard write, a text clipboard that the platform offers as a file list, and a restart that clears the deduplication state are outside the steps considered; images are covered by `BroadcastsAreBounded`, `ImageEchoesIff` and `ImagesStorm`.
- Saving and reading files, directory recursion and the reduction of saved paths to top-level ones: the resulting paths and entries are parameters.
- HDrop.GetClipboardFileList: asks for a buffer with a terminated list, as the source's raw pointers do; path text to UTF-16 conversion and the clipboard's handles and locks are left out.
- The Linux file-list code: calls to xclip, wl-copy and xsel.
