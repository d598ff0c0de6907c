# NetZer: a verified model

NetZer captures Ethernet frames on Linux, filters and dissects them, reassembles TCP streams and streams the results
to files and browsers. This project models its decoders, its ring-buffer consumer, its kernel filter tables, its
stream tracker and its WebSocket path in Dafny, and proves what they do for every input and over every run.
`dafny verify dfyconfig.toml` checks everything.

## What is modelled

- **The ring** (`RingBlock`, `RingLayout`, `RingConsumer`, `RingProtocol`). A block is 4 MiB of arbitrary bytes; `RingSocket` walks
  the packet chain in the shared array, releases the block and advances. `RingProtocol` interleaves the kernel with
  the single steps of `recv_block` (status read, one packet, release, advance) and proves the cyclic window of USER
  blocks, FIFO exactly-once delivery, that only USER blocks are read, and that the consumer left alone delivers every
  retired block. Two assumptions about the kernel are stated as its step predicates: it writes only blocks whose status
  is KERNEL, and it retires blocks in cyclic order. Memory is little-endian. `poll` is a parameter: each return comes with the ring contents found then.
- **The filters** (`Bpf`, `Filters`, `Headers`). A classic-BPF machine runs the attached tables; a load past the end
  of the packet ends the run with verdict 0, as in the Linux implementation of classic BPF. The exact accept set of
  every table is proved and compared with the independent slice parsers. The tables look at IPv4 only, so "matching"
  in their accept sets means IPv4; what that does to TCP and UDP over IPv6 is stated separately.
- **TLS** (`Tls`, `TlsGrammar`, `TlsRecord`, `Utf8`). The SNI extractor, a grammar for the layout of a ClientHello,
  both directions between them, and what the announced record length has to do with the answer. `&str` values are
  their UTF-8 bytes.
- **TCP streams** (`TcpStreams`, `StreamRuns`, `Capture`). The tracker as a class over a map, whole runs of it, and
  the path from ring blocks through the dispatch of `process_packet` into the tracker.
- **The WebSocket path** (`WebSocket`, `Broadcast`, `BroadcastRuns`, `Sha1`, `Sha1Sample`, `Base64`, `Handshake`). Framing against a
  decoder, client-list maintenance, and what each client's byte stream contains over every run. How each write ends
  (bytes written, success) is a parameter.
- **Printers and small parsers** (`Dns`, `DnsLabels`, `Json`, `Hex`, `Hexdump`, `HexdumpLines`), each with a reader that inverts it,
  or the exact condition under which none can.

## Where code and documentation differ

The model follows the code.

- The README of the repository says the kernel filter ensures that only matching packets reach userspace. The jumps
  `jf: 8` and `jf: 5` of the port table and `jf: 2` of the tcp, udp and icmp tables land on the accept instruction, so
  every readable non-IPv4 frame passes (and, for the port table, every IPv4 frame that is neither TCP nor UDP).
  `Filters.ArpFramePassesPortFilter` gives the input, `Filters.OnlyMatchingIff` and `Filters.OnlyMatchingProtoIff` the
  exact conditions, and `Filters.RetargetedPortAcceptSet` and `Filters.RetargetedProtoAcceptSet` the tables that would
  do it for IPv4. Those would also drop every IPv6 frame, which the program handles and the shipped tables let through
  (`Filters.PortFilterOverIpv6`). No complete matching packet, over IPv4 or IPv6, is ever rejected
  (`Filters.PortFilterOnHandled`).
- `TlsClientHello::parse` indexes out of range on exactly one shape of buffer: five bytes, type 22, length zero
  (`TlsGrammar.PanicsExactly`).
- `TlsClientHello::parse` checks that the announced record fits the buffer and then forgets its length, and skips the
  handshake length unread, whatever the buffer holds (`TlsRecord.AnnouncedLengthsIgnored`). So the name can come from
  behind the announced record: `TlsRecord.EmptyRecordYieldsName` gives the inputs, and the record alone gives the name
  exactly when the ClientHello ends inside it (`TlsRecord.RecordAloneIff`).
- `Ipv4Header::parse` does not read the total length, so padding behind a short packet counts as TCP payload and reaches
  the stream tracker, which the repository's README presents as reassembly. `Headers.PaddedAckHasPayload` and
  `Capture.PaddingIsCaptured` give the input, `Headers.PayloadIsTheSegmentsIff` the exact condition.
- The result of writing the system frame to a new WebSocket client is ignored and the client is registered anyway. Its
  stream decodes as intended exactly when that frame was written in full (`BroadcastRuns.LiveDecodesIff`,
  with `BroadcastRuns.CutSystemFrameGarbles` and `BroadcastRuns.SystemTextGarbles` for the inputs that fail).
- The README of the repository names NDJSON as an export format. `escape_json` leaves line ends alone, so a record is
  one line exactly when no field contains one (`Json.OneLinePerRecordIff`); ordinary HTTP responses make records that
  span lines (`Json.ResponsesSpanLines`, `Json.OneResponseTwoLines`). Records still split back into their fields
  without relying on lines.
- DNS: labels of up to 191 bytes are taken, dots inside them included, so different queries can give one domain name:
  the labels "a", "b" and the label "a.b" do (`DnsLabels.TwoQueriesOneName`). A name stands for more than one list of
  labels exactly when the labels can be regrouped somewhere: split at an inner dot, merged with a neighbour within 191
  bytes, or a dot at their edges moved (`DnsLabels.LabelsAmbiguousIff`). Labels without dots are told apart from each
  other by the name (`DnsLabels.DotFreeLabelsDetermined`), though not from labels with dots.

## Model

| member | source | states |
|---|---|---|
| RingBlock.ChainFrames | netzer-socket/src/socket.rs:432-457 | a block laid out as a well-formed next-offset chain delivers exactly its non-empty frames, in order |
| RingBlock.AtMostNumPkts | netzer-socket/src/socket.rs:435-457 | for any block contents a walk delivers at most num_pkts frames, each non-empty and no larger than a block |
| RingLayout.EncodedBlockIsWalked | netzer-socket/src/socket.rs:256-288 | a block written field by field in the declared order, little-endian, with all values of all fields, is taken iff its lowest status bit is set, delivers exactly its non-empty frames in order, and is given back with status 0 and nothing else changed |
| RingLayout.HeaderIsRead | netzer-socket/src/socket.rs:435-456 | in any block, wherever a header stands and whatever its fields are, the frame is the tp_snaplen bytes that start tp_mac bytes behind the header's start, if they end inside the block |
| RingLayout.EveryHeaderEncodes | netzer-socket/src/socket.rs:274-288 | any 40 bytes are a header written so |
| RingLayout.DescriptorIsRead | netzer-socket/src/socket.rs:256-272 | which fields of a block descriptor the consumer reads, and what its release does to the block |
| RingConsumer.RingSocket.ReadPacket | netzer-socket/src/socket.rs:440-452 | one packet header read at its place in the ring; the slice for the callback, if any, is non-empty and inside the current block |
| RingConsumer.RingSocket.WalkBlock | netzer-socket/src/socket.rs:432-457 | for any contents, the callback gets exactly the chain's frames, as at most num_pkts non-empty ranges inside the current block |
| RingConsumer.RingSocket.Release | netzer-socket/src/socket.rs:459-460 | only the status word of the current block changes, to KERNEL |
| RingConsumer.RingSocket.RecvBlock | netzer-socket/src/socket.rs:407-466 | waits for the USER bit, delivers the block found then, frees it and advances modulo 8; a failed poll changes nothing |
| RingProtocol.UserBlocksAreTheWindow | netzer-socket/src/socket.rs:407-463 | in every interleaving the USER blocks are exactly the cyclic window from current_block (one past it between release and advance) |
| RingProtocol.FifoExactlyOnce | netzer-socket/src/socket.rs:407-463 | in every interleaving the frames delivered are those of the released blocks as retired, in order, none lost or repeated |
| RingProtocol.ReadsOnlyUserBlocks | netzer-socket/src/socket.rs:413-457 | a walk reads only a block that is USER and still holds what it was retired with |
| RingProtocol.UserBlockHoldsStill | netzer-socket/src/socket.rs:413-457 | no step but its own release changes a USER block, so the separate field reads of a walk see one and the same block |
| RingProtocol.DrainedMeansAllDelivered | netzer-socket/src/socket.rs:413-430 | when the current block is not ready, every frame of every retired block has been delivered |
| RingProtocol.EveryBlockIsDelivered | netzer-socket/src/socket.rs:407-463 | progress: from every state of every run the consumer, left alone, comes to the end of a call with every retired block released and exactly all their frames delivered |
| RingProtocol.OneCall | netzer-socket/src/socket.rs:413-462 | undisturbed, the steps from a ready block make up one recv_block call, within num_pkts + 4 of them |
| RingProtocol.RecvBlockIsSteps | netzer-socket/src/socket.rs:407-466 | the contract of RecvBlock is what the protocol's consumer steps do from the memory its wait loop stops on |
| Bpf.CheckedHalts | netzer-socket/src/socket.rs:80-98 | any program with jumps inside and a final return halts with a verdict within one step per instruction and never leaves the program |
| Bpf.Forward | netzer-socket/src/socket.rs:80-98 | every step of such a program halts or moves strictly forward |
| Filters.AttachedTablesHalt | netzer-socket/src/socket.rs:79-153 | every table that can be attached halts with a verdict on every packet |
| Filters.PortAcceptSet | netzer-socket/src/socket.rs:80-93 | the exact accept set of the port table, short packets and accept-landing branches included |
| Filters.RetargetedPortAcceptSet | netzer-socket/src/socket.rs:80-93 | with the two jumps moved to the reject instruction the table accepts exactly IPv4 TCP or UDP packets with that port |
| Filters.ProtoAcceptSet | netzer-socket/src/socket.rs:117-140 | the exact accept set of the tcp, udp and icmp tables |
| Filters.RetargetedProtoAcceptSet | netzer-socket/src/socket.rs:117-140 | with the jump moved they accept exactly IPv4 packets of the protocol |
| Filters.ArpAcceptSet | netzer-socket/src/socket.rs:141-146 | the arp table accepts exactly packets with the ARP ethertype |
| Filters.NamedAcceptSets | netzer-socket/src/socket.rs:115-148 | the table chosen for a protocol name in any case, by what it accepts; other names get none |
| Filters.NamesInAnyCase | netzer-socket/src/socket.rs:115-148 | which names pick which table, letter by letter, in any mix of cases |
| Filters.PortFilterAgreesWithParsers | netzer-socket/src/socket.rs:80-93 | a frame the parsers read as TCP or UDP over IPv4 passes the port filter iff its source or destination port is the port |
| Filters.ProtoFiltersAgreeWithParsers | netzer-socket/src/socket.rs:116-146 | what each protocol filter decides for each way process_packet can dispatch a frame; one it ignores passes only the filter of its own readable IPv4 protocol, when it is cut short or broken behind that |
| Filters.UnwantedFramesRejected | netzer-socket/src/socket.rs:80-146 | every filter rejects frames too short for Ethernet; the tcp, udp and icmp filters reject IPv4 of other protocols |
| Filters.PortFilterOnHandled | netzer-cli/src/main.rs:558-627 | for TCP and UDP as the program handles them, over IPv4 or IPv6: no match is lost, and exactly the matches and all of IPv6 pass; the retargeted table passes exactly the matches over IPv4 |
| Filters.PortFilterOverIpv6 | netzer-socket/src/socket.rs:80-140 | IPv6 frames pass the port, tcp, udp and icmp tables unseen, and none would pass the retargeted ones |
| Filters.ArpFramePassesPortFilter | netzer-socket/src/socket.rs:82 | a concrete non-matching frame that passes every port filter |
| Filters.OnlyMatchingIff | netzer-socket/src/socket.rs:80-93 | for the port table, "accepted implies IPv4 TCP or UDP with that port" holds for a packet iff it takes neither accept-landing branch |
| Filters.OnlyMatchingProtoIff | netzer-socket/src/socket.rs:116-140 | for the tcp, udp and icmp tables, "accepted implies IPv4 of that protocol" holds for a packet iff it has no other readable ethertype |
| Headers.RoutedPorts | netzer-cli/src/main.rs:561-609 | where in the frame the ports of a dispatched TCP or UDP segment stand, for every IPv4 header length |
| Headers.RoutedTcpFields | netzer-cli/src/main.rs:571-589 | where in the frame the addresses and the payload of a dispatched TCP segment stand, for every pair of header lengths |
| Headers.RoutedUdpFields | netzer-cli/src/main.rs:606 | where in the frame the addresses and the payload of a dispatched UDP datagram stand |
| Headers.RoutedIpv6Fields | netzer-core/src/ipv6.rs:27-56 | where in an IPv6 packet the protocol, the addresses, the ports and the payload of what is dispatched stand |
| Headers.PayloadIsTheSegmentsIff | netzer-core/src/ipv4.rs:20-39 | the payload of a dispatched TCP segment is what the segment carries by the total length of its packet iff the packet ends where the frame does |
| Headers.PaddedAckHasPayload | netzer-core/src/ipv4.rs:36 | a padded bare ACK whose six bytes of padding are taken for payload |
| Tls.Parse | netzer-core/src/tls.rs:8-121 | the offset-driven parser computes Outline, with every index in range except the one it reports |
| Tls.WalkExtensions | netzer-core/src/tls.rs:79-118 | the extension loop computes the recursive scan of its window and terminates |
| Tls.WalkNames | netzer-core/src/tls.rs:96-114 | the server-name loop computes the recursive scan of its window and terminates |
| TlsGrammar.ParsesExactlyTheGrammar | netzer-core/src/tls.rs:8-121 | Sni(s) exactly on buffers that start with the layout of a ClientHello, its announced lengths free within the buffer, in which s is the first host_name of the first server_name extension that has one, valid UTF-8, nothing before it overrunning |
| TlsRecord.HelloIsUnique | netzer-core/src/tls.rs:8-77 | a buffer can be read as a ClientHello in one way only |
| TlsRecord.AnnouncedLengthsIgnored | netzer-core/src/tls.rs:8-39 | two buffers of one length whose announced records both fit and which agree on the content type, the handshake type and everything from the session id on get the same answer, errors included: neither announced length matters |
| TlsRecord.RecordAloneIff | netzer-core/src/tls.rs:19-23 | the announced record alone gives the name iff the ClientHello ends inside it, and otherwise gives none |
| TlsRecord.NameLiesInHello | netzer-core/src/tls.rs:79-112 | at which bytes of the buffer the returned name stands: in the extensions of the ClientHello; so inside the announced record when the hello is, and behind it when the record is announced to end before the extensions |
| TlsRecord.EmptyRecordYieldsName | netzer-core/src/tls.rs:19-23 | for every host an input announced as an empty record whose name is nevertheless returned |
| TlsGrammar.NamesMeaning | netzer-core/src/tls.rs:93-114 | each outcome of the server-name loop read off the grammar, overruns and bad UTF-8 included |
| TlsGrammar.ErrorsOfHello | netzer-core/src/tls.rs:79-121 | which error a ClientHello without a valid name reports, by where the extensions or the server-name list break |
| TlsGrammar.RoundTrip | netzer-core/src/tls.rs:8-121 | the encoding of any ClientHello with a host_name, any extensions and entries before it that hold none, anything behind it and any trailing bytes, parses back to that host_name |
| TlsGrammar.NamesAreShort | netzer-core/src/tls.rs:97-106 | every returned name fits a two-byte length |
| TlsGrammar.PanicsExactly | netzer-core/src/tls.rs:21-28 | the index panic happens exactly on five-byte buffers with type 22 and length zero |
| TlsGrammar.TruncationIsTooShort | netzer-core/src/tls.rs:19-23 | a handshake record cut before its announced end is BufferTooShort |
| TlsGrammar.TrailingBytesIgnored | netzer-core/src/tls.rs:19-76 | appending bytes never changes a found name |
| Utf8.ValidIffEncoding | netzer-core/src/tls.rs:107 | the modelled from_utf8 accepts exactly the encodings of sequences of scalar values |
| TcpStreams.KeysAreCanonical | netzer-core/src/tcp_stream.rs:15-33 | two endpoint pairs share a key iff they are the same unordered pair |
| TcpStreams.KeysAreOrdered | netzer-core/src/tcp_stream.rs:15-33 | the key holds both endpoints, the lesser one by address text and then port as the client |
| TcpStreams.TextOrderTotal | netzer-core/src/tcp_stream.rs:18 | the byte order on address texts is irreflexive, asymmetric and total |
| TcpStreams.TextOrderTransitive | netzer-core/src/tcp_stream.rs:18 | and transitive, so a strict total order |
| TcpStreams.TextLessIff | netzer-core/src/tcp_stream.rs:18 | one text is less iff at the first difference it ends or has the smaller byte |
| TcpStreams.TcpStreamTracker.Feed | netzer-core/src/tcp_stream.rs:72-108 | feed updates exactly the key's stream, and answers with the held bytes exactly when they reach 4096 or start with one of the five HTTP words and hold a line end |
| TcpStreams.FeedAnswers | netzer-core/src/tcp_stream.rs:86-107 | for every stream and payload: what is given out and what stays, by length, HTTP words and line end |
| TcpStreams.RequestIsFlushed | netzer-core/src/tcp_stream.rs:89-104 | an HTTP request that arrives in one piece is given out at once and leaves nothing |
| TcpStreams.TcpStreamTracker.Clear | netzer-core/src/tcp_stream.rs:111-113 | clear leaves no stream |
| StreamRuns.BytesAreConserved | netzer-core/src/tcp_stream.rs:72-113 | over every run, per key, what was flushed or cleared followed by what is buffered is exactly what was fed |
| StreamRuns.FlushesAreAllTaken | netzer-core/src/tcp_stream.rs:100-113 | without clear the flushes alone account for it |
| StreamRuns.StreamsAreIndependent | netzer-core/src/tcp_stream.rs:84-107 | a stream inside any run behaves as a single-stream tracker given that stream's payloads alone |
| StreamRuns.FeedsCommute | netzer-core/src/tcp_stream.rs:84-107 | feeds to different keys commute, in state and in output |
| StreamRuns.ReachableStreams | netzer-core/src/tcp_stream.rs:80-107 | a buffered stream is exactly its last packet_count non-empty payloads, shorter than 4096 bytes, and does not both start with an HTTP word and hold a line end |
| StreamRuns.FlushesAreBounded | netzer-core/src/tcp_stream.rs:89-105 | every flush is whole payloads ending with the last one fed, has reached 4096 bytes or is HTTP with a line end, and is shorter than 4096 plus that last payload |
| Capture.SameStreamIff | netzer-cli/src/main.rs:577-589 | two TCP frames meet in one stream iff they carry the same two addresses and ports in either direction; printing addresses confuses nothing |
| Capture.KeyNamesBothSides | netzer-cli/src/main.rs:565-578 | the key of a frame's stream holds each printed address with its own port, the lesser pair as the client, and the payload is what is fed |
| Capture.DisplayIsInjective | netzer-core/src/ipv4.rs:9-13 | different IPv4 addresses print differently |
| Capture.DisplayReadsBack | netzer-core/src/ipv4.rs:9-13 | an address prints as its four bytes in decimal, first to last, with dots between them |
| Capture.CapturedBytesAreConserved | netzer-cli/src/main.rs:541-598 | from ring blocks to streams: flushed plus buffered bytes of a stream are, in capture order, what stands behind the TCP headers in its frames in the released blocks, up to the end of each frame |
| Capture.PaddingIsCaptured | netzer-cli/src/main.rs:571-589 | the padding of that ACK ends up among the bytes of its stream |
| WebSocket.EncodeTextFrame | netzer-cli/src/web/mod.rs:116-131 | the pushes build the frame that the decoder theorems below speak of |
| WebSocket.DecodeEncode | netzer-cli/src/web/mod.rs:116-131 | a client of section 5.2 of RFC 6455 reads the payload back, whatever follows |
| WebSocket.EncodeDecode | netzer-cli/src/web/mod.rs:116-131 | the frame is the only one a client accepts for its payload |
| WebSocket.TruncatedIsIncomplete | netzer-cli/src/web/mod.rs:116-131 | a frame cut anywhere is recognised as incomplete |
| WebSocket.StreamRoundTrip | netzer-cli/src/web/mod.rs:116-131 | any list of frames followed by a cut frame decodes to exactly that list |
| WebSocket.StreamIsItsMessages | netzer-cli/src/web/mod.rs:116-131 | decoded messages account for a stream byte by byte |
| WebSocket.LengthFormIsShortest | netzer-cli/src/web/mod.rs:120-128 | the chosen length form is the shortest that can carry the length |
| WebSocket.FrameBytes | netzer-cli/src/web/mod.rs:116-131 | the frame byte by byte, the length most significant byte first |
| Broadcast.WebServer.BroadcastMessage | netzer-cli/src/web/mod.rs:148-165 | every client is written to, and the list becomes the successful ones in order |
| Broadcast.WebServer.RemoveFailed | netzer-cli/src/web/mod.rs:161-164 | removing noted positions from the back equals filtering by success with order kept |
| Broadcast.WebServer.Register | netzer-cli/src/web/mod.rs:238-244 | the client is appended with whatever part of the system frame was written |
| BroadcastRuns.ClientStreams | netzer-cli/src/web/mod.rs:147-165 | over every run each fully welcomed client decodes to the system frame, a gapless segment of the messages since it joined, and at most one cut frame |
| BroadcastRuns.LiveDecodesIff | netzer-cli/src/web/mod.rs:239-244 | a live client's stream decodes as intended iff its system frame was written in full |
| BroadcastRuns.CutSystemFrameGarbles | netzer-cli/src/web/mod.rs:241-244 | in any state, a client whose short system frame is cut after two bytes stays registered and reads the bytes of the next long enough frame as its first text |
| BroadcastRuns.SystemTextGarbles | netzer-cli/src/web/mod.rs:239-244 | the same for the system text the program sends, for every interface name of at most 15 bytes and every message of at least 47 |
| Sha1.Compute | netzer-cli/src/web/mod.rs:10-79 | the loops compute the digest as section 6.1 of FIPS 180-4 defines it; Handshake.SampleAccept and Sha1Sample.SampleDigest fix that definition by a known answer |
| Sha1Sample.SampleDigest | netzer-cli/src/web/mod.rs:10-79 | the literal digest of the sample key of section 1.3 of RFC 6455 with the GUID, through both of its blocks |
| Sha1Sample.ConstantsAreRoots | netzer-cli/src/web/mod.rs:45-51 | each round constant is the integer part of 2^30 times the square root of 2, 3, 5 or 10, in its range of rounds |
| Sha1.Schedule | netzer-cli/src/web/mod.rs:26-37 | the two loops fill w with the recursive message schedule |
| Sha1.Compress | netzer-cli/src/web/mod.rs:39-63 | the 80 in-place rounds compute the recursive definition |
| Sha1.Pad | netzer-cli/src/web/mod.rs:17-23 | the padding loop terminates with the padded message of section 5.1.1 |
| Sha1.PaddingIsMinimal | netzer-cli/src/web/mod.rs:20-22 | the number of zero bytes is the least that leaves room for the length |
| Sha1.PaddingIsInjective | netzer-cli/src/web/mod.rs:17-23 | different messages below 2^61 bytes pad differently |
| Sha1.OrForms | netzer-cli/src/web/mod.rs:47-49 | the OR forms of Ch and Maj equal the XOR forms of the standard |
| Base64.Base64Encode | netzer-cli/src/web/mod.rs:82-113 | the chunk loop computes the encoding, with every alphabet index below 64 |
| Base64.Alphabet | netzer-cli/src/web/mod.rs:83 | the digit of each value is the one of Table 1 of RFC 4648 |
| Base64.RoundTrip | netzer-cli/src/web/mod.rs:82-113 | a strict decoder of section 4 of RFC 4648 inverts it; the length is 4 * ceil(n / 3) |
| Base64.OnlyEncodingsDecode | netzer-cli/src/web/mod.rs:97-109 | the strict decoder accepts encodings only: padding at the end, its bits zero |
| Handshake.AcceptKey | netzer-cli/src/web/mod.rs:223-226 | hashing and encoding as the program does gives the accept value that the next row speaks of |
| Handshake.AcceptCarriesDigest | netzer-cli/src/web/mod.rs:223-226 | the accept value is 28 characters that decode to the SHA-1 of key and GUID |
| Handshake.SampleAccept | netzer-cli/src/web/mod.rs:223-226 | the sample handshake of section 1.3 of RFC 6455: the literal key gives the literal accept value |
| Dns.Parse | netzer-core/src/dns.rs:8-64 | the label loop computes the recursive reading of the question |
| Dns.ParsesExactlyTheQuestions | netzer-core/src/dns.rs:8-64 | Ok(d) exactly for queries with a non-empty zero-terminated list of valid 1..191-byte labels whose dotted text is d |
| Dns.ErrorsAre | netzer-core/src/dns.rs:8-59 | which error a failing call reports, by what stands behind any number of good labels |
| Dns.DomainsAreText | netzer-core/src/dns.rs:47-52 | the gathered domain is always valid UTF-8 |
| DnsLabels.LabelsAmbiguousIff | netzer-core/src/dns.rs:31-56 | a query with other labels gives the same domain name iff the labels can be regrouped somewhere: split, merged within 191 bytes, or an edge dot moved |
| DnsLabels.TwoQueriesOneName | netzer-core/src/dns.rs:43-52 | two packets with different labels and the same domain name |
| DnsLabels.DotFreeLabelsDetermined | netzer-core/src/dns.rs:43-52 | queries whose labels hold no dots give the same domain name iff their labels are the same |
| Json.LexEscaped | netzer-cli/src/main.rs:175-177 | an escaped string and a quote lex back to the string, whatever follows |
| Json.JsonWriter.WritePacket | netzer-cli/src/main.rs:119-139 | after each packet the whole file reads back as the records before and that packet, and as JSON objects whose last one has the six values under the names timestamp, proto, src, dst, info and size |
| Json.RecordIsObject | netzer-cli/src/main.rs:128-136 | a reader of JSON objects that knows no names finds the six names and values of the record in order, whatever follows |
| Json.FileIsObjects | netzer-cli/src/main.rs:128-138 | a whole file reads as the objects of its records |
| Json.ReadRecordBack | netzer-cli/src/main.rs:128-136 | a record splits back into its six fields, whatever follows |
| Json.ReadAllBack | netzer-cli/src/main.rs:128-138 | a whole file of records reads back in order |
| Json.OneLinePerRecordIff | netzer-cli/src/main.rs:128-136 | a record is one line iff no field contains a line end |
| Json.ResponsesSpanLines | netzer-cli/src/main.rs:254-258 | every HTTP response with a line end behind its first space makes a record of more than one line |
| Json.OneResponseTwoLines | netzer-cli/src/main.rs:254-258 | a concrete response and its record of two lines |
| Hex.ToHexString | netzer-cli/src/main.rs:198-205 | the digits of the first 256 bytes |
| Hex.UnhexHexBytes | netzer-cli/src/main.rs:198-205 | bytes come back from their digits |
| Hexdump.Print | netzer-core/src/hexdump.rs:6-47 | the row and padding loops compute the dump |
| Hexdump.CellsLayout | netzer-core/src/hexdump.rs:14-29 | every row's hex column is 49 characters and byte p stands at a fixed place |
| Hexdump.OffsetColumn | netzer-core/src/hexdump.rs:12 | the offset column has at least four digits and reads as the row's offset |
| HexdumpLines.EveryLine | netzer-core/src/hexdump.rs:10-44 | line k shows sixteen bytes character by character: blanks, offset, the two lower-case digits of each byte at their places with blanks elsewhere, and the text column |
| HexdumpLines.TextColumnShows | netzer-core/src/hexdump.rs:33-40 | character p of the text column of line k is the byte itself from blank to tilde and a dot otherwise |
| HexdumpLines.PrintableDataIsItsText | netzer-core/src/hexdump.rs:33-40 | the text columns of a dump of printable ASCII, put together, are the data |
| Hexdump.RoundTrip | netzer-core/src/hexdump.rs:6-47 | the whole data is read back from its dump |

## Left out

- Socket creation, ioctl, bind, mmap, poll, setsockopt, Drop and privilege dropping: foreign calls without logic.
- Memory alignment and volatility of ring accesses, and the kernel's own 48-byte tpacket3_hdr (the crate declares 40 bytes; the model follows the crate).
- The machine's special negative load offsets and the other BPF instructions: no table uses them.
- How the kernel combines two attached filters, and that no filter is attached in ring mode.
- ICMP, ARP, ICMPv6 and MAC accessors, the printing of IPv6 addresses, the PCAP writer, terminal output, command-line arguments, clocks.
- HTTP request sniffing, the listener threads and the dashboard page; the thread schedule of registration and broadcast is modelled at the granularity of the client lock.
- The display of flushed streams and the error messages of the capture loop.
- Json.JsonWriter.WritePacket: models the successful write; a failed file write is ignored by the program.
- TCP sequence numbers: the tracker ignores them.
- Handling of interface names in the system frame, which is not escaped.
