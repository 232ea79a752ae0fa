# A Dafny model of the Java TCP/IP stack

The stack builds UDP, IP, ICMP and ARP messages in Java, sends and captures Ethernet frames
through jpcap, and runs small DNS, TFTP and DHCP clients on top. This project models the byte
formats and the protocol state of those parts and proves what they do on every input, including
the inputs on which they go wrong.

| file | what it models |
|---|---|
| Bytes.dfy, ByteBuffers.dfy, Packets.dfy | bytes, Java and C casts, the buffer with a cursor, captured packets |
| Checksum.dfy | the one-fold Java checksum and jpcap's two two-fold checksums, against RFC 1071 |
| Udp.dfy, Icmp.dfy, Ip.dfy | header builders and parsers |
| Jpcap.dfy | frame padding on send, and the length arithmetic of `get_packet` |
| Stack.dfy | the dispatch of IP packets, and whole paths from builder to parser |
| DnsNames.dfy, DnsQuestion.dfy, DnsAnswers.dfy | compressed names, questions, answers, whole replies |
| Arp.dfy, ProtocolManager.dfy | ARP messages, the MAC cache and the waiting table over whole runs |
| Tftp.dfy, TftpTransfer.dfy | the read client, and transfers against a sender after RFC 1350 |
| DhcpOptions.dfy, Dhcp.dfy | option lists and their reader, messages, the client's state machine |

Code that works step by step is a method or a class here: cursors advance, arrays are filled and
tables are reassigned as in the source. Each such method is proved equal to a function, and the
promises of the protocols are lemmas about those functions. An exception is an outcome (`None`,
`Thrown`, `Failed`, `Crash`, ...). Clock, random numbers, the device addresses and the space left
on the call stack are parameters; hash map order is any order.

## Where the code differs from the standards it follows

All of these are kept in the model. Each comes with the exact condition under which the code
does what it should, and with an input on which it does not:

- `Utility.checksum` folds once. It is the RFC 1071 checksum exactly when that fold does not carry,
  and one too large otherwise; `Ip.HeaderCarries` is a header this stack builds for which it is.
- On a little-endian host `in_cksum` adds, for an odd size, the byte behind the buffer; on a
  big-endian host `in_cksum2` adds an odd last byte in the wrong half.
- `get_packet` records a truncated transport header as `(u_short) -1`, which is also its code for an
  unknown protocol, and so skips the clamp to the captured length.
- A compression pointer is followed by its signed low byte only, so it leads where it says exactly
  for targets below 128. Reading overflows every stack exactly when the chain of pointers comes back
  to itself, as a pointer to itself or two pointers at each other do. A pointer to the root behind a
  label leaves a stray dot.
- Names are cut to bytes and widened from signed bytes, so a name comes back exactly when its
  characters are below 128 or at least 0xff80.
- `readAnswers` drops the first byte of an owner name that is not a pointer, and then never reads
  what the name spells, as long as no character of it can be taken for a pointer. It does not consult
  the data length, so it stays aligned on addresses of four bytes, on a CNAME that is one name, and
  on other types without data.
- `readOptions` does not skip options it does not know, so their contents are taken for options.
- `handleDataPacket` writes every DATA packet it gets: the file is the source exactly when no block
  but the last is delivered twice.

Two more are not failures. The transaction id of a DHCP reply makes no difference
(`Dhcp.TransactionIdIgnored`). The comment in `DNSApplication.java` calls 64 the longest label; the
model follows the code and section 3.1 of RFC 1035, which allow 63.

## Model

| member | source | states |
|---|---|---|
| Checksum.ChecksumJava | src/utils/Utility.java:24-35 | the loop is one fold of the big-endian word sum, an odd last byte padded with zero, for every length |
| Checksum.JavaChecksumExact | src/utils/Utility.java:24-35 | for every Java array the value is the RFC 1071 checksum if and only if the single fold stays within 16 bits; below 131072 bytes it is otherwise exactly one too large |
| Checksum.JavaChecksumCarries | src/utils/Utility.java:34 | a six-byte buffer on which the value is one too large |
| Checksum.JavaChecksumValid | src/protocol/IPProtocolLayer.java:122-124 | written over a zeroed even-offset field, the checksum makes a receiver accept the buffer if and only if the fold did not carry |
| Checksum.HostSumSwaps | api/jpcap/Jpcap-master/src/main/c/JpcapSender.c:341-344 | the sum of little-endian words is 256 times the sum of big-endian words modulo 65535 (byte-order independence, section 2(B) of RFC 1071) |
| Checksum.FoldTwice | api/jpcap/Jpcap-master/src/main/c/JpcapSender.c:347-349 | below 2^32, two folds reach the one's complement sum |
| Checksum.InCksum | api/jpcap/Jpcap-master/src/main/c/JpcapSender.c:338-350 | stored in host order, the result is the RFC 1071 checksum in network order if and only if the size is even, the host is big-endian, or the last byte and the byte behind it are zero |
| Checksum.InCksumMissesByte | api/jpcap/Jpcap-master/src/main/c/JpcapSender.c:346 | a single byte that `in_cksum` leaves out on a little-endian host |
| Checksum.InCksum2 | api/jpcap/Jpcap-master/src/main/c/JpcapSender.c:352-378 | the same over pseudo header and data, if and only if the size is even, the host is little-endian, or the last byte is zero |
| Checksum.InCksum2SwapsByte | api/jpcap/Jpcap-master/src/main/c/JpcapSender.c:372-374 | a single byte of data that `in_cksum2` gets wrong on a big-endian host, behind any pseudo header |
| Udp.CreateHeader | src/protocol/UDPProtocolLayer.java:26-61 | the builder's outcome for every field map, missing fields and overflowing lengths in the order the code meets them |
| Udp.CreatedExactly | src/protocol/UDPProtocolLayer.java:27-59 | up to 32759 bytes of data the datagram has the length field 8 + n; everything longer throws |
| Udp.MadeExactly | src/protocol/UDPProtocolLayer.java:27-59 | with data that fits, null is returned if and only if a port is missing and nothing throws; with more, nothing is made |
| Udp.DatagramBytes | src/protocol/UDPProtocolLayer.java:38-59 | ports, length, a zero checksum and the data at the offsets of RFC 768 |
| Udp.ParsedExactly | src/protocol/UDPProtocolLayer.java:70-78 | a header is refused if and only if it is shorter than six bytes |
| Udp.HandlePacket | src/protocol/UDPProtocolLayer.java:70-78 | ports and length as shorts from packet.header, the data from packet.data |
| Udp.RoundTrip | src/protocol/UDPProtocolLayer.java:26-78 | parsing what was built returns the ports, the length and the data |
| Icmp.CreateHeader | src/protocol/ICMPEchoHeader.java:28-88 | the builder's outcome, the checksum patched in place at offset 2 |
| Icmp.MadeExactly | src/protocol/ICMPEchoHeader.java:28-50 | null if and only if it is no echo, an exception if and only if there is no data |
| Icmp.MessageBytes | src/protocol/ICMPEchoHeader.java:51-84 | type, code, identifier, sequence number and data at the offsets of RFC 792, requests and replies alike |
| Icmp.MessageValid | src/protocol/ICMPEchoHeader.java:82-84 | a receiver accepts the message if and only if the fold did not carry |
| Icmp.HandlePacket | src/protocol/ICMPEchoHeader.java:91-107 | requests are not recognised, short headers throw, replies give identifier, sequence and data |
| Icmp.ParsedExactly | src/protocol/ICMPEchoHeader.java:91-107 | each outcome with the exact condition for it |
| Icmp.RoundTrip | src/protocol/ICMPEchoHeader.java:28-107 | an echo reply comes back with identifier, sequence and data; a request is refused |
| Ip.CreateHeader | src/protocol/IPProtocolLayer.java:29-129 | the twenty bytes for every field map without options, or null |
| Ip.MadeExactly | src/protocol/IPProtocolLayer.java:50-126 | null if and only if data length, protocol or destination is missing; nothing throws |
| Ip.HeaderBytes | src/protocol/IPProtocolLayer.java:29-129 | version, total length, identification, time to live, protocol and addresses at the offsets of RFC 791, with their defaults |
| Ip.HeaderValid | src/protocol/IPProtocolLayer.java:97-126 | a receiver accepts the header if and only if the fold did not carry |
| Ip.HeaderCarries | src/protocol/IPProtocolLayer.java:122-124 | an ordinary header that a receiver rejects |
| Ip.HeaderBits | src/protocol/IPProtocolLayer.java:40-82 | service byte and flag word of a created header give back code point, congestion bits, flags and offset if and only if these fit their bits |
| Ip.FragmentOffsetSent | src/protocol/IPProtocolLayer.java:75-82 | in a frame around a created header the captor reads the offset that was set if and only if it is below 8192, whatever the flags |
| Ip.HandlePacket | src/protocol/IPProtocolLayer.java:132-211 | the joined halves give source, destination, protocol and payload; not ours, too short and negative lengths told apart |
| Ip.HandledExactly | src/protocol/IPProtocolLayer.java:138-209 | a packet is passed over if and only if it is for another address, and accepted if and only if it is for ours and its two lengths fit the bytes there are |
| Jpcap.NativeSendPacket | api/jpcap/Jpcap-master/src/main/c/JpcapSender.c:156-172 | the frame is the destination MAC, the source MAC, the type, the data, and zeros up to 60 bytes |
| Jpcap.TransportProtocol | api/jpcap/Jpcap-master/src/main/c/JpcapCaptor.c:699-735 | what tproto holds after the checks at lines 726-735 and 788-793 |
| Jpcap.SplitPoint | api/jpcap/Jpcap-master/src/main/c/JpcapCaptor.c:835-889 | where data ends up pointing and what is left, with the C types written out |
| Jpcap.GetPacket | api/jpcap/Jpcap-master/src/main/c/JpcapCaptor.c:696-903 | header and data are the captured prefix of length 14 + min(ip_len, caplen - 14), cut behind the transport header, if and only if it is not the case that the transport header is truncated and the packet longer than the capture |
| Jpcap.TruncatedNotSplit | api/jpcap/Jpcap-master/src/main/c/JpcapCaptor.c:726-735 | a 38-byte capture of a 100-byte packet on which it fails |
| Jpcap.UnclampedExactly | api/jpcap/Jpcap-master/src/main/c/JpcapCaptor.c:726-735 | the failing condition on raw bytes |
| Jpcap.SplitsLayers | api/jpcap/Jpcap-master/src/main/c/JpcapCaptor.c:835-903 | Ethernet, IP and transport header, data and padding laid end to end by RFC 791, 793, 768 and 792 are cut behind the transport header, and the padding is dropped |
| Stack.HandleIpPacket | src/protocol/ProtocolManager.java:191-222 | what reaches the UDP and echo parsers after packet.header has been replaced by the IP payload |
| Stack.DroppedExactly | src/protocol/ProtocolManager.java:191-222 | what is dropped and what reaches the ICMP and UDP parsers, each with its exact condition |
| Stack.PayloadRecovered | src/protocol/IPProtocolLayer.java:138-209 | from a full capture the IP layer recovers exactly the bytes behind its header up to the total length, padding removed |
| Stack.DataIsPayloadTail | src/protocol/ProtocolManager.java:203 | after the replacement packet.data is the payload without its first eight bytes if and only if the packet is a first fragment |
| Stack.AcceptedExactly | src/protocol/IPProtocolLayer.java:202-208 | a packet for us gets past the IP layer if and only if it was captured whole and its length is at most 32767 |
| Stack.UdpOverTheWire | src/protocol/UDPProtocolLayer.java:26-78 | built, framed, padded, captured, split, joined and parsed, every payload up to IP length 1586 comes back with its ports and source address, on the host whose MAC the frame is addressed to and on no other |
| Stack.OverTheWire | src/datalinklayer/DataLinkLayer.java:71 | a host takes a frame if and only if its first six bytes are its own MAC or the broadcast address; then it delivers what was captured |
| Stack.EchoReplyOverTheWire | src/protocol/ICMPEchoHeader.java:28-107 | the same for an echo reply |
| DnsNames.NameAtExact | src/Application/DNSApplication.java:347-368 | a reader whose measure is segment start, then bytes left, finds exactly the names of section 4.1.4 of RFC 1035 with pointers below 128 that go back; they are unique |
| DnsNames.ReadStringContent | src/Application/DNSApplication.java:347-368 | text, cursor and exception for every message, position and stack depth; calls on duplicated buffers do not move the caller's cursor |
| DnsNames.ReadLoopReads | src/Application/DNSApplication.java:350-367 | every legal name with low pointers is read, given stack for its pointers, and the cursor ends behind its own bytes |
| DnsNames.JavaTextDotted | src/Application/DNSApplication.java:360-366 | the text is the dotted name, plus one dot if and only if a label is followed by a pointer to the root |
| DnsNames.StrayDot | src/Application/DNSApplication.java:364-366 | a legal message on which the stray dot is printed |
| DnsNames.NameDecoding | src/Application/DNSApplication.java:347-379 | the two combined, with at most as many nested calls as the name's offset |
| DnsNames.PointerFollowed | src/Application/DNSApplication.java:351-357 | a pointer that RFC 1035 reads as a target leads the reader there if and only if the target is below 128; otherwise to its low byte, or to an exception when that is negative |
| DnsNames.HighPointerRefused | src/Application/DNSApplication.java:352-355 | a legal message whose pointer to offset 128 is refused |
| DnsNames.OverflowsExactly | src/Application/DNSApplication.java:347-368 | a stack of d calls overflows if and only if d + 1 pointers can be followed |
| DnsNames.TerminatesExactly | src/Application/DNSApplication.java:347-368 | on any bytes every stack overflows if the chain of pointers comes back to itself within 129 hops, and otherwise none of 128 calls or more does |
| DnsNames.MoreStack | src/Application/DNSApplication.java:347-368 | a read that does not overflow is the same with any larger stack |
| DnsNames.BackwardTerminates | src/Application/DNSApplication.java:347-368 | when the pointers met go back, as many nested calls as the segment's offset are enough |
| DnsNames.SelfPointerOverflows | src/Application/DNSApplication.java:351-357 | a pointer to itself overflows every stack |
| DnsNames.MutualPointersOverflow | src/Application/DNSApplication.java:351-357 | so do two pointers at each other |
| DnsQuestion.QuestionFits | src/Application/DNSApplication.java:95-96 | for every name the array is never overrun, and it is filled if and only if the name does not end in a dot |
| DnsQuestion.ConstructQuestion | src/Application/DNSApplication.java:93-112 | the labels behind their lengths, the end, type and class, for every name |
| DnsQuestion.TrailingDotLost | src/Application/DNSApplication.java:95-96 | a name with a dot behind it gives the question of the name without it, and a zero byte more |
| DnsQuestion.ReadQuestionsLoop | src/Application/DNSApplication.java:252-266 | the questions read, the cursor behind them, or the exception, for every count |
| DnsQuestion.QueriesRefine | src/Application/DNSApplication.java:252-266 | for every list of questions laid out by RFC 1035 the loop yields name, type and class of each, in order |
| DnsQuestion.DottedPieces | src/Application/DNSApplication.java:96-105 | splitting any name at its dots and joining what its labels are printed as changes nothing but the characters that a byte cannot carry |
| DnsQuestion.WireEncodes | src/Application/DNSApplication.java:98-108 | the encoder's bytes spell the name in the sense of RFC 1035, wherever they stand |
| DnsQuestion.QuestionRoundTrip | src/Application/DNSApplication.java:93-112 | for every name with labels of 1 to 63 characters of any kind `readQuestions(1)` returns type 1, class 1 and the name as bytes print it, and uses every byte; that is the name itself if and only if every character is below 128 or at least 0xff80 |
| DnsQuestion.AccentLost | src/Application/DNSApplication.java:104 | the name that is the one character 233 comes back as 65513 |
| DnsAnswers.ReadAnswersLoop | src/Application/DNSApplication.java:281-340 | the answers read, the cursor behind them, or the exception, for every count |
| DnsAnswers.AnswerReads | src/Application/DNSApplication.java:291-337 | each turn on a record whose owner is a pointer and whose data is an address or a name consumes exactly 12 + RDLENGTH bytes |
| DnsAnswers.AnswersRefine | src/Application/DNSApplication.java:281-340 | the loop yields exactly the record list, in order |
| DnsAnswers.AddressesShown | src/Application/DNSApplication.java:324-331 | the addresses are the data of the A records, in order |
| DnsAnswers.AlignedExactly | src/Application/DNSApplication.java:318-337 | for a record as RFC 1035 lays it out, of any type and data length n, with a pointer as owner, a turn ends behind the record if and only if it is an address with n = 4, a CNAME whose name takes n bytes, or of another type with n = 0 |
| DnsAnswers.TextRecordMisread | src/Application/DNSApplication.java:318-337 | a text record of one byte that is not skipped |
| DnsAnswers.OwnerExactly | src/Application/DNSApplication.java:291-307 | a legal owner name without characters of 192 or more is read as what it spells, with the cursor behind it, if and only if it is a pointer |
| DnsAnswers.RootOwnerMisread | src/Application/DNSApplication.java:291-307 | an owner that is the root is read one byte too far |
| DnsAnswers.OwnerByAccident | src/Application/DNSApplication.java:291-307 | the bound on characters is needed: a name whose character 192 is followed as a pointer back to the name |
| DnsAnswers.HandleData | src/Application/DNSApplication.java:185-218 | the whole message: id check, counts, questions, answers |
| DnsAnswers.IgnoredExactly | src/Application/DNSApplication.java:193-197 | a message is ignored if and only if its transaction id is another |
| DnsAnswers.HeaderCutShort | src/Application/DNSApplication.java:192-211 | a message of this client's that ends in its header makes the reader throw |
| DnsAnswers.MessageRefines | src/Application/DNSApplication.java:185-218 | every message of this client's, its questions and its A and CNAME records laid out by RFC 1035, is shown as exactly those lists |
| DnsAnswers.LoopOverflows | src/Application/DNSApplication.java:185-218 | a first question whose pointers come back to themselves overflows every stack |
| DnsAnswers.ReplyResolves | src/Application/DNSApplication.java:185-340 | for every legal name the reply that repeats this client's question and answers with a list of addresses is shown as that name, as bytes print it, with exactly those addresses, their class, lifetime and length, if it bears the query's id; otherwise it is ignored |
| Arp.MakeRequest | src/protocol/ARPProtocolLayer.java:174-226 | the 28 bytes of a request for an address, each field of RFC 826 at its offset |
| Arp.Analyse | src/protocol/ARPProtocolLayer.java:67-131 | entry, no entry, or an index out of bounds, for every header |
| Arp.AnalysedExactly | src/protocol/ARPProtocolLayer.java:73-105 | on a full header an entry is made if and only if it is a reply whose target is ours |
| Arp.CrashesExactly | src/protocol/ARPProtocolLayer.java:67-105 | an index runs out of bounds if and only if the header ends before its opcode, or is a reply that ends inside a target address equal to ours so far |
| Arp.RequestAnswered | src/protocol/ARPProtocolLayer.java:174-226 | the answer to our request gives the asked-for address with the answerer's MAC |
| ProtocolManager.Manager.SendData | src/protocol/ProtocolManager.java:126-139 | the step of a send, with the router known or not |
| ProtocolManager.Manager.ReceivePacket | src/protocol/ProtocolManager.java:156-189 | the step of a received packet; the null entry a foreign ARP packet leaves |
| ProtocolManager.Manager.SendWaitingData | src/protocol/ProtocolManager.java:284-296 | each waiting packet goes out once, in any order, and the table is emptied |
| ProtocolManager.RunConsistent | src/protocol/ProtocolManager.java:99-139 | in every reachable state the router's MAC is that of its latest accepted reply; while it is unknown each address waits with its last packet; once it is known nothing waits |
| ProtocolManager.RouterStaysKnown | src/protocol/ProtocolManager.java:99-101 | once known, the router's MAC never becomes unknown |
| ProtocolManager.FramesCarryLatestMac | src/protocol/ProtocolManager.java:126-139 | every IP frame that is not a requested broadcast carries the MAC of the latest accepted reply from the router |
| ProtocolManager.StartsAsking | src/protocol/ProtocolManager.java:60-92 | every run begins with one broadcast request for the router's address |
| ProtocolManager.EventFrames | src/protocol/ProtocolManager.java:126-149 | over every run, a send while no reply of the router has been accepted adds exactly one frame, a broadcast ARP request for the router; later sends and broadcasts add their own IP frame to the latest MAC or to everyone; received packets add IP frames only |
| ProtocolManager.CacheExactly | src/protocol/ProtocolManager.java:170-179 | in every reachable state the cache holds for each address the MAC of its latest accepted reply and nothing else, and a null entry once another complete ARP packet was seen |
| ProtocolManager.FlushKeeps | src/protocol/ProtocolManager.java:290-294 | flushing in any order puts exactly the waiting packets on the wire |
| ProtocolManager.Conservation | src/protocol/ProtocolManager.java:126-139 | over every run, packets handed over are those sent, those waiting and those replaced while waiting |
| ProtocolManager.SentNoMoreThanAccepted | src/protocol/ProtocolManager.java:284-296 | no packet goes out more often than it was handed over |
| ProtocolManager.OwnRequestReleases | src/protocol/ProtocolManager.java:170-179 | the router's answer to this stack's own request sends everything that waits |
| Tftp.Client.HandleData | src/Application/TFTPClient.java:154-177 | the whole state after one datagram, short and foreign ones included |
| Tftp.Client.SendAck | src/Application/TFTPClient.java:237-253 | the IP packet of an acknowledgement to the sender's port |
| Tftp.Client.SendReadPacket | src/Application/TFTPClient.java:75-98 | the IP packet of a read request, or the exception for a name that does not fit |
| TftpTransfer.ReadPacketBytes | src/Application/TFTPClient.java:47-147 | for every name that fits it goes to port 69 of the server and carries opcode 1, the name and the mode |
| Tftp.LogRefinement | src/Application/TFTPClient.java:154-212 | with no delivery assumption the file is the payloads up to the first short one, and the acknowledgements are those of all DATA packets of at most 512 bytes, in order |
| Tftp.FieldsFollow | src/Application/TFTPClient.java:154-212 | after any packets the port is that of the last one with data, the block counter follows the last DATA packet, and the file is open if and only if no short block has come |
| TftpTransfer.AckFields | src/Application/TFTPClient.java:107-147 | the acknowledgement is UDP over IPv4 from 192.168.1.102, port 60706, to the server and the port it sends from, with opcode 4 and the block number |
| TftpTransfer.TransferCorrect | src/Application/TFTPClient.java:183-213 | after k blocks the file is the first min(512k, length) bytes, blocks 1 to k are acknowledged, and both sides agree, through any number of wraps of the block number |
| TftpTransfer.TransferCompletes | src/Application/TFTPClient.java:200-212 | after length/512 + 1 blocks the file is the source, multiples of 512 included |
| TftpTransfer.DeliveredExactly | src/Application/TFTPClient.java:183-213 | after any stop-and-wait delivery, each block arriving one or more times in a row, the file is the source if and only if no block but the last arrived twice; each further arrival adds 512 bytes |
| TftpTransfer.DuplicateDelivered | src/Application/TFTPClient.java:193-195 | such a delivery: one block other than the last arrives twice, and the file is not the source |
| DhcpOptions.ParseEncode | src/Application/DHCPApplication.java:713-727 | a reader of RFC 2132 gets back every encoded option list, without its pads |
| DhcpOptions.ReadOptionsLoop | src/Application/DHCPApplication.java:460-525 | the state and whether End was reached, on every byte array |
| DhcpOptions.StepAligned | src/Application/DHCPApplication.java:464-524 | a turn ends behind a legal option if and only if it is a pad or handled with its expected length |
| DhcpOptions.ReaderAligned | src/Application/DHCPApplication.java:460-532 | on pads and handled options the state is fixed by the one before and the last message type 2 or 5 |
| DhcpOptions.UnknownOptionMisread | src/Application/DHCPApplication.java:464-524 | an option list without a message type that moves the reader to ACK |
| Dhcp.ConstructFirstPart | src/Application/DHCPApplication.java:173-212 | the 236 bytes of the fixed part |
| Dhcp.ConstructDiscoverOptions | src/Application/DHCPApplication.java:217-332 | the options of the Discover, End and padding |
| Dhcp.ConstructRequestOptions | src/Application/DHCPApplication.java:618-728 | the options of the Request, with the four stray zero bytes behind option 50 |
| Dhcp.RequestWellFormed | src/Application/DHCPApplication.java:593-728 | for every MAC and offer the Request has 314 bytes, is a BOOTP request with the client's id and MAC, zeros elsewhere and the cookie at 236, and reads under RFC 2132 as exactly the eight intended options |
| Dhcp.DiscoverWellFormed | src/Application/DHCPApplication.java:173-332 | the Discover has 300 bytes, the same fixed part, and reads as exactly the six options of message type 1 for the device's address |
| Dhcp.Client.HandleData | src/Application/DHCPApplication.java:404-452 | the whole state after one datagram, truncated ones included |
| Dhcp.Client.Request | src/Application/DHCPApplication.java:593-611 | what a Request changes and sends |
| Dhcp.RunSendsRequests | src/Application/DHCPApplication.java:404-611 | over any well-formed replies, with noise between them, the state is decided by the last offer or acknowledgement in all their options, and exactly one Request goes out for each reply after which that is an offer: RFC 2132 reads it as the eight options for that reply's address, under the Discover's transaction id |
| Dhcp.SentOnlyOffers | src/Application/DHCPApplication.java:404-611 | over any datagrams at all, what goes out are such Requests for addresses that replies have named, in order and at most one for each |
| Dhcp.TransactionIdIgnored | src/Application/DHCPApplication.java:404-452 | two replies that differ in their transaction id only have the same effect |
| Dhcp.NeverDiscoverAgain | src/Application/DHCPApplication.java:470-485 | DISCOVER never comes back once left |
| Dhcp.RequestCarries | src/Application/DHCPApplication.java:593-611 | a Request packet goes from 0.0.0.0, port 68, to 255.255.255.255, port 67, and carries that Request |
| Dhcp.DiscoverCarries | src/Application/DHCPApplication.java:340-400 | so does the Discover packet, under the same transaction id |
| Dhcp.SuppliedExactly | src/Application/DHCPApplication.java:420-452 | over any datagrams the address kept is the last one that a BOOTP reply of at least 20 bytes has named |
| Dhcp.OptionsAreSent | src/Application/DHCPApplication.java:593-611 | the options kept change only with a Request that carries them |
| Dhcp.Handshake | src/Application/DHCPApplication.java:404-611 | an offer and an acknowledgement: exactly one Request, for the offered address, and the state ACK |

## Left out

- Ip.CreateHeader: the keys for the header length and for IP options; the stack never passes them, so only headers of 20 bytes are built.
- Ip.HandlePacket: the received bytes may have options, which are skipped by the header length and not interpreted, as in the source.
- Jpcap.GetPacket: only Ethernet captures of IPv4 with 34 to 32767 bytes; below that the C code reads outside the IP header, above it its short counters turn negative. ARP, IPv6 and raw links are not modelled, so `packet.header` of an ARP packet is an input to Arp.dfy.
- Jpcap.TransportProtocol: the same bounds and link type.
- Jpcap.SplitPoint: the same bounds.
- Jpcap.NativeSendPacket: frames above 1600 bytes, for which the C buffer is not checked.
- Stack.HandleIpPacket: the ICMP time stamp and time exceeded handlers, and the dispatch to several receivers.
- DnsAnswers.OwnerExactly: owners with characters of 192 or more, for which what is read depends on bytes elsewhere in the message.
- Dhcp.RunSendsRequests: replies whose option list ends early or holds options that are read out of step; Dhcp.SentOnlyOffers covers them.
- Printed text other than decoded names and addresses, the dump file, and properties files.
- Failure to create the download file in `getFile`, after which every write fails on a null stream; and the character set of its name, which is given as bytes.
- Text already printed when a name turns out malformed; the outcome is the exception alone.
- The DNS header builder and `queryDomain`: fixed bytes around parts that are modelled.
- PingApp, HPingApp, TraceRoute, ApplicationManager and PacketProvider: counters, lists and wrappers.
- TCP, sockets, JNI, device listing and threads.
