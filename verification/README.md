# A verified model of the TFTP client and server

The project models a TFTP client and server (RFC 1350 with the options of
RFC 2347, RFC 2348 and RFC 2349) in Dafny and proves what a transfer
guarantees, from option negotiation through the lock-step exchange of blocks to
the bytes in the file. `dafny verify dfyconfig.toml` checks everything.

## How the model is built

Transfer loops. `Sending` and `Receiving` describe the four loops as two
machines over events (a datagram that arrives, or a receive that expires). A
step is what the code does between two blocking receives. `Server` and
`ClientProgram` hold the loops themselves, as methods over mutable objects (the
socket with its back-off, the reader, the writer); each is proved to reach
exactly the state of its machine, for every list of events. Datagrams are byte
strings, printed and parsed by `Packets`; wire numbers have 16 bits, block
indices in the machines are unbounded. What the bytes of a datagram are, which
events count against the five retries, and what a request or an OACK written by
any other program leads to, is stated once more with literal bytes and numbers
(`PrintedBytes`, `ParseExactly`, `WaitExactly`, `ReceiverWaitExactly`,
`AnyRequest`, `AnyRequestServed`, `AnyOack`). `Greeting` says how a handshake ends;
`Sessions` gives a whole transfer at one end as a function of the events it
receives, which `Read`, `Write` and `AnswerRead` compute.

The system. `Protocol` puts a sender and a receiver together over a channel
that loses, duplicates, delays and reorders but does not forge: at any time an
end may receive any datagram the other has ever sent, or see its receive
expire; what the handshake sent stays in the channel. `RunsAreLoops` says that
each end of such a run is in the state its own loop reaches on the events
delivered to it. `hello` is what the receiver sends while it waits for block 1:
ACK 0, an OACK, or the request again. `Downloads` is a download with options, and
`Uploads` an upload, as one system from the first request; both are embedded in
`Protocol`. `ForeignPeers` is about receivers whose peer is another program, of
which only the DATA packets are known.

Results worth knowing before reading the proofs:

- DATA is sent once and never again (`EachBlockSentOnce`), and a block is
  accepted only from its own datagram (`NoBlockWithoutItsDatagram`), so one DATA
  datagram lost for good ends every transfer. What is repeated are the ACKs.
- The client's 16-bit counter wraps. Safety survives, because a receiver at
  block 65535 accepts nothing more. Success does not: a client that has sent
  more than 65535 blocks can be carried to a normal end by stale ACKs, unless
  the handshake was by OACK, which leaves no ACK 0 in the channel
  (`UploadAgreement`, an if and only if).
- The server forgives a missing last ACK, so its success never implies delivery
  of the last block (`DownloadAgreement`, `DownloadSuccessIsWeaker`).
- A read request is repeated up to five times, a write request is sent once, and
  a first receive that expires is taken for a grant (`Open`, `Write`). But the
  client then does not know the handler's port: such an upload never gets a block
  across (`FallingThroughFails`), and an upload in which neither end has given up
  can be completed exactly when that has not happened (`CompletableExactly`).
- Completion is possible exactly below 65535 full blocks (`DeliverableExactly`),
  and then no state in which neither end has given up is a deadlock (`Progress`,
  `AlwaysCompletable`). With options this holds from the first request on
  (`DownloadableExactly`, `DownloadCompletable`), although the OACK is sent once
  and nothing comes without it (`OackSentOnce`, `NothingWithoutOack`).
- An option that the server does not know is dropped from the OACK and the others
  are granted, as section 2 of RFC 2347 asks (`AnyRequestServed`). A client goes on
  with an OACK that grants fewer options than it asked for; the test that counts
  the options refuses nothing else, since names are distinct (`AcceptExactly`).
- A wait ends with the fifth expired receive or stale packet and not before
  (`WaitExactly`, `ReceiverWaitExactly`, `GreetExactly`, `WelcomeExactly`).
- A client answered by DATA keeps the block size it asked for. From a server that
  ignores options and sends 512 bytes a block it gets the file only if it asked
  for 512, or if the file fits one block that is short for the client
  (`IgnoredOptionsExactly`, an if and only if).
- The client asks for octets whatever its mode, and the server's Writer is in
  octet mode for it: this client never makes a netascii upload. Its own Writer
  does decode in netascii mode, so it decodes the server's raw file, block by
  block, and once it can write the last block it has the file unchanged exactly
  when that has no CR followed by LF or NUL (`NetasciiModeDownload`).
  `NetasciiUpload` is about other clients.
- `WriteFile` indexes an empty vector exactly when it gets an empty chunk with
  nothing held back (`Accepts`). In the blocks of a netascii transfer that is when
  the block size divides the length of the stream and the stream does not end in
  CR or CR NUL (`StreamInBlocks`).
- The file written from netascii chunks is the decoding of their stream exactly
  when no chunk boundary falls right behind a CR NUL that LF or NUL follows
  (`ChunkingExact`, for every list of chunks); each file has a spoiling boundary
  for some chunking exactly when its stream has such a place at all
  (`StreamingExact`).

Where code and documentation disagree the model follows the code. The
repository's README says the timeout option sets how long both ends wait before
retransmitting; the code gives the value to the socket only, and the first
back-off or reset discards it (`BackedOff`), and DATA is not retransmitted at
all. The comment above `ValidateOptionsInOack` allows a lower timeout; the code
requires the same one (`ValidateExactly`). Comments in `Read` say that a client
answered by DATA goes on with the default block size; the code keeps the one it
asked for (`IgnoredOptionsExactly`).

## Model

| member | source | states |
|---|---|---|
| Protocol.TransferIsSafe | src/tftp-server/ClientHandler.cpp:273-427 | In every run, upload or download, of any length, the receiver's file is a prefix of the content made of the first r blocks, and is the whole content exactly when the receiver ended normally or lacks only an empty last block |
| Protocol.AlwaysInv | src/tftp-client/Write.cpp:111-190 | Invariant of all runs: s-1 <= r <= s up to the wrap of the counter, r <= 65535, accepted blocks are the content's own, only sent blocks and received blocks' ACKs in the channel, no malformed packet, and a download's sender never passes block 65536 |
| Protocol.SenderStepInv | src/tftp-client/Write.cpp:145-190 | A sender step on any datagram the receiver's end has ever sent, in the handshake or since, keeps the invariant |
| Protocol.ReceiverStepInv | src/tftp-client/Read.cpp:145-211 | A receiver step on any datagram the sender's end has ever sent, a late OACK or request included, keeps the invariant: no block is skipped, repeated or taken from a later lap of the wire numbers |
| Protocol.NextBlock | src/tftp-client/Read.cpp:158-190 | A wire number that equals the awaited block in int arithmetic belongs to that very block, and none is past it |
| Protocol.AwaitedAck | src/tftp-client/Write.cpp:152-168 | An ACK that matches the sender's counter acknowledges the block being sent, or the uint16_t counter has wrapped and ACK 0 is in the channel |
| Protocol.RunsAreLoops | src/tftp-server/ClientHandler.cpp:165-236 | Each end of every run is in the state its own loop reaches on the events delivered to it |
| Agreement.UploadAgreement | src/tftp-client/Write.cpp:111-190 | A client's normal end implies delivery in every run if and only if the file has at most 65535 blocks or the receiver's hello is not ACK 0 |
| Agreement.DownloadAgreement | src/tftp-server/ClientHandler.cpp:184-236 | A server's normal end implies all blocks but perhaps the last were received, and all of them when the last ACK came (section 6 of RFC 1350) |
| Agreement.DownloadSuccessIsWeaker | src/tftp-server/ClientHandler.cpp:227-232 | A server's normal end implies full delivery only for files so long that it never ends normally: for every shorter file some run loses the last block |
| Agreement.UploadMayFailDelivered | src/tftp-server/ClientHandler.cpp:423-427 | For every deliverable upload some run delivers everything and yet times out at the client: the final ACK is sent once |
| Agreement.DeliverableExactly | src/tftp-server/ClientHandler.cpp:352-427 | Some run delivers the content and ends normally if and only if the content is shorter than 65535 full blocks |
| Agreement.FutureBlockExactly | src/tftp-client/Write.cpp:162-168 | The receiver's future-block abort is unreachable; the sender's is reachable exactly for uploads of more than 65535 blocks |
| Agreement.Progress | src/tftp-client/Read.cpp:142-217 | From every reachable state of at most 65535 blocks in which neither end gave up, delivering a datagram already sent in the data phase lowers the remaining work by exactly one |
| Agreement.AlwaysCompletable | src/tftp-client/Write.cpp:122-190 | Every such run extends, by deliveries alone and in exactly the remaining number of steps, to one that delivers everything with both ends finished |
| Agreement.NoBlockWithoutItsDatagram | src/tftp-server/ClientHandler.cpp:367-399 | A block counts as received only if the one DATA datagram that carries it was delivered |
| Downloads.AlwaysEmbedded | src/tftp-server/ClientHandler.cpp:121-237 | Every run of client and server from the first request, with lost, repeated and reordered handshake datagrams, contains a legal run of the data phase that both ends follow; a client without an answer or refused has none |
| Downloads.DownloadIsSafe | src/tftp-client/Read.cpp:8-217 | In every such run the client's file is a prefix of the content, is the content when either end saw the end of the transfer, and lacks at most the last block when the server ended normally |
| Downloads.DownloadCompletable | src/tftp-client/Read.cpp:8-217 | From every state of such a run in which neither end gave up, handshake included, deliveries of datagrams already sent complete a download of at most 65535 blocks in exactly the number of steps left |
| Downloads.DownloadableExactly | src/tftp-server/ClientHandler.cpp:121-237 | From the first request some run delivers the content if and only if it is shorter than 65535 full blocks |
| Downloads.NothingWithoutOack | src/tftp-server/ClientHandler.cpp:121-160 | The client holds a block only if the OACK was delivered to it and ACK 0 to the server |
| Downloads.OackSentOnce | src/tftp-server/ClientHandler.cpp:121-160 | The server sends the OACK first and never again, however often the request is repeated |
| Uploads.AlwaysEmbedded | src/tftp-client/Write.cpp:8-98 | Every run of client and server from the write request contains a legal run of the data phase that both ends follow, whether the first receive at the client brought the hello, an ERROR packet or nothing in time |
| Uploads.UploadIsSafe | src/tftp-server/ClientHandler.cpp:239-430 | In every such run the server's file is a prefix of the content, and the content when the server ended normally, and when the client did, but for more than 65535 blocks with ACK 0 as hello |
| Uploads.UploadSuccessExactly | src/tftp-client/Write.cpp:8-191 | From the request on, the client's normal end means that the server has the file if and only if the file has at most 65535 blocks or the hello is not ACK 0 |
| Uploads.UploadableExactly | src/tftp-client/Write.cpp:8-191 | From the request on, some run delivers the content with both ends ended normally if and only if it is shorter than 65535 full blocks |
| Uploads.UploadCompletable | src/tftp-client/Write.cpp:8-191 | From every state in which neither end gave up and the client's first receive has not expired, deliveries complete an upload of at most 65535 blocks in exactly the number of steps left |
| Uploads.FallingThroughFails | src/tftp-client/Write.cpp:84-97 | After the client's first receive expired the server never gets a block and the client ends only by time-out |
| Uploads.CompletableExactly | src/tftp-client/Write.cpp:84-97 | A run of an upload of at most 65535 blocks in which neither end gave up can be completed if and only if the client's first receive has not expired |
| Sending.EachBlockSentOnce | src/tftp-client/Write.cpp:139-145 | Whatever arrives, the datagrams sent are DATA 1, 2, ..., s, each once, then at most one ERROR (section 4.2.3.1 of RFC 1123) |
| Sending.ServerCounterBounded | src/tftp-server/ClientHandler.cpp:162-196 | Whatever arrives, the server's int counter stays at most 65536 |
| Sending.SenderTerminates | src/tftp-server/ClientHandler.cpp:165-236 | Whatever arrives, a sender of N blocks has ended after 5*N events other than packets with an unexpected opcode (WaitExactly says that no wait ends sooner) |
| Sending.WaitExactly | src/tftp-client/Write.cpp:145-186 | Through any events of one wait that bring neither the awaited ACK nor an end, a sender runs on while fewer than five of them are expired receives or stale ACKs, and has given up once five are; a server that waits for its last ACK then ends as done |
| Sending.ReactExactly | src/tftp-server/ClientHandler.cpp:184-226 | For every event in every wait: which leave the sender as it is, which count, which ACK moves it on, which end it and how, and what is sent |
| Sending.SenderBacksOff | src/tftp-server/ClientHandler.cpp:176-235 | In each wait loop the timeout is 2^retries seconds, except a first wait that an option set; expired waits total at most 31 seconds per block beyond that |
| Receiving.ReceiverSoundness | src/tftp-client/Read.cpp:142-211 | Against any peer, the payloads written are those of arrived DATA packets numbered exactly 1, 2, ..., r in order, full-sized but for a short one that ends the transfer, with r <= 65535 |
| Receiving.ReceivedSize | src/tftp-client/Read.cpp:185-211 | A transfer that ends normally has at least (r-1)*blksize and at most 65535*blksize - 1 bytes, and fewer than r*blksize |
| Receiving.AcknowledgesAccepted | src/tftp-server/ClientHandler.cpp:355-362 | Whatever arrives, only hello, ACKs of accepted blocks and the ERROR of an abort are sent, and every accepted block is acknowledged |
| Receiving.ReceiverTerminates | src/tftp-server/ClientHandler.cpp:352-422 | Whatever arrives, a receiver has ended after 5*65536 counted events (ReceiverWaitExactly says that no wait ends sooner) |
| Receiving.ReceiverWaitExactly | src/tftp-client/Read.cpp:145-206 | Through any events of one wait without the awaited block and without an end, a receiver runs on while fewer than five of them are expired receives or old blocks, and has timed out once five are |
| Receiving.RespondExactly | src/tftp-server/ClientHandler.cpp:352-418 | For every event in every wait: which only repeat the last datagram, which count, which DATA is accepted with its payload, which end the receiver and how, and what is sent |
| Receiving.ReceiverBacksOff | src/tftp-client/Read.cpp:142-211 | The receiver's timeouts are 2^retries seconds and its expired waits total at most 31 seconds per block, beyond a first wait that an option set |
| Server.ClientHandler.SendFile | src/tftp-server/ClientHandler.cpp:162-237 | The nested loops end with the outcome, the datagrams sent and the clock of the sender machine with an int counter, for every list of events |
| Server.ClientHandler.AnswerRead | src/tftp-server/ClientHandler.cpp:121-237 | Outcome, datagrams and clock of a read request served in full: by data at once without options, or by one OACK, the wait for ACK 0 and then the sender machine with all timeouts back at one second |
| Server.ClientHandler.AwaitAckZero | src/tftp-server/ClientHandler.cpp:123-160 | The wait for ACK 0 ends as WelcomeExactly describes, with the OACK sent once; expired receives double the timeout, repeated requests do not |
| Server.ClientHandler.ReceiveFile | src/tftp-server/ClientHandler.cpp:260-430 | Both receive loops end with the outcome, datagrams, clock and written payloads of the receiver machine, for every list of events |
| Server.ClientHandler.FollowOnWRQ | src/tftp-server/ClientHandler.cpp:239-430 | Whatever arrives and however the upload ends, the closed file is the concatenation of the accepted payloads in octet mode; in netascii mode it is their decoding if and only if no payload ends right behind a CR NUL that LF or NUL follows, and their concatenation if and only if that has no CR followed by LF or NUL |
| Server.ClientHandler.AwaitAck | src/tftp-server/ClientHandler.cpp:176-226 | One wait for an ACK follows the machine through retries and ends in one of four stated ways |
| Server.ClientHandler.AwaitFirst | src/tftp-server/ClientHandler.cpp:273-346 | The wait for block 1, answering with OACK or ACK 0, follows the receiver machine with no block accepted |
| Server.ClientHandler.AwaitNext | src/tftp-server/ClientHandler.cpp:355-418 | The wait for the next block follows the receiver machine and hands its payload to the Writer |
| Server.ClientHandler.NegotiateOptions | src/tftp-server/ClientHandler.cpp:432-456 | Fields and result are those of the negotiation that NegotiateExactly characterises, unsupported options and a tsize that std::stoi rejects included |
| Negotiation.NegotiateExactly | src/tftp-server/ClientHandler.cpp:432-456 | For every list of options the negotiation throws if and only if a supported option's value does not convert with std::stoi; otherwise it grants the supported ones in their order, drops the others, and sets each field from the last option that names it |
| ClientProgram.TftpClient.Read | src/tftp-client/Read.cpp:8-217 | Outcome, datagrams, clock and written payloads of a whole download, for every list of events: answered by DATA it is the receiver machine with the request as hello from the first event on; answered by an OACK, requests and then the receiver machine with ACK 0 and the negotiated block size; otherwise nothing is written |
| ClientProgram.TftpClient.AwaitAnswer | src/tftp-client/Read.cpp:25-129 | The request loop ends as GreetExactly describes; options are dropped on an answer by DATA, taken from an OACK, kept otherwise |
| ClientProgram.TftpClient.Write | src/tftp-client/Write.cpp:8-191 | Outcome, datagrams and clock of a whole upload, for every list of events: the request is sent once, and the data phase is the sender machine under the granted options, also when the receive after the request expires |
| ClientProgram.TftpClient.SendData | src/tftp-client/Write.cpp:100-191 | The nested loops end with the outcome, datagrams and clock of the sender machine whose counter wraps at 65536 |
| ClientProgram.TftpClient.AwaitAck | src/tftp-client/Write.cpp:145-182 | One wait for an ACK, compared with the wrapped counter, follows the machine |
| ClientProgram.TftpClient.ReceiveData | src/tftp-client/Read.cpp:142-217 | The data loop, from block 0 after an OACK or from block 1 after an answer by DATA, ends with the outcome, datagrams, clock and written payloads of the receiver machine; its uint16_t counter does not overflow |
| ClientProgram.TftpClient.TakeOack | src/tftp-client/Read.cpp:78-107 | Options and fields change to those of an OACK that AcceptExactly characterises, or not at all |
| Negotiation.AcceptExactly | src/tftp-client/Read.cpp:78-89 | Any byte string is accepted as an OACK if and only if it parses and each option in it was asked for on acceptable terms, however few there are: what the comparison of the two counts refuses would be refused without it |
| Negotiation.AcceptFault | src/tftp-client/TftpClient.cpp:175-222 | The first option that is not acceptable decides what a refused OACK throws: the uncaught exception of std::stoi where it cannot be compared, illegal operation otherwise |
| Negotiation.AnyOack | src/common/TftpPacketStuff/OackPacket.cpp:10-77 | An OACK with any fields, from any server, is accepted if and only if its names, in any case, are distinct, its values are legal and not empty, and each option is acceptable; its options are then the ones written, folded |
| Negotiation.PrintedOack | src/common/TftpPacketStuff/OackPacket.cpp:79-93 | A printed OACK is bytes 0, 6 and the options as text, and the client accepts it if and only if each of them is acceptable to the request |
| ClientProgram.TftpClient.ValidateOptionsInOack | src/tftp-client/TftpClient.cpp:184-221 | The nested loops decide exactly the validation proved in ValidateExactly |
| ClientProgram.TftpClient.SetupUdpClient | src/tftp-client/TftpClient.cpp:89-103 | Block size and timeouts become those of the last options that name them |
| Udp.UdpClient.IncreaseTimeout | src/common/udp/UdpClient/UdpClient.cpp:73-76 | timeout_ doubles and the socket follows it, whatever an option had set |
| Udp.UdpClient.TimeoutReset | src/common/udp/UdpClient/UdpClient.cpp:78-81 | Both return to one second |
| Packets.ParsePrintData | src/common/TftpPacketStuff/DataPacket.cpp:13-53 | A printed DATA packet, received and parsed, gives its 16-bit number and its whole payload for every legal block size (PrintedBytes says which bytes it has) |
| Packets.ParsePrintAck | src/common/TftpPacketStuff/AckPacket.cpp:11-34 | A printed ACK parses to its block number in 16 bits (PrintedBytes says which bytes it has) |
| Packets.ParseIsBounded | src/common/TftpPacketStuff/DataPacket.cpp:20-27 | Any datagram parses to numbers below 65536 and a payload cut to the block size |
| Packets.PrintedBytes | src/common/TftpPacketStuff/DataPacket.cpp:33-53 | DATA is 0, 3, the number in two bytes, high byte first, and the payload; ACK is 0, 4 and the number; ERROR begins with 0, 5 (section 5 of RFC 1350) |
| Packets.ParseExactly | src/common/TftpPacketStuff/TftpPacket.cpp:13-40 | What any datagram parses to, by its bytes: the kind from the first two, what is too short or has an unknown opcode or error code, the number, and the payload up to the block size |
| EndToEnd.EndSeenExactly | src/common/TftpPacketStuff/DataPacket.cpp:20-53 | After print, receive and parse a block is short exactly when it is number len/blksize + 1, the last |
| EndToEnd.NegotiatedUploadIsSound | src/tftp-client/Write.cpp:8-98 | The request that a client prints leads to an upload that is safe from the request on; the client's success means delivery exactly when an option was negotiated or the content is shorter than 65535 full blocks of the size asked for, and some run delivers it exactly when it is |
| EndToEnd.NegotiatedDownloadIsSound | src/tftp-server/ClientHandler.cpp:121-237 | The request that a client prints, with options, leads to a download that is safe from the first request on; some run delivers the content if and only if it is shorter than 65535 full blocks of the size asked for |
| EndToEnd.PlainDownloadIsSound | src/tftp-client/Read.cpp:49-75 | Without options, where DATA 1 answers the request, in every run the client's whole Read holds a prefix of the content, the content when it ended normally; some run delivers it if and only if it is shorter than 65535 blocks of 512 bytes |
| EndToEnd.PlainRunsAreSessions | src/tftp-client/Read.cpp:25-75 | In every legal run of such a download the receiver's outcome, payloads, datagrams and clock are those of the client's whole Read, request loop included, and the sender's those of the server's whole answer |
| EndToEnd.NetasciiModeDownload | src/tftp-client/Read.cpp:10-13 | A client in netascii mode can write the server's raw file if and only if the block size does not divide its length or it ends in CR or CR NUL; it then has the decoding if and only if no block ends in CR NUL before one that begins with LF or NUL, and the file itself if and only if that has no CR followed by LF or NUL |
| ForeignPeers.IgnoredOptionsExactly | src/tftp-client/Read.cpp:49-75 | From a server that ignores options, in 512-byte blocks, a normal end with the whole content is possible if and only if the client asked for 512 bytes and the file is shorter than 65535 of them, or the file fits one block and is shorter than the client's block size |
| ForeignPeers.ServedInOrder | src/tftp-server/ClientHandler.cpp:352-427 | From any peer whose DATA packets are those of at most 65535 blocks, in any order and number, the accepted payloads are the first blocks in order, all of them exactly when the transfer ends normally |
| ForeignPeers.NetasciiUpload | src/common/IO/Writer.cpp:36-65 | A netascii upload by another program that sends an encoding of its source, once ended normally, can be written if and only if the last block is not empty or the source ends in CR; the file is then the source with CR LF as LF if and only if no block ends in CR NUL before one that begins with LF or NUL |
| FileReader.ChopIsExact | src/common/IO/Reader.cpp:130-138 | Reading to the first short block gives len/n + 1 blocks, all but the last full, whose concatenation is the file |
| FileReader.ChopPrefix | src/common/IO/Reader.cpp:130-138 | The first r blocks are the first r*n bytes, all of them the file |
| FileReader.Reader.ReadFile | src/common/IO/Reader.cpp:130-138 | Returns the next bytes up to the number asked for, fewer only at the end, and moves the position past them |
| Netascii.FormatToNETASCII | src/common/IO/IOCommon.cpp:8-31 | The index loop computes the encoding whose laws follow |
| Netascii.FormatFromNETASCII | src/common/IO/IOCommon.cpp:33-51 | The index loop computes the decoding whose laws follow |
| Netascii.RoundTrip | src/common/IO/IOCommon.cpp:8-51 | Decoding an encoding gives the source with CR LF as LF, hence the source exactly when it has no CR LF |
| Netascii.DecodeShortens | src/common/IO/IOCommon.cpp:33-51 | Decoding never lengthens, and leaves a stream as it is exactly when it has no CR followed by LF or NUL |
| Netascii.EncodeWellFormed | src/common/IO/IOCommon.cpp:8-31 | Every CR of an encoding is followed by LF or NUL, every LF preceded by CR, and its length is between one and two times the source's (section 1 of RFC 1350) |
| FileWriter.Writer.WriteFile | src/common/IO/Writer.cpp:36-65 | File and held-back CR change as one step of the incremental decoder |
| FileWriter.Writer.Close | src/common/IO/Writer.cpp:11-20 | The destructor appends what is held back |
| FileWriter.OctetWritesConcatenation | src/common/IO/Writer.cpp:41-56 | In octet mode the file is the concatenation of the chunks |
| FileWriter.DecodeSplit | src/common/IO/IOCommon.cpp:33-51 | How the decoding of two parts joined follows from each part, with an open CR carried over |
| FileWriter.StreamingInStep | src/common/IO/Writer.cpp:36-65 | After any chunks that can be written, file plus held byte are the decoding of the stream, with a CR held exactly when that ends in one, if and only if no boundary spoils the stream |
| FileWriter.ChunkingExact | src/common/IO/Writer.cpp:11-65 | For every list of chunks that can be written the closed file is no longer than the decoding of the stream, is that decoding if and only if no boundary falls behind a CR NUL that LF or NUL follows, and is the stream if and only if it has no CR followed by LF or NUL |
| FileWriter.WritableExactly | src/common/IO/Writer.cpp:41-54 | For chunks without a spoiling boundary, the calls of WriteFile stay within their vectors if and only if each empty chunk comes after CR or CR NUL |
| NetasciiBlocks.StreamInBlocks | src/common/IO/Writer.cpp:36-65 | For every stream in full blocks and a short one: when the calls of WriteFile stay within their vectors, when the file is the decoding of the stream, and when it is the stream, each as an if and only if on the content and the block size |
| FileWriter.StreamingExact | src/common/IO/Writer.cpp:11-65 | Every chunking that can be written writes the decoding of the stream if and only if no CR NUL in it is followed by LF or NUL |
| FileWriter.StreamingDecodesEncoding | src/common/IO/Writer.cpp:11-65 | For an encoded source that is: if and only if the source has no CR directly followed by NUL |
| Options.ParseOptions | src/common/TftpPacketStuff/ReadWritePacket.cpp:70-115 | The cursor loop returns the options, or the error, of the parser specified on suffixes, for both parsers |
| Options.MakeRawOptions | src/common/TftpPacketStuff/OackPacket.cpp:79-93 | The printing loop gives the options in print, or throws when one is unsupported |
| OptionLaws.PrintAfterParse | src/common/TftpPacketStuff/ReadWritePacket.cpp:70-115 | Printing parsed options, all supported, gives exactly the input in lower case, no byte left over; names are pairwise distinct |
| OptionLaws.ParseAfterPrint | src/common/TftpPacketStuff/Option.cpp:101-132 | Both parsers give printed options back, values in lower case |
| OptionLaws.ParseWritten | src/common/TftpPacketStuff/ReadWritePacket.cpp:70-115 | Any options as text, by any program, supported or not and in any case, are accepted if and only if each value is legal and no name is repeated; the result is the options written, folded, in their order |
| OptionLaws.AcceptedIsWritten | src/common/TftpPacketStuff/OackPacket.cpp:27-77 | Nothing else is accepted: whatever either parser takes is a list of NUL-terminated names and values |
| OptionLaws.FirstFault | src/common/TftpPacketStuff/ReadWritePacket.cpp:70-115 | The first option that cannot be read decides what the parsers throw: illegal operation for a repeated name or an empty value in an OACK, otherwise failed negotiation or the uncaught out_of_range of its value |
| OptionLaws.KnownOptions | src/common/TftpPacketStuff/Option.cpp:24-99 | The names blksize, timeout and tsize, their ranges 8..65464 and 1..255 and none for tsize, and which of the two errors a refused value gives |
| OptionLaws.ParsersAgree | src/common/TftpPacketStuff/OackPacket.cpp:27-77 | The OACK parser accepts exactly what the request parser accepts with every value non-empty, and reads the same options |
| OptionLaws.SendableExactly | src/common/TftpPacketStuff/Option.cpp:24-46 | The options that negotiation is proved for are exactly those of a supported name that the constructor accepts and print can carry, without NUL in the value |
| Numbers.DecimalConverts | src/common/TftpPacketStuff/Option.cpp:48-90 | std::stoi, std::stoll and std::stoull read white space, a sign, zeros and a number in decimal, whatever non-digit text follows, exactly within their ranges; a negative number is reduced modulo 2^64 by the last |
| Numbers.NothingConverts | src/common/TftpPacketStuff/Option.cpp:48-90 | Text without a digit after white space and at most one sign is invalid to all three |
| Numbers.ConversionsFold | src/common/TftpPacketStuff/Option.cpp:48-90 | Lower-casing a value changes no std::stoi, std::stoll or std::stoull result, errors included |
| Requests.RequestRoundTrip | src/common/TftpPacketStuff/ReadWritePacket.cpp:19-53 | A printed request parses back to its opcode, path, mode and options if and only if it has at most 512 bytes; a longer one never yields its options |
| Requests.KnownModes | src/common/TftpPacketStuff/ReadWritePacket.cpp:56-70 | Of all mode texts exactly netascii and octet are accepted, in any case |
| Requests.AnyRequest | src/common/TftpPacketStuff/ReadWritePacket.cpp:19-53 | A request of at most 512 bytes with any opcode, path, mode text and options, from any program, is accepted if and only if it is RRQ or WRQ, the mode is known, each value is legal and no option repeated; it then parses to just that path, mode and options, and otherwise throws what FirstFault says or an illegal operation |
| Requests.AcceptedRequest | src/common/TftpPacketStuff/ReadWritePacket.cpp:19-53 | Nothing else is accepted: the first 512 bytes of an accepted request are an opcode, a path, a mode and options, each terminated by NUL |
| Requests.PrintedRequestBytes | src/common/TftpPacketStuff/ReadWritePacket.cpp:126-148 | A printed request is its opcode, path, mode and options as text, in that order (section 5 of RFC 1350, RFC 2347) |
| Requests.FromRaw | src/common/TftpPacketStuff/ReadWritePacket.cpp:19-53 | The constructor computes the request parser that AnyRequest and AcceptedRequest characterise for requests from any program |
| Requests.MakeRaw | src/common/TftpPacketStuff/ReadWritePacket.cpp:126-148 | The printer computes the printed request that PrintedRequestBytes gives in bytes and RequestRoundTrip parses back |
| Negotiation.ValidateExactly | src/tftp-client/TftpClient.cpp:175-222 | An OACK is accepted if and only if each option was asked for, the block size is at most the one asked for, and timeout and tsize are the same |
| Greeting.GreetExactly | src/tftp-client/Read.cpp:25-129 | A download goes on if and only if the first packet begins with 0, 3, 0, 1 or is an acceptable OACK and fewer than five receives expire before it; it times out if and only if the first five expire |
| Greeting.AnswerExactly | src/tftp-client/Read.cpp:43-129 | What a read request makes of its first packet, by its bytes: DATA 1, a suitable OACK with its options, an ERROR packet taken in silence, and everything else refused with which ERROR packet |
| Greeting.OpenExactly | src/tftp-client/Write.cpp:8-98 | What a write request makes of its one receive: an expired one keeps the options asked for, ACK 0 drops them, a suitable OACK replaces them, anything else ends the upload, with which ERROR packet |
| Greeting.WelcomeExactly | src/tftp-server/ClientHandler.cpp:123-160 | A download's data phase starts after an OACK if and only if ACK 0 comes with fewer than five expired receives or repeated requests before it, and nothing else; the server times out if and only if the first five events are such |
| Handshake.AgreedExactly | src/tftp-server/ClientHandler.cpp:432-456 | Request printer, server parser, negotiation, OACK printer, client parser and validation end with both sides holding the client's options if and only if the request has at most 512 bytes and tsize fits an int |
| Handshake.AnyRequestServed | src/tftp-server/ClientHandler.cpp:99-124 | Any acceptable request from any program is served if and only if its tsize fits an int: the OACK grants exactly the supported options in their order, the others are ignored (RFC 2347), and the fields are the values asked for or the defaults |
| Handshake.AgreedBlockSize | src/tftp-client/TftpClient.cpp:89-103 | Then both block sizes are equal and within 8..65464, 512 if not asked for, and so are the timeouts (RFC 2348) |
| Handshake.DecimalOption | src/common/TftpPacketStuff/Option.cpp:45-60 | A block size written in decimal makes an option that print can carry if and only if it is within 8..65464 |
| Handshake.BlockSizeAsAsked | src/tftp-client/TftpClient.cpp:89-103 | After an agreed negotiation whose request has that option both ends use that very block size |
| Handshake.AnyOackShrinks | src/tftp-client/TftpClient.cpp:175-222 | Whatever a server answers, an accepted OACK leaves the client a legal block size no larger than it asked for |
| Handshake.NegotiateOverTheWire | src/tftp-client/Read.cpp:78-107 | The methods of the two ends, run one after the other, compute that negotiation |

## Left out

- Protocol.AlwaysInv: starts after the handshake, with a common block size, and leaves the handshake's datagrams in the channel; a download without options, where DATA 1 is the answer, has the request as hello.
- Downloads.DownloadIsSafe: one port at each end, so that a repeated request reaches the handler that the first one created.
- Uploads.UploadIsSafe: the handler's port is told from the main port only in what reaches whom; handlers that stray datagrams at the main port create are not modelled.
- ClientProgram.TftpClient.Read: takes the printed request as a parameter, and requires that WriteFile never indexes an empty vector; the disk-space check on tsize and the change of port are not modelled.
- ClientProgram.TftpClient.Write: takes the printed request as a parameter; where its datagrams go is left to Uploads.
- ClientProgram.TftpClient.SendData: reads its input through the octet Reader, which StdHandler's octet branch repeats.
- Server.ClientHandler.ReceiveFile: requires that WriteFile never indexes an empty vector, which is undefined behaviour; StreamInBlocks says when that is so.
- Server.ClientHandler.NegotiateOptions: the tsize computation for downloads has no effect in the code and is not modelled; tsize is echoed.
- The NETASCII branches of Reader and StdHandler, which encode overflow twice and add line ends inside the file.
- Several server handlers serving one repeated request, and packets from other endpoints, which the receive functions filter.
- Sockets, threads, SIGINT, logging, argument parsing, file existence and access checks, disk space, and the texts of ERROR packets; a run that SIGINT cuts short is a list of events that ends early.
- Counters and sizes are unbounded integers where the proofs bound them (block numbers, retries, timeouts); conversions that can overflow are written out.
