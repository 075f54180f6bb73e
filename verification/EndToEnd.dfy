/** From negotiation to transfer. */
module EndToEnd {
  import opened Bytes
  import opened Netascii
  import opened FileWriter
  import opened FileReader
  import opened Packets
  import opened Options
  import opened OptionLaws
  import opened Requests
  import opened Negotiation
  import opened Handshake
  import opened Udp
  import opened Sending
  import opened Receiving
  import opened Protocol
  import opened Agreement
  import opened Greeting
  import opened Sessions
  import Downloads
  import Uploads
  import opened NetasciiBlocks

  /** After printing, the receive buffer and parsing, a block is seen whole, and
      as short exactly when it is the last. */
  lemma EndSeenExactly(content: seq<byte>, blksize: nat, block: nat)
    requires MIN_BLOCK_SIZE <= blksize <= MAX_BLOCK_SIZE
    requires 1 <= block <= |Chop(content, blksize)|
    ensures var blocks := Chop(content, blksize);
            var m := Parse(PrintData(block, blocks[block - 1]), blksize);
            && m == Data(Wire(block), blocks[block - 1])
            && (|m.payload| < blksize <==> block == |content| / blksize + 1)
  {
    ChopIsExact(content, blksize);
    ParsePrintData(block, Chop(content, blksize)[block - 1], blksize);
  }

  predicate Settled(agreed: Terms) {
    && MIN_BLOCK_SIZE <= agreed.client.blksize == agreed.server.blksize <= MAX_BLOCK_SIZE
    && agreed.client.socket > 0 && agreed.server.socket > 0
    && AllSupported(agreed.atServer)
  }

  lemma AgreedIsSettled(q: ReadWritePacket)
    requires SendableRequest(q) && AllChecked(q.options) && Agreed(q)
    ensures Settled(Negotiating(q).value)
  {
    AgreedBlockSize(q);
    FoldedLaws(q.options);
    SupportedSent(FoldOptions(q.options));
    SocketsPositive(q);
  }

  /** A download without options: DATA 1 answers the request. */
  function PlainDownload(agreed: Terms, request: seq<byte>, content: seq<byte>): Config
    requires agreed.client.blksize > 0 && agreed.server.blksize > 0
    requires agreed.client.socket > 0 && agreed.server.socket > 0
  {
    Config(Download, Chop(content, agreed.server.blksize), agreed.client.blksize, request,
           agreed.server.socket, agreed.client.socket, [], [])
  }

  /** In a download without options the client's first packet is DATA 1, or the
      ERROR packet of a server that gave up. */
  lemma {:induction false} PlainAnswers(cfg: Config, acts: seq<Action>)
    requires cfg.Valid() && Legal(cfg, acts) && cfg.senderPrelude == []
    ensures PlainlyAnswered(ReceiverEvents(acts), cfg.blksize)
  {
    hide *;
    if acts == [] {
      NothingAnswered(cfg.blksize);
    } else {
      var front, last := acts[..|acts| - 1], acts[|acts| - 1];
      var heard := ReceiverEvents(front);
      LegalBefore(cfg, acts);
      PlainAnswers(cfg, front);
      OneActionMore(front, last);
      if last.ToReceiver? {
        if last.event.Packet? && Silence(heard) && |heard| < MAX_RETRIES {
          FirstPacket(cfg, front, last);
        }
        PlainlyMore(heard, last.event, cfg.blksize);
      } else {
        assert heard + [] == heard;
      }
    }
  }

  lemma NothingAnswered(blksize: nat)
    ensures PlainlyAnswered(ReceiverEvents([]), blksize)
  {
  }

  lemma FirstPacket(cfg: Config, front: seq<Action>, last: Action)
    requires cfg.Valid() && Legal(cfg, front) && cfg.senderPrelude == [] && Enabled(cfg, Exec(cfg, front), last)
    requires last.ToReceiver? && last.event.Packet?
    requires Silence(ReceiverEvents(front)) && |ReceiverEvents(front)| < MAX_RETRIES
    ensures var m := Parse(last.event.datagram, cfg.blksize); m == Error || (m.Data? && m.number == 1)
  {
    hide Exec, Parse, Silence, ReceiverEvents, Hear, ReceiverInv;
    var st := Exec(cfg, front);
    AlwaysInv(cfg, front);
    RunsAreLoops(cfg, front);
    SilentReader(cfg.ForReceiver(), ReceiverEvents(front));
    var i := ReceiverHears(cfg, st, last.event.datagram);
    WireBelow(1);
  }

  /** So the receiver of a run is the client's whole Read, and the sender the
      server's whole answer. */
  lemma PlainRunsAreSessions(cfg: Config, p: Params, requested: seq<Opt>, acts: seq<Action>)
    requires cfg.Valid() && cfg.direction.Download? && cfg.senderPrelude == [] && Legal(cfg, acts)
    requires p.blksize == cfg.blksize && p.socket == cfg.receiverTimeout
    ensures var st := Exec(cfg, acts);
            && p.Usable()
            && ReadSession(p, requested, cfg.hello, ReceiverEvents(acts))
               == Session(st.receiver.outcome, st.receiver.accepted, st.receiver.log, st.receiver.timer)
            && ServeSession(cfg.ForSender(), [], SenderEvents(acts))
               == Session(st.sender.outcome, [], st.sender.log, st.sender.timer)
  {
    hide Exec, ReadSession, Hear, Run, Legal;
    PlainAnswers(cfg, acts);
    RunsAreLoops(cfg, acts);
    ReadIsReceiver(p, requested, cfg.hello, ReceiverEvents(acts));
  }

  /** A download without options is sound from the first request on, with blocks
      of 512 bytes. */
  lemma PlainDownloadIsSound(q: ReadWritePacket, content: seq<byte>)
    requires SendableRequest(q) && q.options == [] && Agreed(q) && PrintRequest(q).Ok?
    ensures Settled(Negotiating(q).value)
    ensures var client, request := Negotiating(q).value.client, PrintRequest(q).value;
            var cfg := PlainDownload(Negotiating(q).value, request, content);
            && cfg.Valid() && client.Usable()
            && (forall acts :: Legal(cfg, acts) ==>
                                 var read := ReadSession(client, [], request, ReceiverEvents(acts));
                                 && read.accepted == Exec(cfg, acts).receiver.accepted
                                 && read.outcome == Exec(cfg, acts).receiver.outcome
                                 && Flatten(read.accepted) <= content
                                 && (read.outcome.Done? ==> Flatten(read.accepted) == content))
            && ((exists acts :: Legal(cfg, acts) && Delivered(cfg, Exec(cfg, acts)))
                <==> |content| < 65535 * 512)
  {
    hide Negotiating, Parse, PrintRequest, Chop, Legal, Delivered, Exec, ReadSession, SendableRequest;
    AgreedIsSettled(q);
    AgreedBlockSize(q);
    RequestIsOther(q, Negotiating(q).value.client.blksize);
    var client, request := Negotiating(q).value.client, PrintRequest(q).value;
    var cfg := PlainDownload(Negotiating(q).value, request, content);
    ChopIsExact(content, cfg.blksize);
    DeliverableExactly(cfg, content);
    forall acts | Legal(cfg, acts)
      ensures var read := ReadSession(client, [], request, ReceiverEvents(acts));
              && read.accepted == Exec(cfg, acts).receiver.accepted
              && read.outcome == Exec(cfg, acts).receiver.outcome
              && Flatten(read.accepted) <= content
              && (read.outcome.Done? ==> Flatten(read.accepted) == content)
    {
      PlainRunsAreSessions(cfg, client, [], acts);
      TransferIsSafe(cfg, content, acts);
    }
  }

  /** A download with options, from the request that the client prints. */
  function DownloadWith(q: ReadWritePacket, agreed: Terms, content: seq<byte>): Downloads.Setting
    requires AllChecked(q.options) && PrintRequest(q).Ok? && AllSupported(agreed.atServer)
    requires agreed.server.blksize > 0 && agreed.server.socket > 0
  {
    var server := SenderConfig(Role.Server, Chop(content, agreed.server.blksize),
                               agreed.server.blksize, agreed.server.socket);
    Downloads.Setting(Setup(DEFAULTS, q.options), q.options, PrintRequest(q).value,
                      PrintOack(agreed.atServer).value, server)
  }

  /** The OACK is no longer than the request, so it is received whole. */
  lemma OackFits(q: ReadWritePacket)
    requires SendableRequest(q) && PrintRequest(q).Ok? && |PrintRequest(q).value| <= MAX_REQUEST_LENGTH
    ensures var f := FoldOptions(q.options);
            PrintOack(f).Ok? && |PrintOack(f).value| <= MAX_REQUEST_LENGTH
  {
    var f := FoldOptions(q.options);
    ParseAfterPrint(Oack, q.options);
    PrintAfterParse(Oack, Printed(q.options), []);
    FoldedLaws(q.options);
    SupportedSent(f);
    assert f[0..] == f;
  }

  lemma OackTaken(q: ReadWritePacket)
    requires SendableRequest(q) && AllChecked(q.options) && Agreed(q) && PrintRequest(q).Ok?
    ensures var f := FoldOptions(q.options);
            && PrintOack(f).Ok?
            && var oack := PrintOack(f).value;
            && oack != [] && OpcodeOf(Received(oack)) == Ok(OPCODE_OACK)
            && AcceptOack(Received(oack), q.options) == Ok(f)
  {
    hide Negotiating, PrintRequest, AcceptOack, SendableRequest;
    AgreedExactly(q);
    OackFits(q);
    SendableOptions(q);
    OackAccepted(q.options);
    var oack := PrintOack(FoldOptions(q.options)).value;
    assert Received(oack) == oack;
  }

  lemma SendableOptions(q: ReadWritePacket)
    requires SendableRequest(q)
    ensures AllSendable(q.options) && Distinct(q.options)
  {
  }

  lemma AgreedTerms(q: ReadWritePacket)
    requires SendableRequest(q) && AllChecked(q.options) && Agreed(q) && PrintRequest(q).Ok?
    ensures var f, agreed := FoldOptions(q.options), Negotiating(q).value;
            AllChecked(f) && agreed.atServer == f && agreed.client == Setup(Setup(DEFAULTS, q.options), f)
  {
    AgreedExactly(q);
    RequestRoundTrip(q);
    ReadInFull(q);
  }

  lemma AgreedDownload(q: ReadWritePacket, content: seq<byte>)
    requires SendableRequest(q) && AllChecked(q.options) && Agreed(q) && PrintRequest(q).Ok?
    requires q.opcode == OPCODE_RRQ && q.options != []
    ensures Settled(Negotiating(q).value)
    ensures DownloadWith(q, Negotiating(q).value, content).Valid()
  {
    hide Negotiating, Parse, PrintRequest, Chop, SendableRequest, AcceptOack, Setup, FoldOptions, PrintOack;
    AgreedIsSettled(q);
    AgreedTerms(q);
    OackTaken(q);
    ChopIsExact(content, Negotiating(q).value.server.blksize);
    SetupKeepsUsable(DEFAULTS, q.options);
    RequestIsRead(q);
  }

  /** An upload, from the request that the client prints. */
  function UploadWith(q: ReadWritePacket, agreed: Terms, content: seq<byte>): Uploads.Setting
    requires AllChecked(q.options) && PrintRequest(q).Ok? && AllSupported(agreed.atServer)
    requires agreed.server.blksize > 0 && agreed.server.socket > 0
  {
    var hello := if agreed.atServer == [] then PrintAck(0) else PrintOack(agreed.atServer).value;
    Uploads.Setting(Setup(DEFAULTS, q.options), q.options, PrintRequest(q).value, content,
                    ReceiverConfig(agreed.server.blksize, hello, agreed.server.socket))
  }

  /** The server's hello opens the client's upload, with the block size as agreed. */
  lemma HelloOpens(q: ReadWritePacket)
    requires SendableRequest(q) && AllChecked(q.options) && Agreed(q) && PrintRequest(q).Ok?
    ensures Settled(Negotiating(q).value)
    ensures var agreed := Negotiating(q).value;
            var hello := if agreed.atServer == [] then PrintAck(0) else PrintOack(agreed.atServer).value;
            var p := Setup(DEFAULTS, q.options);
            && p.Usable() && p.blksize == agreed.server.blksize
            && Parse(hello, p.blksize) == (if agreed.atServer == [] then Ack(0) else Other)
            && Open(p.blksize, q.options, [Packet(hello)]).Begun?
            && Granted(p, q.options, [Packet(hello)]).blksize == p.blksize
  {
    hide Negotiating, Parse, PrintRequest, SendableRequest, AcceptOack, Setup, FoldOptions, PrintOack, Asked;
    AgreedIsSettled(q);
    AgreedBlockSize(q);
    AgreedTerms(q);
    OackTaken(q);
    SetupKeepsUsable(DEFAULTS, q.options);
    ClientTakes(DEFAULTS, q.options);
    var agreed, p := Negotiating(q).value, Setup(DEFAULTS, q.options);
    if agreed.atServer == [] {
      ParsePrintAck(0, p.blksize);
      WireBelow(0);
      SetupNothing(p);
    } else {
      OackIsOther(agreed.atServer, p.blksize);
    }
  }

  lemma SetupNothing(p: Params)
    ensures Setup(p, []) == p
  {
  }

  lemma AgreedUpload(q: ReadWritePacket, content: seq<byte>)
    requires SendableRequest(q) && AllChecked(q.options) && Agreed(q) && PrintRequest(q).Ok?
    requires q.opcode == OPCODE_WRQ
    ensures Settled(Negotiating(q).value)
    ensures UploadWith(q, Negotiating(q).value, content).Valid()
  {
    hide Negotiating, Parse, PrintRequest, SendableRequest, Setup, PrintOack, Open, Granted;
    HelloOpens(q);
    RequestIsRead(q);
  }

  /** An upload is sound from the first request on. When any option was
      negotiated the server's answer is an OACK, no ACK 0 is ever in the channel,
      and the client's success means delivery for files of any size. */
  lemma NegotiatedUploadIsSound(q: ReadWritePacket, content: seq<byte>)
    requires SendableRequest(q) && AllChecked(q.options) && Agreed(q) && PrintRequest(q).Ok?
    requires q.opcode == OPCODE_WRQ
    ensures Settled(Negotiating(q).value)
    ensures var d := UploadWith(q, Negotiating(q).value, content);
            && d.Valid() && d.server.blksize == Asked(q.options, BLKSIZE, 512)
            && (forall acts :: Uploads.Happens(d, acts) ==> Flatten(Uploads.ServerAt(d, acts).accepted) <= content)
            && (Uploads.SuccessMeansFile(d) <==> q.options != [] || |content| < 65535 * d.server.blksize)
            && ((exists acts :: Uploads.Happens(d, acts) && Uploads.Completed(d, acts))
                <==> |content| < 65535 * d.server.blksize)
  {
    hide Negotiating, Parse, PrintRequest, Asked, Chop, SendableRequest, Uploads.Happens, Uploads.ServerAt,
      Uploads.SuccessMeansFile, Uploads.Completed, Uploads.Setting.Valid;
    AgreedUpload(q, content);
    AgreedBlockSize(q);
    AgreedTerms(q);
    HelloOpens(q);
    var d := UploadWith(q, Negotiating(q).value, content);
    forall acts | Uploads.Happens(d, acts)
      ensures Flatten(Uploads.ServerAt(d, acts).accepted) <= content
    {
      Uploads.UploadIsSafe(d, acts);
    }
    Uploads.UploadSuccessExactly(d);
    Uploads.UploadableExactly(d);
    Uploads.FewBlocks(d);
  }

  lemma RequestIsRead(q: ReadWritePacket)
    requires PrintRequest(q).Ok? && IsRequest(q.opcode)
    ensures OpcodeOf(Received(PrintRequest(q).value)) == Ok(q.opcode)
  {
  }

  /** A download with options is sound from the first request on, and some run
      delivers the content exactly when it is shorter than 65535 full blocks of
      the size asked for. */
  lemma NegotiatedDownloadIsSound(q: ReadWritePacket, content: seq<byte>)
    requires SendableRequest(q) && AllChecked(q.options) && Agreed(q) && PrintRequest(q).Ok?
    requires q.opcode == OPCODE_RRQ && q.options != []
    ensures Settled(Negotiating(q).value)
    ensures var d := DownloadWith(q, Negotiating(q).value, content);
            && d.Valid()
            && (forall acts :: Downloads.Happens(d, acts) ==> Flatten(Downloads.ClientAt(d, acts).accepted) <= content)
            && ((exists acts :: Downloads.Happens(d, acts) && Downloads.Completed(d, acts))
                <==> |content| < 65535 * Asked(q.options, BLKSIZE, 512))
  {
    hide Negotiating, PrintRequest, Asked, Chop, SendableRequest,
      Downloads.Happens, Downloads.ClientAt, Downloads.Completed;
    AgreedDownload(q, content);
    AgreedBlockSize(q);
    var d := DownloadWith(q, Negotiating(q).value, content);
    forall acts | Downloads.Happens(d, acts)
      ensures Flatten(Downloads.ClientAt(d, acts).accepted) <= content
    {
      Downloads.DownloadIsSafe(d, content, acts);
    }
    Downloads.DownloadableExactly(d, content);
  }

  lemma RequestIsOther(q: ReadWritePacket, blksize: nat)
    requires SendableRequest(q) && PrintRequest(q).Ok?
    ensures Parse(PrintRequest(q).value, blksize) == Other
  {
  }

  lemma OackIsOther(opts: seq<Opt>, blksize: nat)
    requires AllSupported(opts)
    ensures Parse(PrintOack(opts).value, blksize) == Other
  {
  }

  lemma {:induction false} AskedTimeoutPositive(opts: seq<Opt>)
    requires AllChecked(opts)
    ensures Asked(opts, TIMEOUT, 1) > 0
  {
    if opts != [] {
      var last := opts[|opts| - 1];
      AskedTimeoutPositive(opts[..|opts| - 1]);
      if last.name.TIMEOUT? {
        CheckedConverts(last);
      }
    }
  }

  lemma SocketsPositive(q: ReadWritePacket)
    requires SendableRequest(q) && AllChecked(q.options) && Agreed(q)
    ensures Negotiating(q).value.client.socket == Negotiating(q).value.server.socket > 0
  {
    AgreedExactly(q);
    RequestRoundTrip(q);
    ReadInFull(q);
    AgreedBlockSize(q);
    ServedInFull(q);
    FoldedLaws(q.options);
    ServerTakes(FoldOptions(q.options));
    AskedFolded(q.options, TIMEOUT, 1);
    AskedTimeoutPositive(q.options);
  }

  /** A client in netascii mode asks for octets all the same, so its Writer
      decodes the server's raw file, block by block. */
  lemma NetasciiModeDownload(cfg: Config, content: seq<byte>, acts: seq<Action>)
    requires cfg.Valid() && Legal(cfg, acts) && Delivered(cfg, Exec(cfg, acts))
    requires cfg.blocks == Chop(content, cfg.blksize)
    ensures var accepted := Exec(cfg, acts).receiver.accepted;
            && (Writable(NETASCII, accepted) <==> |content| % cfg.blksize != 0 || CrLast(content))
            && (Writable(NETASCII, accepted) ==>
                  var file := WriteAll(NETASCII, accepted).Flushed();
                  && (file == Decode(content) <==> !CutBehindCrNul(cfg.blocks))
                  && (file == content <==> !Has(content, CR, LF) && !Has(content, CR, NUL)))
  {
    hide Exec, Legal;
    StreamInBlocks(content, cfg.blksize);
  }
}
