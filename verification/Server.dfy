/** src/tftp-server/ClientHandler.cpp: one transfer at the server. */
module Server {
  import opened Bytes
  import opened Numbers
  import opened FileWriter
  import opened Netascii
  import opened FileReader
  import opened Packets
  import opened Options
  import opened Requests
  import opened Negotiation
  import opened Udp
  import opened Sending
  import opened Receiving
  import opened Linking
  import opened Greeting
  import opened Sessions

  class ClientHandler {
    const udp: UdpClient
    var blksize: int
    var timeout: int
    var tsize: int

    function Fields(): Params
      reads this, udp
    {
      Params(blksize, timeout, tsize, udp.socketTimeout)
    }

    constructor (udp: UdpClient)
      requires udp.socketTimeout == 1
      ensures this.udp == udp && Fields() == DEFAULTS
    {
      this.udp := udp;
      blksize, timeout, tsize := 512, 1, 0;
    }

    method NegotiateOptions(options: seq<Opt>) returns (r: Result<seq<Opt>>)
      requires AllChecked(options)
      modifies this, udp`socketTimeout
      ensures var n := Negotiate(old(Fields()), options);
              Fields() == n.params && r == if n.failed then Err(OutOfRange) else Ok(n.options)
    {
      var negotiated: seq<Opt> := [];
      for i := 0 to |options|
        invariant Negotiate(old(Fields()), options[..i]) == Negotiated(Fields(), negotiated, false)
      {
        var option := options[i];
        assert options[..i + 1][..i] == options[..i];
        if !option.name.UNSUPPORTED? {
          if !Stoi(option.value).Value? {
            NegotiateStuck(old(Fields()), options, i + 1);
            return Err(OutOfRange);
          }
          var value := Stoi(option.value).n;
          if option.name.BLKSIZE? {
            blksize := value;
          } else if option.name.TIMEOUT? {
            CheckedConverts(option);
            timeout := value;
            udp.ChangeTimeout(timeout);
          } else {
            tsize := value;
          }
          negotiated := negotiated + [option];
        }
      }
      assert options[..|options|] == options;
      return Ok(negotiated);
    }

    /** The inner loop of FollowOnRRQ: wait for the ACK of one block. */
    method AwaitAck(blockNumber: nat, ghost c: SenderConfig, ghost o: Origin)
      returns (end: End, ghost log: seq<seq<byte>>, ghost timer: Timer)
      requires c.Valid() && c.role.Server? && c.blksize == blksize
      requires udp.Valid() && o.position <= udp.position
      requires var s := Run(c, Heard(udp, o));
               s.outcome.Running? && s.block == blockNumber && s.retries == 0 && Follows(udp, o, s.log, s.timer)
      modifies udp
      ensures Follows(udp, o, log, timer)
      ensures SenderWaited(c, Run(c, Heard(udp, o)), blockNumber, log, timer, end)
      ensures end.Starved? ==> udp.position == |udp.incoming|
    {
      hide React, Run, Wire, Parse, PrintData;
      var retries := 0;
      ghost var s := Run(c, Heard(udp, o));
      log, timer := s.log, s.timer;
      while retries < MAX_RETRIES
        invariant udp.Valid() && o.position <= udp.position && retries <= MAX_RETRIES
        invariant s == Run(c, Heard(udp, o)) && s.block == blockNumber && s.retries == retries
        invariant retries < MAX_RETRIES ==> s.outcome.Running? && Follows(udp, o, s.log, s.timer)
        invariant retries == MAX_RETRIES ==>
                    Follows(udp, o, log, timer) && SenderWaited(c, s, blockNumber, log, timer, GaveUp)
        decreases |udp.incoming| - udp.position
      {
        log, timer := s.log, s.timer;
        if udp.position == |udp.incoming| {
          return Starved, log, timer;
        }
        HeardMore(c, udp.incoming, o.position, udp.position);
        var event := udp.Receive();
        s := Run(c, Heard(udp, o));
        if event == Expired {
          retries := retries + 1;
          udp.IncreaseTimeout();
          timer := timer.Wait().Increased();
        } else {
          match Parse(event.datagram, blksize)
          case Ack(number) =>
            if number == blockNumber {
              return Arrived, log, timer;
            } else if number <= blockNumber {
              retries := retries + 1;
              udp.IncreaseTimeout();
              timer := timer.Increased();
            } else {
              return Thrown(FutureBlock), log, timer;
            }
          case Error =>
            return Thrown(PeerError), log, timer;
          case BadOpcode =>
            return Thrown(Malformed), log, timer;
          case BadAck =>
            return Thrown(Malformed), log, timer;
          case BadError =>
            return Thrown(Malformed), log, timer;
          case _ =>
        }
      }
      end := GaveUp;
    }

    /** The body of the loop over blocks, once the block has been read. */
    method SendBlock(blockNumber: nat, data: seq<byte>, ghost c: SenderConfig, ghost o: Origin,
                     ghost log0: seq<seq<byte>>, ghost timer0: Timer)
      returns (end: End, ghost log: seq<seq<byte>>, ghost timer: Timer)
      requires c.Valid() && c.role.Server? && c.blksize == blksize
      requires Follows(udp, o, log0, timer0)
      requires BetweenBlocks(c, Run(c, Heard(udp, o)), blockNumber, log0, timer0)
      requires data == c.blocks[blockNumber - 1]
      modifies udp
      ensures Follows(udp, o, log, timer)
      ensures var s, last := Run(c, Heard(udp, o)), blockNumber == |c.blocks|;
              if end.Arrived? && !last then BetweenBlocks(c, s, blockNumber + 1, log, timer)
              else AtEnd(s, Verdict(c.role, end, last), log, timer)
      ensures end.Starved? ==> udp.position == |udp.incoming|
      ensures end.Thrown? ==> !end.outcome.Running? && !end.outcome.Finished()
    {
      hide React, Run, Parse, Start;
      var last := |data| < blksize;
      assert last == (blockNumber == |c.blocks|);
      udp.Send(PrintData(blockNumber, data));
      Appended(o.sent, log0, c.DataPacket(blockNumber));
      end, log, timer := AwaitAck(blockNumber, c, o);
      Appended(o.sent, log, ERROR_PACKET);
      if Verdict(Role.Server, end, last).Reported() {
        udp.Send(ERROR_PACKET);
        log := log + [ERROR_PACKET];
      } else if end.Arrived? || end.GaveUp? {
        udp.TimeoutReset();
        timer := timer.Reset();
      }
    }

    /** The data phase of FollowOnRRQ, with the ERROR packet its caller sends
        for what it throws. */
    method SendFile(reader: Reader) returns (outcome: Outcome)
      requires MIN_BLOCK_SIZE <= blksize <= MAX_BLOCK_SIZE && udp.Valid() && reader.Valid()
      requires udp.timeout == 1 && udp.socketTimeout > 0
      modifies udp, reader
      ensures var blocks := Chop(reader.content[old(reader.position)..], blksize);
              var c := SenderConfig(Role.Server, blocks, blksize, old(udp.socketTimeout));
              && c.Valid()
              && var s := Run(c, udp.incoming[old(udp.position)..]);
              outcome == s.outcome && Follows(udp, old(OriginOf(udp)), s.log, s.timer)
    {
      hide React, Run, Parse, Start, Chop, BetweenBlocks, Wire;
      ghost var o := OriginOf(udp);
      ghost var left := reader.content[reader.position..];
      ghost var blocks := Chop(left, blksize);
      ghost var c := SenderConfig(Role.Server, blocks, blksize, udp.socketTimeout);
      ChopIsExact(left, blksize);
      HeardNothing(c, udp.incoming, o.position);
      ghost var log: seq<seq<byte>>, timer := [], Timer(1, udp.socketTimeout, 0);
      var blockNumber := 1;
      assert blocks[0..] == blocks;
      var lastPacketSent := false;
      outcome := Running;
      while !lastPacketSent
        invariant blksize == c.blksize && Follows(udp, o, log, timer)
        invariant reader.Valid() && left == reader.content[reader.position..]
        invariant !lastPacketSent ==>
                    && 1 <= blockNumber <= |blocks|
                    && BetweenBlocks(c, Run(c, Heard(udp, o)), blockNumber, log, timer)
                    && Chop(left, c.blksize) == blocks[blockNumber - 1..]
        invariant lastPacketSent ==> outcome.Finished() && AtEnd(Run(c, Heard(udp, o)), outcome, log, timer)
        decreases !lastPacketSent, |blocks| - blockNumber
      {
        ghost var rest := left;
        var data := reader.ReadFile(blksize);
        NextChop(rest, c.blksize, data, blocks, blockNumber - 1);
        left := reader.content[reader.position..];
        assert left == rest[|data|..];
        if |data| < blksize {
          lastPacketSent := true;
        }
        ghost var position := reader.position;
        var end;
        end, log, timer := SendBlock(blockNumber, data, c, o, log, timer);
        assert reader.position == position;
        outcome := Verdict(Role.Server, end, lastPacketSent);
        if !end.Arrived? && !outcome.Finished() {
          HeardAll(c, udp.incoming, o.position, udp.position);
          return;
        }
        blockNumber := blockNumber + 1;
      }
      HeardAll(c, udp.incoming, o.position, udp.position);
    }

    /** The first loop of FollowOnWRQ: send hello, the OACK or ACK 0, until
        block 1 comes. */
    method AwaitFirst(hello: seq<byte>, writer: Writer, ghost c: ReceiverConfig, ghost o: Origin,
                      ghost timer0: Timer)
      returns (end: End, short: bool, ghost log: seq<seq<byte>>, ghost timer: Timer)
      requires c.blksize == blksize && c.hello == hello
      requires udp.Valid() && o.position <= udp.position && Storable(writer.mode, c, udp.incoming[o.position..])
      requires BeforePrompt(c, Hear(c, Heard(udp, o)), 0, 0, [], timer0) && Follows(udp, o, [], timer0)
      requires Stored(writer, Hear(c, Heard(udp, o)).accepted)
      modifies udp, writer
      ensures Follows(udp, o, log, timer)
      ensures ReceiverWaited(Hear(c, Heard(udp, o)), 0, log, timer, end, short)
      ensures Stored(writer, Hear(c, Heard(udp, o)).accepted)
      ensures !end.Arrived? ==> !short
      ensures end.Arrived? ==> udp.position > old(udp.position)
      ensures end.Starved? ==> udp.position == |udp.incoming|
    {
      hide Respond, Hear, WriteAll, Writable, Stored, Storable, Parse, PrintAck;
      var retries := 0;
      ghost var r := Hear(c, Heard(udp, o));
      log, timer, short := [], timer0, false;
      while retries < MAX_RETRIES
        invariant udp.Valid() && o.position <= udp.position && retries <= MAX_RETRIES
        invariant r == Hear(c, Heard(udp, o)) && Stored(writer, r.accepted) && !short
        invariant Follows(udp, o, log, timer) && old(udp.position) <= udp.position
        invariant retries < MAX_RETRIES ==> BeforePrompt(c, r, 0, retries, log, timer)
        invariant retries == MAX_RETRIES ==> ReceiverWaited(r, 0, log, timer, GaveUp, false)
        decreases |udp.incoming| - udp.position
      {
        udp.Send(hello);
        Appended(o.sent, log, hello);
        log := r.log;
        if udp.position == |udp.incoming| {
          return Starved, short, log, timer;
        }
        HeardMoreReceiver(c, udp.incoming, o.position, udp.position);
        var event := udp.Receive();
        ghost var accepted := r.accepted;
        r := Hear(c, Heard(udp, o));
        if event == Expired {
          retries := retries + 1;
          udp.IncreaseTimeout();
          timer := timer.Wait().Increased();
        } else {
          match Parse(event.datagram, blksize)
          case Data(number, payload) =>
            if number == 1 {
              StorableSoFar(writer.mode, c, udp.incoming, o.position, udp.position);
              Store(writer, payload, accepted);
              return Arrived, |payload| < blksize, log, timer;
            } else if number <= 1 {
              retries := retries + 1;
              udp.IncreaseTimeout();
              timer := timer.Increased();
            } else {
              return Thrown(FutureBlock), short, log, timer;
            }
          case Error =>
            return Thrown(PeerError), short, log, timer;
          case BadOpcode =>
            return Thrown(Malformed), short, log, timer;
          case BadData =>
            return Thrown(Malformed), short, log, timer;
          case BadError =>
            return Thrown(Malformed), short, log, timer;
          case _ =>
        }
      }
      end := GaveUp;
    }

    /** The inner loop of FollowOnWRQ: acknowledge a block until the next one comes. */
    method AwaitNext(blockNumber: nat, writer: Writer, ghost c: ReceiverConfig, ghost o: Origin,
                     ghost log0: seq<seq<byte>>, ghost timer0: Timer)
      returns (end: End, short: bool, ghost log: seq<seq<byte>>, ghost timer: Timer)
      requires c.blksize == blksize && blockNumber > 0
      requires udp.Valid() && o.position <= udp.position && Storable(writer.mode, c, udp.incoming[o.position..])
      requires Follows(udp, o, log0, timer0)
      requires BeforePrompt(c, Hear(c, Heard(udp, o)), blockNumber, 0, log0, timer0)
      requires Stored(writer, Hear(c, Heard(udp, o)).accepted)
      modifies udp, writer
      ensures Follows(udp, o, log, timer)
      ensures ReceiverWaited(Hear(c, Heard(udp, o)), blockNumber, log, timer, end, short)
      ensures Stored(writer, Hear(c, Heard(udp, o)).accepted)
      ensures !end.Arrived? ==> !short
      ensures end.Arrived? ==> udp.position > old(udp.position)
      ensures end.Starved? ==> udp.position == |udp.incoming|
    {
      hide Respond, Hear, WriteAll, Writable, Stored, Storable, Parse, PrintAck;
      var retries := 0;
      ghost var r := Hear(c, Heard(udp, o));
      log, timer, short := log0, timer0, false;
      while retries < MAX_RETRIES
        invariant udp.Valid() && o.position <= udp.position && retries <= MAX_RETRIES
        invariant r == Hear(c, Heard(udp, o)) && Stored(writer, r.accepted) && !short
        invariant Follows(udp, o, log, timer) && old(udp.position) <= udp.position
        invariant retries < MAX_RETRIES ==> BeforePrompt(c, r, blockNumber, retries, log, timer)
        invariant retries == MAX_RETRIES ==> ReceiverWaited(r, blockNumber, log, timer, GaveUp, false)
        decreases |udp.incoming| - udp.position
      {
        udp.Send(PrintAck(blockNumber));
        Appended(o.sent, log, PrintAck(blockNumber));
        log := r.log;
        if udp.position == |udp.incoming| {
          return Starved, short, log, timer;
        }
        HeardMoreReceiver(c, udp.incoming, o.position, udp.position);
        var event := udp.Receive();
        ghost var accepted := r.accepted;
        r := Hear(c, Heard(udp, o));
        if event == Expired {
          retries := retries + 1;
          udp.IncreaseTimeout();
          timer := timer.Wait().Increased();
        } else {
          match Parse(event.datagram, blksize)
          case Data(number, payload) =>
            if number == blockNumber + 1 {
              StorableSoFar(writer.mode, c, udp.incoming, o.position, udp.position);
              Store(writer, payload, accepted);
              return Arrived, |payload| < blksize, log, timer;
            } else if number < blockNumber + 1 {
              retries := retries + 1;
              udp.IncreaseTimeout();
              timer := timer.Increased();
            } else {
              return Thrown(FutureBlock), short, log, timer;
            }
          case Error =>
            return Thrown(PeerError), short, log, timer;
          case BadOpcode =>
            return Thrown(Malformed), short, log, timer;
          case BadData =>
            return Thrown(Malformed), short, log, timer;
          case BadError =>
            return Thrown(Malformed), short, log, timer;
          case _ =>
        }
      }
      end := GaveUp;
    }

    /** FollowOnWRQ after the options: hello is the OACK when there were any, ACK 0 otherwise. */
    method ReceiveFile(hello: seq<byte>, writer: Writer) returns (outcome: Outcome)
      requires MIN_BLOCK_SIZE <= blksize <= MAX_BLOCK_SIZE && udp.Valid()
      requires udp.timeout == 1 && udp.socketTimeout > 0
      requires writer.State() == EMPTY
      requires Storable(writer.mode, ReceiverConfig(blksize, hello, udp.socketTimeout), udp.incoming[udp.position..])
      modifies udp, writer
      ensures var c := ReceiverConfig(blksize, hello, old(udp.socketTimeout));
              var r := Hear(c, udp.incoming[old(udp.position)..]);
              outcome == r.outcome && Stored(writer, r.accepted) && Follows(udp, old(OriginOf(udp)), r.log, r.timer)
    {
      hide Respond, Hear, WriteAll, PrintAck;
      ghost var o := OriginOf(udp);
      ghost var c := ReceiverConfig(blksize, hello, udp.socketTimeout);
      HeardNothingReceiver(c, udp.incoming, o.position);
      StoreNone(writer.mode);
      ghost var log: seq<seq<byte>>, timer;
      var end, last;
      end, last, log, timer := AwaitFirst(hello, writer, c, o, Timer(1, udp.socketTimeout, 0));
      if !end.Arrived? {
        outcome := GiveUp(udp, end, c, o, 0, log, timer);
        return;
      }
      udp.TimeoutReset();
      timer := timer.Reset();
      var blockNumber := 1;
      while !last
        invariant blksize == c.blksize && blockNumber > 0 && Follows(udp, o, log, timer)
        invariant Stored(writer, Hear(c, Heard(udp, o)).accepted)
        invariant !last ==> BeforePrompt(c, Hear(c, Heard(udp, o)), blockNumber, 0, log, timer)
        invariant last ==> ReceiverDone(Hear(c, Heard(udp, o)), blockNumber, log, timer)
        decreases !last, |udp.incoming| - udp.position
      {
        end, last, log, timer := AwaitNext(blockNumber, writer, c, o, log, timer);
        if !end.Arrived? {
          outcome := GiveUp(udp, end, c, o, blockNumber, log, timer);
          return;
        }
        blockNumber := blockNumber + 1;
        udp.TimeoutReset();
        timer := timer.Reset();
      }
      HeardAllReceiver(c, udp.incoming, o.position, udp.position);
      Appended(o.sent, log, PrintAck(blockNumber));
      udp.Send(PrintAck(blockNumber));
      outcome := Done;
    }

    /** FollowOnWRQ after the options, with its Writer, whose destructor runs
        however the transfer ends: what the file holds then, whatever arrived. */
    method FollowOnWRQ(hello: seq<byte>, mode: DataFormat) returns (outcome: Outcome, file: seq<byte>)
      requires MIN_BLOCK_SIZE <= blksize <= MAX_BLOCK_SIZE && udp.Valid()
      requires udp.timeout == 1 && udp.socketTimeout > 0
      requires Storable(mode, ReceiverConfig(blksize, hello, udp.socketTimeout), udp.incoming[udp.position..])
      modifies udp
      ensures var c := ReceiverConfig(blksize, hello, old(udp.socketTimeout));
              var r := Hear(c, udp.incoming[old(udp.position)..]);
              && outcome == r.outcome && Follows(udp, old(OriginOf(udp)), r.log, r.timer)
              && var stream := Flatten(r.accepted);
              if mode.OCTET? then file == stream
              else (file == Decode(stream) <==> !Spoiled(r.accepted))
                   && (file == stream <==> !Has(stream, CR, LF) && !Has(stream, CR, NUL))
    {
      hide Hear, WriteAll, Writable, Decode, Spoiled;
      var writer := new Writer(mode);
      ghost var c, events := ReceiverConfig(blksize, hello, udp.socketTimeout), udp.incoming[udp.position..];
      outcome := ReceiveFile(hello, writer);
      writer.Close();
      FileIsDecoding(mode, Hear(c, events).accepted);
      file := writer.file;
    }

    /** What the wait for ACK 0 makes of a packet; Silent stands for one more retry. */
    method TakeWelcome(datagram: seq<byte>, retries: nat) returns (w: Welcomed)
      requires blksize > 0
      ensures if w.Silent? then w == Silent(retries + 1) && CountedWelcome(Packet(datagram))
              else w == WelcomeStep(blksize, Silent(retries), Packet(datagram))
      ensures w.Rejected? ==> |w.report| <= 1 && w.counted == retries
      ensures w.Ready? ==> w.counted == retries
    {
      hide Parse, OpcodeOf, Received;
      RequestsAreOther(datagram, blksize);
      match Parse(datagram, blksize) {
        case Ack(number) =>
          if number != 0 {
            return Rejected(retries, Malformed, [ERROR_PACKET]);
          }
          return Ready(retries);
        case Error =>
          return Rejected(retries, PeerError, []);
        case Other =>
          if OpcodeOf(Received(datagram)) != Ok(OPCODE_RRQ) {
            return Rejected(retries, Malformed, [ERROR_PACKET]);
          }
          return Silent(retries + 1);
        case _ =>
          return Rejected(retries, Malformed, [ERROR_PACKET]);
      }
    }

    /** One receive of the wait for ACK 0. */
    method HearWelcome(retries: nat, ghost o: Origin, ghost socket: nat, ghost oack: seq<byte>) returns (w: Welcomed)
      requires retries < MAX_RETRIES && blksize > 0 && udp.Valid() && udp.position < |udp.incoming|
      requires Welcoming(udp, o, oack, blksize, socket, retries)
      modifies udp
      ensures udp.Valid() && udp.position == old(udp.position) + 1 && udp.sent == old(udp.sent)
      ensures w.Silent? ==> Welcoming(udp, o, oack, blksize, socket, retries + 1)
      ensures !w.Silent? ==>
                && w.counted == retries && (w.Rejected? ==> |w.report| <= 1)
                && Welcome(blksize, udp.incoming[o.position..]) == w
                && Follows(udp, o, [oack], Waits(socket, udp.incoming[o.position..][..retries]))
    {
      hide Welcome, Waits, CountedWelcome, Parse;
      WelcomeMore(blksize, socket, udp.incoming, o.position, udp.position);
      var event := udp.Receive();
      if event == Expired {
        ExpiredCounts();
        udp.IncreaseTimeout();
        return Silent(retries + 1);
      }
      w := TakeWelcome(event.datagram, retries);
    }

    /** The OACK of FollowOnRRQ, sent once, and the wait for ACK 0. A repeated
        request is counted like an expired receive, but the timeout stays. */
    method AwaitAckZero(oack: seq<byte>) returns (w: Welcomed)
      requires udp.Valid() && udp.timeout == 1 && blksize > 0
      modifies udp
      ensures w == Welcome(blksize, udp.incoming[old(udp.position)..])
      ensures udp.Valid() && old(udp.position) + w.counted <= udp.position
      ensures w.Ready? ==> udp.position == old(udp.position) + w.counted + 1
      ensures udp.sent == old(udp.sent) + [oack] + (if w.Rejected? then w.report else [])
      ensures var clock := Waits(old(udp.socketTimeout), udp.incoming[old(udp.position)..][..w.counted]);
              && udp.waited == old(udp.waited) + clock.waited
              && udp.timeout == (if w.Ready? then 1 else clock.timeout)
              && udp.socketTimeout == (if w.Ready? then 1 else clock.socket)
    {
      hide Welcome, Waits;
      ghost var o, socket := OriginOf(udp), udp.socketTimeout;
      udp.Send(oack);
      var retries := 0;
      NoneWelcomed(udp, o, oack, blksize, socket);
      while retries < MAX_RETRIES
        invariant retries <= MAX_RETRIES && Welcoming(udp, o, oack, blksize, socket, retries)
      {
        if udp.position == |udp.incoming| {
          NothingMore(udp, o, oack, blksize, socket, retries);
          return Silent(retries);
        }
        w := HearWelcome(retries, o, socket, oack);
        if w.Ready? {
          udp.TimeoutReset();
          return;
        }
        if w.Rejected? {
          SendReport(udp, w.report);
          return;
        }
        retries := retries + 1;
      }
      NothingMore(udp, o, oack, blksize, socket, retries);
      w := Rejected(retries, TimedOut, [ERROR_PACKET]);
      SendReport(udp, w.report);
    }

    /** FollowOnRRQ after the options: oack is empty when the request had none. */
    method AnswerRead(oack: seq<byte>, reader: Reader) returns (outcome: Outcome)
      requires MIN_BLOCK_SIZE <= blksize <= MAX_BLOCK_SIZE && udp.Valid() && reader.Valid()
      requires udp.timeout == 1 && udp.socketTimeout > 0
      modifies udp, reader
      ensures var blocks := Chop(reader.content[old(reader.position)..], blksize);
              var c := SenderConfig(Role.Server, blocks, blksize, old(udp.socketTimeout));
              && c.Valid()
              && var d := ServeSession(c, oack, udp.incoming[old(udp.position)..]);
              outcome == d.outcome && Follows(udp, old(OriginOf(udp)), d.log, d.timer)
    {
      hide Run, Welcome, Parse, Chop, Waits;
      ghost var p := udp.position;
      ChopIsExact(reader.content[reader.position..], blksize);
      if oack == [] {
        outcome := SendFile(reader);
        return;
      }
      var w := AwaitAckZero(oack);
      match w {
        case Ready(n) =>
          assert udp.incoming[p..][n + 1..] == udp.incoming[udp.position..];
          outcome := SendFile(reader);
        case Rejected(_, why, _) =>
          outcome := why;
        case Silent(_) =>
          outcome := Running;
      }
    }
  }
}
