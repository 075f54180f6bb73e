/** src/tftp-client/TftpClient.cpp, Write.cpp and Read.cpp: one transfer at the client. */
module ClientProgram {
  import opened Bytes
  import opened Numbers
  import opened FileWriter
  import opened FileReader
  import opened Packets
  import opened Options
  import opened Requests
  import opened Negotiation
  import opened Udp
  import opened Sending
  import opened Receiving
  import opened Linking
  import opened Greeting
  import opened Sessions

  class TftpClient {
    const udp: UdpClient
    var options: seq<Opt>
    var blksize: int
    var timeout: int

    function Fields(): Params
      reads this, udp
    {
      Params(blksize, timeout, 0, udp.socketTimeout)
    }

    ghost predicate Valid()
      reads this
    {
      AllChecked(options)
    }

    /** The constructor already sets up what will be asked for. */
    constructor (udp: UdpClient, options: seq<Opt>)
      requires AllChecked(options) && udp.socketTimeout == 1
      modifies udp`socketTimeout
      ensures Valid() && this.udp == udp && this.options == options
      ensures Fields() == Setup(DEFAULTS, options)
    {
      this.udp := udp;
      this.options := options;
      blksize, timeout := 512, 1;
      new;
      SetupUdpClient();
    }

    method SetupUdpClient()
      requires Valid()
      modifies `blksize, `timeout, udp`socketTimeout
      ensures Fields() == Setup(old(Fields()), options)
    {
      for i := 0 to |options|
        invariant Fields() == Setup(old(Fields()), options[..i])
      {
        var option := options[i];
        assert options[..i + 1][..i] == options[..i];
        if option.name.BLKSIZE? {
          CheckedConverts(option);
          blksize := Stoi(option.value).n;
        } else if option.name.TIMEOUT? {
          CheckedConverts(option);
          timeout := Stoi(option.value).n;
          udp.ChangeTimeout(timeout);
        }
      }
      assert options[..|options|] == options;
    }

    method ValidateOptionsInOack(oackOptions: seq<Opt>) returns (r: Result<()>)
      ensures r == Validate(oackOptions, options)
    {
      hide CheckPair;
      for i := 0 to |oackOptions|
        invariant Validate(oackOptions[..i], options) == Ok(())
      {
        var found := false;
        assert oackOptions[..i + 1][..i] == oackOptions[..i];
        for j := 0 to |options|
          invariant CheckAgainst(oackOptions[i], options[..j]) == Ok(found)
        {
          assert options[..j + 1][..j] == options[..j];
          var here := CheckPair(oackOptions[i], options[j]);
          if here.Err? {
            CheckStops(oackOptions[i], options, j + 1);
            ValidateStops(oackOptions, options, i + 1);
            return Err(here.error);
          }
          if here.value {
            found := true;
          }
        }
        assert options[..|options|] == options;
        if !found {
          ValidateStops(oackOptions, options, i + 1);
          return Err(IllegalOperation);
        }
      }
      assert oackOptions[..|oackOptions|] == oackOptions;
      return Ok(());
    }

    /** The OACK branch of Read and SendWrq. */
    method TakeOack(raw: seq<byte>) returns (r: Result<()>)
      requires Valid()
      modifies this, udp`socketTimeout
      ensures Valid()
      ensures var accepted := AcceptOack(raw, old(options));
              if accepted.Err? then
                r == Err(accepted.error) && options == old(options) && Fields() == old(Fields())
              else
                r == Ok(()) && options == accepted.value && Fields() == Setup(old(Fields()), options)
    {
      var opcode := OpcodeOf(raw);
      if opcode.Err? {
        return Err(opcode.error);
      }
      if opcode.value != OPCODE_OACK {
        return Err(IllegalOperation);
      }
      var parsed := ParseOptions(Oack, raw[2..]);
      if parsed.Err? {
        return Err(parsed.error);
      }
      if |options| < |parsed.value| {
        return Err(IllegalOperation);
      }
      r := ValidateOptionsInOack(parsed.value);
      if r.Ok? {
        ParsedChecked(Oack, raw[2..], []);
        options := parsed.value;
        SetupUdpClient();
      }
    }

    /** The inner loop of SendData: wait for the ACK of one block. The uint16_t
        counter is blockNumber; block is the index it stands for. */
    method AwaitAck(blockNumber: nat, ghost block: nat, ghost c: SenderConfig, ghost o: Origin)
      returns (end: End, ghost log: seq<seq<byte>>, ghost timer: Timer)
      requires c.Valid() && c.role.Client? && c.blksize == blksize && blockNumber == Wire(block)
      requires udp.Valid() && o.position <= udp.position
      requires var s := Run(c, Heard(udp, o));
               s.outcome.Running? && s.block == block && s.retries == 0 && Follows(udp, o, s.log, s.timer)
      modifies udp
      ensures Follows(udp, o, log, timer)
      ensures SenderWaited(c, Run(c, Heard(udp, o)), block, log, timer, end)
      ensures end.Starved? ==> udp.position == |udp.incoming|
    {
      hide React, Run, Wire, Parse, PrintData;
      var retries := 0;
      ghost var s := Run(c, Heard(udp, o));
      log, timer := s.log, s.timer;
      while retries < MAX_RETRIES
        invariant udp.Valid() && o.position <= udp.position && retries <= MAX_RETRIES
        invariant s == Run(c, Heard(udp, o)) && s.block == block && s.retries == retries
        invariant retries < MAX_RETRIES ==> s.outcome.Running? && Follows(udp, o, s.log, s.timer)
        invariant retries == MAX_RETRIES ==>
                    Follows(udp, o, log, timer) && SenderWaited(c, s, block, log, timer, GaveUp)
        decreases |udp.incoming| - udp.position
      {
        log, timer := s.log, s.timer;
        if udp.position == |udp.incoming| {
          return Starved, log, timer;
        }
        HeardMore(c, udp.incoming, o.position, udp.position);
        var event := udp.Receive();
        s := Run(c, Heard(udp, o));
        if event == Expired {
          retries := retries + 1;
          udp.IncreaseTimeout();
          timer := timer.Wait().Increased();
        } else {
          match Parse(event.datagram, blksize)
          case Ack(number) =>
            if number == blockNumber {
              return Arrived, log, timer;
            } else if number <= blockNumber {
              retries := retries + 1;
              udp.IncreaseTimeout();
              timer := timer.Increased();
            } else {
              return Thrown(FutureBlock), log, timer;
            }
          case Error =>
            return Thrown(PeerError), log, timer;
          case BadOpcode =>
            return Thrown(Malformed), log, timer;
          case BadAck =>
            return Thrown(Malformed), log, timer;
          case BadError =>
            return Thrown(Malformed), log, timer;
          case _ =>
        }
      }
      end := GaveUp;
    }

    /** The body of the loop over blocks, once the block has been read. */
    method SendBlock(blockNumber: nat, ghost block: nat, data: seq<byte>, ghost c: SenderConfig, ghost o: Origin,
                     ghost log0: seq<seq<byte>>, ghost timer0: Timer)
      returns (end: End, ghost log: seq<seq<byte>>, ghost timer: Timer)
      requires c.Valid() && c.role.Client? && c.blksize == blksize && blockNumber == Wire(block)
      requires Follows(udp, o, log0, timer0)
      requires BetweenBlocks(c, Run(c, Heard(udp, o)), block, log0, timer0)
      requires data == c.blocks[block - 1]
      modifies udp
      ensures Follows(udp, o, log, timer)
      ensures var s, last := Run(c, Heard(udp, o)), block == |c.blocks|;
              if end.Arrived? && !last then BetweenBlocks(c, s, block + 1, log, timer)
              else AtEnd(s, Verdict(c.role, end, last), log, timer)
      ensures end.Starved? ==> udp.position == |udp.incoming|
      ensures end.Thrown? ==> !end.outcome.Running? && !end.outcome.Finished()
    {
      hide React, Run, Parse, Start, PrintData, Wire;
      var last := |data| < blksize;
      assert last == (block == |c.blocks|);
      SameOnTheWire(block, data);
      udp.Send(PrintData(blockNumber, data));
      Appended(o.sent, log0, c.DataPacket(block));
      end, log, timer := AwaitAck(blockNumber, block, c, o);
      Appended(o.sent, log, ERROR_PACKET);
      if Verdict(Role.Client, end, last).Reported() {
        udp.Send(ERROR_PACKET);
        log := log + [ERROR_PACKET];
      } else if end.Arrived? || end.GaveUp? {
        udp.TimeoutReset();
        timer := timer.Reset();
      }
    }

    /** SendData, reading from input, with the ERROR packet run sends for what it throws. */
    method SendData(input: Reader) returns (outcome: Outcome)
      requires MIN_BLOCK_SIZE <= blksize <= MAX_BLOCK_SIZE && udp.Valid() && input.Valid()
      requires udp.timeout == 1 && udp.socketTimeout > 0
      modifies udp, input
      ensures var blocks := Chop(input.content[old(input.position)..], blksize);
              var c := SenderConfig(Client, blocks, blksize, old(udp.socketTimeout));
              && c.Valid()
              && var s := Run(c, udp.incoming[old(udp.position)..]);
              outcome == s.outcome && Follows(udp, old(OriginOf(udp)), s.log, s.timer)
    {
      hide React, Run, Parse, Start, Chop, BetweenBlocks, Wire;
      ghost var o := OriginOf(udp);
      ghost var left := input.content[input.position..];
      ghost var blocks := Chop(left, blksize);
      ghost var c := SenderConfig(Client, blocks, blksize, udp.socketTimeout);
      ChopIsExact(left, blksize);
      HeardNothing(c, udp.incoming, o.position);
      ghost var log: seq<seq<byte>>, timer := [], Timer(1, udp.socketTimeout, 0);
      var blockNumber := 1;
      ghost var block := 1;
      WireBelow(1);
      assert blocks[0..] == blocks;
      var lastPacketSent := false;
      outcome := Running;
      while !lastPacketSent
        invariant blksize == c.blksize && Follows(udp, o, log, timer)
        invariant input.Valid() && left == input.content[input.position..]
        invariant !lastPacketSent ==>
                    && 1 <= block <= |blocks|
                    && BetweenBlocks(c, Run(c, Heard(udp, o)), block, log, timer)
                    && Chop(left, c.blksize) == blocks[block - 1..]
                    && blockNumber == Wire(block)
        invariant lastPacketSent ==> outcome.Finished() && AtEnd(Run(c, Heard(udp, o)), outcome, log, timer)
        decreases !lastPacketSent, |blocks| - block
      {
        ghost var rest := left;
        var data := input.ReadFile(blksize);
        NextChop(rest, c.blksize, data, blocks, block - 1);
        left := input.content[input.position..];
        assert left == rest[|data|..];
        if |data| < blksize {
          lastPacketSent := true;
        }
        ghost var position := input.position;
        var end;
        end, log, timer := SendBlock(blockNumber, block, data, c, o, log, timer);
        assert input.position == position;
        outcome := Verdict(Client, end, lastPacketSent);
        if !end.Arrived? && !outcome.Finished() {
          HeardAll(c, udp.incoming, o.position, udp.position);
          return;
        }
        blockNumber := (blockNumber + 1) % WIRE_NUMBERS;
        WireNext(block);
        block := block + 1;
      }
      HeardAll(c, udp.incoming, o.position, udp.position);
    }

    /** The inner loop of Read: acknowledge a block, or the OACK by ACK 0, until
        the next block comes. */
    method AwaitData(blockNumber: nat, writer: Writer, ghost c: ReceiverConfig, ghost o: Origin,
                     ghost log0: seq<seq<byte>>, ghost timer0: Timer)
      returns (end: End, short: bool, ghost log: seq<seq<byte>>, ghost timer: Timer)
      requires c.blksize == blksize && (blockNumber == 0 ==> c.hello == PrintAck(0))
      requires udp.Valid() && o.position <= udp.position && Storable(writer.mode, c, udp.incoming[o.position..])
      requires Follows(udp, o, log0, timer0)
      requires BeforePrompt(c, Hear(c, Heard(udp, o)), blockNumber, 0, log0, timer0)
      requires Stored(writer, Hear(c, Heard(udp, o)).accepted)
      modifies udp, writer
      ensures Follows(udp, o, log, timer)
      ensures ReceiverWaited(Hear(c, Heard(udp, o)), blockNumber, log, timer, end, short)
      ensures Stored(writer, Hear(c, Heard(udp, o)).accepted)
      ensures !end.Arrived? ==> !short
      ensures end.Arrived? ==> udp.position > old(udp.position)
      ensures end.Starved? ==> udp.position == |udp.incoming|
    {
      hide Respond, Hear, WriteAll, Writable, Stored, Storable, Parse, PrintAck;
      var retries := 0;
      ghost var r := Hear(c, Heard(udp, o));
      log, timer, short := log0, timer0, false;
      while retries < MAX_RETRIES
        invariant udp.Valid() && o.position <= udp.position && retries <= MAX_RETRIES
        invariant r == Hear(c, Heard(udp, o)) && Stored(writer, r.accepted) && !short
        invariant Follows(udp, o, log, timer) && old(udp.position) <= udp.position
        invariant retries < MAX_RETRIES ==> BeforePrompt(c, r, blockNumber, retries, log, timer)
        invariant retries == MAX_RETRIES ==> ReceiverWaited(r, blockNumber, log, timer, GaveUp, false)
        decreases |udp.incoming| - udp.position
      {
        udp.Send(PrintAck(blockNumber));
        Appended(o.sent, log, PrintAck(blockNumber));
        log := r.log;
        if udp.position == |udp.incoming| {
          return Starved, short, log, timer;
        }
        HeardMoreReceiver(c, udp.incoming, o.position, udp.position);
        var event := udp.Receive();
        ghost var accepted := r.accepted;
        r := Hear(c, Heard(udp, o));
        if event == Expired {
          retries := retries + 1;
          udp.IncreaseTimeout();
          timer := timer.Wait().Increased();
        } else {
          match Parse(event.datagram, blksize)
          case Data(number, payload) =>
            if number == blockNumber + 1 {
              StorableSoFar(writer.mode, c, udp.incoming, o.position, udp.position);
              Store(writer, payload, accepted);
              return Arrived, |payload| < blksize, log, timer;
            } else if number < blockNumber + 1 {
              retries := retries + 1;
              udp.IncreaseTimeout();
              timer := timer.Increased();
            } else {
              return Thrown(FutureBlock), short, log, timer;
            }
          case Error =>
            return Thrown(PeerError), short, log, timer;
          case BadOpcode =>
            return Thrown(Malformed), short, log, timer;
          case BadData =>
            return Thrown(Malformed), short, log, timer;
          case BadError =>
            return Thrown(Malformed), short, log, timer;
          case _ =>
        }
      }
      end := GaveUp;
    }

    /** The data loop of Read and the final ACK, from block 0 after an OACK or
        from block 1 when DATA answered the request. */
    method ReceiveData(first: nat, firstIsLast: bool, writer: Writer, ghost c: ReceiverConfig, ghost o: Origin,
                       ghost log0: seq<seq<byte>>, ghost timer0: Timer)
      returns (outcome: Outcome)
      requires c.blksize == blksize && first < WIRE_NUMBERS && (first == 0 ==> c.hello == PrintAck(0))
      requires Follows(udp, o, log0, timer0) && Storable(writer.mode, c, udp.incoming[o.position..])
      requires Stored(writer, Hear(c, Heard(udp, o)).accepted)
      requires !firstIsLast ==> BeforePrompt(c, Hear(c, Heard(udp, o)), first, 0, log0, timer0)
      requires firstIsLast ==> ReceiverDone(Hear(c, Heard(udp, o)), first, log0, timer0)
      modifies udp, writer
      ensures var r := Hear(c, udp.incoming[o.position..]);
              outcome == r.outcome && Stored(writer, r.accepted) && Follows(udp, o, r.log, r.timer)
    {
      hide Respond, Hear, WriteAll, PrintAck;
      ghost var log, timer := log0, timer0;
      var blockNumber, last := first, firstIsLast;
      while !last
        invariant blksize == c.blksize && 0 <= blockNumber < WIRE_NUMBERS && Follows(udp, o, log, timer)
        invariant blockNumber == 0 ==> c.hello == PrintAck(0)
        invariant Stored(writer, Hear(c, Heard(udp, o)).accepted)
        invariant !last ==> BeforePrompt(c, Hear(c, Heard(udp, o)), blockNumber, 0, log, timer)
        invariant last ==> ReceiverDone(Hear(c, Heard(udp, o)), blockNumber, log, timer)
        decreases !last, |udp.incoming| - udp.position
      {
        var end;
        end, last, log, timer := AwaitData(blockNumber, writer, c, o, log, timer);
        if !end.Arrived? {
          outcome := GiveUp(udp, end, c, o, blockNumber, log, timer);
          return;
        }
        // A uint16_t increment: no DATA packet numbers a block past 65535.
        SizesHold(c, Heard(udp, o));
        blockNumber := (blockNumber + 1) % WIRE_NUMBERS;
        udp.TimeoutReset();
        timer := timer.Reset();
      }
      HeardAllReceiver(c, udp.incoming, o.position, udp.position);
      Appended(o.sent, log, PrintAck(blockNumber));
      udp.Send(PrintAck(blockNumber));
      outcome := Done;
    }

    /** What Read makes of the first packet: payload is that of DATA 1. */
    method Decide(datagram: seq<byte>, retries: nat) returns (g: Greeted, payload: seq<byte>)
      requires Valid() && udp.Valid() && blksize > 0
      modifies this, udp
      ensures Valid() && udp.Valid() && udp.position == old(udp.position) && udp.waited == old(udp.waited)
      ensures g == Answer(datagram, old(blksize), old(options), retries)
      ensures g.ByData? ==>
                && options == [] && Fields() == old(Fields()) && udp.Clock() == old(udp.Clock())
                && udp.sent == old(udp.sent) && Parse(datagram, blksize) == Data(1, payload)
      ensures g.ByOack? ==>
                && options == g.options && blksize == Setup(old(Fields()), options).blksize
                && udp.sent == old(udp.sent)
      ensures g.Refused? ==>
                && options == old(options) && Fields() == old(Fields()) && udp.Clock() == old(udp.Clock())
                && udp.sent == old(udp.sent) + g.report
    {
      hide Parse, AcceptOack, OpcodeOf;
      payload := [];
      match Parse(datagram, blksize) {
        case Data(number, data) =>
          if number == 1 {
            options := [];
            SetupUdpClient();
            return ByData(retries), data;
          }
          g := Refused(retries, Malformed, [ERROR_PACKET]);
        case Error =>
          g := Refused(retries, PeerError, []);
        case Other =>
          var raw := Received(datagram);
          if OpcodeOf(raw) == Ok(OPCODE_OACK) {
            var taken := TakeOack(raw);
            if taken.Ok? {
              return ByOack(retries, options), payload;
            }
            g := Refused(retries, Malformed, Report(taken.error));
          } else {
            g := Refused(retries, Malformed, [ERROR_PACKET]);
          }
        case _ =>
          g := Refused(retries, Malformed, [ERROR_PACKET]);
      }
      SendReport(udp, g.report);
    }

    /** The sends and receives of Read's request loop, up to the first packet. */
    method Request(request: seq<byte>) returns (end: End, datagram: seq<byte>, retries: nat)
      requires udp.Valid() && udp.timeout == 1
      modifies udp
      ensures end in {Arrived, GaveUp, Starved} && retries <= MAX_RETRIES && (end.GaveUp? <==> retries == MAX_RETRIES)
      ensures udp.position == old(udp.position) + retries + (if end.Arrived? then 1 else 0) <= |udp.incoming|
      ensures end.Arrived? ==> udp.incoming[udp.position - 1] == Packet(datagram)
      ensures end.Starved? ==> udp.position == |udp.incoming|
      ensures var events := udp.incoming[old(udp.position)..old(udp.position) + retries];
              && Silence(events)
              && Follows(udp, old(OriginOf(udp)), Repeat(request, Unanswered(retries).Requests()),
                         Waits(old(udp.socketTimeout), events))
    {
      hide Repeat, Waits, Silence;
      ghost var o, socket := OriginOf(udp), udp.socketTimeout;
      retries, datagram := 0, [];
      NothingYet(request, 0, socket);
      assert Heard(udp, o) == [] && o.sent + [] == o.sent;
      while retries < MAX_RETRIES
        invariant udp.Valid() && retries <= MAX_RETRIES && udp.position == o.position + retries
        invariant Silence(Heard(udp, o)) && Follows(udp, o, Repeat(request, retries), Waits(socket, Heard(udp, o)))
      {
        ghost var heard := Heard(udp, o);
        udp.Send(request);
        RepeatMore(request, retries);
        Appended(o.sent, Repeat(request, retries), request);
        if udp.position == |udp.incoming| {
          return Starved, datagram, retries;
        }
        var event := udp.Receive();
        if event.Packet? {
          return Arrived, event.datagram, retries;
        }
        assert Heard(udp, o) == heard + [event];
        OneMoreSilent(socket, heard);
        retries := retries + 1;
        udp.IncreaseTimeout();
      }
      end := GaveUp;
    }

    /** The request loop of Read. On an answer by DATA the client drops its
        options; on an OACK it takes those of the OACK. */
    method AwaitAnswer(request: seq<byte>) returns (g: Greeted, payload: seq<byte>)
      requires Valid() && udp.Valid() && blksize > 0 && udp.timeout == 1
      modifies this, udp
      ensures Valid() && udp.Valid()
      ensures g == Greet(old(blksize), old(options), udp.incoming[old(udp.position)..])
      ensures udp.position == old(udp.position) + g.expired + (if g.ByData? || g.ByOack? then 1 else 0)
              || (g.Refused? && udp.position == old(udp.position) + g.expired + 1)
      ensures udp.sent == old(udp.sent) + Repeat(request, g.Requests()) + (if g.Refused? then g.report else [])
      ensures var clock := Waits(old(udp.socketTimeout), udp.incoming[old(udp.position)..][..g.expired]);
              && udp.waited == old(udp.waited) + clock.waited
              && (!g.ByOack? ==> udp.timeout == clock.timeout && udp.socketTimeout == clock.socket)
      ensures g.ByData? ==>
                && options == [] && blksize == old(blksize)
                && udp.incoming[udp.position - 1].Packet?
                && Parse(udp.incoming[udp.position - 1].datagram, blksize) == Data(1, payload)
      ensures g.ByOack? ==> options == g.options && blksize == Setup(old(Fields()), options).blksize
      ensures g.Refused? || g.Unanswered? ==> options == old(options) && blksize == old(blksize)
    {
      hide Parse, Answer, Setup, Greet, Repeat, Waits, Silence;
      ghost var p := udp.position;
      var end, datagram, retries;
      payload := [];
      end, datagram, retries := Request(request);
      assert udp.incoming[p..p + retries] == udp.incoming[p..][..retries];
      GreetAfter(blksize, options, udp.incoming[p..], retries);
      if end.Starved? {
        return Unanswered(retries), payload;
      }
      if end.GaveUp? {
        g := Refused(retries, TimedOut, [ERROR_PACKET]);
        SendReport(udp, g.report);
        return;
      }
      ghost var before := Fields();
      g, payload := Decide(datagram, retries);
      if g.ByOack? {
        SetupIgnoresSocket(old(Fields()), before.socket, options);
      }
    }

    /** Read after DATA 1, which ended the request loop. */
    method ReadOn(payload: seq<byte>, writer: Writer, ghost c: ReceiverConfig, ghost o: Origin,
                  ghost sent: seq<seq<byte>>, ghost timer: Timer)
      returns (outcome: Outcome)
      requires c.blksize == blksize && Follows(udp, o, sent, timer)
      requires Hear(c, Heard(udp, o)).accepted == [payload]
      requires ReceiverWaited(Hear(c, Heard(udp, o)), 0, sent, timer, Arrived, |payload| < blksize)
      requires writer.State() == EMPTY && Storable(writer.mode, c, udp.incoming[o.position..])
      modifies udp, writer
      ensures var r := Hear(c, udp.incoming[o.position..]);
              outcome == r.outcome && Stored(writer, r.accepted) && Follows(udp, o, r.log, r.timer)
    {
      hide Hear, WriteAll, Writable, PrintAck;
      StorableSoFar(writer.mode, c, udp.incoming, o.position, udp.position);
      StoreNone(writer.mode);
      assert [] + [payload] == [payload];
      Store(writer, payload, []);
      udp.TimeoutReset();
      outcome := ReceiveData(1, |payload| < blksize, writer, c, o, sent, timer.Reset());
    }

    /** Read after the OACK, which ended the request loop. */
    method ReadFromZero(writer: Writer, ghost c: ReceiverConfig) returns (outcome: Outcome)
      requires udp.Valid() && blksize >= 0 && c == ReceiverConfig(blksize, PrintAck(0), 1)
      requires writer.State() == EMPTY && Storable(writer.mode, c, udp.incoming[udp.position..])
      modifies udp, writer
      ensures var r := Hear(c, udp.incoming[old(udp.position)..]);
              outcome == r.outcome && Stored(writer, r.accepted) && Follows(udp, old(OriginOf(udp)), r.log, r.timer)
    {
      hide Hear, WriteAll, Writable, PrintAck;
      ghost var o := OriginOf(udp);
      StoreNone(writer.mode);
      udp.TimeoutReset();
      HeardNothingReceiver(c, udp.incoming, o.position);
      outcome := ReceiveData(0, false, writer, c, o, [], Timer(1, 1, 0));
    }

    /** Read, from the request to the final ACK, whatever answers the request. */
    method Read(request: seq<byte>, writer: Writer) returns (outcome: Outcome)
      requires Valid() && Fields().Usable() && udp.Valid() && udp.timeout == 1 && writer.State() == EMPTY
      requires Writable(writer.mode, ReadSession(Fields(), options, request, udp.incoming[udp.position..]).accepted)
      modifies this, udp, writer
      ensures var d := ReadSession(old(Fields()), old(options), request, udp.incoming[old(udp.position)..]);
              outcome == d.outcome && Stored(writer, d.accepted) && Follows(udp, old(OriginOf(udp)), d.log, d.timer)
      ensures match Greet(old(blksize), old(options), udp.incoming[old(udp.position)..])
              case ByData(_) => blksize == old(blksize) && options == []
              case ByOack(_, accepted) =>
                AllChecked(accepted) && options == accepted && blksize == Setup(old(Fields()), accepted).blksize
              case _ => blksize == old(blksize) && options == old(options)
    {
      hide Parse, Greet, Setup, Hear, WriteAll, Writable, PrintAck, Repeat, Waits, Silence, ReceiverWaited, Answer;
      ghost var o, p, events := OriginOf(udp), Fields(), udp.incoming[udp.position..];
      StoreNone(writer.mode);
      var g, payload;
      g, payload := AwaitAnswer(request);
      match g {
        case ByData(n) =>
          ghost var c := DataReader(p, request);
          assert udp.incoming[o.position..o.position + n + 1] == events[..n + 1];
          AnswerCame(p.blksize, old(options), events);
          AnsweredFirst(c, events, n, payload);
          outcome := ReadOn(payload, writer, c, o, Repeat(request, n + 1), Waits(p.socket, events[..n]));
        case ByOack(n, accepted) =>
          assert events[n + 1..] == udp.incoming[udp.position..];
          OackChecked(p.blksize, old(options), events);
          outcome := ReadFromZero(writer, OackReader(p, accepted));
        case Refused(_, why, _) =>
          outcome := why;
        case Unanswered(_) =>
          outcome := Running;
      }
    }

    /** SendWrq. After an expired receive the options stay as requested. */
    method SendWrq(request: seq<byte>) returns (w: Opened)
      requires Valid() && udp.Valid() && blksize > 0 && udp.timeout == 1
      modifies this, udp
      ensures Valid() && udp.Valid() && udp.timeout == 1
      ensures var events := udp.incoming[old(udp.position)..];
              && w == Open(old(blksize), old(options), events)
              && udp.position == old(udp.position) + (if w.Waiting? then 0 else 1)
              && udp.sent == old(udp.sent) + [request] + (if w.Denied? then w.report else [])
              && udp.waited == old(udp.waited) + (if w.Begun? && events[0].Expired? then old(udp.socketTimeout) else 0)
              && (if w.Begun? then
                    && options == w.options
                    && (if events[0].Expired? then Fields() == old(Fields()).(socket := 1)
                        else Fields() == Setup(old(Fields()), options))
                  else options == old(options) && Fields() == old(Fields()))
    {
      hide Parse, AcceptOack, OpcodeOf, Setup;
      udp.Send(request);
      if udp.position == |udp.incoming| {
        return Waiting;
      }
      ghost var p := udp.position;
      var event := udp.Receive();
      assert udp.incoming[p..][0] == event;
      if event == Expired {
        udp.IncreaseTimeout();
        udp.TimeoutReset();
        return Begun(options);
      }
      match Parse(event.datagram, blksize) {
        case Ack(number) =>
          if number == 0 {
            options := [];
            SetupUdpClient();
            return Begun([]);
          }
          w := Denied(Malformed, [ERROR_PACKET]);
        case Error =>
          w := Denied(PeerError, []);
        case Other =>
          var raw := Received(event.datagram);
          if OpcodeOf(raw) == Ok(OPCODE_OACK) {
            var taken := TakeOack(raw);
            if taken.Ok? {
              return Begun(options);
            }
            w := Denied(Malformed, Report(taken.error));
          } else {
            w := Denied(Malformed, [ERROR_PACKET]);
          }
        case _ =>
          w := Denied(Malformed, [ERROR_PACKET]);
      }
      SendReport(udp, w.report);
    }

    /** Write: the request, then the data. */
    method Write(request: seq<byte>, input: Reader) returns (outcome: Outcome)
      requires Valid() && Fields().Usable() && udp.Valid() && udp.timeout == 1 && input.Valid()
      modifies this, udp, input
      ensures var events := udp.incoming[old(udp.position)..];
              var d := WriteSession(old(Fields()), old(options), request, input.content[old(input.position)..], events);
              outcome == d.outcome && Follows(udp, old(OriginOf(udp)), d.log, d.timer)
      ensures match Open(old(blksize), old(options), udp.incoming[old(udp.position)..])
              case Begun(granted) => options == granted
              case _ => options == old(options) && Fields() == old(Fields())
    {
      hide Parse, Open, Setup, Run, Chop;
      ghost var o, p, events := OriginOf(udp), Fields(), udp.incoming[udp.position..];
      var w := SendWrq(request);
      match w {
        case Begun(_) =>
          assert Fields() == Granted(p, old(options), events);
          assert events[1..] == udp.incoming[udp.position..];
          outcome := SendData(input);
        case Denied(why, _) =>
          outcome := why;
        case Waiting =>
          outcome := Running;
      }
    }
  }
}
