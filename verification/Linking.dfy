/** How the fields of an end follow the machine its loop is proved against. */
module Linking {
  import opened Bytes
  import opened FileReader
  import opened FileWriter
  import opened Packets
  import opened Udp
  import opened Sending
  import opened Receiving
  import opened Greeting
  import opened Sessions

  /** The socket as a data phase found it. */
  datatype Origin = Origin(position: nat, sent: seq<seq<byte>>, waited: nat)

  function OriginOf(udp: UdpClient): Origin
    reads udp
  {
    Origin(udp.position, udp.sent, udp.waited)
  }

  /** The events received since. */
  function Heard(udp: UdpClient, o: Origin): seq<Event>
    requires o.position <= udp.position && udp.Valid()
    reads udp
  {
    udp.incoming[o.position..udp.position]
  }

  /** The datagrams sent and the clock since then. */
  ghost predicate Follows(udp: UdpClient, o: Origin, log: seq<seq<byte>>, timer: Timer)
    reads udp
  {
    && udp.Valid() && o.position <= udp.position
    && udp.sent == o.sent + log
    && udp.Clock() == Timer(timer.timeout, timer.socket, o.waited + timer.waited)
  }

  /** How a wait for one block, or for its ACK, ends: Starved when the events
      run out (a run cut short), Thrown with what was thrown. */
  datatype End = Arrived | GaveUp | Starved | Thrown(outcome: Outcome)

  /** The machine s at the end of a wait for the ACK of a block, against what
      the socket has sent and its clock. */
  predicate SenderWaited(c: SenderConfig, s: Sender, block: nat, log: seq<seq<byte>>, timer: Timer, end: End) {
    1 <= block <= |c.blocks|
    && var last := block == |c.blocks|;
    match end
    case Arrived =>
      && s.block == block + 1 && s.retries == 0 && s.timer == timer.Reset()
      && s.outcome == (if last then Done else Running)
      && s.log == log + (if last then [] else [c.DataPacket(block + 1)])
    case GaveUp =>
      if last && c.role.Server? then s.outcome == DoneUnacked && s.log == log && s.timer == timer.Reset()
      else s.outcome == TimedOut && s.log == log + [ERROR_PACKET] && s.timer == timer
    case Starved => s.outcome.Running? && s.log == log && s.timer == timer
    case Thrown(outcome) =>
      && s.outcome == outcome && outcome in {FutureBlock, Malformed, PeerError} && s.timer == timer
      && s.log == log + (if outcome.Reported() then [ERROR_PACKET] else [])
  }

  /** The same for a receiver that has accepted n blocks and waits for the next. */
  predicate ReceiverWaited(r: Receiver, n: nat, log: seq<seq<byte>>, timer: Timer, end: End, short: bool) {
    match end
    case Arrived =>
      && |r.accepted| == n + 1 && r.retries == 0 && r.timer == timer.Reset()
      && r.outcome == (if short then Done else Running)
      && r.log == log + [PrintAck(n + 1)]
    case GaveUp => r.outcome == TimedOut && r.log == log + [ERROR_PACKET] && r.timer == timer
    case Starved => r.outcome.Running? && r.log == log && r.timer == timer
    case Thrown(outcome) =>
      && r.outcome == outcome && outcome in {FutureBlock, Malformed, PeerError} && r.timer == timer
      && r.log == log + (if outcome.Reported() then [ERROR_PACKET] else [])
  }

  /** At the top of a pass of a receiver loop: the prompt is about to be sent. */
  predicate BeforePrompt(c: ReceiverConfig, r: Receiver, n: nat, retries: nat, log: seq<seq<byte>>, timer: Timer) {
    && r.outcome.Running? && |r.accepted| == n && r.retries == retries
    && r.log == log + [c.Prompt(n)] && r.timer == timer
  }

  predicate TriedAgain(c: ReceiverConfig, r: Receiver, next: Receiver, timer: Timer) {
    && next.accepted == r.accepted
    && if r.retries + 1 < MAX_RETRIES then BeforePrompt(c, next, |r.accepted|, r.retries + 1, r.log, timer)
       else ReceiverWaited(next, |r.accepted|, r.log, timer, GaveUp, false)
  }

  /** After the last block, with the final ACK about to be sent. */
  predicate ReceiverDone(r: Receiver, n: nat, log: seq<seq<byte>>, timer: Timer) {
    r.outcome == Done && |r.accepted| == n && r.log == log + [PrintAck(n)] && r.timer == timer
  }

  /** One event in a wait for a block, as the loop's branches tell events apart. */
  predicate Answered(c: ReceiverConfig, r: Receiver, next: Receiver, event: Event) {
    var n := |r.accepted|;
    match event
    case Expired => TriedAgain(c, r, next, r.timer.Wait().Increased())
    case Packet(datagram) =>
      match Parse(datagram, c.blksize)
      case Data(number, payload) =>
        if number == n + 1 then
          next.accepted == r.accepted + [payload]
          && ReceiverWaited(next, n, r.log, r.timer, Arrived, |payload| < c.blksize)
        else if number < n + 1 then TriedAgain(c, r, next, r.timer.Increased())
        else next.accepted == r.accepted && ReceiverWaited(next, n, r.log, r.timer, Thrown(FutureBlock), false)
      case Error => next.accepted == r.accepted && ReceiverWaited(next, n, r.log, r.timer, Thrown(PeerError), false)
      case BadOpcode => next.accepted == r.accepted && ReceiverWaited(next, n, r.log, r.timer, Thrown(Malformed), false)
      case BadData => next.accepted == r.accepted && ReceiverWaited(next, n, r.log, r.timer, Thrown(Malformed), false)
      case BadError => next.accepted == r.accepted && ReceiverWaited(next, n, r.log, r.timer, Thrown(Malformed), false)
      case _ => next.accepted == r.accepted && BeforePrompt(c, next, n, r.retries, r.log, r.timer)
  }

  /** No call of WriteFile that the events lead to indexes an empty vector. */
  predicate Storable(format: DataFormat, c: ReceiverConfig, events: seq<Event>) {
    Writable(format, Hear(c, events).accepted)
  }

  lemma StorableSoFar(format: DataFormat, c: ReceiverConfig, events: seq<Event>, a: nat, b: nat)
    requires a <= b <= |events| && Storable(format, c, events[a..])
    ensures Writable(format, Hear(c, events[a..b]).accepted)
  {
    hide Hear, Writable;
    assert events[a..][..b - a] == events[a..b];
    var all := Hear(c, events[a..]).accepted;
    HearGrows(c, events[a..], b - a);
    var sofar := Hear(c, events[a..b]).accepted;
    WritablePrefix(format, all, |sofar|);
    assert all[..|sofar|] == sofar;
  }

  /** Answered by block 1 after n expired receives. */
  lemma AnsweredFirst(c: ReceiverConfig, events: seq<Event>, n: nat, payload: seq<byte>)
    requires n < |events| && n < MAX_RETRIES && Silence(events[..n])
    requires events[n].Packet? && Parse(events[n].datagram, c.blksize) == Data(1, payload)
    ensures var r := Hear(c, events[..n + 1]);
            && r.accepted == [payload]
            && ReceiverWaited(r, 0, Repeat(c.hello, n + 1), Waits(c.socketTimeout, events[..n]), Arrived,
                              |payload| < c.blksize)
  {
    FirstBlock(c, events, n, payload);
  }

  /** The server's wait for ACK 0 after a number of counted events and nothing else. */
  ghost predicate Welcoming(udp: UdpClient, o: Origin, oack: seq<byte>, blksize: nat, socket: nat, counted: nat)
    reads udp
  {
    && udp.Valid() && udp.position == o.position + counted
    && Follows(udp, o, [oack], Waits(socket, Heard(udp, o)))
    && Welcome(blksize, Heard(udp, o))
       == if counted < MAX_RETRIES then Silent(counted) else Rejected(counted, TimedOut, [ERROR_PACKET])
  }

  lemma NoneWelcomed(udp: UdpClient, o: Origin, oack: seq<byte>, blksize: nat, socket: nat)
    requires udp.Valid() && udp.position == o.position && udp.sent == o.sent + [oack]
    requires udp.Clock() == Timer(1, socket, o.waited)
    ensures Welcoming(udp, o, oack, blksize, socket, 0)
  {
    assert Heard(udp, o) == [];
    NothingYet(oack, blksize, socket);
  }

  /** The wait is over, or so are the events. */
  lemma NothingMore(udp: UdpClient, o: Origin, oack: seq<byte>, blksize: nat, socket: nat, counted: nat)
    requires counted <= MAX_RETRIES && Welcoming(udp, o, oack, blksize, socket, counted)
    requires counted == MAX_RETRIES || udp.position == |udp.incoming|
    ensures Welcome(blksize, udp.incoming[o.position..])
         == if counted < MAX_RETRIES then Silent(counted) else Rejected(counted, TimedOut, [ERROR_PACKET])
    ensures Heard(udp, o) == udp.incoming[o.position..][..counted]
  {
    hide Welcome;
    var events := udp.incoming[o.position..];
    assert Heard(udp, o) == events[..counted];
    if counted < MAX_RETRIES {
      assert events[..counted] == events;
    } else {
      WelcomeFrozen(blksize, events, counted);
    }
  }

  /** How the loop over blocks stands after one of them. */
  function Verdict(role: Role, end: End, last: bool): Outcome {
    match end
    case Arrived => if last then Done else Running
    case GaveUp => if last && role.Server? then DoneUnacked else TimedOut
    case Starved => Running
    case Thrown(outcome) => outcome
  }

  /** The machine s at the top of the loop over blocks: either one more block
      is about to be sent, or what was sent and the clock are final. */
  predicate BetweenBlocks(c: SenderConfig, s: Sender, block: nat, log: seq<seq<byte>>, timer: Timer) {
    1 <= block <= |c.blocks| && s == Sender(block, 0, Running, log + [c.DataPacket(block)], timer)
  }

  predicate AtEnd(s: Sender, outcome: Outcome, log: seq<seq<byte>>, timer: Timer) {
    s.outcome == outcome && s.log == log && s.timer == timer
  }

  /** A counted retry of the machine s, after which the clock shows timer. */
  predicate Retried(c: SenderConfig, s: Sender, next: Sender, timer: Timer)
    requires Sound(c, s) && s.outcome.Running?
  {
    && next.block == s.block && next.retries == s.retries + 1
    && if next.retries < MAX_RETRIES then next.outcome.Running? && next.log == s.log && next.timer == timer
       else SenderWaited(c, next, s.block, s.log, timer, GaveUp)
  }

  /** One event in a wait for an ACK, as the loop's branches tell events apart. */
  predicate Heeded(c: SenderConfig, s: Sender, next: Sender, event: Event)
    requires Sound(c, s) && s.outcome.Running?
  {
    match event
    case Expired => Retried(c, s, next, s.timer.Wait().Increased())
    case Packet(datagram) =>
      match Parse(datagram, c.blksize)
      case Ack(number) =>
        if number == c.Counter(s.block) then SenderWaited(c, next, s.block, s.log, s.timer, Arrived)
        else if number <= c.Counter(s.block) then Retried(c, s, next, s.timer.Increased())
        else SenderWaited(c, next, s.block, s.log, s.timer, Thrown(FutureBlock))
      case Error => SenderWaited(c, next, s.block, s.log, s.timer, Thrown(PeerError))
      case BadOpcode => SenderWaited(c, next, s.block, s.log, s.timer, Thrown(Malformed))
      case BadAck => SenderWaited(c, next, s.block, s.log, s.timer, Thrown(Malformed))
      case BadError => SenderWaited(c, next, s.block, s.log, s.timer, Thrown(Malformed))
      case _ => next == s
  }

  lemma ReactHeeds(c: SenderConfig, s: Sender, event: Event)
    requires c.Valid() && Sound(c, s) && s.outcome.Running?
    ensures Heeded(c, s, React(c, s, event), event)
  {
    assert s.log + [] == s.log;
  }

  lemma HeardMore(c: SenderConfig, events: seq<Event>, a: nat, b: nat)
    requires c.Valid() && a <= b < |events| && Run(c, events[a..b]).outcome.Running?
    ensures Heeded(c, Run(c, events[a..b]), Run(c, events[a..b + 1]), events[b])
  {
    hide Run, React, Heeded, WellChopped;
    assert events[a..][..b + 1 - a] == events[a..b + 1] && events[a..][..b - a] == events[a..b];
    RunStep(c, events[a..], b - a);
    ReactHeeds(c, Run(c, events[a..b]), events[b]);
  }

  lemma RespondAnswers(c: ReceiverConfig, r: Receiver, event: Event)
    requires r.outcome.Running?
    ensures Answered(c, r, Respond(c, r, event), event)
  {
    assert r.log + [] == r.log;
  }

  lemma HeardMoreReceiver(c: ReceiverConfig, events: seq<Event>, a: nat, b: nat)
    requires a <= b < |events| && Hear(c, events[a..b]).outcome.Running?
    ensures Answered(c, Hear(c, events[a..b]), Hear(c, events[a..b + 1]), events[b])
  {
    hide Hear, Respond, Answered;
    assert events[a..][..b + 1 - a] == events[a..b + 1] && events[a..][..b - a] == events[a..b];
    HearStep(c, events[a..], b - a);
    RespondAnswers(c, Hear(c, events[a..b]), events[b]);
  }

  lemma Appended(sent: seq<seq<byte>>, log: seq<seq<byte>>, datagram: seq<byte>)
    ensures sent + (log + [datagram]) == (sent + log) + [datagram]
    ensures log + [] == log
  {
  }

  lemma HeardNothing(c: SenderConfig, events: seq<Event>, a: nat)
    requires c.Valid() && a <= |events|
    ensures BetweenBlocks(c, Run(c, events[a..a]), 1, [], Timer(1, c.socketTimeout, 0))
  {
    assert events[a..a] == [] && [] + [c.DataPacket(1)] == [c.DataPacket(1)];
  }

  lemma HeardAll(c: SenderConfig, events: seq<Event>, a: nat, b: nat)
    requires c.Valid() && a <= b <= |events|
    requires b == |events| || !Run(c, events[a..b]).outcome.Running?
    ensures Run(c, events[a..]) == Run(c, events[a..b])
  {
    assert events[a..][..b - a] == events[a..b];
    if b == |events| {
      assert events[a..] == events[a..b];
    } else {
      RunFrozen(c, events[a..], b - a);
    }
  }

  lemma HeardNothingReceiver(c: ReceiverConfig, events: seq<Event>, a: nat)
    requires a <= |events|
    ensures BeforePrompt(c, Hear(c, events[a..a]), 0, 0, [], Timer(1, c.socketTimeout, 0))
    ensures Hear(c, events[a..a]).accepted == []
  {
    assert events[a..a] == [] && [] + [c.hello] == [c.hello];
  }

  lemma HeardAllReceiver(c: ReceiverConfig, events: seq<Event>, a: nat, b: nat)
    requires a <= b <= |events|
    requires b == |events| || !Hear(c, events[a..b]).outcome.Running?
    ensures Hear(c, events[a..]) == Hear(c, events[a..b])
  {
    assert events[a..][..b - a] == events[a..b];
    if b == |events| {
      assert events[a..] == events[a..b];
    } else {
      HearFrozen(c, events[a..], b - a);
    }
  }

  /** A wait that did not end with a block ends the transfer. */
  method GiveUp(udp: UdpClient, end: End, ghost c: ReceiverConfig, ghost o: Origin, ghost n: nat,
                ghost log: seq<seq<byte>>, ghost timer: Timer)
    returns (outcome: Outcome)
    requires !end.Arrived? && Follows(udp, o, log, timer)
    requires ReceiverWaited(Hear(c, Heard(udp, o)), n, log, timer, end, false)
    requires end.Starved? ==> udp.position == |udp.incoming|
    modifies udp
    ensures var r := Hear(c, udp.incoming[o.position..]);
            outcome == r.outcome && r.accepted == old(Hear(c, Heard(udp, o)).accepted)
            && Follows(udp, o, r.log, r.timer)
  {
    hide Respond, Hear;
    HeardAllReceiver(c, udp.incoming, o.position, udp.position);
    Appended(o.sent, log, ERROR_PACKET);
    outcome := match end case GaveUp => TimedOut case Thrown(thrown) => thrown case _ => Running;
    if outcome.Reported() {
      udp.Send(ERROR_PACKET);
    }
  }

  /** What run, or the server's caller, reports of an exception. */
  method SendReport(udp: UdpClient, report: seq<seq<byte>>)
    requires |report| <= 1
    modifies udp`sent
    ensures udp.sent == old(udp.sent) + report
  {
    if |report| > 0 {
      udp.Send(report[0]);
    }
  }

  /** The Writer holds what WriteFile makes of the accepted payloads. */
  ghost predicate Stored(writer: Writer, accepted: seq<seq<byte>>)
    reads writer
  {
    Writable(writer.mode, accepted) && writer.State() == WriteAll(writer.mode, accepted)
  }

  lemma StoreNone(format: DataFormat)
    ensures Writable(format, []) && WriteAll(format, []) == EMPTY
  {
  }

  lemma StoreOne(format: DataFormat, accepted: seq<seq<byte>>, payload: seq<byte>)
    requires Writable(format, accepted + [payload])
    ensures Writable(format, accepted) && Accepts(format, WriteAll(format, accepted), payload)
    ensures WriteAll(format, accepted + [payload]) == Write(format, WriteAll(format, accepted), payload)
  {
    assert (accepted + [payload])[..|accepted|] == accepted;
  }

  /** One accepted payload more in the file. */
  method Store(writer: Writer, payload: seq<byte>, ghost accepted: seq<seq<byte>>)
    requires Stored(writer, accepted) && Writable(writer.mode, accepted + [payload])
    modifies writer
    ensures Stored(writer, accepted + [payload])
  {
    StoreOne(writer.mode, accepted, payload);
    writer.WriteFile(payload);
  }

  /** What ReadFile returns is the next block, and what it leaves gives the others. */
  lemma NextChop(rest: seq<byte>, n: nat, data: seq<byte>, blocks: seq<seq<byte>>, k: nat)
    requires n > 0 && data <= rest && |data| <= n && (|data| < n ==> data == rest)
    requires k < |blocks| && Chop(rest, n) == blocks[k..]
    ensures blocks[k] == data
    ensures |data| < n <==> k + 1 == |blocks|
    ensures |data| == n ==> Chop(rest[|data|..], n) == blocks[k + 1..]
  {
    assert blocks[k..][1..] == blocks[k + 1..];
  }
}
