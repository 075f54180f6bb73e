/** The two sender loops, ClientHandler::FollowOnRRQ and TftpClient::SendData,
    as one machine. A step is what the code does between two blocking receives:
    react to one event and, unless the loop ends, send and wait again. */
module Sending {
  import opened Bytes
  import opened FileReader
  import opened Packets
  import opened Udp

  const MAX_RETRIES := 5

  datatype Role = Client | Server

  /** How a transfer loop stands. DoneUnacked is the server's normal end without
      the last acknowledgment; the last four are thrown. */
  datatype Outcome = Running | Done | DoneUnacked | TimedOut | FutureBlock | Malformed | PeerError {
    predicate Finished() {
      Done? || DoneUnacked?
    }

    predicate Reported() {
      TimedOut? || FutureBlock? || Malformed?
    }
  }

  /** blocks is what the loop will read; socketTimeout is in force when it starts. */
  datatype SenderConfig = SenderConfig(role: Role, blocks: seq<seq<byte>>, blksize: nat, socketTimeout: nat) {
    predicate Valid() {
      MIN_BLOCK_SIZE <= blksize <= MAX_BLOCK_SIZE && WellChopped(blocks, blksize) && socketTimeout > 0
    }

    /** The program's block counter: uint16_t in the client, int in the server. */
    function Counter(block: nat): nat {
      if role.Client? then Wire(block) else block
    }

    function DataPacket(block: nat): seq<byte>
      requires 1 <= block <= |blocks|
    {
      PrintData(block, blocks[block - 1])
    }
  }

  /** block is the unbounded index of the block being sent; log lists the
      datagrams sent. */
  datatype Sender = Sender(block: nat, retries: nat, outcome: Outcome, log: seq<seq<byte>>, timer: Timer)

  predicate Sound(c: SenderConfig, s: Sender) {
    && s.block >= 1
    && (s.outcome.Running? ==> s.block <= |c.blocks| && s.retries < MAX_RETRIES)
  }

  function Start(c: SenderConfig): (s: Sender)
    requires c.Valid()
    ensures Sound(c, s)
  {
    Sender(1, 0, Running, [c.DataPacket(1)], Timer(1, c.socketTimeout, 0))
  }

  /** An exception the caller reports to the peer with an ERROR packet. */
  function Abort(s: Sender, outcome: Outcome): Sender {
    s.(outcome := outcome, log := s.log + [ERROR_PACKET])
  }

  function Advance(c: SenderConfig, s: Sender): (s': Sender)
    requires c.Valid() && Sound(c, s) && s.outcome.Running?
    ensures Sound(c, s')
  {
    var next := s.(block := s.block + 1, retries := 0, timer := s.timer.Reset());
    if s.block == |c.blocks| then next.(outcome := Done)
    else next.(log := s.log + [c.DataPacket(s.block + 1)])
  }

  /** A counted retry. DATA is not sent again; the fifth one gives up, except
      that the server forgives a missing acknowledgment of the last block. */
  function Retry(c: SenderConfig, s: Sender): (s': Sender)
    requires c.Valid() && Sound(c, s) && s.outcome.Running?
    ensures Sound(c, s')
  {
    var next := s.(retries := s.retries + 1, timer := s.timer.Increased());
    if next.retries < MAX_RETRIES then next
    else if c.role.Server? && s.block == |c.blocks| then
      next.(outcome := DoneUnacked, timer := next.timer.Reset())
    else Abort(next, TimedOut)
  }

  function React(c: SenderConfig, s: Sender, event: Event): (s': Sender)
    requires c.Valid() && Sound(c, s)
    ensures Sound(c, s')
  {
    if !s.outcome.Running? then s
    else match event
         case Expired => Retry(c, s.(timer := s.timer.Wait()))
         case Packet(datagram) =>
           match Parse(datagram, c.blksize)
           case Ack(number) =>
             if number == c.Counter(s.block) then Advance(c, s)
             else if number <= c.Counter(s.block) then Retry(c, s)
             else Abort(s, FutureBlock)
           case Error => s.(outcome := PeerError)
           case BadOpcode => Abort(s, Malformed)
           case BadAck => Abort(s, Malformed)
           case BadError => Abort(s, Malformed)
           case _ => s
  }

  /** The state after a list of events, whatever they are. */
  function Run(c: SenderConfig, events: seq<Event>): (s: Sender)
    requires c.Valid()
    ensures Sound(c, s)
  {
    if events == [] then Start(c)
    else React(c, Run(c, events[..|events| - 1]), events[|events| - 1])
  }

  lemma RunStep(c: SenderConfig, events: seq<Event>, k: nat)
    requires c.Valid() && k < |events|
    ensures Run(c, events[..k + 1]) == React(c, Run(c, events[..k]), events[k])
  {
    assert events[..k + 1][..k] == events[..k];
  }

  /** Once the loop has ended nothing changes any more. */
  lemma {:induction false} RunFrozen(c: SenderConfig, events: seq<Event>, k: nat)
    requires c.Valid() && k <= |events| && !Run(c, events[..k]).outcome.Running?
    ensures Run(c, events) == Run(c, events[..k])
    decreases |events| - k
  {
    if k < |events| {
      RunStep(c, events, k);
      RunFrozen(c, events, k + 1);
    } else {
      assert events[..k] == events;
    }
  }

  /** The blocks whose DATA packet has been sent. */
  function Emitted(s: Sender): nat {
    if s.outcome.Done? && s.block > 0 then s.block - 1 else s.block
  }

  predicate LogIs(c: SenderConfig, s: Sender) {
    && 1 <= Emitted(s) <= |c.blocks|
    && (s.outcome.Done? ==> s.block == |c.blocks| + 1)
    && (s.outcome.DoneUnacked? ==> s.block == |c.blocks| && c.role.Server?)
    && |s.log| == Emitted(s) + (if s.outcome.Reported() then 1 else 0)
    && (forall i :: 1 <= i <= Emitted(s) ==> s.log[i - 1] == c.DataPacket(i))
    && (s.outcome.Reported() ==> s.log[Emitted(s)] == ERROR_PACKET)
  }

  lemma ReactLog(c: SenderConfig, s: Sender, event: Event)
    requires c.Valid() && Sound(c, s) && LogIs(c, s)
    ensures LogIs(c, React(c, s, event))
  {
    hide Parse, PrintData;
  }

  /** Only the awaited ACK moves the sender on, and only an ACK numbered past
      the counter is a future block. */
  lemma ReactEffect(c: SenderConfig, s: Sender, event: Event)
    requires c.Valid() && Sound(c, s)
    ensures var n := React(c, s, event);
            || (n.block == s.block && (n.outcome.Done? ==> s.outcome.Done?) && (s.outcome.Done? ==> n == s))
            || (s.outcome.Running? && n.block == s.block + 1 && (n.outcome.Running? || n.outcome.Done?)
                && event.Packet? && Parse(event.datagram, c.blksize) == Ack(c.Counter(s.block)))
    ensures React(c, s, event).outcome.Malformed? ==>
              s.outcome.Malformed?
              || (event.Packet? && Parse(event.datagram, c.blksize) in {BadOpcode, BadAck, BadError})
    ensures React(c, s, event).outcome.FutureBlock? ==>
              s.outcome.FutureBlock?
              || (event.Packet? && Parse(event.datagram, c.blksize).Ack?
                  && Parse(event.datagram, c.blksize).number > c.Counter(s.block))
  {
  }

  /** Whatever arrives, the DATA packets sent are those of blocks 1, 2, ..., s,
      each exactly once, then at most one ERROR packet: duplicate ACKs never
      multiply DATA (section 4.2.3.1 of RFC 1123). */
  lemma {:induction false} EachBlockSentOnce(c: SenderConfig, events: seq<Event>)
    requires c.Valid()
    ensures LogIs(c, Run(c, events))
  {
    if events != [] {
      EachBlockSentOnce(c, events[..|events| - 1]);
      ReactLog(c, Run(c, events[..|events| - 1]), events[|events| - 1]);
    }
  }

  /** Whatever arrives, the server's int counter stays within 65536: an ACK
      carries at most 65535. */
  lemma {:induction false} ServerCounterBounded(c: SenderConfig, events: seq<Event>)
    requires c.Valid() && c.role.Server?
    ensures Run(c, events).block <= WIRE_NUMBERS
  {
    if events != [] {
      ServerCounterBounded(c, events[..|events| - 1]);
      var last := events[|events| - 1];
      if last.Packet? {
        ParseIsBounded(last.datagram, c.blksize);
      }
    }
  }

  /** Packets with an opcode the loop does not expect; they do not count as retries. */
  predicate Ignored(event: Event, blksize: nat) {
    event.Packet? && match Parse(event.datagram, blksize)
                     case Data(_, _) => true
                     case BadData => true
                     case Other => true
                     case _ => false
  }

  /** Events that bring a wait nearer to its end: a receive that expires, or
      the acknowledgment of an earlier block. */
  predicate Stale(c: SenderConfig, block: nat, event: Event) {
    event.Packet? ==> var m := Parse(event.datagram, c.blksize); m.Ack? && m.number < c.Counter(block)
  }

  /** What each event is to a wait: nothing, one retry, the awaited
      acknowledgment, or an error, which is reported unless the peer did. */
  lemma ReactExactly(c: SenderConfig, s: Sender, event: Event)
    requires c.Valid() && Sound(c, s) && s.outcome.Running?
    ensures var next := React(c, s, event);
            var m := if event.Packet? then Parse(event.datagram, c.blksize) else Other;
            && (next == s <==> Ignored(event, c.blksize))
            && (next.retries == s.retries + 1 <==> Stale(c, s.block, event))
            && (next.block == s.block + 1 <==> m == Ack(c.Counter(s.block)))
            && (next.outcome.FutureBlock? <==> m.Ack? && m.number > c.Counter(s.block))
            && (next.outcome.PeerError? <==> m.Error?)
            && (next.outcome.Malformed? <==> m.BadOpcode? || m.BadAck? || m.BadError?)
            && next.log == s.log + (if next.outcome.Reported() then [ERROR_PACKET]
                                    else if next.block > s.block && s.block < |c.blocks|
                                    then [c.DataPacket(s.block + 1)] else [])
  {
    hide PrintData;
    assert s.log + [] == s.log;
  }

  /** A wait lives through four such events and ends with the fifth. */
  lemma FifthEnds(c: SenderConfig, s: Sender, event: Event)
    requires c.Valid() && Sound(c, s) && s.outcome.Running? && Stale(c, s.block, event)
    ensures var next := React(c, s, event);
            && next.block == s.block && next.retries == s.retries + 1
            && next.outcome == (if s.retries < 4 then Running
                                else if c.role.Server? && s.block == |c.blocks| then DoneUnacked else TimedOut)
  {
  }

  predicate Fruitless(c: SenderConfig, block: nat, events: seq<Event>) {
    forall i :: 0 <= i < |events| ==> Ignored(events[i], c.blksize) || Stale(c, block, events[i])
  }

  /** The retry bound, over whole runs: a wait in which nothing else comes goes
      on through four expired receives or stale ACKs, in any order and with any
      packets to be ignored between them, and gives up at the fifth, normally
      when a server has sent its last block. */
  lemma {:induction false} WaitExactly(c: SenderConfig, before: seq<Event>, wait: seq<Event>)
    requires c.Valid() && Run(c, before).outcome.Running? && Run(c, before).retries == 0
    requires Fruitless(c, Run(c, before).block, wait)
    ensures var s, start, n := Run(c, before + wait), Run(c, before), CountedEvents(wait, c.blksize);
            && s.block == start.block
            && (n < 5 ==> s.outcome.Running? && s.retries == n)
            && (n >= 5 ==> s.outcome == if c.role.Server? && s.block == |c.blocks| then DoneUnacked else TimedOut)
    decreases |wait|
  {
    if wait == [] {
      assert before + wait == before;
    } else {
      hide React, Parse;
      var front, last := wait[..|wait| - 1], wait[|wait| - 1];
      WaitExactly(c, before, front);
      assert (before + wait)[..|before + wait| - 1] == before + front;
      var s := Run(c, before + front);
      if s.outcome.Running? {
        ReactExactly(c, s, last);
        if Stale(c, s.block, last) {
          FifthEnds(c, s, last);
        }
      } else {
        Ended(c, s, last);
      }
      IgnoredIsNotStale(c, s.block, last);
    }
  }

  lemma IgnoredIsNotStale(c: SenderConfig, block: nat, event: Event)
    ensures !(Ignored(event, c.blksize) && Stale(c, block, event))
  {
  }

  lemma Ended(c: SenderConfig, s: Sender, event: Event)
    requires c.Valid() && Sound(c, s) && !s.outcome.Running?
    ensures React(c, s, event) == s
  {
  }

  function CountedEvents(events: seq<Event>, blksize: nat): nat {
    if events == [] then 0
    else CountedEvents(events[..|events| - 1], blksize)
         + (if Ignored(events[|events| - 1], blksize) then 0 else 1)
  }

  lemma {:induction false} CountedWhileRunning(c: SenderConfig, events: seq<Event>)
    requires c.Valid() && Run(c, events).outcome.Running?
    ensures CountedEvents(events, c.blksize) <= 5 * (Run(c, events).block - 1) + Run(c, events).retries
  {
    if events != [] {
      CountedWhileRunning(c, events[..|events| - 1]);
    }
  }

  /** A sender of N blocks has ended after at most 5*N events other than ignored packets. */
  lemma SenderTerminates(c: SenderConfig, events: seq<Event>)
    requires c.Valid() && CountedEvents(events, c.blksize) >= 5 * |c.blocks|
    ensures !Run(c, events).outcome.Running?
  {
    if Run(c, events).outcome.Running? {
      CountedWhileRunning(c, events);
    }
  }

  function Pow2(n: nat): nat {
    if n == 0 then 1 else 2 * Pow2(n - 1)
  }

  /** Back-off in a wait loop: timeout_ is 2^retries seconds, and so is the
      socket's timeout, except before the first retry of the first block, when
      an option may have set the socket apart. Expired waits add up to at most
      31 seconds per block, plus what that option adds. */
  predicate BackedOff(timer: Timer, block: nat, retries: nat, socketTimeout: nat) {
    && block >= 1
    && timer.timeout == Pow2(retries)
    && timer.socket == (if block == 1 && retries == 0 then socketTimeout else Pow2(retries))
    && timer.waited <= 31 * (block - 1) + Pow2(retries) - 1
                       + (if block == 1 && retries == 0 then 0 else socketTimeout - 1)
  }

  lemma BackOffSteps(timer: Timer, block: nat, retries: nat, socketTimeout: nat)
    requires BackedOff(timer, block, retries, socketTimeout) && retries < MAX_RETRIES && socketTimeout > 0
    ensures BackedOff(timer.Increased(), block, retries + 1, socketTimeout)
    ensures BackedOff(timer.Wait().Increased(), block, retries + 1, socketTimeout)
    ensures BackedOff(timer.Reset(), block + 1, 0, socketTimeout)
    ensures Pow2(retries + 1) <= 32
  {
    assert Pow2(retries) <= 16 by {
      assert Pow2(0) == 1 && Pow2(1) == 2 && Pow2(2) == 4 && Pow2(3) == 8 && Pow2(4) == 16;
    }
  }

  predicate SenderBackedOff(c: SenderConfig, s: Sender) {
    && (s.outcome.Running? ==> BackedOff(s.timer, s.block, s.retries, c.socketTimeout))
    && s.timer.waited <= 31 * Emitted(s) + c.socketTimeout - 1
  }

  lemma ReactBacksOff(c: SenderConfig, s: Sender, event: Event)
    requires c.Valid() && Sound(c, s) && SenderBackedOff(c, s)
    ensures SenderBackedOff(c, React(c, s, event))
  {
    hide Parse, Pow2, WellChopped;
    if s.outcome.Running? {
      BackOffSteps(s.timer, s.block, s.retries, c.socketTimeout);
    }
  }

  lemma {:induction false} SenderBacksOff(c: SenderConfig, events: seq<Event>)
    requires c.Valid()
    ensures SenderBackedOff(c, Run(c, events))
  {
    if events != [] {
      SenderBacksOff(c, events[..|events| - 1]);
      ReactBacksOff(c, Run(c, events[..|events| - 1]), events[|events| - 1]);
    }
  }
}
