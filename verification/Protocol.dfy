/** Both ends of a transfer over a channel that loses, duplicates, delays and
    reorders datagrams but does not forge them: either end may at any time
    receive any datagram the other has ever sent, in the handshake or since, or
    see its receive expire. */
module Protocol {
  import opened Bytes
  import opened FileReader
  import opened Packets
  import opened Udp
  import opened Sending
  import opened Receiving

  /** Upload is a WRQ transfer, from SendData to FollowOnWRQ; Download an RRQ
      transfer, from FollowOnRRQ to Read. */
  datatype Direction = Upload | Download

  /** The preludes are what the two ends sent in the handshake, before the data
      phase: requests, an OACK, the error report of an end that gave up. */
  datatype Config = Config(direction: Direction, blocks: seq<seq<byte>>, blksize: nat, hello: seq<byte>,
                           senderTimeout: nat, receiverTimeout: nat,
                           senderPrelude: seq<seq<byte>>, receiverPrelude: seq<seq<byte>>)
  {
    function ForSender(): SenderConfig {
      SenderConfig(if direction.Upload? then Client else Server, blocks, blksize, senderTimeout)
    }

    function ForReceiver(): ReceiverConfig {
      ReceiverConfig(blksize, hello, receiverTimeout)
    }

    /** What the receiver sends before the first block is ACK 0, or a packet a
        sender does not expect (OACK, or a request). */
    predicate Valid() {
      && ForSender().Valid()
      && ForReceiver().Valid()
      && (HelloIsAck() || Parse(hello, blksize) == Other)
      && (forall d :: d in senderPrelude ==> Quiet(d))
      && (forall d :: d in receiverPrelude ==> Quiet(d))
    }

    /** Neither DATA nor an ACK. */
    predicate Quiet(d: seq<byte>) {
      Parse(d, blksize) == Other || Parse(d, blksize) == Error
    }

    predicate HelloIsAck() {
      Parse(hello, blksize) == Ack(0)
    }
  }

  datatype State = State(sender: Sender, receiver: Receiver)

  datatype Action = ToSender(event: Event) | ToReceiver(event: Event)

  function Init(cfg: Config): State
    requires cfg.Valid()
  {
    State(Start(cfg.ForSender()), Begin(cfg.ForReceiver()))
  }

  predicate Enabled(cfg: Config, st: State, a: Action) {
    a.event.Expired?
    || (if a.ToSender? then a.event.datagram in cfg.receiverPrelude || a.event.datagram in st.receiver.log
        else a.event.datagram in cfg.senderPrelude || a.event.datagram in st.sender.log)
  }

  function Apply(cfg: Config, st: State, a: Action): (st': State)
    requires cfg.Valid() && Sound(cfg.ForSender(), st.sender)
    ensures Sound(cfg.ForSender(), st'.sender)
  {
    if a.ToSender? then st.(sender := React(cfg.ForSender(), st.sender, a.event))
    else st.(receiver := Respond(cfg.ForReceiver(), st.receiver, a.event))
  }

  function Exec(cfg: Config, acts: seq<Action>): (st: State)
    requires cfg.Valid()
    ensures Sound(cfg.ForSender(), st.sender)
  {
    if acts == [] then Init(cfg)
    else Apply(cfg, Exec(cfg, acts[..|acts| - 1]), acts[|acts| - 1])
  }

  /** A run of the system: every datagram delivered had been sent. */
  predicate Legal(cfg: Config, acts: seq<Action>)
    requires cfg.Valid()
  {
    acts == []
    || (Legal(cfg, acts[..|acts| - 1]) && Enabled(cfg, Exec(cfg, acts[..|acts| - 1]), acts[|acts| - 1]))
  }

  function SenderEvents(acts: seq<Action>): seq<Event> {
    if acts == [] then []
    else
      var last := acts[|acts| - 1];
      SenderEvents(acts[..|acts| - 1]) + (if last.ToSender? then [last.event] else [])
  }

  function ReceiverEvents(acts: seq<Action>): seq<Event> {
    if acts == [] then []
    else
      var last := acts[|acts| - 1];
      ReceiverEvents(acts[..|acts| - 1]) + (if last.ToReceiver? then [last.event] else [])
  }

  /** Each end of a run is in the state its own loop reaches on the events
      delivered to it, so what is proved of the loops and of runs fits together. */
  lemma {:induction false} RunsAreLoops(cfg: Config, acts: seq<Action>)
    requires cfg.Valid()
    ensures Exec(cfg, acts).sender == Run(cfg.ForSender(), SenderEvents(acts))
    ensures Exec(cfg, acts).receiver == Hear(cfg.ForReceiver(), ReceiverEvents(acts))
  {
    if acts != [] {
      var front, last := acts[..|acts| - 1], acts[|acts| - 1];
      RunsAreLoops(cfg, front);
      var s, r := SenderEvents(front), ReceiverEvents(front);
      assert (s + [last.event])[..|s|] == s && s + [] == s;
      assert (r + [last.event])[..|r|] == r && r + [] == r;
    }
  }

  lemma OneActionMore(acts: seq<Action>, a: Action)
    ensures ReceiverEvents(acts + [a]) == ReceiverEvents(acts) + (if a.ToReceiver? then [a.event] else [])
    ensures SenderEvents(acts + [a]) == SenderEvents(acts) + (if a.ToSender? then [a.event] else [])
    ensures acts + [] == acts
  {
    assert (acts + [a])[..|acts|] == acts;
  }

  lemma ExecMore(cfg: Config, acts: seq<Action>, a: Action)
    requires cfg.Valid()
    ensures Exec(cfg, acts + [a]) == Apply(cfg, Exec(cfg, acts), a)
  {
    hide Apply, Config.Valid;
    assert (acts + [a])[..|acts|] == acts;
  }

  lemma LegalBefore(cfg: Config, data: seq<Action>)
    requires cfg.Valid() && Legal(cfg, data) && data != []
    ensures var front, last := data[..|data| - 1], data[|data| - 1];
            data == front + [last] && Legal(cfg, front) && Enabled(cfg, Exec(cfg, front), last)
  {
    hide Enabled, Exec;
  }

  lemma SuffixMore(events: seq<Event>, n: nat, event: Event)
    requires n < |events|
    ensures (events + [event])[n + 1..] == events[n + 1..] + [event]
  {
  }

  /** r, the number of blocks received. */
  function Count(st: State): nat {
    |st.receiver.accepted|
  }

  predicate ReceiverInv(cfg: Config, r: Receiver) {
    && Acknowledges(cfg.ForReceiver(), r)
    && |r.accepted| <= |cfg.blocks| && |r.accepted| < WIRE_NUMBERS
    && r.accepted == cfg.blocks[..|r.accepted|]
    && (r.outcome.Done? <==> |r.accepted| == |cfg.blocks|)
    && (r.outcome.Running? ==> r.retries < MAX_RETRIES)
    && !r.outcome.FutureBlock? && !r.outcome.Malformed? && !r.outcome.DoneUnacked?
  }

  predicate SenderInv(cfg: Config, s: Sender) {
    && Sound(cfg.ForSender(), s)
    && LogIs(cfg.ForSender(), s)
    && !s.outcome.Malformed?
    && (s.outcome.FutureBlock? ==> cfg.direction.Upload? && s.block >= WIRE_NUMBERS)
  }

  /** s-1 <= r <= s, up to the wrap of the client's counter; past it the
      receiver stays at 65535, and only stale ACKs move the sender. */
  predicate LockStep(cfg: Config, st: State) {
    && Count(st) <= Emitted(st.sender)
    && (st.sender.block <= WIRE_NUMBERS ==> st.sender.block - 1 <= Count(st))
    && (st.sender.block > WIRE_NUMBERS ==>
          Count(st) == WIRE_NUMBERS - 1 && cfg.direction.Upload? && cfg.HelloIsAck())
  }

  predicate Inv(cfg: Config, st: State) {
    SenderInv(cfg, st.sender) && ReceiverInv(cfg, st.receiver) && LockStep(cfg, st)
  }

  /** What the sender can hear: ACKs of received blocks, error reports, hello
      and what the handshake has left in the channel. */
  lemma SenderHears(cfg: Config, st: State, d: seq<byte>)
    requires cfg.Valid() && Inv(cfg, st) && (d in cfg.receiverPrelude || d in st.receiver.log)
    ensures var m := Parse(d, cfg.blksize);
            || (m.Ack? && m.number <= Count(st) && (m.number == 0 ==> cfg.HelloIsAck()))
            || m == Error || m == Other
  {
    hide PrintAck, Parse;
    if d in cfg.receiverPrelude {
      assert cfg.Quiet(d);
    } else {
      ParseErrorPacket(cfg.blksize);
      assert Spoken(cfg.ForReceiver(), Count(st), st.receiver.outcome.Reported(), d);
      if d != cfg.hello && d != ERROR_PACKET {
        var k :| 1 <= k <= Count(st) && d == PrintAck(k);
        ParsePrintAck(k, cfg.blksize);
        WireBelow(k);
      }
    }
  }

  /** What the receiver can hear: blocks already sent, error reports and what
      the handshake has left in the channel. */
  lemma ReceiverHears(cfg: Config, st: State, d: seq<byte>) returns (i: nat)
    requires cfg.Valid() && Inv(cfg, st) && (d in cfg.senderPrelude || d in st.sender.log)
    ensures || (d in cfg.senderPrelude && cfg.Quiet(d)) || Parse(d, cfg.blksize) == Error
            || (1 <= i <= Emitted(st.sender) && d == cfg.ForSender().DataPacket(i)
                && Parse(d, cfg.blksize) == Data(Wire(i), cfg.blocks[i - 1]))
  {
    hide Parse, PrintData, ReceiverInv, LockStep;
    if d in cfg.senderPrelude {
      return 0;
    }
    i :| 0 <= i < |st.sender.log| && st.sender.log[i] == d;
    i := i + 1;
    ParseErrorPacket(cfg.blksize);
    if i <= Emitted(st.sender) {
      assert st.sender.log[i - 1] == cfg.ForSender().DataPacket(i);
      ParsePrintData(i, cfg.blocks[i - 1], cfg.blksize);
    }
  }

  lemma InitInv(cfg: Config)
    requires cfg.Valid()
    ensures Inv(cfg, Init(cfg))
  {
  }

  /** An ACK that moves the sender on acknowledges the block it is sending,
      unless the client's counter has wrapped and ACK 0 exists. */
  lemma AwaitedAck(cfg: Config, st: State, number: nat)
    requires cfg.Valid() && LockStep(cfg, st) && Count(st) < WIRE_NUMBERS
    requires number <= Count(st) && (number == 0 ==> cfg.HelloIsAck())
    ensures number == cfg.ForSender().Counter(st.sender.block) ==>
              if st.sender.block < WIRE_NUMBERS then Count(st) >= st.sender.block
              else Count(st) == WIRE_NUMBERS - 1 && cfg.direction.Upload? && cfg.HelloIsAck()
    ensures number > cfg.ForSender().Counter(st.sender.block) ==>
              cfg.direction.Upload? && st.sender.block >= WIRE_NUMBERS
  {
  }

  lemma SenderStepInv(cfg: Config, st: State, a: Action)
    requires cfg.Valid() && Inv(cfg, st) && Enabled(cfg, st, a) && a.ToSender?
    ensures Inv(cfg, Apply(cfg, st, a))
  {
    var c := cfg.ForSender();
    var next := React(c, st.sender, a.event);
    ReactLog(c, st.sender, a.event);
    ReactEffect(c, st.sender, a.event);
    if a.event.Packet? {
      SenderHears(cfg, st, a.event.datagram);
      var m := Parse(a.event.datagram, cfg.blksize);
      if m.Ack? {
        AwaitedAck(cfg, st, m.number);
      }
    }
    assert SenderInv(cfg, next);
    assert LockStep(cfg, st.(sender := next));
  }

  /** Up to block 65535 wire numbers are block numbers; afterwards nothing on
      the wire is the 65536 that the receiver awaits. */
  lemma NextBlock(cfg: Config, st: State, i: nat)
    requires LockStep(cfg, st) && st.sender.block >= 1 && Count(st) < WIRE_NUMBERS
    requires 1 <= i <= Emitted(st.sender)
    ensures Wire(i) <= Count(st) + 1
    ensures Wire(i) == Count(st) + 1 ==> i == Count(st) + 1
  {
  }

  lemma AcceptedExtends(cfg: Config, r: Receiver, payload: seq<byte>)
    requires cfg.Valid() && ReceiverInv(cfg, r) && r.outcome.Running?
    requires |r.accepted| + 1 < WIRE_NUMBERS && payload == cfg.blocks[|r.accepted|]
    requires Acknowledges(cfg.ForReceiver(), Accept(cfg.ForReceiver(), r, payload))
    ensures ReceiverInv(cfg, Accept(cfg.ForReceiver(), r, payload))
  {
    var n := |r.accepted|;
    assert cfg.blocks[..n + 1] == cfg.blocks[..n] + [cfg.blocks[n]];
  }

  lemma ReceiverStepInv(cfg: Config, st: State, a: Action)
    requires cfg.Valid() && Inv(cfg, st) && Enabled(cfg, st, a) && a.ToReceiver?
    ensures Inv(cfg, Apply(cfg, st, a))
  {
    var c := cfg.ForReceiver();
    var next := Respond(c, st.receiver, a.event);
    RespondAcknowledges(c, st.receiver, a.event);
    if st.receiver.outcome.Running? {
      hide Respond, Parse;
      RespondEffect(c, st.receiver, a.event);
      if a.event.Packet? {
        ParseIsBounded(a.event.datagram, cfg.blksize);
        var i := ReceiverHears(cfg, st, a.event.datagram);
        var m := Parse(a.event.datagram, cfg.blksize);
        if m.Data? {
          NextBlock(cfg, st, i);
          if m.number == Count(st) + 1 {
            AcceptedExtends(cfg, st.receiver, m.payload);
          }
        }
      }
    }
    assert ReceiverInv(cfg, next);
    assert LockStep(cfg, st.(receiver := next));
  }

  /** The invariant holds in every run. */
  lemma {:induction false} AlwaysInv(cfg: Config, acts: seq<Action>)
    requires cfg.Valid() && Legal(cfg, acts)
    ensures Inv(cfg, Exec(cfg, acts))
  {
    if acts == [] {
      InitInv(cfg);
    } else {
      var last := acts[|acts| - 1];
      AlwaysInv(cfg, acts[..|acts| - 1]);
      var st := Exec(cfg, acts[..|acts| - 1]);
      if last.ToSender? {
        SenderStepInv(cfg, st, last);
      } else {
        ReceiverStepInv(cfg, st, last);
      }
    }
  }

  /** The receiver's file in OCTET mode (FileWriter.OctetWritesConcatenation). */
  function FileOf(st: State): seq<byte> {
    Flatten(st.receiver.accepted)
  }

  /** Safety: in every run the receiver's file is a prefix of the sender's
      content, the first r blocks of it, although block numbers repeat on the
      wire; it is the whole content exactly when the receiver has ended
      normally or only an empty last block is missing. */
  lemma TransferIsSafe(cfg: Config, content: seq<byte>, acts: seq<Action>)
    requires cfg.Valid() && cfg.blocks == Chop(content, cfg.blksize) && Legal(cfg, acts)
    ensures FileOf(Exec(cfg, acts)) <= content
    ensures |FileOf(Exec(cfg, acts))|
         == if Exec(cfg, acts).receiver.outcome.Done? then |content| else Count(Exec(cfg, acts)) * cfg.blksize
    ensures FileOf(Exec(cfg, acts)) == content
       <==> Exec(cfg, acts).receiver.outcome.Done?
            || (Count(Exec(cfg, acts)) == |cfg.blocks| - 1 && |content| % cfg.blksize == 0)
  {
    AlwaysInv(cfg, acts);
    var r := Count(Exec(cfg, acts));
    ChopPrefix(content, cfg.blksize, r);
    ChopIsExact(content, cfg.blksize);
    if r < |cfg.blocks| {
      QuotientCases(|content|, cfg.blksize, r);
    }
  }

  lemma QuotientCases(a: nat, n: nat, r: nat)
    requires n > 0 && r <= a / n
    ensures r * n == a <==> r == a / n && a % n == 0
  {
    var q := a / n;
    assert a == q * n + a % n;
    if r < q {
      TimesMonotone(r + 1, q, n);
      assert r * n + n == (r + 1) * n;
    }
  }
}
