/** A whole transfer at one end as a function of the events it receives:
    TftpClient::Read and Write, ClientHandler::FollowOnRRQ. */
module Sessions {
  import opened Bytes
  import opened FileReader
  import opened Packets
  import opened Options
  import opened Negotiation
  import opened Udp
  import opened Sending
  import opened Receiving
  import opened Greeting

  /** The outcome so far, the payloads given to the Writer, the datagrams sent and the clock. */
  datatype Session = Session(outcome: Outcome, accepted: seq<seq<byte>>, log: seq<seq<byte>>, timer: Timer)

  /** A data phase after a handshake that sent these datagrams and waited that long. */
  function After(sent: seq<seq<byte>>, waited: nat, outcome: Outcome, accepted: seq<seq<byte>>,
                 log: seq<seq<byte>>, timer: Timer): Session
  {
    Session(outcome, accepted, sent + log, timer.(waited := waited + timer.waited))
  }

  /** Answered by DATA, Read is a receiver with the request as hello; answered
      by an OACK, one that starts with ACK 0. The negotiated timeout is reset. */
  function DataReader(p: Params, request: seq<byte>): ReceiverConfig
    requires p.Usable()
  {
    ReceiverConfig(p.blksize, request, p.socket)
  }

  function OackReader(p: Params, accepted: seq<Opt>): ReceiverConfig
    requires p.Usable() && AllChecked(accepted)
  {
    SetupKeepsUsable(p, accepted);
    ReceiverConfig(Setup(p, accepted).blksize, PrintAck(0), 1)
  }

  lemma OackChecked(blksize: nat, requested: seq<Opt>, events: seq<Event>)
    requires Greet(blksize, requested, events).ByOack?
    ensures AllChecked(Greet(blksize, requested, events).options)
  {
    AnswerCame(blksize, requested, events);
    AcceptedChecked(Received(events[Greet(blksize, requested, events).expired].datagram), requested);
  }

  function ReadSession(p: Params, requested: seq<Opt>, request: seq<byte>, events: seq<Event>): Session
    requires p.Usable()
  {
    var g := Greet(p.blksize, requested, events);
    var sent, clock := Repeat(request, g.Requests()), Waits(p.socket, events[..g.expired]);
    match g
    case ByData(_) =>
      var r := Hear(DataReader(p, request), events);
      Session(r.outcome, r.accepted, r.log, r.timer)
    case ByOack(n, options) =>
      OackChecked(p.blksize, requested, events);
      var r := Hear(OackReader(p, options), events[n + 1..]);
      After(sent, clock.waited, r.outcome, r.accepted, r.log, r.timer)
    case Refused(_, why, report) => Session(why, [], sent + report, clock)
    case Unanswered(_) => Session(Running, [], sent, clock)
  }

  /** A receiver that has heard nothing yet has repeated its hello. */
  lemma {:induction false} SilentReader(c: ReceiverConfig, events: seq<Event>)
    requires Silence(events) && |events| < MAX_RETRIES
    ensures Hear(c, events)
         == Receiver([], |events|, Running, Repeat(c.hello, |events| + 1), Waits(c.socketTimeout, events))
  {
    if events != [] {
      var n := |events| - 1;
      SilenceFront(events);
      SilentReader(c, events[..n]);
      RepeatMore(c.hello, n + 1);
    } else {
      RepeatMore(c.hello, 0);
    }
  }

  /** Answered by block 1 after n expired receives. */
  lemma FirstBlock(c: ReceiverConfig, events: seq<Event>, n: nat, payload: seq<byte>)
    requires n < |events| && n < MAX_RETRIES && Silence(events[..n])
    requires events[n].Packet? && Parse(events[n].datagram, c.blksize) == Data(1, payload)
    ensures var r := Hear(c, events[..n + 1]);
            && r.accepted == [payload] && r.retries == 0
            && r.outcome == (if |payload| < c.blksize then Done else Running)
            && r.log == Repeat(c.hello, n + 1) + [PrintAck(1)]
            && r.timer == Waits(c.socketTimeout, events[..n]).Reset()
  {
    hide Parse, Silence, Waits, Repeat, PrintAck;
    SilentReader(c, events[..n]);
    HearStep(c, events, n);
  }

  lemma RepeatIs(request: seq<byte>, n: nat, x: seq<byte>)
    requires x in Repeat(request, n)
    ensures x == request
  {
  }

  /** The first packet, if any comes in time, is DATA 1 or an ERROR packet. */
  predicate PlainlyAnswered(events: seq<Event>, blksize: nat) {
    forall n :: 0 <= n < |events| && n < MAX_RETRIES && Silence(events[..n]) && events[n].Packet? ==>
                  var m := Parse(events[n].datagram, blksize);
                  m == Error || (m.Data? && m.number == 1)
  }

  lemma PlainlyMore(events: seq<Event>, event: Event, blksize: nat)
    requires PlainlyAnswered(events, blksize)
    requires event.Packet? && Silence(events) && |events| < MAX_RETRIES ==>
               var m := Parse(event.datagram, blksize);
               m == Error || (m.Data? && m.number == 1)
    ensures PlainlyAnswered(events + [event], blksize)
  {
    hide Parse, Silence;
    var longer := events + [event];
    forall n | 0 <= n < |longer|
      ensures longer[..n] == events[..n] && (n < |events| ==> longer[n] == events[n])
    {
    }
    assert events[..|events|] == events;
  }

  lemma PlainTimeout(c: ReceiverConfig, events: seq<Event>)
    requires |events| >= MAX_RETRIES && Silence(events[..MAX_RETRIES])
    ensures var r := Hear(c, events);
            && r.outcome == TimedOut && r.accepted == []
            && r.log == Repeat(c.hello, MAX_RETRIES) + [ERROR_PACKET]
            && r.timer == Waits(c.socketTimeout, events[..MAX_RETRIES])
  {
    hide Repeat, Waits, Silence;
    var five := events[..MAX_RETRIES];
    SilenceFront(five);
    assert five[..MAX_RETRIES - 1] == events[..MAX_RETRIES - 1];
    SilentReader(c, events[..MAX_RETRIES - 1]);
    HearStep(c, events, MAX_RETRIES - 1);
    WaitsExpired(c.socketTimeout, five);
    HearFrozen(c, events, MAX_RETRIES);
  }

  lemma WaitsExpired(socket: nat, events: seq<Event>)
    requires events != [] && events[|events| - 1].Expired?
    ensures Waits(socket, events) == Waits(socket, events[..|events| - 1]).Wait().Increased()
  {
  }

  lemma PlainError(c: ReceiverConfig, events: seq<Event>, n: nat)
    requires n < |events| && n < MAX_RETRIES && Silence(events[..n])
    requires events[n].Packet? && Parse(events[n].datagram, c.blksize) == Error
    ensures var r := Hear(c, events);
            && r.outcome == PeerError && r.accepted == [] && r.log == Repeat(c.hello, n + 1)
            && r.timer == Waits(c.socketTimeout, events[..n])
  {
    hide Repeat, Waits, Silence, Parse;
    SilentReader(c, events[..n]);
    HearStep(c, events, n);
    HearFrozen(c, events, n + 1);
  }

  /** Answered by DATA 1 or by an ERROR packet, or not at all, Read is the
      receiver machine with the request as hello, from its first event on. */
  lemma ReadIsReceiver(p: Params, requested: seq<Opt>, request: seq<byte>, events: seq<Event>)
    requires p.Usable() && PlainlyAnswered(events, p.blksize)
    ensures var r := Hear(DataReader(p, request), events);
            ReadSession(p, requested, request, events) == Session(r.outcome, r.accepted, r.log, r.timer)
  {
    hide Repeat, Waits, Silence, Parse, Greet, Hear, AcceptOack;
    var g := Greet(p.blksize, requested, events);
    var c := DataReader(p, request);
    if g.Unanswered? {
      UnansweredExactly(p.blksize, requested, events);
      SilentReader(c, events);
      assert events[..|events|] == events;
    } else if !g.ByData? {
      DecidedBy(p.blksize, requested, events);
      if g.expired == MAX_RETRIES {
        PlainTimeout(c, events);
      } else {
        PlainError(c, events, g.expired);
        assert Repeat(request, g.expired + 1) + [] == Repeat(request, g.expired + 1);
      }
    }
  }

  /** What a download's client has sent. */
  lemma ReadSends(p: Params, requested: seq<Opt>, request: seq<byte>, events: seq<Event>, x: seq<byte>)
    requires p.Usable() && x in ReadSession(p, requested, request, events).log && x != request
    ensures match Greet(p.blksize, requested, events)
            case ByOack(n, options) =>
              && n < |events| && AllChecked(options)
              && x in Hear(OackReader(p, options), events[n + 1..]).log
            case Refused(_, _, report) => x in report
            case Unanswered(_) => false
            case ByData(_) => true
  {
    hide Greet, Hear, Waits, Repeat, OackReader, DataReader;
    var g := Greet(p.blksize, requested, events);
    if g.ByOack? {
      OackChecked(p.blksize, requested, events);
    }
    if x in Repeat(request, g.Requests()) {
      RepeatIs(request, g.Requests(), x);
    }
  }

  /** FollowOnRRQ after the options: oack is empty when the request had none.
      The timeout that was negotiated is forgotten with ACK 0. */
  function ServeSession(c: SenderConfig, oack: seq<byte>, events: seq<Event>): Session
    requires c.Valid()
  {
    if oack == [] then
      var s := Run(c, events);
      Session(s.outcome, [], s.log, s.timer)
    else
      var w := Welcome(c.blksize, events);
      var clock := Waits(c.socketTimeout, events[..w.counted]);
      match w
      case Ready(n) =>
        var s := Run(c.(socketTimeout := 1), events[n + 1..]);
        After([oack], clock.waited, s.outcome, [], s.log, s.timer)
      case Rejected(_, why, report) => Session(why, [], [oack] + report, clock)
      case Silent(_) => Session(Running, [], [oack], clock)
  }

  /** What a server sends after its OACK. */
  function SentAfterOack(c: SenderConfig, events: seq<Event>): seq<seq<byte>>
    requires c.Valid()
  {
    match Welcome(c.blksize, events)
    case Ready(n) => Run(c.(socketTimeout := 1), events[n + 1..]).log
    case Rejected(_, _, report) => report
    case Silent(_) => []
  }

  lemma OackFirst(c: SenderConfig, oack: seq<byte>, events: seq<Event>)
    requires c.Valid() && oack != []
    ensures ServeSession(c, oack, events).log == [oack] + SentAfterOack(c, events)
  {
    hide Welcome, Run, Waits;
    assert [oack] + [] == [oack];
  }

  lemma AfterFirst(first: seq<byte>, log: seq<seq<byte>>, x: seq<byte>)
    ensures x in [first] + log ==> x == first || x in log
  {
  }

  lemma GrantChecked(blksize: nat, requested: seq<Opt>, events: seq<Event>)
    requires Open(blksize, requested, events).Begun? && events[0].Packet?
    ensures AllChecked(Open(blksize, requested, events).options)
  {
    if Open(blksize, requested, events).options != [] {
      AcceptedChecked(Received(events[0].datagram), requested);
    }
  }

  /** The fields with which SendData starts, once the options are granted. */
  function Granted(p: Params, requested: seq<Opt>, events: seq<Event>): (q: Params)
    requires p.Usable() && Open(p.blksize, requested, events).Begun?
    ensures q.Usable()
  {
    if events[0].Expired? then p.(socket := 1)
    else
      var options := Open(p.blksize, requested, events).options;
      GrantChecked(p.blksize, requested, events);
      SetupKeepsUsable(p, options);
      Setup(p, options)
  }

  function ForUpload(q: Params, content: seq<byte>): (c: SenderConfig)
    requires q.Usable()
    ensures c.Valid()
  {
    ChopIsExact(content, q.blksize);
    SenderConfig(Client, Chop(content, q.blksize), q.blksize, q.socket)
  }

  function WriteSession(p: Params, requested: seq<Opt>, request: seq<byte>, content: seq<byte>,
                        events: seq<Event>): Session
    requires p.Usable()
  {
    match Open(p.blksize, requested, events)
    case Begun(_) =>
      var s := Run(ForUpload(Granted(p, requested, events), content), events[1..]);
      After([request], if events[0].Expired? then p.socket else 0, s.outcome, [], s.log, s.timer)
    case Denied(why, report) => Session(why, [], [request] + report, Timer(1, p.socket, 0))
    case Waiting => Session(Running, [], [request], Timer(1, p.socket, 0))
  }
}
