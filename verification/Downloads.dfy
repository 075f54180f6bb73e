/** A download with options as one system from the first request: the client's
    Read and the server's FollowOnRRQ over the channel of Protocol. */
module Downloads {
  import opened Bytes
  import opened FileReader
  import opened Packets
  import opened Options
  import opened Requests
  import opened Negotiation
  import opened Udp
  import opened Sending
  import opened Receiving
  import opened Protocol
  import opened Agreement
  import opened Greeting
  import opened Sessions

  /** The client's fields and options, its request, the OACK that answers it,
      and the server once it has negotiated. */
  datatype Setting =
    Setting(client: Params, requested: seq<Opt>, request: seq<byte>, oack: seq<byte>, server: SenderConfig)
  {
    predicate Valid() {
      && client.Usable() && server.Valid() && server.role.Server?
      && OpcodeOf(Received(request)) == Ok(OPCODE_RRQ)
      && oack != [] && OpcodeOf(Received(oack)) == Ok(OPCODE_OACK)
      && AcceptOack(Received(oack), requested).Ok?
      && OackReader(client, Granted()).blksize == server.blksize
    }

    function Granted(): (opts: seq<Opt>)
      requires AcceptOack(Received(oack), requested).Ok?
      ensures AllChecked(opts)
    {
      AcceptedChecked(Received(oack), requested);
      AcceptOack(Received(oack), requested).value
    }

    /** The data phase that the handshake leads to. */
    function DataPhase(): Config {
      Config(Download, server.blocks, server.blksize, PrintAck(0), 1, 1,
             [oack, ERROR_PACKET], [request, ERROR_PACKET])
    }
  }

  /** In a run ToReceiver is an event at the client, ToSender one at the server.
      The server's handler is created by the request, its first event. */
  function GreetedAt(d: Setting, acts: seq<Action>): Greeted
    requires d.Valid()
  {
    Greet(d.client.blksize, d.requested, ReceiverEvents(acts))
  }

  function ClientAt(d: Setting, acts: seq<Action>): Session
    requires d.Valid()
  {
    ReadSession(d.client, d.requested, d.request, ReceiverEvents(acts))
  }

  predicate Idle(acts: seq<Action>) {
    SenderEvents(acts) == []
  }

  /** The events of the handler. */
  function Handled(acts: seq<Action>): seq<Event> {
    if Idle(acts) then [] else SenderEvents(acts)[1..]
  }

  function WelcomedAt(d: Setting, acts: seq<Action>): Welcomed {
    Welcome(d.server.blksize, Handled(acts))
  }

  function ServerAt(d: Setting, acts: seq<Action>): Session
    requires d.Valid()
  {
    ServeSession(d.server, d.oack, Handled(acts))
  }

  function SentByServer(d: Setting, acts: seq<Action>): seq<seq<byte>>
    requires d.Valid()
  {
    if Idle(acts) then [] else ServerAt(d, acts).log
  }

  /** What can happen next: a receive expires, or a datagram already sent is delivered. */
  predicate Possible(d: Setting, acts: seq<Action>, a: Action)
    requires d.Valid()
  {
    if a.ToReceiver? then a.event.Expired? || a.event.datagram in SentByServer(d, acts)
    else if Idle(acts) then a.event == Packet(d.request)
    else a.event.Expired? || a.event.datagram in ClientAt(d, acts).log
  }

  predicate Happens(d: Setting, acts: seq<Action>)
    requires d.Valid()
  {
    acts == [] || (Happens(d, acts[..|acts| - 1]) && Possible(d, acts[..|acts| - 1], acts[|acts| - 1]))
  }

  /** The part of a run that is in the data phase of the end concerned. */
  function InDataPhase(d: Setting, acts: seq<Action>): seq<Action>
    requires d.Valid()
  {
    if acts == [] then []
    else
      var front, last := acts[..|acts| - 1], acts[|acts| - 1];
      InDataPhase(d, front)
      + (if (if last.ToReceiver? then GreetedAt(d, front).ByOack? else WelcomedAt(d, front).Ready?) then [last] else [])
  }

  lemma ClientOf(d: Setting)
    requires d.Valid()
    ensures d.client.Usable()
  {
  }

  lemma ServerOf(d: Setting)
    requires d.Valid()
    ensures d.server.Valid() && d.oack != []
    ensures d.DataPhase().ForSender() == d.server.(socketTimeout := 1)
  {
  }

  lemma RequestIsQuiet(d: Setting, blksize: nat)
    requires d.Valid()
    ensures Parse(d.request, blksize) == Other && Parse(d.oack, blksize) == Other
  {
    hide AcceptOack, OackReader, SenderConfig.Valid;
  }

  lemma DataPhaseIsValid(d: Setting)
    requires d.Valid()
    ensures d.DataPhase().Valid()
  {
    hide Parse, WellChopped;
    var cfg := d.DataPhase();
    ServerOf(d);
    ParsePrintAck(0, cfg.blksize);
    WireBelow(0);
    ParseErrorPacket(cfg.blksize);
    RequestIsQuiet(d, cfg.blksize);
    assert forall x :: x in cfg.senderPrelude ==> x == d.oack || x == ERROR_PACKET;
    assert forall x :: x in cfg.receiverPrelude ==> x == d.request || x == ERROR_PACKET;
  }

  /** How far an end in the handshake can be. */
  predicate ClientStands(d: Setting, acts: seq<Action>)
    requires d.Valid()
  {
    var g, heard := GreetedAt(d, acts), ReceiverEvents(InDataPhase(d, acts));
    match g
    case ByOack(n, options) => options == d.Granted() && heard == ReceiverEvents(acts)[n + 1..]
    case Refused(_, why, report) =>
      heard == [] && ((why == TimedOut && report == [ERROR_PACKET]) || (why == PeerError && report == []))
    case Unanswered(_) => heard == []
    case ByData(_) => false
  }

  predicate ServerStands(d: Setting, acts: seq<Action>)
    requires d.Valid()
  {
    var heard := SenderEvents(InDataPhase(d, acts));
    match WelcomedAt(d, acts)
    case Ready(n) => heard == Handled(acts)[n + 1..] && GreetedAt(d, acts).ByOack?
    case Rejected(_, why, report) =>
      heard == [] && !why.Running? && !why.Finished() && (report == [ERROR_PACKET] || report == [])
    case Silent(_) => heard == []
  }

  /** A run of the whole system contains a run of its data phase, in which each
      end is as far as the whole system has brought it. */
  predicate Embedded(d: Setting, acts: seq<Action>)
    requires d.Valid() && d.DataPhase().Valid()
  {
    Legal(d.DataPhase(), InDataPhase(d, acts)) && ClientStands(d, acts) && ServerStands(d, acts)
  }

  function DataState(d: Setting, acts: seq<Action>): State
    requires d.Valid() && d.DataPhase().Valid()
  {
    Exec(d.DataPhase(), InDataPhase(d, acts))
  }

  /** What the whole system has sent is in the channel of the data phase. */
  lemma ClientSaid(d: Setting, acts: seq<Action>, x: seq<byte>)
    requires d.Valid() && d.DataPhase().Valid() && ClientStands(d, acts) && x in ClientAt(d, acts).log
    ensures || x == d.request || x == ERROR_PACKET
            || (GreetedAt(d, acts).ByOack? && x in DataState(d, acts).receiver.log)
  {
    hide Greet, Hear, ReadSession, InDataPhase, Exec, ReceiverEvents, Config.Valid;
    if x != d.request {
      ReadSends(d.client, d.requested, d.request, ReceiverEvents(acts), x);
      RunsAreLoops(d.DataPhase(), InDataPhase(d, acts));
    }
  }

  lemma ServerSaid(d: Setting, acts: seq<Action>, x: seq<byte>)
    requires d.Valid() && d.DataPhase().Valid() && ServerStands(d, acts) && x in SentByServer(d, acts)
    ensures || x == d.oack || x == ERROR_PACKET
            || (WelcomedAt(d, acts).Ready? && x in DataState(d, acts).sender.log)
  {
    hide Welcome, Run, ServeSession, InDataPhase, Exec, SenderEvents, Config.Valid, Setting.Valid, ClientStands;
    if x != d.oack {
      ServerOf(d);
      OackFirst(d.server, d.oack, Handled(acts));
      AfterFirst(d.oack, SentAfterOack(d.server, Handled(acts)), x);
      RunsAreLoops(d.DataPhase(), InDataPhase(d, acts));
    }
  }

  lemma AnswerOfServer(d: Setting, x: seq<byte>, n: nat)
    requires d.Valid() && (x == d.oack || x == ERROR_PACKET)
    ensures Answer(x, d.client.blksize, d.requested, n)
         == if x == d.oack then ByOack(n, d.Granted()) else Refused(n, PeerError, [])
  {
    hide AcceptOack;
    ParseErrorPacket(d.client.blksize);
    assert Received(ERROR_PACKET) == ERROR_PACKET;
  }

  lemma OneEventMore(blksize: nat, requested: seq<Opt>, events: seq<Event>, event: Event)
    ensures Greet(blksize, requested, events + [event])
         == GreetStep(blksize, requested, Greet(blksize, requested, events), event)
    ensures Welcome(blksize, events + [event]) == WelcomeStep(blksize, Welcome(blksize, events), event)
  {
    hide GreetStep, WelcomeStep;
    assert (events + [event])[..|events|] == events;
  }

  lemma OneDataMore(d: Setting, front: seq<Action>, last: Action)
    requires d.Valid()
    ensures InDataPhase(d, front + [last])
         == InDataPhase(d, front)
            + (if (if last.ToReceiver? then GreetedAt(d, front).ByOack? else WelcomedAt(d, front).Ready?)
               then [last] else [])
  {
    hide GreetedAt, WelcomedAt, Setting.Valid;
    assert (front + [last])[..|front|] == front;
  }

  /** One event more at the client. */
  lemma ClientNext(d: Setting, front: seq<Action>, last: Action)
    requires d.Valid() && last.ToReceiver?
    ensures var acts := front + [last];
            && ReceiverEvents(acts) == ReceiverEvents(front) + [last.event]
            && SenderEvents(acts) == SenderEvents(front)
            && GreetedAt(d, acts) == GreetStep(d.client.blksize, d.requested, GreetedAt(d, front), last.event)
            && InDataPhase(d, acts)
               == (if GreetedAt(d, front).ByOack? then InDataPhase(d, front) + [last] else InDataPhase(d, front))
            && ReceiverEvents(InDataPhase(d, acts))
               == ReceiverEvents(InDataPhase(d, front)) + (if GreetedAt(d, front).ByOack? then [last.event] else [])
            && SenderEvents(InDataPhase(d, acts)) == SenderEvents(InDataPhase(d, front))
  {
    hide Greet, GreetStep, Welcome, WelcomeStep, InDataPhase, ReceiverEvents, SenderEvents;
    OneActionMore(front, last);
    OneEventMore(d.client.blksize, d.requested, ReceiverEvents(front), last.event);
    OneDataMore(d, front, last);
    OneActionMore(InDataPhase(d, front), last);
  }

  /** What the event of a client in the handshake brings. */
  lemma ClientAnswered(d: Setting, front: seq<Action>, last: Action)
    requires d.Valid() && d.DataPhase().Valid() && last.ToReceiver? && !GreetedAt(d, front).ByOack?
    requires ClientStands(d, front) && ServerStands(d, front) && Possible(d, front, last)
    ensures ClientStands(d, front + [last])
  {
    hide Greet, Answer, Welcome, ReadSession, ServeSession, InDataPhase, ReceiverEvents, SenderEvents;
    var heard, g := ReceiverEvents(front), GreetedAt(d, front);
    ClientNext(d, front, last);
    if g.Unanswered? {
      UnansweredExactly(d.client.blksize, d.requested, heard);
      if last.event.Packet? {
        ServerSaid(d, front, last.event.datagram);
        AnswerOfServer(d, last.event.datagram, g.expired);
        assert (heard + [last.event])[g.expired + 1..] == [];
      }
    }
  }

  /** What is possible in the whole system is enabled in the data phase. */
  lemma EnabledInDataPhase(d: Setting, front: seq<Action>, last: Action)
    requires d.Valid() && d.DataPhase().Valid() && ClientStands(d, front) && ServerStands(d, front)
    requires Possible(d, front, last) && (last.ToSender? ==> !Idle(front))
    ensures Enabled(d.DataPhase(), DataState(d, front), last)
  {
    hide SentByServer, ClientAt, ClientStands, ServerStands, DataState, Idle, Setting.Valid, Config.Valid;
    if last.event.Packet? {
      if last.ToReceiver? {
        ServerSaid(d, front, last.event.datagram);
      } else {
        ClientSaid(d, front, last.event.datagram);
      }
    }
  }

  lemma DataPhaseMore(d: Setting, front: seq<Action>, last: Action)
    requires d.Valid() && d.DataPhase().Valid() && Embedded(d, front) && Possible(d, front, last)
    requires last.ToSender? ==> !Idle(front)
    ensures Legal(d.DataPhase(), InDataPhase(d, front) + [last])
  {
    hide InDataPhase, Possible, Legal, Exec, Enabled, ClientStands, ServerStands, Idle, Setting.Valid, Config.Valid;
    EnabledInDataPhase(d, front, last);
    Extend(d.DataPhase(), InDataPhase(d, front), last);
  }

  /** An event at the client keeps the embedding. */
  lemma ClientStep(d: Setting, front: seq<Action>, last: Action)
    requires d.Valid() && d.DataPhase().Valid() && last.ToReceiver?
    requires Embedded(d, front) && Possible(d, front, last)
    ensures Embedded(d, front + [last])
  {
    hide Greet, GreetStep, Welcome, Possible, InDataPhase, ReceiverEvents, SenderEvents, Legal,
      Setting.Valid, Setting.Granted, Config.Valid;
    var g := GreetedAt(d, front);
    ClientNext(d, front, last);
    if g.ByOack? {
      DataPhaseMore(d, front, last);
      SuffixMore(ReceiverEvents(front), g.expired, last.event);
      ClientOf(d);
      GreetStays(d.client.blksize, d.requested, g, last.event);
    } else {
      ClientAnswered(d, front, last);
    }
  }

  lemma GreetStays(blksize: nat, requested: seq<Opt>, g: Greeted, event: Event)
    requires !g.Unanswered?
    ensures GreetStep(blksize, requested, g, event) == g
  {
  }

  /** One event more at the server. */
  lemma ServerNext(d: Setting, front: seq<Action>, last: Action)
    requires d.Valid() && last.ToSender?
    ensures var acts := front + [last];
            && !Idle(acts) && ReceiverEvents(acts) == ReceiverEvents(front)
            && Handled(acts) == (if Idle(front) then [] else Handled(front) + [last.event])
            && WelcomedAt(d, acts)
               == (if Idle(front) then Silent(0) else WelcomeStep(d.server.blksize, WelcomedAt(d, front), last.event))
            && InDataPhase(d, acts)
               == (if WelcomedAt(d, front).Ready? then InDataPhase(d, front) + [last] else InDataPhase(d, front))
            && SenderEvents(InDataPhase(d, acts))
               == SenderEvents(InDataPhase(d, front)) + (if WelcomedAt(d, front).Ready? then [last.event] else [])
            && ReceiverEvents(InDataPhase(d, acts)) == ReceiverEvents(InDataPhase(d, front))
  {
    hide Greet, GreetStep, Welcome, WelcomeStep, InDataPhase, ReceiverEvents, SenderEvents;
    var heard := SenderEvents(front);
    OneActionMore(front, last);
    OneDataMore(d, front, last);
    OneActionMore(InDataPhase(d, front), last);
    if heard != [] {
      assert (heard + [last.event])[1..] == heard[1..] + [last.event];
      OneEventMore(d.server.blksize, d.requested, heard[1..], last.event);
    } else {
      assert [last.event][1..] == [];
      NothingYet([], d.server.blksize, 0);
    }
  }

  lemma WelcomeStays(blksize: nat, w: Welcomed, event: Event)
    ensures !w.Silent? ==> WelcomeStep(blksize, w, event) == w
    ensures w.Silent? && event.Expired? ==> !WelcomeStep(blksize, w, event).Ready?
    ensures var next := WelcomeStep(blksize, w, event);
            next.Rejected? && w.Silent? ==>
              && !next.outcome.Running? && !next.outcome.Finished()
              && (next.report == [ERROR_PACKET] || next.report == [])
  {
  }

  lemma NoAckZero(d: Setting, x: seq<byte>, w: Welcomed)
    requires d.Valid() && w.Silent? && (x == d.request || x == ERROR_PACKET)
    ensures !WelcomeStep(d.server.blksize, w, Packet(x)).Ready?
  {
    ParseErrorPacket(d.server.blksize);
  }

  /** What the event of a server in the handshake brings. */
  lemma ServerAnswered(d: Setting, front: seq<Action>, last: Action)
    requires d.Valid() && d.DataPhase().Valid() && last.ToSender? && !WelcomedAt(d, front).Ready?
    requires ClientStands(d, front) && ServerStands(d, front) && Possible(d, front, last)
    ensures ServerStands(d, front + [last])
  {
    hide Greet, Welcome, WelcomeStep, ClientAt, ServerAt, InDataPhase, ReceiverEvents, SenderEvents, Exec,
      Setting.DataPhase, Config.Valid;
    var heard, w := Handled(front), WelcomedAt(d, front);
    ServerNext(d, front, last);
    if !Idle(front) {
      WelcomeStays(d.server.blksize, w, last.event);
      if w.Silent? {
        SilentExactly(d.server.blksize, heard);
        assert (heard + [last.event])[w.counted + 1..] == [];
        if last.event.Packet? {
          ClientSaid(d, front, last.event.datagram);
          if !GreetedAt(d, front).ByOack? {
            NoAckZero(d, last.event.datagram, w);
          }
        }
      }
    }
  }

  /** An event at the server keeps the embedding. */
  lemma ServerStep(d: Setting, front: seq<Action>, last: Action)
    requires d.Valid() && d.DataPhase().Valid() && last.ToSender?
    requires Embedded(d, front) && Possible(d, front, last)
    ensures Embedded(d, front + [last])
  {
    hide Greet, Welcome, WelcomeStep, Possible, InDataPhase, ReceiverEvents, SenderEvents, Legal, Handled,
      Setting.Valid, Setting.Granted, Config.Valid;
    var w := WelcomedAt(d, front);
    ServerNext(d, front, last);
    if w.Ready? {
      ReadyIsBusy(d, front);
      DataPhaseMore(d, front, last);
      SuffixMore(Handled(front), w.counted, last.event);
      WelcomeStays(d.server.blksize, w, last.event);
    } else {
      ServerAnswered(d, front, last);
    }
  }

  lemma ReadyIsBusy(d: Setting, acts: seq<Action>)
    requires WelcomedAt(d, acts).Ready?
    ensures !Idle(acts)
  {
  }

  lemma NothingHappened(d: Setting)
    requires d.Valid() && d.DataPhase().Valid()
    ensures Embedded(d, []) && Count(DataState(d, [])) == 0 && GreetedAt(d, []) == Unanswered(0)
  {
    hide Setting.Valid, Config.Valid;
  }

  lemma HappenedBefore(d: Setting, acts: seq<Action>)
    requires d.Valid() && Happens(d, acts) && acts != []
    ensures var front, last := acts[..|acts| - 1], acts[|acts| - 1];
            acts == front + [last] && Happens(d, front) && Possible(d, front, last)
  {
    hide Possible, Setting.Valid;
  }

  /** Every run of the whole system embeds a run of its data phase. */
  lemma {:induction false} AlwaysEmbedded(d: Setting, acts: seq<Action>)
    requires d.Valid() && Happens(d, acts)
    ensures d.DataPhase().Valid() && Embedded(d, acts)
  {
    hide *;
    DataPhaseIsValid(d);
    if acts == [] {
      NothingHappened(d);
    } else {
      var front, last := acts[..|acts| - 1], acts[|acts| - 1];
      HappenedBefore(d, acts);
      AlwaysEmbedded(d, front);
      if last.ToReceiver? {
        ClientStep(d, front, last);
      } else {
        ServerStep(d, front, last);
      }
    }
  }

  /** Both ends in terms of the data phase. */
  lemma ClientInDataPhase(d: Setting, acts: seq<Action>)
    requires d.Valid() && d.DataPhase().Valid() && ClientStands(d, acts)
    ensures var r := DataState(d, acts).receiver;
            if GreetedAt(d, acts).ByOack? then
              ClientAt(d, acts).accepted == r.accepted && ClientAt(d, acts).outcome == r.outcome
            else ClientAt(d, acts).accepted == [] && r == Begin(d.DataPhase().ForReceiver())
                 && !ClientAt(d, acts).outcome.Done?
    ensures GreetedAt(d, acts).Unanswered? ==> ClientAt(d, acts).outcome.Running?
    ensures GreetedAt(d, acts).Refused? ==> !ClientAt(d, acts).outcome.Running?
  {
    hide Greet, Waits, Repeat, Respond, Run;
    RunsAreLoops(d.DataPhase(), InDataPhase(d, acts));
  }

  lemma ServerInDataPhase(d: Setting, acts: seq<Action>)
    requires d.Valid() && d.DataPhase().Valid() && ServerStands(d, acts)
    ensures var s := DataState(d, acts).sender;
            if WelcomedAt(d, acts).Ready? then ServerAt(d, acts).outcome == s.outcome
            else s == Start(d.DataPhase().ForSender())
    ensures WelcomedAt(d, acts).Silent? ==> ServerAt(d, acts).outcome.Running?
    ensures WelcomedAt(d, acts).Rejected? ==>
              !ServerAt(d, acts).outcome.Running? && !ServerAt(d, acts).outcome.Finished()
  {
    hide Greet, Welcome, Waits, React, Hear;
    RunsAreLoops(d.DataPhase(), InDataPhase(d, acts));
  }

  /** While the server waits for ACK 0 no block can come. */
  lemma EarlyEvent(d: Setting, front: seq<Action>, last: Action)
    requires d.Valid() && d.DataPhase().Valid() && Embedded(d, front) && Possible(d, front, last)
    requires last.ToReceiver? && !WelcomedAt(d, front).Ready?
    ensures Respond(d.DataPhase().ForReceiver(), DataState(d, front).receiver, last.event).accepted
         == DataState(d, front).receiver.accepted
  {
    hide Greet, Welcome, ReadSession, ServeSession, InDataPhase, ReceiverEvents, SenderEvents, Respond, Legal, Exec;
    AcceptsNextOnly(d.DataPhase().ForReceiver(), DataState(d, front).receiver, last.event);
    if last.event.Packet? {
      ServerSaid(d, front, last.event.datagram);
      assert d.DataPhase().Quiet(last.event.datagram);
    }
  }

  lemma StillNoBlock(d: Setting, front: seq<Action>, last: Action)
    requires d.Valid() && d.DataPhase().Valid() && Embedded(d, front) && Possible(d, front, last)
    requires !WelcomedAt(d, front + [last]).Ready?
    ensures !WelcomedAt(d, front).Ready? && Count(DataState(d, front + [last])) == Count(DataState(d, front))
  {
    hide GreetedAt, Welcome, WelcomeStep, Possible, Embedded, InDataPhase, ReceiverEvents, SenderEvents,
      Respond, React, Exec, Setting.Valid, Config.Valid;
    ExecMore(d.DataPhase(), InDataPhase(d, front), last);
    if last.ToSender? {
      ServerNext(d, front, last);
      WelcomeStays(d.server.blksize, WelcomedAt(d, front), last.event);
    } else {
      ClientNext(d, front, last);
      EarlyEvent(d, front, last);
    }
  }

  lemma {:induction false} NoBlockBeforeAckZero(d: Setting, acts: seq<Action>)
    requires d.Valid() && Happens(d, acts) && !WelcomedAt(d, acts).Ready?
    ensures d.DataPhase().Valid() && Count(DataState(d, acts)) == 0
  {
    hide *;
    DataPhaseIsValid(d);
    if acts == [] {
      NothingHappened(d);
    } else {
      var front, last := acts[..|acts| - 1], acts[|acts| - 1];
      HappenedBefore(d, acts);
      AlwaysEmbedded(d, front);
      StillNoBlock(d, front, last);
      NoBlockBeforeAckZero(d, front);
    }
  }

  lemma OneMoreHeard(acts: seq<Action>, a: Action, e: Event)
    ensures e in ReceiverEvents(acts) ==> e in ReceiverEvents(acts + [a])
    ensures a == ToReceiver(e) ==> e in ReceiverEvents(acts + [a])
  {
    hide ReceiverEvents;
    OneActionMore(acts, a);
  }

  lemma {:induction false} OackCame(d: Setting, acts: seq<Action>)
    requires d.Valid() && Happens(d, acts) && GreetedAt(d, acts).ByOack?
    ensures Packet(d.oack) in ReceiverEvents(acts)
  {
    hide *;
    DataPhaseIsValid(d);
    NothingHappened(d);
    var front, last := acts[..|acts| - 1], acts[|acts| - 1];
    HappenedBefore(d, acts);
    OneMoreHeard(front, last, Packet(d.oack));
    if GreetedAt(d, front).ByOack? {
      OackCame(d, front);
    } else {
      AlwaysEmbedded(d, front);
      OackDecides(d, front, last);
    }
  }

  lemma OackDecides(d: Setting, front: seq<Action>, last: Action)
    requires d.Valid() && d.DataPhase().Valid() && Embedded(d, front) && Possible(d, front, last)
    requires !GreetedAt(d, front).ByOack? && GreetedAt(d, front + [last]).ByOack?
    ensures last == ToReceiver(Packet(d.oack))
  {
    hide Greet, Answer, Welcome, InDataPhase, ReadSession, ServeSession, ReceiverEvents, SenderEvents, Legal,
      Setting.Valid, Config.Valid;
    if last.ToSender? {
      ServerNext(d, front, last);
    } else {
      ClientOf(d);
      ClientNext(d, front, last);
      if last.event.Packet? {
        ServerSaid(d, front, last.event.datagram);
        AnswerOfServer(d, last.event.datagram, GreetedAt(d, front).expired);
      }
    }
  }

  /** Safety of whole downloads: in every run, from the first request, the
      client's file is a prefix of the content; it is the content when either
      end has seen the end of the transfer, and lacks at most the last block
      when the server has ended normally. */
  lemma DownloadIsSafe(d: Setting, content: seq<byte>, acts: seq<Action>)
    requires d.Valid() && d.server.blocks == Chop(content, d.server.blksize) && Happens(d, acts)
    ensures var file := Flatten(ClientAt(d, acts).accepted);
            && file <= content
            && (ClientAt(d, acts).outcome.Done? ==> file == content)
            && (ServerAt(d, acts).outcome.Done? ==> file == content)
    ensures ServerAt(d, acts).outcome.Finished() ==> |ClientAt(d, acts).accepted| >= |d.server.blocks| - 1
  {
    hide Legal, Exec, Inv, ReadSession, ServeSession, Greet, Welcome, InDataPhase;
    AlwaysEmbedded(d, acts);
    var cfg, data := d.DataPhase(), InDataPhase(d, acts);
    ClientInDataPhase(d, acts);
    ServerInDataPhase(d, acts);
    TransferIsSafe(cfg, content, data);
    DownloadAgreement(cfg, data);
  }

  /** No block without the handshake: the client holds one only if the OACK was
      delivered to it and ACK 0 to the server. */
  lemma NothingWithoutOack(d: Setting, acts: seq<Action>)
    requires d.Valid() && Happens(d, acts) && ClientAt(d, acts).accepted != []
    ensures Packet(d.oack) in ReceiverEvents(acts)
    ensures exists e :: e in Handled(acts) && e.Packet? && IsAckZero(Received(e.datagram))
  {
    hide Legal, Inv, Parse, IsAckZero, AllCounted, ReadSession, ServeSession, Greet, Welcome, InDataPhase;
    AlwaysEmbedded(d, acts);
    ClientInDataPhase(d, acts);
    ServerInDataPhase(d, acts);
    OackCame(d, acts);
    if WelcomedAt(d, acts).Ready? {
      AckZeroCame(d.server.blksize, Handled(acts));
      var e := Handled(acts)[WelcomedAt(d, acts).counted];
      assert e in Handled(acts);
    } else {
      NoBlockBeforeAckZero(d, acts);
    }
  }

  lemma DataIsNotOack(d: Setting, block: nat, payload: seq<byte>)
    requires d.Valid()
    ensures PrintData(block, payload) != d.oack && ERROR_PACKET != d.oack
  {
    assert Received(PrintData(block, payload))[1] == OPCODE_DATA;
  }

  lemma LogWithoutOack(d: Setting, c: SenderConfig, s: Sender)
    requires d.Valid() && LogIs(c, s)
    ensures d.oack !in s.log
  {
    hide PrintData, Setting.Valid;
    forall i | 0 <= i < |s.log|
      ensures s.log[i] != d.oack
    {
      if i < Emitted(s) {
        assert s.log[i] == c.DataPacket(i + 1);
        DataIsNotOack(d, i + 1, c.blocks[i]);
      } else {
        DataIsNotOack(d, 0, []);
      }
    }
  }

  /** And the OACK is sent exactly once, however often it is asked for. */
  lemma OackSentOnce(d: Setting, acts: seq<Action>)
    requires d.Valid() && Happens(d, acts) && !Idle(acts)
    ensures SentByServer(d, acts) != [] && SentByServer(d, acts)[0] == d.oack
    ensures d.oack !in SentByServer(d, acts)[1..]
  {
    hide Legal, Welcome, Run, Waits, InDataPhase, Setting.Valid, LogIs;
    AlwaysEmbedded(d, acts);
    ServerOf(d);
    DataIsNotOack(d, 0, []);
    var log, w := SentByServer(d, acts), WelcomedAt(d, acts);
    if w.Ready? {
      var c, events := d.server.(socketTimeout := 1), Handled(acts)[w.counted + 1..];
      EachBlockSentOnce(c, events);
      assert log[1..] == Run(c, events).log;
      LogWithoutOack(d, c, Run(c, events));
    }
  }

  /** Neither end has given up. */
  predicate Going(d: Setting, acts: seq<Action>)
    requires d.Valid()
  {
    && (ClientAt(d, acts).outcome.Running? || ClientAt(d, acts).outcome.Done?)
    && (ServerAt(d, acts).outcome.Running? || ServerAt(d, acts).outcome.Finished())
  }

  /** The client has all blocks, and both ends have ended normally. */
  predicate Completed(d: Setting, acts: seq<Action>)
    requires d.Valid()
  {
    && ClientAt(d, acts).accepted == d.server.blocks && ClientAt(d, acts).outcome.Done?
    && ServerAt(d, acts).outcome.Finished()
  }

  /** The deliveries that are still needed: request, OACK, ACK 0, blocks and their ACKs. */
  function Left(d: Setting, acts: seq<Action>): int
    requires d.Valid() && d.DataPhase().Valid()
  {
    (if Idle(acts) then 1 else 0) + (if GreetedAt(d, acts).Unanswered? then 1 else 0)
    + (if WelcomedAt(d, acts).Silent? then 1 else 0) + Remaining(d.DataPhase(), DataState(d, acts))
  }

  lemma IdleIsSilent(d: Setting, acts: seq<Action>)
    requires Idle(acts)
    ensures WelcomedAt(d, acts) == Silent(0)
  {
  }

  lemma GoingExactly(d: Setting, acts: seq<Action>)
    requires d.Valid() && d.DataPhase().Valid() && Embedded(d, acts)
    ensures Going(d, acts)
       <==> !GreetedAt(d, acts).Refused? && !WelcomedAt(d, acts).Rejected? && Alive(DataState(d, acts))
  {
    hide Greet, Welcome, ReadSession, ServeSession, InDataPhase, Legal, Exec;
    ClientInDataPhase(d, acts);
    ServerInDataPhase(d, acts);
    if GreetedAt(d, acts).Refused? {
      RefusedIsNotDone(d, acts);
    }
  }

  lemma RefusedIsNotDone(d: Setting, acts: seq<Action>)
    requires d.Valid() && d.DataPhase().Valid() && ClientStands(d, acts) && GreetedAt(d, acts).Refused?
    ensures !ClientAt(d, acts).outcome.Running? && !ClientAt(d, acts).outcome.Done?
  {
  }

  lemma RequestArrives(d: Setting, acts: seq<Action>) returns (a: Action)
    requires d.Valid() && d.DataPhase().Valid() && Embedded(d, acts) && Going(d, acts) && Idle(acts)
    ensures Possible(d, acts, a) && a.event.Packet? && Embedded(d, acts + [a]) && Going(d, acts + [a])
    ensures Left(d, acts + [a]) == Left(d, acts) - 1
  {
    hide Greet, Welcome, ReadSession, ServeSession, InDataPhase, ReceiverEvents, SenderEvents, Embedded, Exec;
    a := ToSender(Packet(d.request));
    IdleIsSilent(d, acts);
    ServerStep(d, acts, a);
    ServerNext(d, acts, a);
    GoingExactly(d, acts);
    GoingExactly(d, acts + [a]);
  }

  lemma OackArrives(d: Setting, acts: seq<Action>) returns (a: Action)
    requires d.Valid() && d.DataPhase().Valid() && Happens(d, acts) && Embedded(d, acts) && Going(d, acts)
    requires !Idle(acts) && GreetedAt(d, acts).Unanswered?
    ensures Possible(d, acts, a) && a.event.Packet? && Embedded(d, acts + [a]) && Going(d, acts + [a])
    ensures Left(d, acts + [a]) == Left(d, acts) - 1
  {
    hide Greet, Answer, Welcome, ReadSession, ServeSession, InDataPhase, ReceiverEvents, SenderEvents, Embedded, Exec;
    a := ToReceiver(Packet(d.oack));
    OackSentOnce(d, acts);
    ClientStep(d, acts, a);
    ClientNext(d, acts, a);
    AnswerOfServer(d, d.oack, GreetedAt(d, acts).expired);
    GoingExactly(d, acts);
    GoingExactly(d, acts + [a]);
  }

  lemma AckZeroSent(d: Setting, acts: seq<Action>)
    requires d.Valid() && d.DataPhase().Valid() && Embedded(d, acts) && GreetedAt(d, acts).ByOack?
    ensures PrintAck(0) in ClientAt(d, acts).log
  {
    hide Greet, Waits, Hear, PrintAck, InDataPhase, ReceiverEvents, SenderEvents, Exec, Legal, Config.Valid;
    var g := GreetedAt(d, acts);
    AcknowledgesAccepted(OackReader(d.client, g.options), ReceiverEvents(acts)[g.expired + 1..]);
  }

  lemma AckZeroArrives(d: Setting, acts: seq<Action>) returns (a: Action)
    requires d.Valid() && d.DataPhase().Valid() && Embedded(d, acts) && Going(d, acts)
    requires !Idle(acts) && GreetedAt(d, acts).ByOack? && WelcomedAt(d, acts).Silent?
    ensures Possible(d, acts, a) && a.event.Packet? && Embedded(d, acts + [a]) && Going(d, acts + [a])
    ensures Left(d, acts + [a]) == Left(d, acts) - 1
  {
    hide Greet, Welcome, WelcomeStep, ClientAt, ServerAt, InDataPhase, ReceiverEvents, SenderEvents, Exec, Embedded,
      Going, Remaining, Alive, Setting.Valid, Config.Valid;
    a := ToSender(Packet(PrintAck(0)));
    AckZeroSent(d, acts);
    ServerStep(d, acts, a);
    ServerNext(d, acts, a);
    AckZeroWelcomes(d.server.blksize, WelcomedAt(d, acts));
    GoingExactly(d, acts);
    GoingExactly(d, acts + [a]);
  }

  lemma AckZeroWelcomes(blksize: nat, w: Welcomed)
    requires w.Silent?
    ensures WelcomeStep(blksize, w, Packet(PrintAck(0))) == Ready(w.counted)
  {
    ParsePrintAck(0, blksize);
  }

  /** What the data phase has sent, the whole system has sent. */
  lemma SentInDataPhase(d: Setting, acts: seq<Action>, a: Action)
    requires d.Valid() && d.DataPhase().Valid() && Embedded(d, acts) && Delivers(DataState(d, acts), a)
    requires GreetedAt(d, acts).ByOack? && WelcomedAt(d, acts).Ready?
    ensures Possible(d, acts, a)
  {
    hide Greet, Welcome, Run, Hear, Waits, Repeat, InDataPhase, ReceiverEvents, SenderEvents, Legal;
    RunsAreLoops(d.DataPhase(), InDataPhase(d, acts));
    ReadyIsBusy(d, acts);
  }

  lemma DataArrives(d: Setting, acts: seq<Action>) returns (a: Action)
    requires d.Valid() && d.DataPhase().Valid() && Embedded(d, acts) && Going(d, acts)
    requires GreetedAt(d, acts).ByOack? && WelcomedAt(d, acts).Ready? && Left(d, acts) != 0
    requires |d.server.blocks| < WIRE_NUMBERS
    ensures Possible(d, acts, a) && a.event.Packet? && Embedded(d, acts + [a]) && Going(d, acts + [a])
    ensures Left(d, acts + [a]) == Left(d, acts) - 1
  {
    hide GreetedAt, WelcomedAt, Going, InDataPhase, Idle, Exec, Legal, Possible, Alive, Remaining, Delivers,
      ClientStands, ServerStands, Setting.Valid, Config.Valid;
    ReadyIsBusy(d, acts);
    GoingExactly(d, acts);
    var data := InDataPhase(d, acts);
    var next := Progress(d.DataPhase(), data);
    a := next[|data|];
    assert next == data + [a];
    SentInDataPhase(d, acts, a);
    StepInData(d, acts, a);
    GoingExactly(d, acts + [a]);
  }

  lemma StepInData(d: Setting, acts: seq<Action>, a: Action)
    requires d.Valid() && d.DataPhase().Valid() && Embedded(d, acts) && Possible(d, acts, a)
    requires GreetedAt(d, acts).ByOack? && WelcomedAt(d, acts).Ready? && !Idle(acts)
    ensures Embedded(d, acts + [a]) && InDataPhase(d, acts + [a]) == InDataPhase(d, acts) + [a]
    ensures GreetedAt(d, acts + [a]) == GreetedAt(d, acts) && WelcomedAt(d, acts + [a]) == WelcomedAt(d, acts)
    ensures !Idle(acts + [a])
  {
    hide Greet, Welcome, ReadSession, ServeSession, InDataPhase, ReceiverEvents, SenderEvents, Embedded, Possible;
    if a.ToReceiver? {
      ClientStep(d, acts, a);
      ClientNext(d, acts, a);
    } else {
      ServerStep(d, acts, a);
      ServerNext(d, acts, a);
    }
  }

  lemma Stages(d: Setting, acts: seq<Action>)
    requires d.Valid() && d.DataPhase().Valid() && Embedded(d, acts) && Going(d, acts)
    ensures GreetedAt(d, acts).Unanswered? || GreetedAt(d, acts).ByOack?
    ensures WelcomedAt(d, acts).Silent? || WelcomedAt(d, acts).Ready?
    ensures WelcomedAt(d, acts).Ready? ==> GreetedAt(d, acts).ByOack? && !Idle(acts)
    ensures Alive(DataState(d, acts))
  {
    hide GreetedAt, WelcomedAt, InDataPhase, Exec, Legal, Alive;
    GoingExactly(d, acts);
    if WelcomedAt(d, acts).Ready? {
      ReadyIsBusy(d, acts);
    }
  }

  lemma HappensMore(d: Setting, acts: seq<Action>, a: Action)
    requires d.Valid() && Happens(d, acts) && Possible(d, acts, a)
    ensures Happens(d, acts + [a])
    ensures (acts + [a])[..|acts|] == acts
  {
    hide Possible;
    assert (acts + [a])[..|acts|] == acts;
  }

  lemma LeftIsNatural(d: Setting, acts: seq<Action>)
    requires d.Valid() && d.DataPhase().Valid() && Embedded(d, acts) && |d.server.blocks| < WIRE_NUMBERS
    ensures Left(d, acts) >= 0
  {
    hide GreetedAt, WelcomedAt, InDataPhase, Exec, Legal;
    AlwaysInv(d.DataPhase(), InDataPhase(d, acts));
  }

  lemma NothingLeft(d: Setting, acts: seq<Action>)
    requires d.Valid() && d.DataPhase().Valid() && Embedded(d, acts) && Going(d, acts)
    requires |d.server.blocks| < WIRE_NUMBERS && Left(d, acts) == 0
    ensures Completed(d, acts)
  {
    hide GreetedAt, WelcomedAt, ReadSession, ServeSession, InDataPhase, Exec, Legal;
    var cfg, st := d.DataPhase(), DataState(d, acts);
    Stages(d, acts);
    AlwaysInv(cfg, InDataPhase(d, acts));
    DeliveredWhenAll(cfg, st);
    ClientInDataPhase(d, acts);
    ServerInDataPhase(d, acts);
  }

  /** No deadlock from the first request on: while neither end has given up and
      something is left, delivering a datagram already sent leaves one less. */
  lemma DownloadProgress(d: Setting, acts: seq<Action>) returns (acts': seq<Action>)
    requires d.Valid() && d.DataPhase().Valid() && |d.server.blocks| < WIRE_NUMBERS
    requires Happens(d, acts) && Going(d, acts) && Left(d, acts) != 0
    ensures |acts'| == |acts| + 1 && acts'[..|acts|] == acts && acts'[|acts|].event.Packet?
    ensures Happens(d, acts') && Going(d, acts') && Left(d, acts') == Left(d, acts) - 1
  {
    hide *;
    AlwaysEmbedded(d, acts);
    Stages(d, acts);
    var a;
    if Idle(acts) {
      a := RequestArrives(d, acts);
    } else if GreetedAt(d, acts).Unanswered? {
      a := OackArrives(d, acts);
    } else if WelcomedAt(d, acts).Silent? {
      a := AckZeroArrives(d, acts);
    } else {
      a := DataArrives(d, acts);
    }
    acts' := acts + [a];
    HappensMore(d, acts, a);
  }

  /** A download of at most 65535 blocks can be completed from every state in
      which neither end has given up, by deliveries alone, in exactly the number
      of steps left, handshake included. */
  lemma {:induction false} DownloadCompletable(d: Setting, acts: seq<Action>) returns (acts': seq<Action>)
    requires d.Valid() && d.DataPhase().Valid() && |d.server.blocks| < WIRE_NUMBERS
    requires Happens(d, acts) && Going(d, acts)
    ensures |acts'| - |acts| == Left(d, acts)
    ensures acts <= acts' && Happens(d, acts') && Completed(d, acts')
    decreases Left(d, acts)
  {
    hide *;
    AlwaysEmbedded(d, acts);
    LeftIsNatural(d, acts);
    if Left(d, acts) == 0 {
      NothingLeft(d, acts);
      acts' := acts;
    } else {
      var next := DownloadProgress(d, acts);
      acts' := DownloadCompletable(d, next);
    }
  }

  lemma NothingYetAt(d: Setting)
    requires d.Valid()
    ensures Happens(d, []) && Going(d, [])
  {
  }

  /** From the first request on, some run delivers the content if and only if it
      is shorter than 65535 full blocks. */
  lemma DownloadableExactly(d: Setting, content: seq<byte>)
    requires d.Valid() && d.server.blocks == Chop(content, d.server.blksize)
    ensures (exists acts :: Happens(d, acts) && Completed(d, acts))
       <==> |content| < 65535 * d.server.blksize
  {
    hide *;
    DataPhaseIsValid(d);
    if |content| < 65535 * d.server.blksize {
      FewBlocks(d, content);
      NothingYetAt(d);
      var acts := DownloadCompletable(d, []);
    } else {
      forall acts | Happens(d, acts)
        ensures !Completed(d, acts)
      {
        TooManyBlocks(d, content, acts);
      }
    }
  }

  lemma FewBlocks(d: Setting, content: seq<byte>)
    requires d.Valid() && d.server.blocks == Chop(content, d.server.blksize)
    ensures |d.server.blocks| < WIRE_NUMBERS <==> |content| < 65535 * d.server.blksize
  {
    ChopIsExact(content, d.server.blksize);
    BlocksAndBytes(|content|, d.server.blksize);
  }

  lemma TooManyBlocks(d: Setting, content: seq<byte>, acts: seq<Action>)
    requires d.Valid() && d.server.blocks == Chop(content, d.server.blksize) && Happens(d, acts)
    requires |content| >= 65535 * d.server.blksize
    ensures !Completed(d, acts)
  {
    hide ReadSession, ServeSession, GreetedAt, WelcomedAt, InDataPhase, Exec, Legal, Chop;
    FewBlocks(d, content);
    AlwaysEmbedded(d, acts);
    AlwaysInv(d.DataPhase(), InDataPhase(d, acts));
    DeliveredWhenAll(d.DataPhase(), DataState(d, acts));
    ClientInDataPhase(d, acts);
  }
}
