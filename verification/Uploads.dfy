/** An upload as one system from the first request: the client's Write and the
    server's FollowOnWRQ. The handler answers from a port of its own, which the
    client learns from its first receive; when that expires the client goes on
    with the main port, and the two ends no longer reach each other. */
module Uploads {
  import opened Bytes
  import opened FileReader
  import opened Packets
  import opened Options
  import opened Requests
  import opened Negotiation
  import opened Udp
  import opened Sending
  import opened Receiving
  import opened Protocol
  import opened Agreement
  import opened Greeting
  import opened Sessions

  /** The client's fields and options, its request and input, and the server
      once it has negotiated, whose hello answers the request. */
  datatype Setting =
    Setting(client: Params, requested: seq<Opt>, request: seq<byte>, content: seq<byte>, server: ReceiverConfig)
  {
    predicate Valid() {
      && client.Usable() && server.Valid() && client.blksize == server.blksize
      && OpcodeOf(Received(request)) == Ok(OPCODE_WRQ)
      && var answered := [Packet(server.hello)];
      && Open(client.blksize, requested, answered).Begun?
      && Granted(client, requested, answered).blksize == server.blksize
    }

    /** The data phase, for a client whose socket then waits that long. */
    function DataPhase(socket: nat): Config
      requires server.blksize > 0
    {
      Config(Protocol.Upload, Chop(content, server.blksize), server.blksize, server.hello,
             socket, server.socketTimeout, [UNKNOWN_TID], [])
    }
  }

  /** In a run ToSender is an event at the client, ToReceiver one at the server.
      The server's handler is created by the request, its first event. */
  function OpenedAt(d: Setting, acts: seq<Action>): Opened
    requires d.Valid()
  {
    Open(d.client.blksize, d.requested, SenderEvents(acts))
  }

  function ClientAt(d: Setting, acts: seq<Action>): Session
    requires d.Valid()
  {
    WriteSession(d.client, d.requested, d.request, d.content, SenderEvents(acts))
  }

  predicate Idle(acts: seq<Action>) {
    ReceiverEvents(acts) == []
  }

  /** The events of the handler. */
  function Handled(acts: seq<Action>): seq<Event> {
    if Idle(acts) then [] else ReceiverEvents(acts)[1..]
  }

  function ServerAt(d: Setting, acts: seq<Action>): Receiver {
    Hear(d.server, Handled(acts))
  }

  /** The client's first receive has expired: it does not know the handler's port. */
  predicate FellThrough(acts: seq<Action>) {
    SenderEvents(acts) != [] && SenderEvents(acts)[0].Expired?
  }

  /** The client has been answered, and sends to the handler. */
  predicate Linked(d: Setting, acts: seq<Action>)
    requires d.Valid()
  {
    OpenedAt(d, acts).Begun? && !FellThrough(acts)
  }

  /** What can happen next: a receive expires, or a datagram already sent is
      delivered. A client that fell through only answers datagrams from the
      handler with an ERROR packet, and hears none. */
  predicate Possible(d: Setting, acts: seq<Action>, a: Action)
    requires d.Valid()
  {
    if a.ToSender? then
      a.event.Expired? || (!FellThrough(acts) && !Idle(acts) && a.event.datagram in ServerAt(d, acts).log)
    else if Idle(acts) then a.event == Packet(d.request)
    else
      || a.event.Expired?
      || (FellThrough(acts) && a.event.datagram == UNKNOWN_TID)
      || (Linked(d, acts) && a.event.datagram in ClientAt(d, acts).log[1..])
  }

  predicate Happens(d: Setting, acts: seq<Action>)
    requires d.Valid()
  {
    acts == [] || (Happens(d, acts[..|acts| - 1]) && Possible(d, acts[..|acts| - 1], acts[|acts| - 1]))
  }

  /** The part of a run that is in the data phase of the end concerned. */
  function InDataPhase(d: Setting, acts: seq<Action>): seq<Action>
    requires d.Valid()
  {
    if acts == [] then []
    else
      var front, last := acts[..|acts| - 1], acts[|acts| - 1];
      InDataPhase(d, front)
      + (if (if last.ToSender? then OpenedAt(d, front).Begun? else !Idle(front)) then [last] else [])
  }

  /** What the socket of a client waits that has begun. */
  function SocketAt(d: Setting, acts: seq<Action>): nat
    requires d.Valid() && OpenedAt(d, acts).Begun?
  {
    Granted(d.client, d.requested, SenderEvents(acts)).socket
  }

  lemma PartsOf(d: Setting)
    requires d.Valid()
    ensures d.client.Usable() && d.server.Valid() && d.client.blksize == d.server.blksize
  {
  }

  lemma HelloLaws(d: Setting)
    requires d.Valid()
    ensures Parse(d.server.hello, d.server.blksize) in {Ack(0), Other}
  {
    hide Setup, AcceptOack;
  }

  lemma DataPhaseIsValid(d: Setting, socket: nat)
    requires d.Valid() && socket > 0
    ensures d.server.blksize > 0 && d.DataPhase(socket).Valid()
  {
    hide Setting.Valid, Chop;
    PartsOf(d);
    HelloLaws(d);
    ChopIsExact(d.content, d.server.blksize);
    assert Parse(UNKNOWN_TID, d.server.blksize) == Error;
  }

  /** How far the client is. */
  predicate ClientStands(d: Setting, acts: seq<Action>)
    requires d.Valid()
  {
    var heard, events := SenderEvents(InDataPhase(d, acts)), SenderEvents(acts);
    match OpenedAt(d, acts)
    case Begun(_) => heard == events[1..] && (FellThrough(acts) || events[0] == Packet(d.server.hello))
    case Denied(why, report) => heard == [] && why == PeerError && report == []
    case Waiting => heard == []
  }

  /** How far the server is: without a client that knows its port it gets no block. */
  predicate ServerStands(d: Setting, acts: seq<Action>)
    requires d.Valid()
  {
    && ReceiverEvents(InDataPhase(d, acts)) == Handled(acts)
    && (!Linked(d, acts) ==> ServerAt(d, acts).accepted == [])
  }

  /** A run of the whole system contains a run of its data phase, in which each
      end is as far as the whole system has brought it. */
  predicate Embedded(d: Setting, acts: seq<Action>, socket: nat)
    requires d.Valid() && d.DataPhase(socket).Valid()
  {
    Legal(d.DataPhase(socket), InDataPhase(d, acts)) && ClientStands(d, acts) && ServerStands(d, acts)
  }

  /** The socket timeout that fits a run, any as long as the client has not begun. */
  predicate Fits(d: Setting, acts: seq<Action>, socket: nat)
    requires d.Valid()
  {
    socket > 0 && (OpenedAt(d, acts).Begun? ==> socket == SocketAt(d, acts))
  }

  function DataState(d: Setting, acts: seq<Action>, socket: nat): State
    requires d.Valid() && d.DataPhase(socket).Valid()
  {
    Exec(d.DataPhase(socket), InDataPhase(d, acts))
  }

  /** Both ends in terms of the data phase. */
  lemma ServerInDataPhase(d: Setting, acts: seq<Action>, socket: nat)
    requires d.Valid() && d.DataPhase(socket).Valid() && ServerStands(d, acts)
    ensures ServerAt(d, acts) == DataState(d, acts, socket).receiver
  {
    hide Hear, InDataPhase, Exec, Setting.Valid, Config.Valid;
    RunsAreLoops(d.DataPhase(socket), InDataPhase(d, acts));
  }

  lemma SenderOf(d: Setting, acts: seq<Action>, socket: nat)
    requires d.Valid() && OpenedAt(d, acts).Begun? && ClientStands(d, acts) && Fits(d, acts, socket)
    ensures ForUpload(Granted(d.client, d.requested, SenderEvents(acts)), d.content)
         == d.DataPhase(socket).ForSender()
  {
    hide Setup, AcceptOack, Chop, InDataPhase, SenderEvents;
  }

  lemma ClientInDataPhase(d: Setting, acts: seq<Action>, socket: nat)
    requires d.Valid() && d.DataPhase(socket).Valid() && ClientStands(d, acts) && Fits(d, acts, socket)
    ensures var s := DataState(d, acts, socket).sender;
            if OpenedAt(d, acts).Begun? then
              ClientAt(d, acts).outcome == s.outcome && ClientAt(d, acts).log == [d.request] + s.log
            else ClientAt(d, acts).log == [d.request] && s == Start(d.DataPhase(socket).ForSender())
                 && ClientAt(d, acts).outcome == (if OpenedAt(d, acts).Waiting? then Running else PeerError)
  {
    hide React, Start, InDataPhase, Exec, SenderEvents, Setting.Valid, Config.Valid, Open;
    RunsAreLoops(d.DataPhase(socket), InDataPhase(d, acts));
    if OpenedAt(d, acts).Begun? {
      SenderOf(d, acts, socket);
    }
    assert [d.request] + [] == [d.request];
  }

  lemma OneOpenMore(d: Setting, front: seq<Action>, last: Action)
    requires d.Valid()
    ensures var acts := front + [last];
            OpenedAt(d, acts) == if SenderEvents(front) == [] && last.ToSender?
            then Open(d.client.blksize, d.requested, [last.event]) else OpenedAt(d, front)
    ensures SenderEvents(front) != [] ==>
              (FellThrough(front + [last]) <==> FellThrough(front))
              && (OpenedAt(d, front).Begun? ==> SocketAt(d, front + [last]) == SocketAt(d, front))
  {
    hide Setup, AcceptOack, SenderEvents;
    OneActionMore(front, last);
    var events := SenderEvents(front);
    if last.ToSender? && events != [] {
      assert (events + [last.event])[0] == events[0];
    }
  }

  lemma OneDataMore(d: Setting, front: seq<Action>, last: Action)
    requires d.Valid()
    ensures InDataPhase(d, front + [last])
         == InDataPhase(d, front)
            + (if (if last.ToSender? then OpenedAt(d, front).Begun? else !Idle(front)) then [last] else [])
  {
    hide OpenedAt, Idle, Setting.Valid;
    assert (front + [last])[..|front|] == front;
  }

  /** One event more at the client. */
  lemma ClientNext(d: Setting, front: seq<Action>, last: Action)
    requires d.Valid() && last.ToSender?
    ensures var acts, begun := front + [last], OpenedAt(d, front).Begun?;
            && SenderEvents(acts) == SenderEvents(front) + [last.event]
            && Handled(acts) == Handled(front) && (Idle(acts) <==> Idle(front))
            && InDataPhase(d, acts) == (if begun then InDataPhase(d, front) + [last] else InDataPhase(d, front))
            && SenderEvents(InDataPhase(d, acts))
               == SenderEvents(InDataPhase(d, front)) + (if begun then [last.event] else [])
            && ReceiverEvents(InDataPhase(d, acts)) == ReceiverEvents(InDataPhase(d, front))
  {
    hide OpenedAt, InDataPhase, ReceiverEvents, SenderEvents, Setting.Valid;
    OneActionMore(front, last);
    OneDataMore(d, front, last);
    OneActionMore(InDataPhase(d, front), last);
  }

  /** One event more at the server. */
  lemma ServerNext(d: Setting, front: seq<Action>, last: Action)
    requires d.Valid() && last.ToReceiver?
    ensures var acts := front + [last];
            && !Idle(acts) && SenderEvents(acts) == SenderEvents(front)
            && Handled(acts) == (if Idle(front) then [] else Handled(front) + [last.event])
            && InDataPhase(d, acts) == (if Idle(front) then InDataPhase(d, front) else InDataPhase(d, front) + [last])
            && SenderEvents(InDataPhase(d, acts)) == SenderEvents(InDataPhase(d, front))
            && ReceiverEvents(InDataPhase(d, acts))
               == ReceiverEvents(InDataPhase(d, front)) + (if Idle(front) then [] else [last.event])
  {
    hide OpenedAt, InDataPhase, ReceiverEvents, SenderEvents, Setting.Valid;
    var heard := ReceiverEvents(front);
    OneActionMore(front, last);
    OneDataMore(d, front, last);
    OneActionMore(InDataPhase(d, front), last);
    if heard != [] {
      assert (heard + [last.event])[1..] == heard[1..] + [last.event];
    } else {
      assert [last.event][1..] == [];
    }
  }

  /** What a server without blocks has sent. */
  lemma ServerSaid(d: Setting, acts: seq<Action>, x: seq<byte>)
    requires ServerAt(d, acts).accepted == [] && x in ServerAt(d, acts).log
    ensures x == d.server.hello || x == ERROR_PACKET
  {
    hide Hear, Respond;
    AcknowledgesAccepted(d.server, Handled(acts));
    assert Spoken(d.server, 0, ServerAt(d, acts).outcome.Reported(), x);
  }

  lemma OpenedBy(d: Setting, x: seq<byte>)
    requires d.Valid() && (x == d.server.hello || x == ERROR_PACKET)
    ensures var w := Open(d.client.blksize, d.requested, [Packet(x)]);
            if x == d.server.hello then w.Begun? else w == Denied(PeerError, [])
  {
    hide AcceptOack, Setup;
    ParseErrorPacket(d.client.blksize);
  }

  /** The first event at the client. */
  lemma ClientOpens(d: Setting, front: seq<Action>, last: Action)
    requires d.Valid() && last.ToSender? && SenderEvents(front) == []
    requires ClientStands(d, front) && ServerStands(d, front) && Possible(d, front, last)
    ensures ClientStands(d, front + [last]) && ServerStands(d, front + [last])
  {
    hide Open, Admit, InDataPhase, SenderEvents, ReceiverEvents, Hear, Setting.Valid;
    WaitingFirst(d);
    ClientNext(d, front, last);
    OneOpenMore(d, front, last);
    assert [last.event][1..] == [];
    if last.event.Packet? {
      ServerSaid(d, front, last.event.datagram);
      OpenedBy(d, last.event.datagram);
      NoErrorHello(d);
    } else {
      ExpiredOpens(d);
    }
  }

  lemma WaitingFirst(d: Setting)
    requires d.Valid()
    ensures Open(d.client.blksize, d.requested, []) == Waiting
  {
  }

  lemma ExpiredOpens(d: Setting)
    requires d.Valid()
    ensures Open(d.client.blksize, d.requested, [Expired]) == Begun(d.requested)
  {
  }

  lemma NoErrorHello(d: Setting)
    requires d.Valid()
    ensures d.server.hello != ERROR_PACKET
  {
    HelloLaws(d);
    ParseErrorPacket(d.server.blksize);
  }

  /** What is possible in the whole system is enabled in the data phase. */
  lemma EnabledInDataPhase(d: Setting, front: seq<Action>, last: Action, socket: nat)
    requires d.Valid() && d.DataPhase(socket).Valid() && ClientStands(d, front) && ServerStands(d, front)
    requires Fits(d, front, socket) && Possible(d, front, last)
    requires if last.ToSender? then OpenedAt(d, front).Begun? && SenderEvents(front) != [] else !Idle(front)
    ensures Enabled(d.DataPhase(socket), DataState(d, front, socket), last)
  {
    hide ClientAt, ServerAt, ClientStands, ServerStands, OpenedAt, DataState, Idle, Fits, Setting.Valid, Config.Valid;
    if last.event.Packet? {
      if last.ToSender? {
        ServerInDataPhase(d, front, socket);
      } else if last.event.datagram != UNKNOWN_TID {
        ClientInDataPhase(d, front, socket);
      }
    }
  }

  lemma DataPhaseMore(d: Setting, front: seq<Action>, last: Action, socket: nat)
    requires d.Valid() && d.DataPhase(socket).Valid() && Embedded(d, front, socket)
    requires Fits(d, front, socket) && Possible(d, front, last)
    requires if last.ToSender? then OpenedAt(d, front).Begun? && SenderEvents(front) != [] else !Idle(front)
    ensures Legal(d.DataPhase(socket), InDataPhase(d, front) + [last])
  {
    hide InDataPhase, Possible, Legal, Exec, Enabled, ClientStands, ServerStands, OpenedAt, Idle, Fits,
      Setting.Valid, Config.Valid;
    EnabledInDataPhase(d, front, last, socket);
    Extend(d.DataPhase(socket), InDataPhase(d, front), last);
  }

  lemma WaitingExactly(d: Setting, acts: seq<Action>)
    requires d.Valid()
    ensures OpenedAt(d, acts).Waiting? <==> SenderEvents(acts) == []
  {
    hide AcceptOack;
  }

  /** An event at the client keeps the embedding. */
  lemma ClientStep(d: Setting, front: seq<Action>, last: Action, socket: nat)
    requires d.Valid() && d.DataPhase(socket).Valid() && last.ToSender?
    requires Embedded(d, front, socket) && Possible(d, front, last) && Fits(d, front + [last], socket)
    ensures Embedded(d, front + [last], socket)
  {
    hide Open, Possible, InDataPhase, SenderEvents, ReceiverEvents, Legal, Hear, SocketAt, Setting.Valid, Config.Valid;
    var events := SenderEvents(front);
    WaitingExactly(d, front);
    ClientNext(d, front, last);
    OneOpenMore(d, front, last);
    if events == [] {
      ClientOpens(d, front, last);
    } else {
      if OpenedAt(d, front).Begun? {
        DataPhaseMore(d, front, last, socket);
      }
      assert (events + [last.event])[1..] == events[1..] + [last.event];
      assert (events + [last.event])[0] == events[0];
    }
  }

  /** An event at a server whose client does not know its port brings no block. */
  lemma NoBlockUnlinked(d: Setting, front: seq<Action>, last: Action)
    requires d.Valid() && last.ToReceiver? && !Idle(front) && !Linked(d, front) && Possible(d, front, last)
    ensures Respond(d.server, ServerAt(d, front), last.event).accepted == ServerAt(d, front).accepted
  {
    hide Hear, Respond, OpenedAt, Idle, Setting.Valid;
    AcceptsNextOnly(d.server, ServerAt(d, front), last.event);
    assert Parse(UNKNOWN_TID, d.server.blksize) == Error;
  }

  lemma HandledMore(d: Setting, front: seq<Action>, last: Action)
    requires d.Valid() && last.ToReceiver?
    ensures ServerAt(d, front + [last])
         == if Idle(front) then ServerAt(d, front) else Respond(d.server, ServerAt(d, front), last.event)
  {
    hide Respond, InDataPhase, Setting.Valid;
    ServerNext(d, front, last);
    var heard := Handled(front);
    assert (heard + [last.event])[..|heard|] == heard;
  }

  /** An event at the server keeps the embedding. */
  lemma ServerStep(d: Setting, front: seq<Action>, last: Action, socket: nat)
    requires d.Valid() && d.DataPhase(socket).Valid() && last.ToReceiver?
    requires Embedded(d, front, socket) && Possible(d, front, last) && Fits(d, front, socket)
    ensures Embedded(d, front + [last], socket)
  {
    hide Open, Possible, InDataPhase, SenderEvents, ReceiverEvents, Legal, ServerAt, Respond, SocketAt,
      Setting.Valid, Config.Valid;
    ServerNext(d, front, last);
    HandledMore(d, front, last);
    if !Idle(front) {
      DataPhaseMore(d, front, last, socket);
      if !Linked(d, front) {
        NoBlockUnlinked(d, front, last);
      }
    }
  }

  lemma NothingHappened(d: Setting, socket: nat)
    requires d.Valid() && d.DataPhase(socket).Valid()
    ensures Embedded(d, [], socket) && OpenedAt(d, []).Waiting?
  {
    hide Setting.Valid, Config.Valid;
  }

  lemma HappenedBefore(d: Setting, acts: seq<Action>)
    requires d.Valid() && Happens(d, acts) && acts != []
    ensures var front, last := acts[..|acts| - 1], acts[|acts| - 1];
            acts == front + [last] && Happens(d, front) && Possible(d, front, last)
  {
    hide Possible, Setting.Valid;
  }

  /** A timeout that fits a run fits its beginning. */
  lemma FitsBefore(d: Setting, front: seq<Action>, last: Action, socket: nat)
    requires d.Valid() && Fits(d, front + [last], socket)
    ensures Fits(d, front, socket)
  {
    hide Open, SenderEvents, SocketAt, Setting.Valid;
    WaitingExactly(d, front);
    OneOpenMore(d, front, last);
  }

  /** Every run of the whole system embeds a run of its data phase. */
  lemma {:induction false} AlwaysEmbedded(d: Setting, acts: seq<Action>, socket: nat)
    requires d.Valid() && Happens(d, acts) && Fits(d, acts, socket) && socket > 0
    ensures d.server.blksize > 0 && d.DataPhase(socket).Valid() && Embedded(d, acts, socket)
  {
    hide *;
    DataPhaseIsValid(d, socket);
    if acts == [] {
      NothingHappened(d, socket);
    } else {
      var front, last := acts[..|acts| - 1], acts[|acts| - 1];
      HappenedBefore(d, acts);
      FitsBefore(d, front, last, socket);
      AlwaysEmbedded(d, front, socket);
      if last.ToSender? {
        ClientStep(d, front, last, socket);
      } else {
        ServerStep(d, front, last, socket);
      }
    }
  }

  function FitFor(d: Setting, acts: seq<Action>): (socket: nat)
    requires d.Valid()
    ensures Fits(d, acts, socket)
  {
    if OpenedAt(d, acts).Begun? then SocketAt(d, acts) else 1
  }

  /** The data phase of a run, and where both ends are in it. */
  function PhaseAt(d: Setting, acts: seq<Action>): Config
    requires d.Valid() && d.server.blksize > 0
  {
    d.DataPhase(FitFor(d, acts))
  }

  function StateAt(d: Setting, acts: seq<Action>): State
    requires d.Valid() && d.server.blksize > 0 && PhaseAt(d, acts).Valid()
  {
    DataState(d, acts, FitFor(d, acts))
  }

  function Blocks(d: Setting): seq<seq<byte>>
    requires d.server.blksize > 0
  {
    Chop(d.content, d.server.blksize)
  }

  /** The server has the file and has ended normally. */
  predicate HasFile(d: Setting, acts: seq<Action>)
    requires d.server.blksize > 0
  {
    ServerAt(d, acts).accepted == Blocks(d) && ServerAt(d, acts).outcome.Done?
  }

  /** Each end of a run against its data phase. */
  lemma EndsInDataPhase(d: Setting, acts: seq<Action>)
    requires d.Valid() && Happens(d, acts)
    ensures d.server.blksize > 0 && PhaseAt(d, acts).Valid()
    ensures Embedded(d, acts, FitFor(d, acts)) && Legal(PhaseAt(d, acts), InDataPhase(d, acts))
    ensures ServerAt(d, acts) == StateAt(d, acts).receiver
    ensures var s := StateAt(d, acts).sender;
            if OpenedAt(d, acts).Begun? then ClientAt(d, acts).outcome == s.outcome
            else s == Start(PhaseAt(d, acts).ForSender())
                 && ClientAt(d, acts).outcome == (if OpenedAt(d, acts).Waiting? then Running else PeerError)
    ensures !Linked(d, acts) ==> ServerAt(d, acts).accepted == []
  {
    var socket := FitFor(d, acts);
    hide OpenedAt, SocketAt, ClientAt, ServerAt, InDataPhase, Legal, Exec, Fits, FitFor, Start,
      Setting.Valid, Config.Valid;
    FitIsPositive(d, acts);
    AlwaysEmbedded(d, acts, socket);
    ServerInDataPhase(d, acts, socket);
    ClientInDataPhase(d, acts, socket);
  }

  lemma FitIsPositive(d: Setting, acts: seq<Action>)
    requires d.Valid()
    ensures FitFor(d, acts) > 0
  {
  }

  /** Safety of whole uploads: in every run, from the first request, the
      server's file is a prefix of the content, and the content when the server
      has ended normally. So has it when the client has, unless the content has
      more than 65535 blocks and the hello is ACK 0. */
  lemma UploadIsSafe(d: Setting, acts: seq<Action>)
    requires d.Valid() && Happens(d, acts)
    ensures d.server.blksize > 0 && Flatten(ServerAt(d, acts).accepted) <= d.content
    ensures ServerAt(d, acts).outcome.Done? ==> HasFile(d, acts) && Flatten(ServerAt(d, acts).accepted) == d.content
    ensures ClientAt(d, acts).outcome.Finished() ==>
              HasFile(d, acts) || (|Blocks(d)| > 65535 && Parse(d.server.hello, d.server.blksize) == Ack(0))
  {
    hide OpenedAt, ClientAt, ServerAt, InDataPhase, Legal, Exec, Inv, Chop, Setting.Valid, Config.Valid;
    EndsInDataPhase(d, acts);
    var cfg, data := PhaseAt(d, acts), InDataPhase(d, acts);
    TransferIsSafe(cfg, d.content, data);
    AlwaysInv(cfg, data);
    DeliveredWhenAll(cfg, Exec(cfg, data));
    UploadAgreement(cfg);
  }

  /** A client that fell through hears nothing more. */
  lemma {:induction false} FallenIsSilent(d: Setting, acts: seq<Action>)
    requires d.Valid() && Happens(d, acts) && FellThrough(acts)
    ensures Silence(SenderEvents(acts))
  {
    hide OpenedAt, ServerAt, ClientAt, Linked, SenderEvents, Setting.Valid;
    NothingSent();
    assert acts != [];
    var front, last := acts[..|acts| - 1], acts[|acts| - 1];
    HappenedBefore(d, acts);
    OneActionMore(front, last);
    if last.ToReceiver? || SenderEvents(front) != [] {
      OneOpenMore(d, front, last);
      FallenIsSilent(d, front);
    }
  }

  lemma NothingSent()
    ensures SenderEvents([]) == [] && ReceiverEvents([]) == []
  {
  }

  lemma {:induction false} SilentSender(c: SenderConfig, events: seq<Event>)
    requires c.Valid() && c.role.Client? && Silence(events)
    ensures Run(c, events).outcome in {Running, TimedOut}
  {
    if events != [] {
      SilenceFront(events);
      SilentSender(c, events[..|events| - 1]);
    }
  }

  /** A client whose first receive expired is lost: the server never gets a
      block, and the client never ends normally. */
  lemma FallingThroughFails(d: Setting, acts: seq<Action>)
    requires d.Valid() && Happens(d, acts) && FellThrough(acts)
    ensures ServerAt(d, acts).accepted == [] && !ServerAt(d, acts).outcome.Done?
    ensures ClientAt(d, acts).outcome in {Running, TimedOut}
  {
    hide ServerAt, InDataPhase, Legal, Exec, Chop, Run, Silence, SenderEvents, Granted, Setting.Valid, Config.Valid;
    EndsInDataPhase(d, acts);
    AlwaysInv(PhaseAt(d, acts), InDataPhase(d, acts));
    FallenIsSilent(d, acts);
    SilenceRest(SenderEvents(acts));
    PartsOf(d);
    SilentSender(ForUpload(Granted(d.client, d.requested, SenderEvents(acts)), d.content), SenderEvents(acts)[1..]);
  }

  lemma SilenceRest(events: seq<Event>)
    requires events != [] && Silence(events)
    ensures Silence(events[1..])
  {
  }

  /** The handshake in which everything arrives. */
  function Opening(d: Setting): seq<Action> {
    [ToReceiver(Packet(d.request)), ToSender(Packet(d.server.hello))]
  }

  /** The socket timeout it leaves the client with. */
  function AnsweredSocket(d: Setting): nat
    requires d.Valid()
  {
    Granted(d.client, d.requested, [Packet(d.server.hello)]).socket
  }

  /** The handler is there, and the client still waits. */
  lemma RequestHappens(d: Setting)
    requires d.Valid()
    ensures var first := [ToReceiver(Packet(d.request))];
            && Happens(d, first) && !Idle(first) && OpenedAt(d, first) == Waiting && InDataPhase(d, first) == []
            && Handled(first) == [] && SenderEvents(first) == []
  {
    hide Granted, Admit, SenderEvents, ReceiverEvents, Setting.Valid;
    var a := ToReceiver(Packet(d.request));
    WaitingFirst(d);
    NothingSent();
    ServerNext(d, [], a);
    HappensMore(d, [], a);
    assert [] + [a] == [a];
  }

  lemma OpeningHappens(d: Setting)
    requires d.Valid()
    ensures var acts := Opening(d);
            && Happens(d, acts) && !Idle(acts) && Linked(d, acts) && InDataPhase(d, acts) == []
            && SocketAt(d, acts) == AnsweredSocket(d)
  {
    hide Granted, Open, Admit, SenderEvents, ReceiverEvents, InDataPhase, Happens, Handled, Setting.Valid;
    var first, a := [ToReceiver(Packet(d.request))], ToSender(Packet(d.server.hello));
    RequestHappens(d);
    HappensMore(d, first, a);
    ClientNext(d, first, a);
    OpenedBy(d, d.server.hello);
    assert Opening(d) == first + [a] && SenderEvents(first + [a]) == [a.event];
  }

  lemma HappensMore(d: Setting, acts: seq<Action>, a: Action)
    requires d.Valid() && Happens(d, acts) && Possible(d, acts, a)
    ensures Happens(d, acts + [a]) && (acts + [a])[..|acts|] == acts
  {
    hide Possible;
    assert (acts + [a])[..|acts|] == acts;
  }

  /** Only its datagrams depend on what is in the channel at first. */
  lemma {:induction false} PreludeIrrelevant(cfg: Config, cfg0: Config, data: seq<Action>)
    requires cfg.Valid() && cfg0 == cfg.(senderPrelude := [])
    ensures cfg0.Valid() && Exec(cfg, data) == Exec(cfg0, data)
  {
    if data != [] {
      hide React, Respond, Start, SenderConfig.Valid;
      PreludeIrrelevant(cfg, cfg0, data[..|data| - 1]);
    }
  }

  /** A data phase after the opening is a run of the whole system. */
  lemma {:induction false} Lifted(d: Setting, cfg0: Config, data: seq<Action>)
    requires d.Valid() && d.DataPhase(AnsweredSocket(d)).Valid()
    requires cfg0 == d.DataPhase(AnsweredSocket(d)).(senderPrelude := []) && cfg0.Valid() && Legal(cfg0, data)
    ensures var acts := Opening(d) + data;
            && Happens(d, acts) && InDataPhase(d, acts) == data && !Idle(acts) && Linked(d, acts)
            && SocketAt(d, acts) == AnsweredSocket(d)
    decreases data
  {
    hide *;
    if data == [] {
      OpeningHappens(d);
      assert Opening(d) + data == Opening(d);
    } else {
      var front, last := data[..|data| - 1], data[|data| - 1];
      LegalBefore(cfg0, data);
      Lifted(d, cfg0, front);
      LiftedStep(d, cfg0, front, last);
      assert Opening(d) + data == (Opening(d) + front) + [last];
    }
  }

  lemma LiftedStep(d: Setting, cfg0: Config, front: seq<Action>, last: Action)
    requires d.Valid() && d.DataPhase(AnsweredSocket(d)).Valid()
    requires cfg0 == d.DataPhase(AnsweredSocket(d)).(senderPrelude := []) && cfg0.Valid()
    requires Enabled(cfg0, Exec(cfg0, front), last)
    requires var acts := Opening(d) + front;
             && Happens(d, acts) && InDataPhase(d, acts) == front && !Idle(acts) && Linked(d, acts)
             && SocketAt(d, acts) == AnsweredSocket(d)
    ensures var acts := (Opening(d) + front) + [last];
            && Happens(d, acts) && InDataPhase(d, acts) == front + [last] && !Idle(acts) && Linked(d, acts)
            && SocketAt(d, acts) == AnsweredSocket(d)
  {
    hide Open, InDataPhase, SenderEvents, ReceiverEvents, Legal, Exec, ClientAt, ServerAt, Happens,
      SocketAt, AnsweredSocket, Setting.Valid, Config.Valid;
    var acts, cfg := Opening(d) + front, d.DataPhase(AnsweredSocket(d));
    var socket := AnsweredSocket(d);
    WaitingExactly(d, acts);
    assert FitFor(d, acts) == socket;
    EndsInDataPhase(d, acts);
    ClientInDataPhase(d, acts, socket);
    PreludeIrrelevant(cfg, cfg0, front);
    assert Possible(d, acts, last);
    HappensMore(d, acts, last);
    OneDataMore(d, acts, last);
    OneOpenMore(d, acts, last);
    if last.ToSender? {
      ClientNext(d, acts, last);
    } else {
      ServerNext(d, acts, last);
    }
  }

  /** What a lifted run comes to. */
  lemma LiftedEnds(d: Setting, cfg0: Config, data: seq<Action>) returns (acts: seq<Action>)
    requires d.Valid() && d.DataPhase(AnsweredSocket(d)).Valid()
    requires cfg0 == d.DataPhase(AnsweredSocket(d)).(senderPrelude := []) && cfg0.Valid() && Legal(cfg0, data)
    ensures Happens(d, acts) && d.server.blksize > 0
    ensures ServerAt(d, acts) == Exec(cfg0, data).receiver
    ensures ClientAt(d, acts).outcome == Exec(cfg0, data).sender.outcome
  {
    hide Open, InDataPhase, SenderEvents, ReceiverEvents, Legal, Exec, ClientAt, ServerAt, Happens,
      SocketAt, AnsweredSocket, Setting.Valid, Config.Valid;
    acts := Opening(d) + data;
    Lifted(d, cfg0, data);
    assert FitFor(d, acts) == AnsweredSocket(d);
    EndsInDataPhase(d, acts);
    PreludeIrrelevant(d.DataPhase(AnsweredSocket(d)), cfg0, data);
  }

  /** The configuration of a lifted run. */
  lemma LiftedConfig(d: Setting) returns (cfg0: Config)
    requires d.Valid()
    ensures d.server.blksize > 0 && d.DataPhase(AnsweredSocket(d)).Valid()
    ensures cfg0 == d.DataPhase(AnsweredSocket(d)).(senderPrelude := []) && cfg0.Valid()
    ensures cfg0.HelloIsAck() <==> Parse(d.server.hello, d.server.blksize) == Ack(0)
  {
    hide Setting.Valid, Granted;
    AnsweredPositive(d);
    DataPhaseIsValid(d, AnsweredSocket(d));
    cfg0 := d.DataPhase(AnsweredSocket(d)).(senderPrelude := []);
  }

  lemma AnsweredPositive(d: Setting)
    requires d.Valid()
    ensures AnsweredSocket(d) > 0
  {
  }

  /** The client's normal end means that the server has the file. */
  ghost predicate SuccessMeansFile(d: Setting)
    requires d.Valid() && d.server.blksize > 0
  {
    forall acts :: Happens(d, acts) && ClientAt(d, acts).outcome.Finished() ==> HasFile(d, acts)
  }

  /** From the first request on, it does exactly for contents of at most 65535
      blocks and for a hello that is not ACK 0. */
  lemma UploadSuccessExactly(d: Setting)
    requires d.Valid() && d.server.blksize > 0
    ensures SuccessMeansFile(d) <==> |Blocks(d)| <= 65535 || Parse(d.server.hello, d.server.blksize) != Ack(0)
  {
    hide Happens, ClientAt, ServerAt, Chop, Parse, Legal, Exec, Setting.Valid, Config.Valid, AnsweredSocket;
    if |Blocks(d)| <= 65535 || Parse(d.server.hello, d.server.blksize) != Ack(0) {
      forall acts | Happens(d, acts) && ClientAt(d, acts).outcome.Finished()
        ensures HasFile(d, acts)
      {
        UploadIsSafe(d, acts);
      }
    } else {
      var cfg0 := LiftedConfig(d);
      UploadAgreement(cfg0);
      var data :| Legal(cfg0, data) && Exec(cfg0, data).sender.outcome.Finished()
                  && !Delivered(cfg0, Exec(cfg0, data));
      var acts := LiftedEnds(d, cfg0, data);
      assert !HasFile(d, acts);
    }
  }

  /** Both ends have ended normally, and the server has the file. */
  predicate Completed(d: Setting, acts: seq<Action>)
    requires d.Valid() && d.server.blksize > 0
  {
    HasFile(d, acts) && ClientAt(d, acts).outcome.Finished()
  }

  lemma FewBlocks(d: Setting)
    requires d.server.blksize > 0
    ensures |Blocks(d)| < WIRE_NUMBERS <==> |d.content| < 65535 * d.server.blksize
  {
    ChopIsExact(d.content, d.server.blksize);
    BlocksAndBytes(|d.content|, d.server.blksize);
  }

  /** From the first request on, some run delivers the content if and only if it
      is shorter than 65535 full blocks. */
  lemma UploadableExactly(d: Setting)
    requires d.Valid() && d.server.blksize > 0
    ensures (exists acts :: Happens(d, acts) && Completed(d, acts)) <==> |d.content| < 65535 * d.server.blksize
  {
    hide Happens, ClientAt, ServerAt, Chop, Legal, Exec, Setting.Valid, Config.Valid, AnsweredSocket;
    FewBlocks(d);
    if |Blocks(d)| < WIRE_NUMBERS {
      var cfg0 := LiftedConfig(d);
      var data := CompleteRun(cfg0);
      var acts := LiftedEnds(d, cfg0, data);
      assert Completed(d, acts);
    } else {
      forall acts | Happens(d, acts)
        ensures !Completed(d, acts)
      {
        EndsInDataPhase(d, acts);
        AlwaysInv(PhaseAt(d, acts), InDataPhase(d, acts));
      }
    }
  }

  /** Neither end has given up. */
  predicate Going(d: Setting, acts: seq<Action>)
    requires d.Valid()
  {
    && (ClientAt(d, acts).outcome.Running? || ClientAt(d, acts).outcome.Finished())
    && (ServerAt(d, acts).outcome.Running? || ServerAt(d, acts).outcome.Done?)
  }

  /** The deliveries that are still needed: request, hello, blocks and their ACKs. */
  function Left(d: Setting, acts: seq<Action>): int
    requires d.Valid() && d.server.blksize > 0 && PhaseAt(d, acts).Valid()
  {
    (if Idle(acts) then 1 else 0) + (if OpenedAt(d, acts).Waiting? then 1 else 0)
    + Remaining(PhaseAt(d, acts), StateAt(d, acts))
  }

  lemma GoingExactly(d: Setting, acts: seq<Action>)
    requires d.Valid() && Happens(d, acts)
    ensures d.server.blksize > 0 && PhaseAt(d, acts).Valid()
    ensures Going(d, acts) <==> !OpenedAt(d, acts).Denied? && Alive(StateAt(d, acts))
  {
    hide OpenedAt, ClientAt, ServerAt, InDataPhase, Happens, Legal, Exec, Embedded, FitFor, Setting.Valid, Config.Valid;
    EndsInDataPhase(d, acts);
  }

  lemma RequestArrives(d: Setting, acts: seq<Action>) returns (a: Action)
    requires d.Valid() && Happens(d, acts) && Going(d, acts) && Idle(acts)
    ensures Happens(d, acts + [a]) && Going(d, acts + [a]) && a.event.Packet?
    ensures FellThrough(acts + [a]) <==> FellThrough(acts)
    ensures d.server.blksize > 0 && PhaseAt(d, acts).Valid() && PhaseAt(d, acts + [a]).Valid()
    ensures Left(d, acts + [a]) == Left(d, acts) - 1
  {
    hide Open, InDataPhase, SenderEvents, ReceiverEvents, Happens, Hear, Exec, Remaining, Granted, WriteSession,
      Setting.Valid, Config.Valid;
    a := ToReceiver(Packet(d.request));
    HappensMore(d, acts, a);
    ServerNext(d, acts, a);
    GoingExactly(d, acts);
    GoingExactly(d, acts + [a]);
  }

  lemma SenderAtStart(cfg: Config, data: seq<Action>)
    requires cfg.Valid() && SenderEvents(data) == []
    ensures Exec(cfg, data).sender == Start(cfg.ForSender())
  {
    hide Exec, Start, React, Config.Valid;
    RunsAreLoops(cfg, data);
  }

  lemma HelloArrives(d: Setting, acts: seq<Action>) returns (a: Action)
    requires d.Valid() && Happens(d, acts) && Going(d, acts) && !Idle(acts) && OpenedAt(d, acts).Waiting?
    ensures Happens(d, acts + [a]) && Going(d, acts + [a]) && a.event.Packet? && !FellThrough(acts + [a])
    ensures d.server.blksize > 0 && PhaseAt(d, acts).Valid() && PhaseAt(d, acts + [a]).Valid()
    ensures Left(d, acts + [a]) == Left(d, acts) - 1
  {
    hide Open, InDataPhase, SenderEvents, ReceiverEvents, Happens, Hear, Exec, Granted, WriteSession, Start,
      Legal, Setting.Valid, Config.Valid;
    a := ToSender(Packet(d.server.hello));
    var next := acts + [a];
    WaitingExactly(d, acts);
    AcknowledgesAccepted(d.server, Handled(acts));
    HappensMore(d, acts, a);
    ClientNext(d, acts, a);
    OneOpenMore(d, acts, a);
    OpenedBy(d, d.server.hello);
    EndsInDataPhase(d, acts);
    EndsInDataPhase(d, next);
    SenderAtStart(PhaseAt(d, next), InDataPhase(d, next));
    StartsAtOne(PhaseAt(d, acts));
    StartsAtOne(PhaseAt(d, next));
    GoingExactly(d, acts);
    GoingExactly(d, next);
  }

  lemma StartsAtOne(cfg: Config)
    requires cfg.Valid()
    ensures Start(cfg.ForSender()).block == 1 && Start(cfg.ForSender()).outcome.Running?
  {
  }

  lemma DataArrives(d: Setting, acts: seq<Action>) returns (a: Action)
    requires d.Valid() && Happens(d, acts) && Going(d, acts) && !Idle(acts) && Linked(d, acts)
    requires d.server.blksize > 0 && PhaseAt(d, acts).Valid() && Left(d, acts) != 0 && |Blocks(d)| < WIRE_NUMBERS
    ensures Happens(d, acts + [a]) && Going(d, acts + [a]) && a.event.Packet? && !FellThrough(acts + [a])
    ensures PhaseAt(d, acts + [a]).Valid() && Left(d, acts + [a]) == Left(d, acts) - 1
  {
    hide Open, InDataPhase, SenderEvents, ReceiverEvents, Happens, ClientAt, ServerAt, Exec, SocketAt,
      Alive, Remaining, Legal, Setting.Valid, Config.Valid;
    var data := InDataPhase(d, acts);
    WaitingExactly(d, acts);
    GoingExactly(d, acts);
    EndsInDataPhase(d, acts);
    ClientInDataPhase(d, acts, FitFor(d, acts));
    var next := Progress(PhaseAt(d, acts), data);
    a := next[|data|];
    assert next == data + [a];
    HappensMore(d, acts, a);
    OneDataMore(d, acts, a);
    OneOpenMore(d, acts, a);
    if a.ToSender? {
      ClientNext(d, acts, a);
    } else {
      ServerNext(d, acts, a);
    }
    GoingExactly(d, acts + [a]);
  }

  lemma NothingLeft(d: Setting, acts: seq<Action>)
    requires d.Valid() && Happens(d, acts) && Going(d, acts) && d.server.blksize > 0 && PhaseAt(d, acts).Valid()
    requires |Blocks(d)| < WIRE_NUMBERS
    ensures Left(d, acts) >= 0 && (Left(d, acts) == 0 ==> Completed(d, acts))
  {
    hide OpenedAt, ClientAt, ServerAt, InDataPhase, Happens, Exec, Legal, Chop, Setting.Valid, Config.Valid;
    GoingExactly(d, acts);
    EndsInDataPhase(d, acts);
    AlwaysInv(PhaseAt(d, acts), InDataPhase(d, acts));
    DeliveredWhenAll(PhaseAt(d, acts), StateAt(d, acts));
  }

  /** No deadlock from the first request on, unless the client has fallen through. */
  lemma NextStep(d: Setting, acts: seq<Action>) returns (a: Action)
    requires d.Valid() && Happens(d, acts) && Going(d, acts) && !FellThrough(acts)
    requires d.server.blksize > 0 && PhaseAt(d, acts).Valid() && |Blocks(d)| < WIRE_NUMBERS && Left(d, acts) != 0
    ensures Happens(d, acts + [a]) && Going(d, acts + [a]) && !FellThrough(acts + [a]) && a.event.Packet?
    ensures PhaseAt(d, acts + [a]).Valid() && Left(d, acts + [a]) == Left(d, acts) - 1
  {
    hide OpenedAt, Happens, Going, FellThrough, Idle, Left, PhaseAt, Setting.Valid, Config.Valid;
    GoingExactly(d, acts);
    if Idle(acts) {
      a := RequestArrives(d, acts);
    } else if OpenedAt(d, acts).Waiting? {
      a := HelloArrives(d, acts);
    } else {
      a := DataArrives(d, acts);
    }
  }

  /** An upload of at most 65535 blocks whose client has not fallen through can
      be completed from every state in which neither end has given up, by
      deliveries alone, in exactly the number of steps left. */
  lemma {:induction false} UploadCompletable(d: Setting, acts: seq<Action>) returns (acts': seq<Action>)
    requires d.Valid() && Happens(d, acts) && Going(d, acts) && !FellThrough(acts)
    requires d.server.blksize > 0 && PhaseAt(d, acts).Valid() && |Blocks(d)| < WIRE_NUMBERS
    ensures |acts'| - |acts| == Left(d, acts)
    ensures acts <= acts' && Happens(d, acts') && Completed(d, acts')
    decreases Left(d, acts)
  {
    hide *;
    NothingLeft(d, acts);
    if Left(d, acts) == 0 {
      acts' := acts;
    } else {
      var a := NextStep(d, acts);
      acts' := UploadCompletable(d, acts + [a]);
    }
  }

  lemma {:induction false} FallenStays(acts: seq<Action>, longer: seq<Action>)
    requires acts <= longer && FellThrough(acts)
    ensures FellThrough(longer)
    decreases |longer|
  {
    if acts != longer {
      hide SenderEvents;
      var front, last := longer[..|longer| - 1], longer[|longer| - 1];
      FallenStays(acts, front);
      assert longer == front + [last];
      OneActionMore(front, last);
    }
  }

  /** So a run in which neither end has given up can be completed if and only if
      the client's first receive has not expired. */
  lemma CompletableExactly(d: Setting, acts: seq<Action>)
    requires d.Valid() && Happens(d, acts) && Going(d, acts)
    requires d.server.blksize > 0 && |Blocks(d)| < WIRE_NUMBERS
    ensures (exists acts' :: acts <= acts' && Happens(d, acts') && Completed(d, acts')) <==> !FellThrough(acts)
  {
    hide OpenedAt, Happens, Going, FellThrough, ServerAt, ClientAt, Setting.Valid, Config.Valid;
    if FellThrough(acts) {
      forall acts' | acts <= acts' && Happens(d, acts')
        ensures !Completed(d, acts')
      {
        FallenStays(acts, acts');
        FallingThroughFails(d, acts');
      }
    } else {
      GoingExactly(d, acts);
      var acts' := UploadCompletable(d, acts);
    }
  }
}
