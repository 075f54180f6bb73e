/** The handshakes: the client's request loop in Read, its single request in
    SendWrq, and the server's wait for ACK 0 after an OACK in FollowOnRRQ. */
module Greeting {
  import opened Bytes
  import opened Packets
  import opened Options
  import opened Requests
  import opened Negotiation
  import opened Udp
  import opened Sending

  /** How far the request loop is after a number of expired receives: answered
      by the first block or by an OACK, thrown (with what is reported to the
      server), or still without an answer. */
  datatype Greeted =
    | ByData(expired: nat)
    | ByOack(expired: nat, options: seq<Opt>)
    | Refused(expired: nat, outcome: Outcome, report: seq<seq<byte>>)
    | Unanswered(expired: nat)
  {
    /** The requests sent; the fifth expired receive is not followed by another. */
    function Requests(): nat {
      if expired < MAX_RETRIES then expired + 1 else expired
    }
  }

  const NEGOTIATION_ERROR: seq<byte> := [0, OPCODE_ERROR, 0, 8, 0]

  /** TftpClient::run reports its own exceptions, not those of std::stoi. */
  function Report(e: Error): (r: seq<seq<byte>>)
    ensures |r| <= 1
  {
    match e
    case IllegalOperation => [ERROR_PACKET]
    case FailedNegotiation => [NEGOTIATION_ERROR]
    case _ => []
  }

  /** The first packet decides. */
  function Answer(datagram: seq<byte>, blksize: nat, requested: seq<Opt>, expired: nat): (g: Greeted)
    ensures !g.Unanswered? && g.expired == expired
  {
    match Parse(datagram, blksize)
    case Data(number, _) => if number == 1 then ByData(expired) else Refused(expired, Malformed, [ERROR_PACKET])
    case Error => Refused(expired, PeerError, [])
    case Other =>
      var raw := Received(datagram);
      if OpcodeOf(raw) == Ok(OPCODE_OACK) then
        match AcceptOack(raw, requested)
        case Ok(options) => ByOack(expired, options)
        case Err(e) => Refused(expired, Malformed, Report(e))
      else Refused(expired, Malformed, [ERROR_PACKET])
    case _ => Refused(expired, Malformed, [ERROR_PACKET])
  }

  function GreetStep(blksize: nat, requested: seq<Opt>, g: Greeted, event: Event): (next: Greeted)
    ensures next.expired == g.expired + (if g.Unanswered? && event.Expired? then 1 else 0)
    ensures next.Unanswered? ==> g.Unanswered? && next.expired < MAX_RETRIES
  {
    if !g.Unanswered? then g
    else match event
         case Packet(datagram) => Answer(datagram, blksize, requested, g.expired)
         case Expired =>
           var expired := g.expired + 1;
           if expired < MAX_RETRIES then Unanswered(expired) else Refused(expired, TimedOut, [ERROR_PACKET])
  }

  function Greet(blksize: nat, requested: seq<Opt>, events: seq<Event>): (g: Greeted)
    ensures g.expired <= |events| && g.expired <= MAX_RETRIES
    ensures g.ByData? || g.ByOack? ==> g.expired < |events|
  {
    if events == [] then Unanswered(0)
    else GreetStep(blksize, requested, Greet(blksize, requested, events[..|events| - 1]), events[|events| - 1])
  }

  lemma {:induction false} GreetFrozen(blksize: nat, requested: seq<Opt>, events: seq<Event>, k: nat)
    requires k <= |events| && !Greet(blksize, requested, events[..k]).Unanswered?
    ensures Greet(blksize, requested, events) == Greet(blksize, requested, events[..k])
    decreases |events| - k
  {
    if k < |events| {
      hide Answer;
      assert events[..k + 1][..k] == events[..k];
      GreetFrozen(blksize, requested, events, k + 1);
    } else {
      assert events[..k] == events;
    }
  }

  predicate Silence(events: seq<Event>) {
    forall i :: 0 <= i < |events| ==> events[i].Expired?
  }

  lemma SilenceFront(events: seq<Event>)
    requires events != []
    ensures Silence(events) <==> Silence(events[..|events| - 1]) && events[|events| - 1].Expired?
  {
    var front := events[..|events| - 1];
    assert forall i :: 0 <= i < |front| ==> front[i] == events[i];
  }

  /** No answer yet means nothing but fewer than five expired receives. */
  lemma {:induction false} UnansweredExactly(blksize: nat, requested: seq<Opt>, events: seq<Event>)
    ensures var g := Greet(blksize, requested, events);
            && (Silence(events) && |events| < MAX_RETRIES ==> g == Unanswered(|events|))
            && (Silence(events) && |events| == MAX_RETRIES ==> g == Refused(MAX_RETRIES, TimedOut, [ERROR_PACKET]))
            && (g.Unanswered? ==> Silence(events) && |events| < MAX_RETRIES)
  {
    if events != [] {
      hide Answer, Silence;
      SilenceFront(events);
      UnansweredExactly(blksize, requested, events[..|events| - 1]);
    } else {
      assert Silence([]);
    }
  }

  /** How the loop is ended by the event after n expired receives, and by the events altogether. */
  lemma GreetAfter(blksize: nat, requested: seq<Opt>, events: seq<Event>, n: nat)
    requires n <= |events| && n <= MAX_RETRIES && Silence(events[..n])
    ensures var g := Greet(blksize, requested, events);
            if n == MAX_RETRIES then g == Refused(n, TimedOut, [ERROR_PACKET])
            else if n == |events| then g == Unanswered(n)
            else events[n].Packet? ==> g == Answer(events[n].datagram, blksize, requested, n)
  {
    hide Answer;
    UnansweredExactly(blksize, requested, events[..n]);
    if n == MAX_RETRIES {
      GreetFrozen(blksize, requested, events, n);
    } else if n == |events| {
      assert events[..n] == events;
    } else if events[n].Packet? {
      assert events[..n + 1][..n] == events[..n];
      GreetFrozen(blksize, requested, events, n + 1);
    }
  }

  predicate IsFirstBlock(raw: seq<byte>) {
    Opens(raw, 3) && |raw| >= 4 && raw[2] == 0 && raw[3] == 1
  }

  /** An OACK whose options all suit what was asked for, be they fewer. */
  predicate SuitableOack(raw: seq<byte>, requested: seq<Opt>) {
    Opens(raw, 6) && var r := ParseRest(Oack, raw[2..], []); r.Ok? && AllAcceptable(r.value, requested)
  }

  /** The client accepts those and no others. */
  lemma SuitableExactly(raw: seq<byte>, requested: seq<Opt>)
    ensures AcceptOack(raw, requested).Ok? <==> SuitableOack(raw, requested)
    ensures AcceptOack(raw, requested).Ok? ==> AcceptOack(raw, requested) == ParseRest(Oack, raw[2..], [])
    ensures OpcodeOf(raw) == Ok(OPCODE_OACK) <==> Opens(raw, 6)
    ensures OpcodeOf(raw) == Ok(OPCODE_RRQ) <==> Opens(raw, 1)
  {
    hide ParseRest, AllAcceptable;
    AcceptExactly(raw, requested);
  }

  /** What the first packet brings, by its bytes. */
  lemma AnswerExactly(datagram: seq<byte>, blksize: nat, requested: seq<Opt>, expired: nat)
    ensures var g, raw := Answer(datagram, blksize, requested, expired), Received(datagram);
            && (g.ByData? <==> IsFirstBlock(raw))
            && (g.ByOack? <==> SuitableOack(raw, requested))
            && (g.ByOack? ==> Ok(g.options) == ParseRest(Oack, raw[2..], []))
            && (g.Refused? ==> (g.outcome == PeerError <==> Parse(datagram, blksize).Error?)
                               && (g.outcome == PeerError || g.outcome == Malformed)
                               && g.report == (if g.outcome == PeerError then []
                                               else if Opens(raw, 6) then Report(AcceptOack(raw, requested).error)
                                               else [[0, 5, 0, 4, 0]]))
  {
    hide AcceptOack, ParseRest, SuitableOack, Report;
    ParseExactly(datagram, blksize);
    SuitableExactly(Received(datagram), requested);
    SuitableOpens(Received(datagram), requested);
  }

  lemma SuitableOpens(raw: seq<byte>, requested: seq<Opt>)
    ensures SuitableOack(raw, requested) ==> Opens(raw, 6)
  {
  }

  /** ERROR packets with the codes 4 and 8 (RFC 1350, RFC 2347); what std::stoi
      throws is not reported. */
  lemma ReportExactly(e: Error)
    ensures Report(e) == match e
                         case IllegalOperation => [[0, 5, 0, 4, 0]]
                         case FailedNegotiation => [[0, 5, 0, 8, 0]]
                         case _ => []
  {
  }

  /** An answer the client goes on with: DATA 1, or a suitable OACK. */
  predicate GoesOn(datagram: seq<byte>, requested: seq<Opt>) {
    IsFirstBlock(Received(datagram)) || SuitableOack(Received(datagram), requested)
  }

  /** Such an answer comes as the packet after n expired receives, in time. */
  predicate AnsweredAt(requested: seq<Opt>, events: seq<Event>, n: nat) {
    n < |events| && n < 5 && Silence(events[..n]) && events[n].Packet? && GoesOn(events[n].datagram, requested)
  }

  /** What ended the loop: five expired receives, or the first packet. */
  lemma {:induction false} DecidedBy(blksize: nat, requested: seq<Opt>, events: seq<Event>)
    requires !Greet(blksize, requested, events).Unanswered?
    ensures var g := Greet(blksize, requested, events);
            var n := g.expired;
            && Silence(events[..n])
            && if n == MAX_RETRIES then g == Refused(MAX_RETRIES, TimedOut, [ERROR_PACKET])
               else n < |events| && n < MAX_RETRIES && events[n].Packet?
                    && g == Answer(events[n].datagram, blksize, requested, n)
  {
    hide Answer, Silence;
    var front, last := events[..|events| - 1], events[|events| - 1];
    UnansweredExactly(blksize, requested, front);
    UnansweredExactly(blksize, requested, events);
    if Greet(blksize, requested, front).Unanswered? {
      assert events[..|events|] == events;
      SilenceFront(events);
    } else {
      DecidedBy(blksize, requested, front);
      var n := Greet(blksize, requested, front).expired;
      assert front[..n] == events[..n];
    }
  }

  /** Where an answer that the client goes on with came. */
  lemma AnswerCame(blksize: nat, requested: seq<Opt>, events: seq<Event>)
    requires var g := Greet(blksize, requested, events); g.ByData? || g.ByOack?
    ensures var g := Greet(blksize, requested, events);
            && AnsweredAt(requested, events, g.expired)
            && g == Answer(events[g.expired].datagram, blksize, requested, g.expired)
  {
    hide Answer, Silence, Greet, IsFirstBlock, SuitableOack;
    var n := Greet(blksize, requested, events).expired;
    DecidedBy(blksize, requested, events);
    AnswerExactly(events[n].datagram, blksize, requested, n);
  }

  /** The client goes on exactly when the first packet is such an answer and
      comes after fewer than five expired receives, and gives up exactly when
      the first five receives expire. */
  lemma GreetExactly(blksize: nat, requested: seq<Opt>, events: seq<Event>)
    ensures var g := Greet(blksize, requested, events);
            && (g.ByData? || g.ByOack? <==> exists n :: AnsweredAt(requested, events, n))
            && (g.Refused? && g.outcome.TimedOut? <==> |events| >= 5 && Silence(events[..5]))
  {
    hide Greet, Answer, Silence, IsFirstBlock, SuitableOack;
    var g := Greet(blksize, requested, events);
    if g.ByData? || g.ByOack? {
      AnswerCame(blksize, requested, events);
    } else if n: nat :| AnsweredAt(requested, events, n) {
      GreetAfter(blksize, requested, events, n);
      AnswerExactly(events[n].datagram, blksize, requested, n);
    }
    if |events| >= 5 && Silence(events[..5]) {
      GreetAfter(blksize, requested, events, 5);
    } else if g.Refused? {
      DecidedBy(blksize, requested, events);
      if g.expired < 5 {
        AnswerExactly(events[g.expired].datagram, blksize, requested, g.expired);
      }
    }
  }

  /** How the client's upload request ends: the transfer starts with these
      options, or an exception is thrown, or there is no event yet. */
  datatype Opened = Begun(options: seq<Opt>) | Denied(outcome: Outcome, report: seq<seq<byte>>) | Waiting

  function Admit(datagram: seq<byte>, blksize: nat, requested: seq<Opt>): Opened {
    match Parse(datagram, blksize)
    case Ack(number) => if number == 0 then Begun([]) else Denied(Malformed, [ERROR_PACKET])
    case Error => Denied(PeerError, [])
    case Other =>
      var raw := Received(datagram);
      if OpcodeOf(raw) == Ok(OPCODE_OACK) then
        match AcceptOack(raw, requested)
        case Ok(options) => Begun(options)
        case Err(e) => Denied(Malformed, Report(e))
      else Denied(Malformed, [ERROR_PACKET])
    case _ => Denied(Malformed, [ERROR_PACKET])
  }

  /** One expired receive is enough to go on as if the request had been granted:
      the handler is outside the loop that counts retries. */
  function Open(blksize: nat, requested: seq<Opt>, events: seq<Event>): Opened {
    if events == [] then Waiting
    else match events[0]
         case Expired => Begun(requested)
         case Packet(datagram) => Admit(datagram, blksize, requested)
  }

  predicate IsAckZero(raw: seq<byte>) {
    Opens(raw, 4) && |raw| >= 4 && raw[2] == 0 && raw[3] == 0
  }

  /** An upload begins exactly when the first receive expires, with the options
      asked for, or brings ACK 0, without options, or a suitable OACK, with its
      options; everything else is refused. */
  lemma OpenExactly(blksize: nat, requested: seq<Opt>, events: seq<Event>)
    ensures var w := Open(blksize, requested, events);
            && (w.Waiting? <==> events == [])
            && (events != [] ==>
                  if events[0].Expired? then w == Begun(requested)
                  else
                    var raw := Received(events[0].datagram);
                    if IsAckZero(raw) then w == Begun([])
                    else if SuitableOack(raw, requested) then
                      w.Begun? && Ok(w.options) == ParseRest(Oack, raw[2..], [])
                    else
                      w.Denied? && var error := Parse(events[0].datagram, blksize).Error?;
                      && w.outcome == (if error then PeerError else Malformed)
                      && w.report == (if error then []
                                      else if Opens(raw, 6) then Report(AcceptOack(raw, requested).error)
                                      else [[0, 5, 0, 4, 0]]))
  {
    hide AcceptOack, ParseRest, SuitableOack, Report;
    if events != [] && events[0].Packet? {
      ParseExactly(events[0].datagram, blksize);
      SuitableExactly(Received(events[0].datagram), requested);
      SuitableOpens(Received(events[0].datagram), requested);
    }
  }

  /** How far the server's wait for ACK 0 is, after a number of counted events. */
  datatype Welcomed =
    | Ready(counted: nat)
    | Rejected(counted: nat, outcome: Outcome, report: seq<seq<byte>>)
    | Silent(counted: nat)

  /** An event that the wait counts: an expired receive, or the request again. */
  predicate CountedWelcome(event: Event) {
    event.Expired? || OpcodeOf(Received(event.datagram)) == Ok(OPCODE_RRQ)
  }

  /** The same by the bytes of the packet. */
  predicate Repeated(event: Event) {
    event.Packet? ==> Opens(Received(event.datagram), 1)
  }

  lemma RepeatedExactly(event: Event)
    ensures CountedWelcome(event) <==> Repeated(event)
  {
  }

  lemma ExpiredCounts()
    ensures CountedWelcome(Expired)
  {
  }

  lemma RequestsAreOther(datagram: seq<byte>, blksize: nat)
    ensures OpcodeOf(Received(datagram)) == Ok(OPCODE_RRQ) ==> Parse(datagram, blksize).Other?
  {
  }

  function WelcomeStep(blksize: nat, w: Welcomed, event: Event): (next: Welcomed)
    ensures w.counted <= next.counted <= w.counted + 1
    ensures next.Ready? && w.Silent? ==> next.counted == w.counted
  {
    if !w.Silent? then w
    else if CountedWelcome(event) then
      var counted := w.counted + 1;
      if counted < MAX_RETRIES then Silent(counted) else Rejected(counted, TimedOut, [ERROR_PACKET])
    else match Parse(event.datagram, blksize)
         case Ack(number) => if number == 0 then Ready(w.counted) else Rejected(w.counted, Malformed, [ERROR_PACKET])
         case Error => Rejected(w.counted, PeerError, [])
         case _ => Rejected(w.counted, Malformed, [ERROR_PACKET])
  }

  function Welcome(blksize: nat, events: seq<Event>): (w: Welcomed)
    ensures w.counted <= |events|
    ensures w.Ready? ==> w.counted < |events|
  {
    if events == [] then Silent(0)
    else WelcomeStep(blksize, Welcome(blksize, events[..|events| - 1]), events[|events| - 1])
  }

  lemma {:induction false} WelcomeFrozen(blksize: nat, events: seq<Event>, k: nat)
    requires k <= |events| && !Welcome(blksize, events[..k]).Silent?
    ensures Welcome(blksize, events) == Welcome(blksize, events[..k])
    decreases |events| - k
  {
    if k < |events| {
      assert events[..k + 1][..k] == events[..k];
      WelcomeFrozen(blksize, events, k + 1);
    } else {
      assert events[..k] == events;
    }
  }

  predicate AllCounted(events: seq<Event>) {
    forall i :: 0 <= i < |events| ==> Repeated(events[i])
  }

  lemma AllCountedFront(events: seq<Event>)
    requires events != []
    ensures AllCounted(events) <==> AllCounted(events[..|events| - 1]) && Repeated(events[|events| - 1])
  {
    var front := events[..|events| - 1];
    assert forall i :: 0 <= i < |front| ==> front[i] == events[i];
  }

  lemma {:induction false} SilentExactly(blksize: nat, events: seq<Event>)
    ensures var w := Welcome(blksize, events);
            && (AllCounted(events) && |events| < 5 ==> w == Silent(|events|))
            && (AllCounted(events) && |events| == 5 ==> w == Rejected(5, TimedOut, [ERROR_PACKET]))
            && (w.Silent? ==> AllCounted(events) && |events| < 5)
  {
    if events != [] {
      hide CountedWelcome, Repeated, AllCounted;
      AllCountedFront(events);
      RepeatedExactly(events[|events| - 1]);
      SilentExactly(blksize, events[..|events| - 1]);
    } else {
      assert AllCounted([]);
    }
  }

  /** ACK 0 comes n events in, with only counted events before it, in time. */
  predicate AckZeroAt(events: seq<Event>, n: nat) {
    n < |events| && n < 5 && AllCounted(events[..n]) && events[n].Packet? && IsAckZero(Received(events[n].datagram))
  }

  lemma AckZeroIsReady(blksize: nat, w: Welcomed, event: Event)
    requires w.Silent?
    ensures var next := WelcomeStep(blksize, w, event);
            && (next.Ready? <==> event.Packet? && IsAckZero(Received(event.datagram)))
            && (next.Silent? ==> Repeated(event))
            && (next.Rejected? && next.outcome.TimedOut? ==> Repeated(event) && w.counted + 1 >= MAX_RETRIES)
            && (next.Rejected? && !next.outcome.TimedOut? ==>
                  next.outcome == (if Parse(event.datagram, blksize).Error? then PeerError else Malformed)
                  && next.report == (if next.outcome == PeerError then [] else [[0, 5, 0, 4, 0]]))
  {
    RepeatedExactly(event);
    if event.Packet? {
      ParseExactly(event.datagram, blksize);
    }
  }

  lemma {:induction false} AckZeroCame(blksize: nat, events: seq<Event>)
    requires Welcome(blksize, events).Ready?
    ensures AckZeroAt(events, Welcome(blksize, events).counted)
  {
    hide WelcomeStep, Repeated, AllCounted, IsAckZero;
    var front := events[..|events| - 1];
    if Welcome(blksize, front).Silent? {
      SilentExactly(blksize, front);
      AckZeroIsReady(blksize, Welcome(blksize, front), events[|events| - 1]);
      StepCounts(blksize, Welcome(blksize, front), events[|events| - 1]);
    } else {
      StepCounts(blksize, Welcome(blksize, front), events[|events| - 1]);
      AckZeroCame(blksize, front);
      var n := Welcome(blksize, front).counted;
      assert front[..n] == events[..n] && front[n] == events[n];
    }
  }

  lemma StepCounts(blksize: nat, w: Welcomed, event: Event)
    ensures !w.Silent? ==> WelcomeStep(blksize, w, event) == w
  {
  }

  /** When the wait timed out. */
  lemma {:induction false} WelcomeTimedOut(blksize: nat, events: seq<Event>)
    requires Welcome(blksize, events).Rejected? && Welcome(blksize, events).outcome.TimedOut?
    ensures |events| >= 5 && AllCounted(events[..5])
  {
    hide WelcomeStep, Repeated, AllCounted;
    var front, last := events[..|events| - 1], events[|events| - 1];
    StepCounts(blksize, Welcome(blksize, front), last);
    if Welcome(blksize, front).Silent? {
      SilentExactly(blksize, front);
      AckZeroIsReady(blksize, Welcome(blksize, front), last);
      AllCountedFront(events);
      assert events[..5] == events;
    } else {
      WelcomeTimedOut(blksize, front);
      assert front[..5] == events[..5];
    }
  }

  /** The data phase starts exactly when ACK 0 comes with fewer than five
      expired receives or repeated requests before it and nothing else; the
      fifth of those ends the wait. */
  lemma WelcomeExactly(blksize: nat, events: seq<Event>)
    ensures var w := Welcome(blksize, events);
            && (w.Ready? <==> exists n :: AckZeroAt(events, n))
            && (w.Rejected? && w.outcome.TimedOut? <==> |events| >= 5 && AllCounted(events[..5]))
  {
    hide WelcomeStep, Repeated, AllCounted, IsAckZero;
    var w := Welcome(blksize, events);
    if w.Ready? {
      AckZeroCame(blksize, events);
    } else if n: nat :| AckZeroAt(events, n) {
      SilentExactly(blksize, events[..n]);
      assert events[..n + 1][..n] == events[..n];
      AckZeroIsReady(blksize, Welcome(blksize, events[..n]), events[n]);
      WelcomeFrozen(blksize, events, n + 1);
    }
    if |events| >= 5 && AllCounted(events[..5]) {
      SilentExactly(blksize, events[..5]);
      WelcomeFrozen(blksize, events, 5);
    } else if w.Rejected? && w.outcome.TimedOut? {
      WelcomeTimedOut(blksize, events);
    }
  }

  function Repeat(datagram: seq<byte>, n: nat): (r: seq<seq<byte>>)
    ensures |r| == n
  {
    seq(n, _ => datagram)
  }

  lemma RepeatMore(datagram: seq<byte>, n: nat)
    ensures Repeat(datagram, n + 1) == Repeat(datagram, n) + [datagram]
  {
  }

  lemma NothingYet(request: seq<byte>, blksize: nat, socket: nat)
    ensures Silence([]) && Repeat(request, 0) == [] && Waits(socket, []) == Timer(1, socket, 0)
    ensures Welcome(blksize, []) == Silent(0)
  {
  }

  lemma OneMoreSilent(socket: nat, heard: seq<Event>)
    requires Silence(heard)
    ensures Silence(heard + [Expired])
    ensures Waits(socket, heard + [Expired]) == Waits(socket, heard).Wait().Increased()
  {
    assert (heard + [Expired])[..|heard|] == heard;
  }

  /** The clock after the events of a handshake: every expired receive doubles the timeout. */
  function Waits(socket: nat, events: seq<Event>): Timer {
    if events == [] then Timer(1, socket, 0)
    else
      var timer := Waits(socket, events[..|events| - 1]);
      if events[|events| - 1].Expired? then timer.Wait().Increased() else timer
  }

  /** One event more in the wait for ACK 0; what ends the wait stays the end. */
  lemma WelcomeMore(blksize: nat, socket: nat, events: seq<Event>, a: nat, b: nat)
    requires a <= b < |events|
    ensures var w, next := Welcome(blksize, events[a..b]), Welcome(blksize, events[a..b + 1]);
            && next == WelcomeStep(blksize, w, events[b])
            && (!next.Silent? ==> Welcome(blksize, events[a..]) == next)
    ensures var timer := Waits(socket, events[a..b]);
            Waits(socket, events[a..b + 1]) == if events[b].Expired? then timer.Wait().Increased() else timer
    ensures events[a..b] == events[a..][..b - a]
  {
    hide WelcomeStep;
    assert events[a..b + 1] == events[a..b] + [events[b]];
    assert events[a..][..b + 1 - a] == events[a..b + 1];
    if !Welcome(blksize, events[a..b + 1]).Silent? {
      WelcomeFrozen(blksize, events[a..], b + 1 - a);
    }
  }
}
