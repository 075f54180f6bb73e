/** The two receiver loops, ClientHandler::FollowOnWRQ and the data loop of
    TftpClient::Read, as one machine. Every pass of the loop sends an ACK (or
    whatever answers the request, before the first block) and then receives. */
module Receiving {
  import opened Bytes
  import opened Packets
  import opened Udp
  import opened Sending

  /** hello is what the receiver sends while it waits for block 1. */
  datatype ReceiverConfig = ReceiverConfig(blksize: nat, hello: seq<byte>, socketTimeout: nat) {
    predicate Valid() {
      MIN_BLOCK_SIZE <= blksize <= MAX_BLOCK_SIZE && socketTimeout > 0
    }

    function Prompt(accepted: nat): seq<byte> {
      if accepted == 0 then hello else PrintAck(accepted)
    }
  }

  /** accepted lists the payloads given to the Writer. */
  datatype Receiver =
    Receiver(accepted: seq<seq<byte>>, retries: nat, outcome: Outcome, log: seq<seq<byte>>, timer: Timer)

  function Begin(c: ReceiverConfig): Receiver {
    Receiver([], 0, Running, [c.hello], Timer(1, c.socketTimeout, 0))
  }

  function Fail(r: Receiver, outcome: Outcome): Receiver {
    r.(outcome := outcome, log := r.log + [ERROR_PACKET])
  }

  /** A short payload ends the loop; the final ACK is sent all the same. */
  function Accept(c: ReceiverConfig, r: Receiver, payload: seq<byte>): Receiver {
    Receiver(r.accepted + [payload], 0, if |payload| < c.blksize then Done else Running,
             r.log + [PrintAck(|r.accepted| + 1)], r.timer.Reset())
  }

  function PromptAgain(c: ReceiverConfig, r: Receiver): Receiver {
    r.(log := r.log + [c.Prompt(|r.accepted|)])
  }

  function TryAgain(c: ReceiverConfig, r: Receiver): Receiver {
    var next := r.(retries := r.retries + 1, timer := r.timer.Increased());
    if next.retries < MAX_RETRIES then PromptAgain(c, next) else Fail(next, TimedOut)
  }

  /** The comparison with the next block number is made in int: it can reach
      65536, which no DATA packet carries. */
  function Respond(c: ReceiverConfig, r: Receiver, event: Event): Receiver {
    if !r.outcome.Running? then r
    else match event
         case Expired => TryAgain(c, r.(timer := r.timer.Wait()))
         case Packet(datagram) =>
           match Parse(datagram, c.blksize)
           case Data(number, payload) =>
             if number == |r.accepted| + 1 then Accept(c, r, payload)
             else if number < |r.accepted| + 1 then TryAgain(c, r)
             else Fail(r, FutureBlock)
           case Error => r.(outcome := PeerError)
           case BadOpcode => Fail(r, Malformed)
           case BadData => Fail(r, Malformed)
           case BadError => Fail(r, Malformed)
           case _ => PromptAgain(c, r)
  }

  function Hear(c: ReceiverConfig, events: seq<Event>): Receiver {
    if events == [] then Begin(c)
    else Respond(c, Hear(c, events[..|events| - 1]), events[|events| - 1])
  }

  lemma HearStep(c: ReceiverConfig, events: seq<Event>, k: nat)
    requires k < |events|
    ensures Hear(c, events[..k + 1]) == Respond(c, Hear(c, events[..k]), events[k])
  {
    assert events[..k + 1][..k] == events[..k];
  }

  lemma {:induction false} HearFrozen(c: ReceiverConfig, events: seq<Event>, k: nat)
    requires k <= |events| && !Hear(c, events[..k]).outcome.Running?
    ensures Hear(c, events) == Hear(c, events[..k])
    decreases |events| - k
  {
    if k < |events| {
      HearStep(c, events, k);
      HearFrozen(c, events, k + 1);
    } else {
      assert events[..k] == events;
    }
  }

  /** What was accepted stays accepted. */
  lemma {:induction false} HearGrows(c: ReceiverConfig, events: seq<Event>, k: nat)
    requires k <= |events|
    ensures Hear(c, events[..k]).accepted <= Hear(c, events).accepted
    decreases |events|
  {
    if k == |events| {
      assert events[..k] == events;
    } else {
      hide Respond;
      var n := |events| - 1;
      HearGrows(c, events[..n], k);
      assert events[..n][..k] == events[..k];
      AcceptsNextOnly(c, Hear(c, events[..n]), events[n]);
    }
  }

  /** All blocks full while the loop runs; the last one short once it is done. */
  predicate BlockSizes(accepted: seq<seq<byte>>, outcome: Outcome, blksize: nat) {
    && |accepted| < WIRE_NUMBERS
    && !outcome.DoneUnacked?
    && (forall k :: 0 <= k < |accepted| - 1 ==> |accepted[k]| == blksize)
    && (outcome.Done? ==> accepted != [])
    && (accepted != [] ==>
          if outcome.Done? then |accepted[|accepted| - 1]| < blksize
          else |accepted[|accepted| - 1]| == blksize)
  }

  /** The accepted payloads are those of the DATA packets that came in at the
      positions at, in that order, numbered 1, 2, ... */
  ghost predicate TakenFrom(accepted: seq<seq<byte>>, at: seq<nat>, events: seq<Event>, blksize: nat) {
    && |at| == |accepted|
    && (forall k :: 0 <= k < |at| ==> at[k] < |events|)
    && (forall j, k :: 0 <= j < k < |at| ==> at[j] < at[k])
    && (forall k :: 0 <= k < |at| ==>
                      events[at[k]].Packet? && Parse(events[at[k]].datagram, blksize) == Data(k + 1, accepted[k]))
  }

  /** The accepted list changes only by the next numbered DATA packet. */
  lemma AcceptsNextOnly(c: ReceiverConfig, r: Receiver, event: Event)
    ensures var next := Respond(c, r, event);
            || next.accepted == r.accepted
            || (event.Packet? && r.outcome.Running? && next.accepted != []
                && next.accepted[..|next.accepted| - 1] == r.accepted
                && Parse(event.datagram, c.blksize)
                   == Data(|r.accepted| + 1, next.accepted[|next.accepted| - 1]))
  {
  }

  /** What a step of a running receiver can be: the next block, or the same
      blocks and no normal end. */
  lemma RespondEffect(c: ReceiverConfig, r: Receiver, event: Event)
    requires r.outcome.Running? && r.retries < MAX_RETRIES
    ensures var next := Respond(c, r, event);
            || (event.Packet? && Parse(event.datagram, c.blksize).Data?
                && Parse(event.datagram, c.blksize).number == |r.accepted| + 1
                && next == Accept(c, r, Parse(event.datagram, c.blksize).payload))
            || (next.accepted == r.accepted && !next.outcome.Finished()
                && (next.outcome.Running? ==> next.retries < MAX_RETRIES)
                && (next.outcome.Malformed? ==>
                      event.Packet? && Parse(event.datagram, c.blksize) in {BadOpcode, BadData, BadError})
                && (next.outcome.FutureBlock? ==>
                      event.Packet? && Parse(event.datagram, c.blksize).Data?
                      && Parse(event.datagram, c.blksize).number > |r.accepted| + 1))
  {
  }

  lemma RespondKeepsSizes(c: ReceiverConfig, r: Receiver, event: Event)
    requires BlockSizes(r.accepted, r.outcome, c.blksize)
    ensures BlockSizes(Respond(c, r, event).accepted, Respond(c, r, event).outcome, c.blksize)
  {
    if event.Packet? {
      ParseIsBounded(event.datagram, c.blksize);
    }
  }

  lemma {:induction false} SizesHold(c: ReceiverConfig, events: seq<Event>)
    ensures BlockSizes(Hear(c, events).accepted, Hear(c, events).outcome, c.blksize)
  {
    if events != [] {
      SizesHold(c, events[..|events| - 1]);
      RespondKeepsSizes(c, Hear(c, events[..|events| - 1]), events[|events| - 1]);
    }
  }

  lemma TakenFromLonger(accepted: seq<seq<byte>>, at: seq<nat>, events: seq<Event>, n: nat, blksize: nat)
    requires n <= |events| && TakenFrom(accepted, at, events[..n], blksize)
    ensures TakenFrom(accepted, at, events, blksize) && forall k :: 0 <= k < |at| ==> at[k] < n
  {
    forall k | 0 <= k < |at|
      ensures events[at[k]].Packet? && Parse(events[at[k]].datagram, blksize) == Data(k + 1, accepted[k])
    {
      assert events[..n][at[k]] == events[at[k]];
    }
  }

  lemma TakenFromNext(accepted: seq<seq<byte>>, at: seq<nat>, events: seq<Event>, n: nat,
                      longer: seq<seq<byte>>, blksize: nat)
    requires n < |events| && TakenFrom(accepted, at, events, blksize)
    requires forall k :: 0 <= k < |at| ==> at[k] < n
    requires longer != [] && longer[..|longer| - 1] == accepted && events[n].Packet?
    requires Parse(events[n].datagram, blksize) == Data(|longer|, longer[|longer| - 1])
    ensures TakenFrom(longer, at + [n], events, blksize)
  {
    var at' := at + [n];
    forall k | 0 <= k < |at'|
      ensures events[at'[k]].Packet? && Parse(events[at'[k]].datagram, blksize) == Data(k + 1, longer[k])
    {
      if k < |at| {
        assert accepted[k] == longer[k];
      }
    }
  }

  /** Soundness against any peer: whatever arrives, what is written are the
      payloads of DATA packets numbered exactly 1, 2, ..., r, in order of
      arrival, all full-sized but a short one that ends the transfer, and r is
      at most 65535. */
  lemma {:induction false} ReceiverSoundness(c: ReceiverConfig, events: seq<Event>) returns (at: seq<nat>)
    ensures TakenFrom(Hear(c, events).accepted, at, events, c.blksize)
    ensures BlockSizes(Hear(c, events).accepted, Hear(c, events).outcome, c.blksize)
  {
    SizesHold(c, events);
    if events == [] {
      at := [];
    } else {
      var n := |events| - 1;
      var before, after := Hear(c, events[..n]).accepted, Hear(c, events).accepted;
      AcceptsNextOnly(c, Hear(c, events[..n]), events[n]);
      at := ReceiverSoundness(c, events[..n]);
      TakenFromLonger(before, at, events, n, c.blksize);
      if after != before {
        TakenFromNext(before, at, events, n, after, c.blksize);
        at := at + [n];
      }
    }
  }

  lemma {:induction false} FlattenSize(blocks: seq<seq<byte>>, n: nat)
    requires forall i :: 0 <= i < |blocks| ==> |blocks[i]| == n
    ensures |Flatten(blocks)| == |blocks| * n
  {
    if blocks != [] {
      FlattenSize(blocks[..|blocks| - 1], n);
      assert (|blocks| - 1) * n + n == |blocks| * n;
    }
  }

  lemma FlattenSizeBound(blocks: seq<seq<byte>>, n: nat)
    requires blocks != [] && |blocks[|blocks| - 1]| < n
    requires forall i :: 0 <= i < |blocks| - 1 ==> |blocks[i]| == n
    ensures (|blocks| - 1) * n <= |Flatten(blocks)| < |blocks| * n
  {
    FlattenSize(blocks[..|blocks| - 1], n);
    assert (|blocks| - 1) * n + n == |blocks| * n;
  }

  lemma TimesMonotone(a: nat, b: nat, n: nat)
    requires a <= b
    ensures a * n <= b * n
  {
  }

  /** A transfer that ends normally has at most 65535*blksize - 1 bytes, r-1
      full blocks and a short one. */
  lemma ReceivedSize(c: ReceiverConfig, events: seq<Event>)
    requires Hear(c, events).outcome.Done?
    ensures var accepted := Hear(c, events).accepted;
            && (|accepted| - 1) * c.blksize <= |Flatten(accepted)| < |accepted| * c.blksize
            && |Flatten(accepted)| <= 65535 * c.blksize - 1
  {
    SizesHold(c, events);
    var accepted := Hear(c, events).accepted;
    FlattenSizeBound(accepted, c.blksize);
    TimesMonotone(|accepted|, 65535, c.blksize);
  }

  predicate AckOf(n: nat, d: seq<byte>) {
    exists k :: 1 <= k <= n && d == PrintAck(k)
  }

  /** What a receiver of n blocks may have sent. */
  predicate Spoken(c: ReceiverConfig, n: nat, reported: bool, d: seq<byte>) {
    d == c.hello || (reported && d == ERROR_PACKET) || AckOf(n, d)
  }

  /** Only hello, ACKs of accepted blocks and the ERROR packet of an abort go
      out, and every accepted block is acknowledged. */
  predicate Acknowledges(c: ReceiverConfig, r: Receiver) {
    && c.hello in r.log
    && (forall d :: d in r.log ==> Spoken(c, |r.accepted|, r.outcome.Reported(), d))
    && (forall k :: 1 <= k <= |r.accepted| ==> PrintAck(k) in r.log)
  }

  /** A step sends at most one datagram. */
  lemma RespondSends(c: ReceiverConfig, r: Receiver, event: Event)
    requires r.outcome.Running?
    ensures var next := Respond(c, r, event);
            || (next.log == r.log && next.accepted == r.accepted)
            || (next.log == r.log + [ERROR_PACKET] && next.accepted == r.accepted && next.outcome.Reported())
            || (next.log == r.log + [c.Prompt(|r.accepted|)] && next.accepted == r.accepted)
            || (next.log == r.log + [PrintAck(|r.accepted| + 1)] && |next.accepted| == |r.accepted| + 1)
  {
  }

  lemma RespondAcknowledges(c: ReceiverConfig, r: Receiver, event: Event)
    requires Acknowledges(c, r)
    ensures Acknowledges(c, Respond(c, r, event))
  {
    if r.outcome.Running? {
      hide Respond, PrintAck;
      RespondSends(c, r, event);
      var next := Respond(c, r, event);
      assert forall d :: d in r.log ==> d in next.log;
      forall d | d in next.log
        ensures Spoken(c, |next.accepted|, next.outcome.Reported(), d)
      {
        if d in r.log {
          assert Spoken(c, |r.accepted|, false, d);
        } else {
          assert d == next.log[|r.log|];
        }
      }
    }
  }

  lemma {:induction false} AcknowledgesAccepted(c: ReceiverConfig, events: seq<Event>)
    ensures Acknowledges(c, Hear(c, events))
  {
    if events != [] {
      AcknowledgesAccepted(c, events[..|events| - 1]);
      RespondAcknowledges(c, Hear(c, events[..|events| - 1]), events[|events| - 1]);
    }
  }

  /** Packets a receiver loop does not count as retries. */
  predicate Skipped(event: Event, blksize: nat) {
    event.Packet? && match Parse(event.datagram, blksize)
                     case Ack(_) => true
                     case BadAck => true
                     case Other => true
                     case _ => false
  }

  /** Events that bring a wait nearer to its end: a receive that expires, or a
      block that came before. */
  predicate Old(c: ReceiverConfig, accepted: nat, event: Event) {
    event.Packet? ==> var m := Parse(event.datagram, c.blksize); m.Data? && m.number <= accepted
  }

  /** What each event is to a wait: nothing, one retry, the next block, or an
      error, which is reported unless the peer did; what the receiver awaits the
      next block with is sent again unless that block came or the loop ended. */
  lemma RespondExactly(c: ReceiverConfig, r: Receiver, event: Event)
    requires r.outcome.Running? && r.retries < MAX_RETRIES
    ensures var next, n := Respond(c, r, event), |r.accepted|;
            var m := if event.Packet? then Parse(event.datagram, c.blksize) else Other;
            && (next == PromptAgain(c, r) <==> Skipped(event, c.blksize))
            && (next.retries == r.retries + 1 <==> Old(c, n, event))
            && (next.accepted != r.accepted <==> m.Data? && m.number == n + 1)
            && (next.accepted != r.accepted ==> next.accepted == r.accepted + [m.payload])
            && (next.outcome.FutureBlock? <==> m.Data? && m.number > n + 1)
            && (next.outcome.PeerError? <==> m.Error?)
            && (next.outcome.Malformed? <==> m.BadOpcode? || m.BadData? || m.BadError?)
            && next.log == r.log + (if next.outcome.Reported() then [ERROR_PACKET]
                                    else if next.outcome.PeerError? then []
                                    else [c.Prompt(|next.accepted|)])
  {
    hide PrintAck;
    assert r.log + [] == r.log;
  }

  /** A wait lives through four such events and ends with the fifth. */
  lemma FifthArrivalEnds(c: ReceiverConfig, r: Receiver, event: Event)
    requires r.outcome.Running? && Old(c, |r.accepted|, event)
    ensures var next := Respond(c, r, event);
            && next.accepted == r.accepted && next.retries == r.retries + 1
            && next.outcome == (if r.retries < 4 then Running else TimedOut)
  {
  }

  predicate Barren(c: ReceiverConfig, accepted: nat, events: seq<Event>) {
    forall i :: 0 <= i < |events| ==> Skipped(events[i], c.blksize) || Old(c, accepted, events[i])
  }

  lemma SkippedIsNotOld(c: ReceiverConfig, r: Receiver, event: Event)
    ensures !(Skipped(event, c.blksize) && Old(c, |r.accepted|, event))
    ensures r.outcome.Running? && Skipped(event, c.blksize) ==> Respond(c, r, event) == PromptAgain(c, r)
    ensures !r.outcome.Running? ==> Respond(c, r, event) == r
  {
  }

  /** The retry bound, over whole runs: a wait in which nothing else comes goes
      on through four expired receives or old blocks, in any order and with any
      packets to be ignored between them, and gives up at the fifth. */
  lemma {:induction false} ReceiverWaitExactly(c: ReceiverConfig, before: seq<Event>, wait: seq<Event>)
    requires Hear(c, before).outcome.Running? && Hear(c, before).retries == 0
    requires Barren(c, |Hear(c, before).accepted|, wait)
    ensures var r, n := Hear(c, before + wait), CountedArrivals(wait, c.blksize);
            && r.accepted == Hear(c, before).accepted
            && (n < 5 ==> r.outcome.Running? && r.retries == n)
            && (n >= 5 ==> r.outcome.TimedOut?)
    decreases |wait|
  {
    if wait == [] {
      assert before + wait == before;
    } else {
      hide Respond, Parse, Skipped, Old;
      var front, last := wait[..|wait| - 1], wait[|wait| - 1];
      ReceiverWaitExactly(c, before, front);
      assert (before + wait)[..|before + wait| - 1] == before + front;
      var r := Hear(c, before + front);
      SkippedIsNotOld(c, r, last);
      if r.outcome.Running? && Old(c, |r.accepted|, last) {
        FifthArrivalEnds(c, r, last);
      }
    }
  }

  function CountedArrivals(events: seq<Event>, blksize: nat): nat {
    if events == [] then 0
    else CountedArrivals(events[..|events| - 1], blksize)
         + (if Skipped(events[|events| - 1], blksize) then 0 else 1)
  }

  lemma {:induction false} CountedWhileHearing(c: ReceiverConfig, events: seq<Event>)
    requires c.Valid() && Hear(c, events).outcome.Running?
    ensures Hear(c, events).retries < MAX_RETRIES
    ensures CountedArrivals(events, c.blksize) <= 5 * |Hear(c, events).accepted| + Hear(c, events).retries
  {
    if events != [] {
      CountedWhileHearing(c, events[..|events| - 1]);
    }
  }

  /** Whatever arrives, a receiver has ended after 5*65536 counted events. */
  lemma ReceiverTerminates(c: ReceiverConfig, events: seq<Event>)
    requires c.Valid() && CountedArrivals(events, c.blksize) >= 5 * 65536
    ensures !Hear(c, events).outcome.Running?
  {
    var at := ReceiverSoundness(c, events);
    if Hear(c, events).outcome.Running? {
      CountedWhileHearing(c, events);
    }
  }

  predicate ReceiverBackedOff(c: ReceiverConfig, r: Receiver) {
    && (r.outcome.Running? ==>
          && r.retries < MAX_RETRIES
          && BackedOff(r.timer, |r.accepted| + 1, r.retries, c.socketTimeout))
    && r.timer.waited <= 31 * (|r.accepted| + (if r.outcome.Done? then 0 else 1)) + c.socketTimeout - 1
  }

  /** What an event does to the clock. */
  lemma RespondClock(c: ReceiverConfig, r: Receiver, event: Event)
    requires r.outcome.Running?
    ensures var next := Respond(c, r, event);
            || (next.timer == r.timer && next.retries == r.retries && next.accepted == r.accepted
                && !next.outcome.Done?)
            || (next.timer in {r.timer.Increased(), r.timer.Wait().Increased()} && next.retries == r.retries + 1
                && next.accepted == r.accepted && !next.outcome.Done?
                && (next.outcome.Running? ==> next.retries < MAX_RETRIES))
            || (next.timer == r.timer.Reset() && next.retries == 0 && |next.accepted| == |r.accepted| + 1)
  {
  }

  lemma RespondBacksOff(c: ReceiverConfig, r: Receiver, event: Event)
    requires c.Valid() && ReceiverBackedOff(c, r)
    ensures ReceiverBackedOff(c, Respond(c, r, event))
  {
    hide Parse, Pow2;
    if r.outcome.Running? {
      hide Respond;
      RespondClock(c, r, event);
      BackOffSteps(r.timer, |r.accepted| + 1, r.retries, c.socketTimeout);
    }
  }

  /** The receiver's back-off, per block as the sender's. */
  lemma {:induction false} ReceiverBacksOff(c: ReceiverConfig, events: seq<Event>)
    requires c.Valid()
    ensures ReceiverBackedOff(c, Hear(c, events))
  {
    if events != [] {
      ReceiverBacksOff(c, events[..|events| - 1]);
      RespondBacksOff(c, Hear(c, events[..|events| - 1]), events[|events| - 1]);
    }
  }
}
