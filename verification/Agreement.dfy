/** What a normal end of one side says about the other, when transfers can
    complete, and the exact limits of both. */
module Agreement {
  import opened Bytes
  import opened FileReader
  import opened Packets
  import opened Udp
  import opened Sending
  import opened Receiving
  import opened Protocol

  /** The receiver has every block and has ended normally. */
  predicate Delivered(cfg: Config, st: State) {
    st.receiver.accepted == cfg.blocks && st.receiver.outcome.Done?
  }

  lemma DeliveredWhenAll(cfg: Config, st: State)
    requires cfg.Valid() && Inv(cfg, st)
    ensures Delivered(cfg, st) <==> Count(st) == |cfg.blocks|
    ensures Delivered(cfg, st) <==> st.receiver.outcome.Done?
  {
    assert cfg.blocks[..|cfg.blocks|] == cfg.blocks;
  }

  lemma Extend(cfg: Config, acts: seq<Action>, a: Action)
    requires cfg.Valid() && Legal(cfg, acts) && Enabled(cfg, Exec(cfg, acts), a)
    ensures Legal(cfg, acts + [a]) && Exec(cfg, acts + [a]) == Apply(cfg, Exec(cfg, acts), a)
  {
    assert (acts + [a])[..|acts|] == acts;
  }

  /** The delivery of a datagram that the other end has sent in the data phase. */
  predicate Delivers(st: State, a: Action) {
    a.event.Packet? && a.event.datagram in (if a.ToSender? then st.receiver.log else st.sender.log)
  }

  function BlockArrival(cfg: Config, r: nat): Action
    requires cfg.Valid() && r < |cfg.blocks|
  {
    ToReceiver(Packet(cfg.ForSender().DataPacket(r + 1)))
  }

  lemma SentBlock(cfg: Config, s: Sender, r: nat)
    requires cfg.Valid() && LogIs(cfg.ForSender(), s) && r < Emitted(s) && r < WIRE_NUMBERS - 1
    ensures cfg.ForSender().DataPacket(r + 1) in s.log
    ensures Parse(cfg.ForSender().DataPacket(r + 1), cfg.blksize) == Data(r + 1, cfg.blocks[r])
  {
    hide Parse, PrintData;
    assert s.log[r + 1 - 1] == cfg.ForSender().DataPacket(r + 1);
    ParsePrintData(r + 1, cfg.blocks[r], cfg.blksize);
    WireBelow(r + 1);
  }

  lemma AwaitedBlock(c: ReceiverConfig, r: Receiver, d: seq<byte>, payload: seq<byte>)
    requires r.outcome.Running? && Parse(d, c.blksize) == Data(|r.accepted| + 1, payload)
    ensures Respond(c, r, Packet(d)) == Accept(c, r, payload)
  {
  }

  /** A sent block that the receiver awaits can be delivered, and is accepted. */
  lemma BlockArrives(cfg: Config, st: State)
    requires cfg.Valid() && Sound(cfg.ForSender(), st.sender) && LogIs(cfg.ForSender(), st.sender)
    requires st.receiver.outcome.Running?
    requires Count(st) < Emitted(st.sender) && Count(st) < WIRE_NUMBERS - 1
    ensures var a := BlockArrival(cfg, Count(st));
            && Enabled(cfg, st, a) && Delivers(st, a)
            && Apply(cfg, st, a)
               == st.(receiver := Accept(cfg.ForReceiver(), st.receiver, cfg.blocks[Count(st)]))
  {
    var r := Count(st);
    SentBlock(cfg, st.sender, r);
    AwaitedBlock(cfg.ForReceiver(), st.receiver, cfg.ForSender().DataPacket(r + 1), cfg.blocks[r]);
  }

  /** A sent ACK that carries the sender's counter can be delivered, and moves it on. */
  lemma AckArrives(cfg: Config, st: State, d: seq<byte>)
    requires cfg.Valid() && Sound(cfg.ForSender(), st.sender) && st.sender.outcome.Running?
    requires d in st.receiver.log
    requires Parse(d, cfg.blksize) == Ack(cfg.ForSender().Counter(st.sender.block))
    ensures var a := ToSender(Packet(d));
            Enabled(cfg, st, a) && Apply(cfg, st, a) == st.(sender := Advance(cfg.ForSender(), st.sender))
  {
  }

  lemma DeliverBlock(cfg: Config, acts: seq<Action>) returns (acts': seq<Action>)
    requires cfg.Valid() && Legal(cfg, acts)
    requires var st := Exec(cfg, acts);
             st.receiver.outcome.Running? && Count(st) < Emitted(st.sender) && Count(st) < WIRE_NUMBERS - 1
    ensures |acts'| == |acts| + 1 && acts'[..|acts|] == acts && Legal(cfg, acts')
    ensures Delivers(Exec(cfg, acts), acts'[|acts|])
    ensures Count(Exec(cfg, acts)) < |cfg.blocks|
    ensures var st := Exec(cfg, acts);
            Exec(cfg, acts')
            == st.(receiver := Accept(cfg.ForReceiver(), st.receiver, cfg.blocks[Count(st)]))
  {
    AlwaysInv(cfg, acts);
    var st := Exec(cfg, acts);
    BlockArrives(cfg, st);
    var a := BlockArrival(cfg, Count(st));
    Extend(cfg, acts, a);
    acts' := acts + [a];
  }

  lemma DeliverAck(cfg: Config, acts: seq<Action>, d: seq<byte>) returns (acts': seq<Action>)
    requires cfg.Valid() && Legal(cfg, acts)
    requires var st := Exec(cfg, acts);
             && st.sender.outcome.Running? && d in st.receiver.log
             && Parse(d, cfg.blksize) == Ack(cfg.ForSender().Counter(st.sender.block))
    ensures |acts'| == |acts| + 1 && acts'[..|acts|] == acts && Legal(cfg, acts')
    ensures Delivers(Exec(cfg, acts), acts'[|acts|])
    ensures var st := Exec(cfg, acts);
            Exec(cfg, acts') == st.(sender := Advance(cfg.ForSender(), st.sender))
  {
    var a := ToSender(Packet(d));
    AckArrives(cfg, Exec(cfg, acts), d);
    Extend(cfg, acts, a);
    acts' := acts + [a];
  }

  lemma OwnAckSent(cfg: Config, st: State)
    requires ReceiverInv(cfg, st.receiver) && 1 <= st.sender.block <= Count(st) && st.sender.block < WIRE_NUMBERS
    ensures PrintAck(st.sender.block) in st.receiver.log
    ensures Parse(PrintAck(st.sender.block), cfg.blksize) == Ack(cfg.ForSender().Counter(st.sender.block))
  {
    ParsePrintAck(st.sender.block, cfg.blksize);
    WireBelow(st.sender.block);
  }

  /** The ACK of a received block, delivered to the sender that awaits it. */
  lemma DeliverOwnAck(cfg: Config, acts: seq<Action>) returns (acts': seq<Action>)
    requires cfg.Valid() && Legal(cfg, acts)
    requires var st := Exec(cfg, acts);
             && st.sender.outcome.Running? && st.sender.block <= Count(st)
             && st.sender.block < WIRE_NUMBERS
    ensures |acts'| == |acts| + 1 && acts'[..|acts|] == acts && Legal(cfg, acts')
    ensures Delivers(Exec(cfg, acts), acts'[|acts|])
    ensures var st := Exec(cfg, acts);
            Exec(cfg, acts') == st.(sender := Advance(cfg.ForSender(), st.sender))
  {
    AlwaysInv(cfg, acts);
    var st := Exec(cfg, acts);
    OwnAckSent(cfg, st);
    acts' := DeliverAck(cfg, acts, PrintAck(st.sender.block));
  }

  lemma AcceptedFrom(cfg: Config, st: State, a: Action)
    requires cfg.Valid() && Inv(cfg, st) && Enabled(cfg, st, a) && Count(Apply(cfg, st, a)) != Count(st)
    ensures a.ToReceiver? && Count(Apply(cfg, st, a)) == Count(st) + 1 && Count(st) < |cfg.blocks|
    ensures a.event == Packet(cfg.ForSender().DataPacket(Count(st) + 1))
  {
    hide Respond, Parse;
    AcceptsNextOnly(cfg.ForReceiver(), st.receiver, a.event);
    var i := ReceiverHears(cfg, st, a.event.datagram);
    NextBlock(cfg, st, i);
  }

  /** A block is accepted only from its own datagram, which is sent once and
      never again: a run in which that datagram is never delivered stays short
      of the block for good. */
  lemma {:induction false} NoBlockWithoutItsDatagram(cfg: Config, acts: seq<Action>, i: nat)
    requires cfg.Valid() && Legal(cfg, acts) && 1 <= i <= Count(Exec(cfg, acts)) && i <= |cfg.blocks|
    ensures Packet(cfg.ForSender().DataPacket(i)) in ReceiverEvents(acts)
  {
    hide Apply, React, Respond, Parse;
    var front, last := acts[..|acts| - 1], acts[|acts| - 1];
    var st := Exec(cfg, front);
    if i <= Count(st) {
      NoBlockWithoutItsDatagram(cfg, front, i);
    } else {
      AlwaysInv(cfg, front);
      AcceptedFrom(cfg, st, last);
    }
  }

  /** A run in which every datagram arrives, up to k acknowledged blocks. */
  lemma {:induction false} PerfectRun(cfg: Config, k: nat) returns (acts: seq<Action>)
    requires cfg.Valid() && k < |cfg.blocks| && k < WIRE_NUMBERS
    ensures Legal(cfg, acts)
    ensures var st := Exec(cfg, acts);
            && st.sender.outcome.Running? && st.sender.block == k + 1
            && st.receiver.outcome.Running? && Count(st) == k
  {
    if k == 0 {
      acts := [];
    } else {
      var shorter := PerfectRun(cfg, k - 1);
      acts := DeliverBlock(cfg, shorter);
      AlwaysInv(cfg, acts);
      acts := DeliverOwnAck(cfg, acts);
    }
  }

  /** A complete transfer of at most 65535 blocks. */
  lemma CompleteRun(cfg: Config) returns (acts: seq<Action>)
    requires cfg.Valid() && |cfg.blocks| < WIRE_NUMBERS
    ensures Legal(cfg, acts)
    ensures Delivered(cfg, Exec(cfg, acts)) && Exec(cfg, acts).sender.outcome.Done?
  {
    acts := PerfectRun(cfg, |cfg.blocks| - 1);
    acts := DeliverBlock(cfg, acts);
    AlwaysInv(cfg, acts);
    acts := DeliverOwnAck(cfg, acts);
    AlwaysInv(cfg, acts);
    DeliveredWhenAll(cfg, Exec(cfg, acts));
  }

  /** The size limit: some run delivers the content if and only if the content
      is shorter than 65535 full blocks. */
  lemma DeliverableExactly(cfg: Config, content: seq<byte>)
    requires cfg.Valid() && cfg.blocks == Chop(content, cfg.blksize)
    ensures (exists acts :: Legal(cfg, acts) && Delivered(cfg, Exec(cfg, acts)))
       <==> |content| < 65535 * cfg.blksize
  {
    ChopIsExact(content, cfg.blksize);
    BlocksAndBytes(|content|, cfg.blksize);
    if |cfg.blocks| < WIRE_NUMBERS {
      var acts := CompleteRun(cfg);
    } else {
      forall acts | Legal(cfg, acts)
        ensures !Delivered(cfg, Exec(cfg, acts))
      {
        AlwaysInv(cfg, acts);
      }
    }
  }

  lemma BlocksAndBytes(len: nat, n: nat)
    requires n > 0
    ensures len / n + 1 <= 65535 <==> len < 65535 * n
  {
    assert len == len / n * n + len % n;
    if len / n <= 65534 {
      TimesMonotone(len / n, 65534, n);
    } else {
      TimesMonotone(65535, len / n, n);
    }
  }

  /** The client's own success, for an upload: it implies delivery in every run
      if and only if the file has at most 65535 blocks or the handshake was by
      OACK. Otherwise stale ACKs carry the wrapped counter to the end. */
  ghost predicate SuccessMeansDelivered(cfg: Config)
    requires cfg.Valid()
  {
    forall acts :: Legal(cfg, acts) && Exec(cfg, acts).sender.outcome.Finished() ==>
                     Delivered(cfg, Exec(cfg, acts))
  }

  lemma {:induction false} StaleRun(cfg: Config, k: nat) returns (acts: seq<Action>)
    requires cfg.Valid() && cfg.direction.Upload? && cfg.HelloIsAck()
    requires WIRE_NUMBERS <= k <= |cfg.blocks|
    ensures Legal(cfg, acts)
    ensures var st := Exec(cfg, acts);
            && st.sender.outcome.Running? && st.sender.block == k && Count(st) == WIRE_NUMBERS - 1
    decreases k
  {
    if k == WIRE_NUMBERS {
      acts := PerfectRun(cfg, k - 1);
    } else {
      var shorter := StaleRun(cfg, k - 1);
      acts := StaleAck(cfg, shorter);
    }
  }

  /** Past the wrap every wire number has an ACK in the channel. */
  lemma StaleAck(cfg: Config, acts: seq<Action>) returns (acts': seq<Action>)
    requires cfg.Valid() && cfg.direction.Upload? && cfg.HelloIsAck() && Legal(cfg, acts)
    requires var st := Exec(cfg, acts);
             st.sender.outcome.Running? && Count(st) == WIRE_NUMBERS - 1
    ensures Legal(cfg, acts')
    ensures var st, st' := Exec(cfg, acts), Exec(cfg, acts');
            && st'.receiver == st.receiver && st'.sender.block == st.sender.block + 1
            && st'.sender.outcome == (if st.sender.block == |cfg.blocks| then Done else Running)
  {
    AlwaysInv(cfg, acts);
    var d := StaleAckSent(cfg, Exec(cfg, acts));
    acts' := DeliverAck(cfg, acts, d);
  }

  lemma StaleAckSent(cfg: Config, st: State) returns (d: seq<byte>)
    requires cfg.Valid() && cfg.direction.Upload? && cfg.HelloIsAck()
    requires ReceiverInv(cfg, st.receiver) && Count(st) == WIRE_NUMBERS - 1
    ensures d in st.receiver.log
    ensures Parse(d, cfg.blksize) == Ack(cfg.ForSender().Counter(st.sender.block))
  {
    var w := Wire(st.sender.block);
    if w == 0 {
      d := cfg.hello;
    } else {
      d := PrintAck(w);
      ParsePrintAck(w, cfg.blksize);
      WireBelow(w);
    }
  }

  lemma UploadAgreement(cfg: Config)
    requires cfg.Valid() && cfg.direction.Upload?
    ensures SuccessMeansDelivered(cfg) <==> |cfg.blocks| <= 65535 || !cfg.HelloIsAck()
  {
    if |cfg.blocks| <= 65535 || !cfg.HelloIsAck() {
      forall acts | Legal(cfg, acts) && Exec(cfg, acts).sender.outcome.Finished()
        ensures Delivered(cfg, Exec(cfg, acts))
      {
        AlwaysInv(cfg, acts);
        DeliveredWhenAll(cfg, Exec(cfg, acts));
      }
    } else {
      var acts := StaleRun(cfg, |cfg.blocks|);
      acts := StaleAck(cfg, acts);
      AlwaysInv(cfg, acts);
      assert Exec(cfg, acts).sender.outcome.Finished() && !Delivered(cfg, Exec(cfg, acts));
    }
  }

  /** The server's success, for a download: all blocks but perhaps the last
      arrived, and the last too when its ACK came back. */
  lemma DownloadAgreement(cfg: Config, acts: seq<Action>)
    requires cfg.Valid() && cfg.direction.Download? && Legal(cfg, acts)
    ensures var st := Exec(cfg, acts);
            && (st.sender.outcome.Finished() ==>
                  Count(st) >= |cfg.blocks| - 1 && |cfg.blocks| <= WIRE_NUMBERS)
            && (st.sender.outcome.Done? ==> Delivered(cfg, st))
  {
    AlwaysInv(cfg, acts);
    DeliveredWhenAll(cfg, Exec(cfg, acts));
  }

  /** n receives that expire, one after the other. */
  lemma {:induction false} ExpireRun(cfg: Config, acts: seq<Action>, n: nat) returns (acts': seq<Action>)
    requires cfg.Valid() && Legal(cfg, acts)
    requires var s := Exec(cfg, acts).sender;
             s.outcome.Running? && s.retries + n == MAX_RETRIES && s.block == |cfg.blocks|
    ensures Legal(cfg, acts')
    ensures var st, st' := Exec(cfg, acts), Exec(cfg, acts');
            && st'.receiver == st.receiver
            && st'.sender.outcome == (if cfg.direction.Download? then DoneUnacked else TimedOut)
    decreases n
  {
    Extend(cfg, acts, ToSender(Expired));
    acts' := acts + [ToSender(Expired)];
    if n > 1 {
      acts' := ExpireRun(cfg, acts', n - 1);
    }
  }

  /** A server's success implies delivery only for files that it can never send
      at all: for every shorter file a run loses the last block and still ends
      normally at the sender. */
  lemma DownloadSuccessIsWeaker(cfg: Config)
    requires cfg.Valid() && cfg.direction.Download?
    ensures SuccessMeansDelivered(cfg) <==> |cfg.blocks| > WIRE_NUMBERS
  {
    if |cfg.blocks| > WIRE_NUMBERS {
      forall acts | Legal(cfg, acts)
        ensures !Exec(cfg, acts).sender.outcome.Finished()
      {
        DownloadAgreement(cfg, acts);
      }
    } else {
      var acts := PerfectRun(cfg, |cfg.blocks| - 1);
      AlwaysInv(cfg, acts);
      acts := ExpireRun(cfg, acts, MAX_RETRIES - Exec(cfg, acts).sender.retries);
      assert Exec(cfg, acts).sender.outcome.Finished() && !Delivered(cfg, Exec(cfg, acts));
    }
  }

  /** A client's failure does not say that the server lacks the file: for every
      deliverable upload some run delivers everything, ends normally at the
      server, and times out at the client, because the last ACK is sent once. */
  lemma UploadMayFailDelivered(cfg: Config) returns (acts: seq<Action>)
    requires cfg.Valid() && cfg.direction.Upload? && |cfg.blocks| < WIRE_NUMBERS
    ensures Legal(cfg, acts)
    ensures Delivered(cfg, Exec(cfg, acts)) && Exec(cfg, acts).sender.outcome.TimedOut?
  {
    acts := PerfectRun(cfg, |cfg.blocks| - 1);
    acts := DeliverBlock(cfg, acts);
    AlwaysInv(cfg, acts);
    DeliveredWhenAll(cfg, Exec(cfg, acts));
    acts := ExpireRun(cfg, acts, MAX_RETRIES - Exec(cfg, acts).sender.retries);
  }

  /** No run takes a "future block number" abort in the receiver, and the
      sender's is reachable exactly for uploads of more than 65535 blocks, when
      the counter has wrapped and ACK 65535 comes again. */
  lemma FutureBlockExactly(cfg: Config)
    requires cfg.Valid()
    ensures forall acts :: Legal(cfg, acts) ==> !Exec(cfg, acts).receiver.outcome.FutureBlock?
    ensures (exists acts :: Legal(cfg, acts) && Exec(cfg, acts).sender.outcome.FutureBlock?)
       <==> cfg.direction.Upload? && |cfg.blocks| > 65535
  {
    forall acts | Legal(cfg, acts)
      ensures !Exec(cfg, acts).receiver.outcome.FutureBlock?
      ensures Exec(cfg, acts).sender.outcome.FutureBlock? ==> cfg.direction.Upload? && |cfg.blocks| > 65535
    {
      AlwaysInv(cfg, acts);
    }
    if cfg.direction.Upload? && |cfg.blocks| > 65535 {
      var acts := PerfectRun(cfg, 65535);
      AlwaysInv(cfg, acts);
      var d := PrintAck(65535);
      assert d in Exec(cfg, acts).receiver.log;
      ParsePrintAck(65535, cfg.blksize);
      Extend(cfg, acts, ToSender(Packet(d)));
      assert Exec(cfg, acts + [ToSender(Packet(d))]).sender.outcome.FutureBlock?;
    }
  }

  /** Neither end has given up. */
  predicate Alive(st: State) {
    && (st.sender.outcome.Running? || st.sender.outcome.Finished())
    && (st.receiver.outcome.Running? || st.receiver.outcome.Done?)
  }

  function Remaining(cfg: Config, st: State): int {
    (if st.sender.outcome.Running? then |cfg.blocks| + 1 - st.sender.block else 0)
    + |cfg.blocks| - Count(st)
  }

  /** No deadlock: from every state of every run in which neither end has given
      up, while work remains, delivering some datagram already sent leaves
      exactly one unit less. */
  lemma Progress(cfg: Config, acts: seq<Action>) returns (acts': seq<Action>)
    requires cfg.Valid() && |cfg.blocks| < WIRE_NUMBERS
    requires Legal(cfg, acts) && Alive(Exec(cfg, acts)) && Remaining(cfg, Exec(cfg, acts)) != 0
    ensures |acts'| == |acts| + 1 && acts'[..|acts|] == acts && Legal(cfg, acts')
    ensures Delivers(Exec(cfg, acts), acts'[|acts|])
    ensures Alive(Exec(cfg, acts'))
    ensures Remaining(cfg, Exec(cfg, acts')) == Remaining(cfg, Exec(cfg, acts)) - 1
  {
    AlwaysInv(cfg, acts);
    var st := Exec(cfg, acts);
    if st.sender.outcome.Running? && st.sender.block <= Count(st) {
      acts' := DeliverOwnAck(cfg, acts);
    } else {
      acts' := DeliverBlock(cfg, acts);
    }
  }

  /** Every run of at most 65535 blocks in which neither end has given up can be
      continued, by deliveries alone, to one that delivers everything and ends
      normally at both ends. */
  lemma {:induction false} AlwaysCompletable(cfg: Config, acts: seq<Action>) returns (acts': seq<Action>)
    requires cfg.Valid() && |cfg.blocks| < WIRE_NUMBERS
    requires Legal(cfg, acts) && Alive(Exec(cfg, acts))
    ensures Remaining(cfg, Exec(cfg, acts)) >= 0
    ensures |acts'| == |acts| + Remaining(cfg, Exec(cfg, acts)) && acts'[..|acts|] == acts
    ensures Legal(cfg, acts') && Delivered(cfg, Exec(cfg, acts'))
    ensures Exec(cfg, acts').sender.outcome.Finished()
    decreases Remaining(cfg, Exec(cfg, acts))
  {
    AlwaysInv(cfg, acts);
    if Remaining(cfg, Exec(cfg, acts)) == 0 {
      DeliveredWhenAll(cfg, Exec(cfg, acts));
      acts' := acts;
      assert acts[..|acts|] == acts;
    } else {
      var next := Progress(cfg, acts);
      acts' := AlwaysCompletable(cfg, next);
      assert acts'[..|acts|] == acts'[..|next|][..|acts|];
    }
  }
}
