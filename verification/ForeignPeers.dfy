/** A receiver of this program, Read or FollowOnWRQ, with a peer that is not:
    servers that ignore options, clients that send netascii. All that is known
    of the peer is the DATA packets it sends. */
module ForeignPeers {
  import opened Bytes
  import opened Netascii
  import opened FileReader
  import opened FileWriter
  import opened NetasciiBlocks
  import opened Packets
  import opened Udp
  import opened Sending
  import opened Receiving
  import opened Agreement

  predicate IsBlock(blocks: seq<seq<byte>>, m: nat, d: seq<byte>) {
    1 <= m <= |blocks| && d == PrintData(m, blocks[m - 1])
  }

  /** The DATA packets that arrive carry these blocks, in any order, any number of times. */
  ghost predicate Serves(blocks: seq<seq<byte>>, blksize: nat, events: seq<Event>) {
    forall i :: 0 <= i < |events| && events[i].Packet? && Parse(events[i].datagram, blksize).Data? ==>
                  exists m :: IsBlock(blocks, m, events[i].datagram)
  }

  function Cut(block: seq<byte>, blksize: nat): seq<byte> {
    if |block| > blksize then block[..blksize] else block
  }

  /** Every accepted payload is that of a block with the right number, cut to the block size. */
  lemma AcceptedBlock(c: ReceiverConfig, blocks: seq<seq<byte>>, events: seq<Event>, k: nat) returns (m: nat)
    requires c.Valid() && Serves(blocks, c.blksize, events) && k < |Hear(c, events).accepted|
    requires forall i :: 0 <= i < |blocks| ==> |blocks[i]| <= MAX_BLOCK_SIZE
    ensures k + 1 <= m <= |blocks| && Wire(m) == k + 1
    ensures Hear(c, events).accepted[k] == Cut(blocks[m - 1], c.blksize)
  {
    hide Parse, PrintData, Hear;
    var at := ReceiverSoundness(c, events);
    var d := events[at[k]].datagram;
    m :| IsBlock(blocks, m, d);
    ParseCutsData(m, blocks[m - 1], c.blksize);
  }

  /** With at most 65535 blocks of the receiver's own size, what is accepted are
      those blocks in order, all of them exactly when the transfer ends normally. */
  lemma ServedInOrder(c: ReceiverConfig, blocks: seq<seq<byte>>, events: seq<Event>)
    requires c.Valid() && WellChopped(blocks, c.blksize) && |blocks| < WIRE_NUMBERS
    requires Serves(blocks, c.blksize, events)
    ensures var r := Hear(c, events);
            && |r.accepted| <= |blocks| && r.accepted == blocks[..|r.accepted|]
            && (r.outcome.Done? <==> |r.accepted| == |blocks|)
  {
    hide Hear, Serves;
    SizesHold(c, events);
    var r := Hear(c, events);
    forall k | 0 <= k < |r.accepted|
      ensures k < |blocks| && r.accepted[k] == blocks[k]
    {
      var m := AcceptedBlock(c, blocks, events, k);
      WireBelow(m);
    }
    if r.accepted != [] {
      var m := AcceptedBlock(c, blocks, events, |r.accepted| - 1);
    }
  }

  /** An upload in netascii by a client that sends Encode(source) in full blocks
      and a short one, once it has ended normally. */
  lemma NetasciiUpload(c: ReceiverConfig, source: seq<byte>, events: seq<Event>)
    requires c.Valid() && |Chop(Encode(source), c.blksize)| < WIRE_NUMBERS
    requires Serves(Chop(Encode(source), c.blksize), c.blksize, events) && Hear(c, events).outcome.Done?
    ensures var accepted := Hear(c, events).accepted;
            && (Writable(NETASCII, accepted) <==> |Encode(source)| % c.blksize != 0 || EndsInCr(source))
            && (Writable(NETASCII, accepted) ==>
                  (WriteAll(NETASCII, accepted).Flushed() == Collapse(source)
                   <==> !CutBehindCrNul(Chop(Encode(source), c.blksize))))
  {
    hide Hear, Serves, Encode, Collapse, CutBehindCrNul;
    var t := Encode(source);
    ChopIsExact(t, c.blksize);
    ServedInOrder(c, Chop(t, c.blksize), events);
    assert Hear(c, events).accepted == Chop(t, c.blksize);
    EncodingInBlocks(source, c.blksize);
  }

  /** The client ends normally with the content, from DATA packets of 512-byte
      blocks, although it may have asked for another size. */
  ghost predicate Fetches(c: ReceiverConfig, content: seq<byte>, events: seq<Event>) {
    && Serves(Chop(content, 512), c.blksize, events)
    && Hear(c, events).outcome.Done? && Flatten(Hear(c, events).accepted) == content
  }

  /** The packets of a file's blocks, one after the other. */
  function InOrder(blocks: seq<seq<byte>>): (events: seq<Event>)
    ensures |events| == |blocks|
    ensures forall i :: 0 <= i < |blocks| ==> events[i] == Packet(PrintData(i + 1, blocks[i]))
  {
    seq(|blocks|, i requires 0 <= i < |blocks| => Packet(PrintData(i + 1, blocks[i])))
  }

  lemma InOrderServes(blocks: seq<seq<byte>>, blksize: nat, events: seq<Event>)
    requires events <= InOrder(blocks)
    ensures Serves(blocks, blksize, events)
  {
    hide Parse, PrintData;
    forall i | 0 <= i < |events|
      ensures IsBlock(blocks, i + 1, events[i].datagram)
    {
      assert events[i] == InOrder(blocks)[i];
    }
  }

  /** The next block in order is accepted. */
  lemma NextHeard(c: ReceiverConfig, blocks: seq<seq<byte>>, k: nat)
    requires c.Valid() && k < |blocks| && k + 1 < WIRE_NUMBERS && |blocks[k]| <= c.blksize
    requires var r := Hear(c, InOrder(blocks)[..k]); r.outcome.Running? && |r.accepted| == k
    ensures Hear(c, InOrder(blocks)[..k + 1]) == Accept(c, Hear(c, InOrder(blocks)[..k]), blocks[k])
  {
    hide Parse, PrintData, Hear, Respond, Accept;
    HearStep(c, InOrder(blocks), k);
    ParsePrintData(k + 1, blocks[k], c.blksize);
    WireBelow(k + 1);
    AwaitedBlock(c, Hear(c, InOrder(blocks)[..k]), PrintData(k + 1, blocks[k]), blocks[k]);
  }

  lemma NoneHeard(c: ReceiverConfig, blocks: seq<seq<byte>>)
    ensures Hear(c, InOrder(blocks)[..0]) == Begin(c)
  {
    assert InOrder(blocks)[..0] == [];
  }

  lemma {:induction false} InOrderHeard(c: ReceiverConfig, blocks: seq<seq<byte>>, k: nat)
    requires c.Valid() && WellChopped(blocks, c.blksize) && k <= |blocks| < WIRE_NUMBERS
    ensures var r := Hear(c, InOrder(blocks)[..k]);
            r.accepted == blocks[..k] && r.outcome == (if k == |blocks| then Done else Running)
  {
    hide InOrder, Hear;
    if k == 0 {
      NoneHeard(c, blocks);
    } else {
      InOrderHeard(c, blocks, k - 1);
      NextHeard(c, blocks, k - 1);
      assert blocks[..k] == blocks[..k - 1] + [blocks[k - 1]];
    }
  }

  lemma FirstOfChop(content: seq<byte>, n: nat)
    requires n > 0 && |content| <= n
    ensures Chop(content, n)[0] == content
  {
    assert content[..|content|] == content;
  }

  /** A short first block, heard first, ends the transfer. */
  lemma ShortFirst(c: ReceiverConfig, blocks: seq<seq<byte>>)
    requires c.Valid() && blocks != [] && |blocks[0]| < c.blksize
    ensures var r := Hear(c, InOrder(blocks)[..1]);
            r.outcome.Done? && Flatten(r.accepted) == blocks[0]
  {
    hide InOrder, Hear;
    NoneHeard(c, blocks);
    NextHeard(c, blocks, 0);
    assert Begin(c).accepted + [blocks[0]] == [blocks[0]];
    FlattenSingle(blocks[0]);
  }

  lemma LongerBlocks(a: nat, n: nat, m: nat)
    requires n < m && a > 0
    ensures a * n < a * m
  {
  }

  lemma ChopSize(content: seq<byte>, n: nat)
    requires n > 0
    ensures var blocks := Chop(content, n);
            |content| == (|blocks| - 1) * n + |blocks[|blocks| - 1]|
  {
    var blocks := Chop(content, n);
    ChopIsExact(content, n);
    FlattenSize(blocks[..|blocks| - 1], n);
  }

  /** A client that asked for fewer than 512 bytes loses the end of every full
      block, so it has the file only if the first block is short for it too. */
  lemma FewerAsked(c: ReceiverConfig, content: seq<byte>, events: seq<Event>)
    requires c.Valid() && c.blksize < 512 && Fetches(c, content, events)
    ensures |content| < c.blksize
  {
    hide Parse, Hear, Serves, Chop;
    var blocks, accepted := Chop(content, 512), Hear(c, events).accepted;
    ChopIsExact(content, 512);
    SizesHold(c, events);
    var r := |accepted|;
    var m := AcceptedBlock(c, blocks, events, r - 1);
    ChopSize(content, 512);
    FlattenSize(accepted[..r - 1], c.blksize);
    assert m == |blocks| && accepted[r - 1] == blocks[m - 1];
    TimesMonotone(r - 1, m - 1, 512);
    if r > 1 {
      LongerBlocks(r - 1, c.blksize, 512);
    }
  }

  /** One that asked for more takes the first block for the last. */
  lemma MoreAsked(c: ReceiverConfig, content: seq<byte>, events: seq<Event>)
    requires c.Valid() && c.blksize > 512 && Fetches(c, content, events)
    ensures |content| <= 512
  {
    hide Parse, Hear, Serves, Chop;
    var blocks, accepted := Chop(content, 512), Hear(c, events).accepted;
    ChopIsExact(content, 512);
    SizesHold(c, events);
    var m := AcceptedBlock(c, blocks, events, 0);
    assert accepted == [accepted[0]];
    FlattenSingle(accepted[0]);
  }

  /** From a server that ignores options and sends 512-byte blocks, a client
      that asked for 512 bytes can have every file below 65535 full blocks; any
      other has the file only if that fits in one block, short by its own
      measure, of either size. */
  lemma IgnoredOptionsExactly(c: ReceiverConfig, content: seq<byte>)
    requires c.Valid()
    ensures (exists events :: Fetches(c, content, events))
       <==> if c.blksize == 512 then |content| < 65535 * 512 else |content| < c.blksize && |content| <= 512
  {
    hide Hear, Serves, Chop;
    var blocks := Chop(content, 512);
    ChopIsExact(content, 512);
    forall events | Fetches(c, content, events)
      ensures if c.blksize == 512 then |content| < 65535 * 512 else |content| < c.blksize && |content| <= 512
    {
      if c.blksize < 512 {
        FewerAsked(c, content, events);
      } else if c.blksize > 512 {
        MoreAsked(c, content, events);
      } else {
        ReceivedSize(c, events);
      }
    }
    if c.blksize == 512 && |content| < 65535 * 512 {
      BlocksAndBytes(|content|, 512);
      InOrderHeard(c, blocks, |blocks|);
      assert blocks[..|blocks|] == blocks;
      InOrderServes(blocks, c.blksize, InOrder(blocks)[..|blocks|]);
      assert Fetches(c, content, InOrder(blocks)[..|blocks|]);
    } else if c.blksize != 512 && |content| < c.blksize && |content| <= 512 {
      FirstOfChop(content, 512);
      ShortFirst(c, blocks);
      InOrderServes(blocks, c.blksize, InOrder(blocks)[..1]);
      assert Fetches(c, content, InOrder(blocks)[..1]);
    }
  }
}
