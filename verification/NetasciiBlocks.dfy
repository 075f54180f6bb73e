/** What the Writer makes of a netascii stream that comes in the blocks of a
    transfer: full ones and a short one. */
module NetasciiBlocks {
  import opened Bytes
  import opened Netascii
  import opened FileReader
  import opened FileWriter

  /** A block ends in CR NUL, and the next begins with LF or NUL. */
  predicate CutBehindCrNul(blocks: seq<seq<byte>>) {
    exists k :: 0 <= k < |blocks| - 1 && EndsInCrNul(blocks[k]) && Completes(blocks[k + 1])
  }

  /** Only the last block of a file can be empty: it is when the block size divides the length. */
  lemma EmptyBlocks(content: seq<byte>, n: nat)
    requires n > 0
    ensures var blocks := Chop(content, n);
            forall k :: 0 <= k < |blocks| ==>
                          (blocks[k] == [] <==> k == |blocks| - 1 && |content| % n == 0)
    ensures |content| % n == 0 ==> Flatten(Chop(content, n)[..|Chop(content, n)| - 1]) == content
  {
    var blocks := Chop(content, n);
    ChopIsExact(content, n);
    var last := |blocks| - 1;
    ChopPrefix(content, n, last);
    QuotientRemainder(content, n);
    assert Flatten(blocks) == Flatten(blocks[..last]) + blocks[last];
  }

  lemma QuotientRemainder(content: seq<byte>, n: nat)
    requires n > 0
    ensures |content| == |content| / n * n + |content| % n
  {
  }

  lemma EndOfLonger(seen: seq<byte>, chunk: seq<byte>)
    requires |chunk| >= 2
    ensures EndsInCr(seen + chunk) == EndsInCr(chunk) && EndsInCrNul(seen + chunk) == EndsInCrNul(chunk)
  {
    var s := seen + chunk;
    assert s[|s| - 1] == chunk[|chunk| - 1] && s[|s| - 2] == chunk[|chunk| - 2];
  }

  /** After a chunk of two bytes or more, what is held back shows in the stream. */
  lemma LongChunkHolds(chunks: seq<seq<byte>>)
    requires Writable(NETASCII, chunks) && chunks != [] && |chunks[|chunks| - 1]| >= 2
    ensures WriteAll(NETASCII, chunks).held == if CrLast(Flatten(chunks)) then [CR] else []
  {
    hide Decode, Write;
    var n := |chunks| - 1;
    var p := WriteAll(NETASCII, chunks[..n]);
    WriteFlushed(p, chunks[n]);
    EndOfLonger(p.held, chunks[n]);
    EndOfLonger(Flatten(chunks[..n]), chunks[n]);
  }

  lemma BlocksWritable(t: seq<byte>, n: nat)
    requires n >= 2
    ensures Writable(NETASCII, Chop(t, n)) <==> |t| % n != 0 || CrLast(t)
  {
    var blocks := Chop(t, n);
    var last := |blocks| - 1;
    ChopIsExact(t, n);
    EmptyBlocks(t, n);
    hide Decode, Chop, CrLast, Write;
    NonEmptyWritable(blocks[..last]);
    if |t| % n == 0 {
      if last > 0 {
        LongChunkHolds(blocks[..last]);
      } else {
        NothingIsCrLast();
      }
    }
  }

  lemma CutOfBlocks(blocks: seq<seq<byte>>, n: nat, k: nat)
    requires n >= 2 && WellChopped(blocks, n) && k < |blocks|
    ensures CutAt(blocks, k + 1) <==> k + 1 < |blocks| && EndsInCrNul(blocks[k]) && Completes(blocks[k + 1])
  {
    hide Flatten;
    if k + 1 < |blocks| {
      FlattenFrom(blocks, k + 1);
      FlattenConcat(blocks[..k], [blocks[k]]);
      FlattenSingle(blocks[k]);
      assert blocks[..k + 1] == blocks[..k] + [blocks[k]];
      EndOfLonger(Flatten(blocks[..k]), blocks[k]);
      if blocks[k + 1] == [] {
        FlattenTail(blocks, k + 2);
      }
    } else {
      FlattenTail(blocks, k + 1);
    }
  }

  lemma FlattenTail(blocks: seq<seq<byte>>, k: nat)
    requires k == |blocks|
    ensures Flatten(blocks[k..]) == []
  {
  }

  lemma CutsOfBlocks(blocks: seq<seq<byte>>, n: nat)
    requires n >= 2 && WellChopped(blocks, n)
    ensures Spoiled(blocks) <==> CutBehindCrNul(blocks)
  {
    hide CutAt, EndsInCrNul, Completes, WellChopped;
    NoCutAtFront(blocks);
    forall k | 0 <= k < |blocks|
      ensures CutAt(blocks, k + 1) <==> k + 1 < |blocks| && EndsInCrNul(blocks[k]) && Completes(blocks[k + 1])
    {
      CutOfBlocks(blocks, n, k);
    }
    if Spoiled(blocks) {
      var k :| 0 <= k <= |blocks| && CutAt(blocks, k);
      var j := k - 1;
      assert CutAt(blocks, j + 1);
      assert EndsInCrNul(blocks[j]) && Completes(blocks[j + 1]);
    }
    if CutBehindCrNul(blocks) {
      var k :| 0 <= k < |blocks| - 1 && EndsInCrNul(blocks[k]) && Completes(blocks[k + 1]);
      assert CutAt(blocks, k + 1);
    }
  }

  lemma NoCutAtFront(blocks: seq<seq<byte>>)
    ensures !CutAt(blocks, 0)
  {
    assert blocks[..0] == [];
  }

  /** A stream in blocks of at least two bytes: it is written without indexing
      an empty vector exactly when the last block is not empty or the stream ends
      in CR or CR NUL; the file is then its decoding exactly when no block ends
      in CR NUL before one that begins with LF or NUL, and the stream itself
      exactly when that has no CR followed by LF or NUL. */
  lemma StreamInBlocks(t: seq<byte>, n: nat)
    requires n >= 2
    ensures var blocks := Chop(t, n);
            && (Writable(NETASCII, blocks) <==> |t| % n != 0 || CrLast(t))
            && (Writable(NETASCII, blocks) ==>
                  var file := WriteAll(NETASCII, blocks).Flushed();
                  && (file == Decode(t) <==> !CutBehindCrNul(blocks))
                  && (file == t <==> !Has(t, CR, LF) && !Has(t, CR, NUL)))
  {
    hide Decode, Chop, WriteAll, CrLast, CutBehindCrNul, Spoiled;
    ChopIsExact(t, n);
    BlocksWritable(t, n);
    CutsOfBlocks(Chop(t, n), n);
    if Writable(NETASCII, Chop(t, n)) {
      ChunkingExact(Chop(t, n));
    }
  }

  lemma EndsLater(x: seq<byte>, y: seq<byte>)
    requires y != []
    ensures EndsInCr(x + y) <==> EndsInCr(y)
  {
    assert (x + y)[|x + y| - 1] == y[|y| - 1];
  }

  lemma {:induction false} CollapseEnds(x: seq<byte>)
    ensures EndsInCr(Collapse(x)) <==> EndsInCr(x)
  {
    if x != [] {
      var k := if |x| > 1 && x[0] == CR && x[1] == LF then 2 else 1;
      var rest := x[k..];
      CollapseEnds(rest);
      if rest != [] {
        hide EndsInCr;
        CollapseNonEmpty(rest);
        assert x == x[..k] + rest;
        EndsLater(x[..k], rest);
        EndsLater([LF], Collapse(rest));
        EndsLater([x[0]], Collapse(rest));
      }
    }
  }

  lemma CollapseNonEmpty(x: seq<byte>)
    requires x != []
    ensures Collapse(x) != []
  {
  }

  /** An encoding in blocks, in terms of its source. */
  lemma EncodingInBlocks(source: seq<byte>, n: nat)
    requires n >= 2
    ensures var t := Encode(source);
            var blocks := Chop(t, n);
            && (Writable(NETASCII, blocks) <==> |t| % n != 0 || EndsInCr(source))
            && (Writable(NETASCII, blocks) ==>
                  (WriteAll(NETASCII, blocks).Flushed() == Collapse(source) <==> !CutBehindCrNul(blocks)))
  {
    hide Decode, Encode, Chop, WriteAll, CrLast, Collapse, CutBehindCrNul;
    RoundTrip(source);
    CollapseEnds(source);
    DecodeEnds(Encode(source));
    StreamInBlocks(Encode(source), n);
  }
}
