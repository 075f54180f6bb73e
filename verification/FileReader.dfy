/** src/common/IO/Reader.cpp, octet branch, and the block structure of a transfer:
    a short or empty block marks the end of the file. */
module FileReader {
  import opened Bytes

  /** The blocks a sender reads: full ones, then one short (perhaps empty) one. */
  function Chop(content: seq<byte>, n: nat): (blocks: seq<seq<byte>>)
    requires n > 0
    ensures blocks != []
  {
    if |content| < n then [content]
    else [content[..n]] + Chop(content[n..], n)
  }

  predicate WellChopped(blocks: seq<seq<byte>>, n: nat) {
    && blocks != []
    && (forall i :: 0 <= i < |blocks| - 1 ==> |blocks[i]| == n)
    && |blocks[|blocks| - 1]| < n
  }

  class Reader {
    const content: seq<byte>
    var position: nat

    ghost predicate Valid()
      reads this
    {
      position <= |content|
    }

    constructor (content: seq<byte>)
      ensures Valid() && this.content == content && position == 0
    {
      this.content := content;
      position := 0;
    }

    method ReadFile(numBytes: nat) returns (data: seq<byte>)
      requires Valid()
      modifies this
      ensures Valid()
      ensures data <= content[old(position)..] && position == old(position) + |data|
      ensures |data| <= numBytes
      ensures |data| < numBytes ==> position == |content|
    {
      var available := |content| - position;
      var count := if available < numBytes then available else numBytes;
      data := content[position..position + count];
      position := position + count;
    }
  }

  /** Reading to the first short block gives len/n + 1 blocks whose
      concatenation is the file. */
  lemma ChopIsExact(content: seq<byte>, n: nat)
    requires n > 0
    ensures WellChopped(Chop(content, n), n)
    ensures Flatten(Chop(content, n)) == content
    ensures |Chop(content, n)| == |content| / n + 1
  {
    ChopShape(content, n);
    ChopFlatten(content, n);
  }

  lemma {:induction false} ChopFlatten(content: seq<byte>, n: nat)
    requires n > 0
    ensures Flatten(Chop(content, n)) == content
  {
    if |content| < n {
      FlattenSingle(content);
    } else {
      ChopFlatten(content[n..], n);
      FlattenConcat([content[..n]], Chop(content[n..], n));
      FlattenSingle(content[..n]);
      assert content == content[..n] + content[n..];
    }
  }

  lemma {:induction false} ChopShape(content: seq<byte>, n: nat)
    requires n > 0
    ensures WellChopped(Chop(content, n), n)
    ensures |Chop(content, n)| == |content| / n + 1
  {
    if |content| < n {
      QuotientUnique(|content|, n, 0, |content|);
    } else {
      ChopShape(content[n..], n);
      DivideStep(|content|, n);
    }
  }

  lemma DivideStep(a: nat, n: nat)
    requires 0 < n <= a
    ensures (a - n) / n == a / n - 1
  {
    QuotientUnique(a - n, n, a / n - 1, a % n);
  }

  lemma QuotientUnique(a: nat, n: nat, q: int, r: nat)
    requires r < n && a == q * n + r
    ensures a / n == q
  {
    var d := a / n - q;
    assert d * n == r - a % n;
    TimesAtLeast(d, n);
    TimesAtLeast(-d, n);
    assert -d * n == -(d * n);
  }

  lemma TimesAtLeast(d: int, n: nat)
    ensures d > 0 ==> d * n >= n
  {
  }

  /** The first r blocks concatenate to a prefix of the file, r*n bytes long
      unless they are all the blocks, when they are the whole file. */
  lemma ChopPrefix(content: seq<byte>, n: nat, r: nat)
    requires n > 0 && r <= |Chop(content, n)|
    ensures Flatten(Chop(content, n)[..r]) <= content
    ensures |Flatten(Chop(content, n)[..r])| == if r < |Chop(content, n)| then r * n else |content|
  {
    var blocks := Chop(content, n);
    ChopIsExact(content, n);
    FlattenConcat(blocks[..r], blocks[r..]);
    assert blocks == blocks[..r] + blocks[r..];
    if r < |blocks| {
      FullBlocks(blocks, n, r);
    } else {
      assert blocks[..r] == blocks;
    }
  }

  lemma {:induction false} FullBlocks(blocks: seq<seq<byte>>, n: nat, r: nat)
    requires r <= |blocks| && forall i :: 0 <= i < r ==> |blocks[i]| == n
    ensures |Flatten(blocks[..r])| == r * n
  {
    if r > 0 {
      FullBlocks(blocks, n, r - 1);
      assert blocks[..r][..r - 1] == blocks[..r - 1];
      assert (r - 1) * n + n == r * n;
    }
  }
}
