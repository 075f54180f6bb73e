/** src/common/IO/Writer.cpp: the file writer, an incremental netascii decoder
    that holds a trailing CR back until the next chunk or the destructor. */
module FileWriter {
  import opened Bytes
  import opened Netascii

  datatype DataFormat = NETASCII | OCTET

  /** What a Writer has put into its file and what it still holds back. */
  datatype Progress = Progress(file: seq<byte>, held: seq<byte>) {
    /** The file after the destructor's flush. */
    function Flushed(): seq<byte> {
      file + held
    }
  }

  const EMPTY := Progress([], [])

  /** WriteFile indexes an empty vector exactly when, in NETASCII mode, the
      chunk is empty and nothing is held back. */
  predicate Accepts(format: DataFormat, p: Progress, chunk: seq<byte>) {
    format.NETASCII? ==> p.held + chunk != []
  }

  function Write(format: DataFormat, p: Progress, chunk: seq<byte>): Progress
    requires Accepts(format, p, chunk)
  {
    if format.OCTET? then Progress(p.file + (p.held + chunk), [])
    else
      var data := Decode(p.held + chunk);
      if data[|data| - 1] == CR then Progress(p.file + data[..|data| - 1], [CR])
      else Progress(p.file + data, [])
  }

  /** The calls that a list of chunks makes on a new Writer all stay defined. */
  predicate Writable(format: DataFormat, chunks: seq<seq<byte>>)
    decreases |chunks|, 0
  {
    chunks == []
    || (var last := |chunks| - 1;
        Writable(format, chunks[..last]) && Accepts(format, WriteAll(format, chunks[..last]), chunks[last]))
  }

  /** The state after a list of WriteFile calls on a new Writer. */
  function WriteAll(format: DataFormat, chunks: seq<seq<byte>>): Progress
    requires Writable(format, chunks)
    decreases |chunks|, 1
  {
    if chunks == [] then EMPTY
    else Write(format, WriteAll(format, chunks[..|chunks| - 1]), chunks[|chunks| - 1])
  }

  lemma {:induction false} WritablePrefix(format: DataFormat, chunks: seq<seq<byte>>, k: nat)
    requires k <= |chunks| && Writable(format, chunks)
    ensures Writable(format, chunks[..k])
    decreases |chunks|
  {
    if k < |chunks| {
      WritablePrefix(format, chunks[..|chunks| - 1], k);
      assert chunks[..|chunks| - 1][..k] == chunks[..k];
    } else {
      assert chunks[..k] == chunks;
    }
  }

  class Writer {
    const mode: DataFormat
    var file: seq<byte>
    var tbwLaterBuffer: seq<byte>

    function State(): Progress
      reads this
    {
      Progress(file, tbwLaterBuffer)
    }

    constructor (mode: DataFormat)
      ensures this.mode == mode && State() == EMPTY
    {
      this.mode := mode;
      file, tbwLaterBuffer := [], [];
    }

    method WriteFile(chunk: seq<byte>)
      requires Accepts(mode, State(), chunk)
      modifies this
      ensures State() == Write(mode, old(State()), chunk)
    {
      var data := chunk;
      if |tbwLaterBuffer| > 0 {
        data := tbwLaterBuffer + data;
        tbwLaterBuffer := [];
      }
      assert data == old(tbwLaterBuffer) + chunk;
      if mode == NETASCII {
        data := FormatFromNETASCII(data);
        if data[|data| - 1] == CR {
          tbwLaterBuffer := tbwLaterBuffer + [CR];
          data := data[..|data| - 1];
        }
      }
      file := file + data;
    }

    /** The destructor: what is held back reaches the file. */
    method Close()
      modifies this
      ensures file == old(State()).Flushed()
      ensures tbwLaterBuffer == old(tbwLaterBuffer)
    {
      if |tbwLaterBuffer| > 0 {
        file := file + tbwLaterBuffer;
      }
    }
  }

  /** In OCTET mode the file is the concatenation of the chunks and nothing is held back. */
  lemma {:induction false} OctetWritesConcatenation(chunks: seq<seq<byte>>)
    ensures Writable(OCTET, chunks) && WriteAll(OCTET, chunks) == Progress(Flatten(chunks), [])
  {
    if chunks != [] {
      OctetWritesConcatenation(chunks[..|chunks| - 1]);
      assert [] + chunks[|chunks| - 1] == chunks[|chunks| - 1];
    }
  }

  predicate EndsInCr(s: seq<byte>) {
    s != [] && s[|s| - 1] == CR
  }

  predicate EndsInCrNul(s: seq<byte>) {
    |s| >= 2 && s[|s| - 2] == CR && s[|s| - 1] == NUL
  }

  /** The stream ends in a CR, or in a CR NUL, which decodes to one. */
  predicate CrLast(s: seq<byte>) {
    EndsInCr(s) || EndsInCrNul(s)
  }

  /** A stream that a CR before it would take its first byte from. */
  predicate Completes(q: seq<byte>) {
    q != [] && (q[0] == LF || q[0] == NUL)
  }

  predicate HazardAt(t: seq<byte>, i: nat) {
    i + 2 < |t| && t[i] == CR && t[i + 1] == NUL && (t[i + 2] == LF || t[i + 2] == NUL)
  }

  /** Somewhere in t a CR NUL is followed by LF or NUL. */
  predicate Hazard(t: seq<byte>) {
    exists i :: 0 <= i < |t| && HazardAt(t, i)
  }

  /** A decoding ends in CR when the stream does, or in CR NUL. */
  lemma {:induction false} DecodeEnds(t: seq<byte>)
    ensures EndsInCr(Decode(t)) <==> CrLast(t)
    ensures t != [] ==> Decode(t) != []
  {
    if t != [] {
      var n, v := TokenLength(t), TokenValue(t);
      var rest := Decode(t[n..]);
      DecodeToken(t);
      if t[n..] != [] {
        DecodeEnds(t[n..]);
        assert ([v] + rest)[|rest|] == rest[|rest| - 1];
      }
    }
  }

  /** Decoding a stream in two parts, with an open CR carried over to the second. */
  lemma {:induction false} DecodeSplit(p: seq<byte>, q: seq<byte>)
    ensures EndsInCr(p) ==> EndsInCr(Decode(p))
    ensures Decode(p + q) ==
            if EndsInCr(p) then Decode(p)[..|Decode(p)| - 1] + Decode([CR] + q) else Decode(p) + Decode(q)
  {
    DecodeEnds(p);
    if p == [] {
      assert p + q == q;
    } else if p == [CR] {
      assert p[1..] == [];
      assert Decode(p) == [CR];
    } else {
      var n, v := TokenLength(p), TokenValue(p);
      var rest := Decode(p[n..]);
      assert TokenLength(p + q) == n && TokenValue(p + q) == v;
      assert (p + q)[n..] == p[n..] + q;
      DecodeToken(p);
      DecodeToken(p + q);
      DecodeSplit(p[n..], q);
      assert EndsInCr(p) == EndsInCr(p[n..]);
      if EndsInCr(p) {
        ConsDropLast(v, rest);
        ConsAppend(v, rest[..|rest| - 1], Decode([CR] + q));
      } else {
        ConsAppend(v, rest, Decode(q));
      }
    }
  }

  lemma ConsAppend(v: byte, a: seq<byte>, b: seq<byte>)
    ensures [v] + (a + b) == ([v] + a) + b
  {
  }

  lemma ConsDropLast(v: byte, a: seq<byte>)
    requires a != []
    ensures ([v] + a)[..|[v] + a| - 1] == [v] + a[..|a| - 1]
  {
  }

  lemma DecodeAfterCr(q: seq<byte>)
    ensures Decode([CR] + q) == if Completes(q) then [if q[0] == LF then LF else CR] + Decode(q[1..])
                                else [CR] + Decode(q)
    ensures |Decode([CR] + q)| == |Decode(q)| + (if Completes(q) then 0 else 1)
  {
    var t := [CR] + q;
    DecodeToken(t);
    assert t[1..] == q;
    if q != [] {
      DecodeToken(q);
      assert t[2..] == q[1..];
    }
  }

  /** What the file would be if the rest of the stream came in one chunk. */
  function Finish(p: Progress, rest: seq<byte>): seq<byte> {
    p.file + Decode(p.held + rest)
  }

  /** The Writer holds nothing or one CR. */
  predicate HoldsCr(p: Progress) {
    p.held == [] || p.held == [CR]
  }

  lemma FinishNothing(p: Progress)
    requires HoldsCr(p)
    ensures Finish(p, []) == p.Flushed()
  {
    assert p.held + [] == p.held;
    assert [CR][1..] == [];
  }

  lemma WriteFlushed(p: Progress, chunk: seq<byte>)
    requires Accepts(NETASCII, p, chunk)
    ensures var w := Write(NETASCII, p, chunk);
            && HoldsCr(w) && w.Flushed() == Finish(p, chunk)
            && (w.held == [CR] <==> CrLast(p.held + chunk))
  {
    DecodeEnds(p.held + chunk);
    var data := Decode(p.held + chunk);
    SplitOffCr(p.file, data);
  }

  lemma SplitOffCr(file: seq<byte>, data: seq<byte>)
    requires data != []
    ensures EndsInCr(file + data) == EndsInCr(data)
    ensures EndsInCr(data) ==> (file + data[..|data| - 1]) + [CR] == file + data
    ensures (file + data) + [] == file + data
  {
    assert (file + data)[|file + data| - 1] == data[|data| - 1];
    if EndsInCr(data) {
      assert data == data[..|data| - 1] + [CR];
    }
  }

  /** Cutting the stream once more never makes the file longer. */
  lemma FinishShrinks(p: Progress, chunk: seq<byte>, rest: seq<byte>)
    requires Accepts(NETASCII, p, chunk)
    ensures |Finish(Write(NETASCII, p, chunk), rest)| <= |Finish(p, chunk + rest)|
  {
    var s := p.held + chunk;
    Associate(p.held, chunk, rest);
    DecodeEnds(s);
    DecodeSplit(s, rest);
    DecodeAfterCr(rest);
    assert [] + rest == rest;
  }

  /** The Writer sees the end of the stream in what it holds and the chunk. */
  lemma CrLastSeen(seen: seq<byte>, held: seq<byte>, chunk: seq<byte>)
    requires held == [] || held == [CR]
    requires (CrLast(seen) ==> held == [CR]) && held + chunk != []
    ensures CrLast(seen + chunk) ==> CrLast(held + chunk)
    ensures (held == [CR] ==> CrLast(seen)) && !(EndsInCrNul(seen) && Completes(chunk)) ==>
              (CrLast(held + chunk) ==> CrLast(seen + chunk))
  {
    assert chunk == [] ==> seen + chunk == seen && held + chunk == held;
    assert |chunk| == 1 ==> chunk == [chunk[0]];
  }

  lemma {:induction false} WriteAllHolds(chunks: seq<seq<byte>>)
    requires Writable(NETASCII, chunks)
    ensures HoldsCr(WriteAll(NETASCII, chunks))
    ensures CrLast(Flatten(chunks)) ==> WriteAll(NETASCII, chunks).held == [CR]
  {
    if chunks != [] {
      hide Decode, CrLast, Write;
      var n := |chunks| - 1;
      var p := WriteAll(NETASCII, chunks[..n]);
      NothingIsCrLast();
      WriteAllHolds(chunks[..n]);
      WriteFlushed(p, chunks[n]);
      CrLastSeen(Flatten(chunks[..n]), p.held, chunks[n]);
    }
  }

  lemma NothingIsCrLast()
    ensures !CrLast([])
  {
  }

  lemma FlattenFrom(chunks: seq<seq<byte>>, k: nat)
    requires k <= |chunks|
    ensures Flatten(chunks) == Flatten(chunks[..k]) + Flatten(chunks[k..])
    ensures k < |chunks| ==> Flatten(chunks[k..]) == chunks[k] + Flatten(chunks[k + 1..])
  {
    hide Flatten;
    FlattenConcat(chunks[..k], chunks[k..]);
    assert chunks == chunks[..k] + chunks[k..];
    if k < |chunks| {
      FlattenConcat([chunks[k]], chunks[k + 1..]);
      FlattenSingle(chunks[k]);
      assert chunks[k..] == [chunks[k]] + chunks[k + 1..];
    }
  }

  lemma {:induction false} StreamShrinks(chunks: seq<seq<byte>>, k: nat)
    requires Writable(NETASCII, chunks) && k <= |chunks|
    ensures Writable(NETASCII, chunks[..k])
    ensures |WriteAll(NETASCII, chunks).Flushed()| <= |Finish(WriteAll(NETASCII, chunks[..k]), Flatten(chunks[k..]))|
    decreases |chunks| - k
  {
    WritablePrefix(NETASCII, chunks, k);
    if k == |chunks| {
      assert chunks[..k] == chunks && chunks[k..] == [];
      WriteAllHolds(chunks);
      FinishNothing(WriteAll(NETASCII, chunks));
    } else {
      hide Decode, Flatten;
      StreamShrinks(chunks, k + 1);
      assert chunks[..k + 1][..k] == chunks[..k];
      FlattenFrom(chunks, k);
      FinishShrinks(WriteAll(NETASCII, chunks[..k]), chunks[k], Flatten(chunks[k + 1..]));
    }
  }

  /** Whatever the chunks, the file is no longer than the decoding of the stream. */
  lemma NeverLonger(chunks: seq<seq<byte>>)
    requires Writable(NETASCII, chunks)
    ensures |WriteAll(NETASCII, chunks).Flushed()| <= |Decode(Flatten(chunks))|
  {
    StreamShrinks(chunks, 0);
    assert chunks[..0] == [] && chunks[0..] == chunks;
    var t := Flatten(chunks);
    assert [] + t == t && [] + Decode(t) == Decode(t);
  }

  /** The stream is cut after chunk k, right behind a CR NUL that LF or NUL follows. */
  predicate CutAt(chunks: seq<seq<byte>>, k: nat) {
    k <= |chunks| && EndsInCrNul(Flatten(chunks[..k])) && Completes(Flatten(chunks[k..]))
  }

  predicate Spoiled(chunks: seq<seq<byte>>) {
    exists k :: 0 <= k <= |chunks| && CutAt(chunks, k)
  }

  /** Such a cut loses a byte. */
  lemma CutLoses(chunks: seq<seq<byte>>, k: nat)
    requires Writable(NETASCII, chunks) && CutAt(chunks, k)
    ensures |WriteAll(NETASCII, chunks).Flushed()| < |Decode(Flatten(chunks))|
  {
    hide Decode, Flatten;
    var p, rest := chunks[..k], Flatten(chunks[k..]);
    StreamShrinks(chunks, k);
    NeverLonger(p);
    WriteAllHolds(p);
    FlattenFrom(chunks, k);
    DecodeSplit(Flatten(p), rest);
    DecodeAfterCr(rest);
  }

  /** The invariant of the Writer on a prefix of the stream: file and held byte
      together are the decoding of what has been seen, and a CR is held exactly
      when that decoding ends in one. */
  predicate InStep(p: Progress, seen: seq<byte>) {
    && p.Flushed() == Decode(seen)
    && p.held == if EndsInCr(Decode(seen)) then [CR] else []
  }

  lemma FinishInStep(p: Progress, seen: seq<byte>, chunk: seq<byte>)
    requires InStep(p, seen) && !(EndsInCrNul(seen) && Completes(chunk))
    ensures Finish(p, chunk) == Decode(seen + chunk)
  {
    var d := Decode(seen);
    DecodeEnds(seen);
    DecodeSplit(seen, chunk);
    DecodeAfterCr(chunk);
    hide Decode, EndsInCrNul;
    if p.held == [CR] {
      assert p.file == d[..|d| - 1] && d == d[..|d| - 1] + [CR];
      Associate(p.file, [CR], Decode(chunk));
    } else {
      assert [] + chunk == chunk && p.file + [] == p.file;
    }
  }

  lemma WriteKeepsInStep(p: Progress, seen: seq<byte>, chunk: seq<byte>)
    requires InStep(p, seen) && Accepts(NETASCII, p, chunk) && !(EndsInCrNul(seen) && Completes(chunk))
    ensures InStep(Write(NETASCII, p, chunk), seen + chunk)
  {
    FinishInStep(p, seen, chunk);
    WriteFlushed(p, chunk);
    DecodeEnds(seen);
    DecodeEnds(seen + chunk);
    CrLastSeen(seen, p.held, chunk);
    hide Decode, Write, EndsInCrNul, Completes;
  }

  lemma SpoiledBefore(chunks: seq<seq<byte>>)
    requires chunks != [] && !Spoiled(chunks)
    ensures var n := |chunks| - 1;
            !Spoiled(chunks[..n]) && !(EndsInCrNul(Flatten(chunks[..n])) && Completes(chunks[n]))
  {
    hide Flatten;
    var n := |chunks| - 1;
    FlattenSingle(chunks[n]);
    assert !CutAt(chunks, n) && chunks[n..] == [chunks[n]];
    forall k | 0 <= k <= n
      ensures !CutAt(chunks[..n], k)
    {
      assert !CutAt(chunks, k);
      assert chunks[..n][..k] == chunks[..k] && chunks[k..] == chunks[..n][k..] + [chunks[n]];
      FlattenConcat(chunks[..n][k..], [chunks[n]]);
    }
  }

  /** Written plus held bytes are the decoding of the stream seen so far exactly
      when it has not been cut behind a CR NUL that LF or NUL follows. */
  lemma {:induction false} StreamingInStep(chunks: seq<seq<byte>>)
    requires Writable(NETASCII, chunks)
    ensures InStep(WriteAll(NETASCII, chunks), Flatten(chunks)) <==> !Spoiled(chunks)
  {
    if Spoiled(chunks) {
      var k :| 0 <= k <= |chunks| && CutAt(chunks, k);
      CutLoses(chunks, k);
    } else if chunks != [] {
      hide Spoiled;
      var n := |chunks| - 1;
      SpoiledBefore(chunks);
      StreamingInStep(chunks[..n]);
      WriteKeepsInStep(WriteAll(NETASCII, chunks[..n]), Flatten(chunks[..n]), chunks[n]);
    }
  }

  /** Of the calls of WriteFile for one stream, whatever they are: the closed
      file is the decoding of the stream exactly when no cut spoils it, and the
      stream itself exactly when that has no CR followed by LF or NUL. */
  lemma ChunkingExact(chunks: seq<seq<byte>>)
    requires Writable(NETASCII, chunks)
    ensures var file, t := WriteAll(NETASCII, chunks).Flushed(), Flatten(chunks);
            && |file| <= |Decode(t)| <= |t|
            && (file == Decode(t) <==> !Spoiled(chunks))
            && (file == t <==> !Has(t, CR, LF) && !Has(t, CR, NUL))
  {
    hide Decode, Flatten, WriteAll;
    NeverLonger(chunks);
    StreamingInStep(chunks);
    DecodeShortens(Flatten(chunks));
    if Spoiled(chunks) {
      var k :| 0 <= k <= |chunks| && CutAt(chunks, k);
      CutLoses(chunks, k);
      CutIsHazard(chunks, k);
      HazardHasCrNul(Flatten(chunks));
    }
  }

  lemma CutIsHazard(chunks: seq<seq<byte>>, k: nat)
    requires CutAt(chunks, k)
    ensures Hazard(Flatten(chunks))
  {
    hide Flatten;
    FlattenFrom(chunks, k);
    var i := |Flatten(chunks[..k])| - 2;
    assert HazardAt(Flatten(chunks), i);
  }

  lemma HazardHasCrNul(t: seq<byte>)
    requires Hazard(t)
    ensures Has(t, CR, NUL)
  {
  }

  /** The closed file, in either mode. */
  lemma FileIsDecoding(format: DataFormat, chunks: seq<seq<byte>>)
    requires Writable(format, chunks)
    ensures var file, t := WriteAll(format, chunks).Flushed(), Flatten(chunks);
            if format.OCTET? then file == t
            else (file == Decode(t) <==> !Spoiled(chunks)) && (file == t <==> !Has(t, CR, LF) && !Has(t, CR, NUL))
  {
    if format.OCTET? {
      OctetWritesConcatenation(chunks);
    } else {
      ChunkingExact(chunks);
    }
  }

  /** Each empty chunk comes after a stream that ends in CR or CR NUL. */
  predicate EmptiesAfterCr(chunks: seq<seq<byte>>) {
    forall k :: 0 <= k < |chunks| && chunks[k] == [] ==>
                  CrLast(Flatten(chunks[..k]))
  }

  lemma EmptiesStep(chunks: seq<seq<byte>>)
    requires chunks != []
    ensures var n := |chunks| - 1;
            EmptiesAfterCr(chunks)
            <==> EmptiesAfterCr(chunks[..n])
                 && (chunks[n] == [] ==> CrLast(Flatten(chunks[..n])))
  {
    hide CrLast, Flatten;
    var n := |chunks| - 1;
    forall k | 0 <= k < n
      ensures chunks[..n][k] == chunks[k] && chunks[..n][..k] == chunks[..k]
    {
    }
  }

  /** If no cut spoils the stream, its chunks can be written exactly when each
      empty one comes after CR or CR NUL. */
  lemma {:induction false} WritableExactly(chunks: seq<seq<byte>>)
    requires !Spoiled(chunks)
    ensures Writable(NETASCII, chunks) <==> EmptiesAfterCr(chunks)
  {
    if chunks != [] {
      hide Decode, Spoiled, EmptiesAfterCr, WriteAll, EndsInCrNul;
      var n := |chunks| - 1;
      SpoiledBefore(chunks);
      EmptiesStep(chunks);
      WritableExactly(chunks[..n]);
      if Writable(NETASCII, chunks[..n]) {
        StreamingInStep(chunks[..n]);
        DecodeEnds(Flatten(chunks[..n]));
      }
    }
  }

  /** Every way to cut the stream t into chunks that can be written writes the decoding of t. */
  ghost predicate ChunkingInvariant(t: seq<byte>) {
    forall chunks :: Writable(NETASCII, chunks) && Flatten(chunks) == t ==>
                       WriteAll(NETASCII, chunks).Flushed() == Decode(t)
  }

  lemma {:induction false} NonEmptyWritable(chunks: seq<seq<byte>>)
    requires forall k :: 0 <= k < |chunks| ==> chunks[k] != []
    ensures Writable(NETASCII, chunks)
  {
    if chunks != [] {
      NonEmptyWritable(chunks[..|chunks| - 1]);
    }
  }

  lemma CutInTwo(p: seq<byte>, q: seq<byte>)
    requires EndsInCrNul(p) && Completes(q)
    ensures Flatten([p, q]) == p + q && Writable(NETASCII, [p, q]) && CutAt([p, q], 1)
  {
    hide Writable, Flatten;
    var chunks := [p, q];
    NonEmptyWritable(chunks);
    FlattenFrom(chunks, 1);
    assert chunks[..1] == [p] && chunks[1..] == [q];
    FlattenSingle(p);
    FlattenSingle(q);
  }

  /** A stream with a hazard can be cut there. */
  lemma HazardCut(t: seq<byte>) returns (chunks: seq<seq<byte>>)
    requires Hazard(t)
    ensures Flatten(chunks) == t && Writable(NETASCII, chunks) && CutAt(chunks, 1)
  {
    hide Writable, Flatten, CutAt;
    var i :| 0 <= i < |t| && HazardAt(t, i);
    hide Hazard;
    var p, q := t[..i + 2], t[i + 2..];
    CutInTwo(p, q);
    assert p + q == t;
    chunks := [p, q];
  }

  /** The exact condition for chunking not to matter. */
  lemma StreamingExact(t: seq<byte>)
    ensures ChunkingInvariant(t) <==> !Hazard(t)
  {
    hide Decode, Flatten, WriteAll, Writable, Hazard, CutAt;
    if Hazard(t) {
      var chunks := HazardCut(t);
      CutLoses(chunks, 1);
    } else {
      forall chunks | Writable(NETASCII, chunks) && Flatten(chunks) == t
        ensures WriteAll(NETASCII, chunks).Flushed() == Decode(t)
      {
        if Spoiled(chunks) {
          var k :| 0 <= k <= |chunks| && CutAt(chunks, k);
          CutIsHazard(chunks, k);
        }
        ChunkingExact(chunks);
      }
    }
  }

  lemma {:induction false} EncodedHazard(x: seq<byte>)
    ensures Hazard(Encode(x)) <==> Has(x, CR, NUL)
    ensures x != [] ==> Encode(x) != [] && Encode(x)[0] != LF && (Encode(x)[0] == NUL <==> x[0] == NUL)
  {
    if x != [] {
      var n := SourceLength(x);
      var e := Encode(x[n..]);
      EncodeToken(x);
      EncodedHazard(x[n..]);
      HasCons(x, CR, NUL);
      if n == 2 {
        HasCons(x[1..], CR, NUL);
        assert x[1..][1..] == x[2..];
      }
      HazardPrepended(Encoded(x), e);
    }
  }

  /** Of an encoded token, only CR NUL makes a hazard, with what follows. */
  lemma HazardPrepended(token: seq<byte>, e: seq<byte>)
    requires token == [CR, LF] || token == [CR, NUL] || (|token| == 1 && token[0] != CR && token[0] != LF)
    ensures Hazard(token + e) <==> Hazard(e) || (token == [CR, NUL] && Completes(e))
  {
    var t, n := token + e, |token|;
    if i: nat :| i < |e| && HazardAt(e, i) {
      assert HazardAt(t, n + i);
    }
    if token == [CR, NUL] && Completes(e) {
      assert HazardAt(t, 0);
    }
    if i: nat :| i < |t| && HazardAt(t, i) {
      assert i >= n ==> HazardAt(e, i - n);
    }
  }

  /** For an encoded source: chunking does not matter exactly when the source
      has no CR directly followed by NUL. */
  lemma StreamingDecodesEncoding(x: seq<byte>)
    ensures ChunkingInvariant(Encode(x)) <==> !Has(x, CR, NUL)
  {
    EncodedHazard(x);
    StreamingExact(Encode(x));
  }
}
