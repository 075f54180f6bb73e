/** src/common/IO/IOCommon.cpp: the netascii representation (section 1 of RFC 1350). */
module Netascii {
  import opened Bytes

  function Encode(x: seq<byte>): seq<byte> {
    if x == [] then []
    else if x[0] == CR then
      if |x| > 1 && x[1] == LF then [CR, LF] + Encode(x[2..])
      else [CR, NUL] + Encode(x[1..])
    else if x[0] == LF then [CR, LF] + Encode(x[1..])
    else [x[0]] + Encode(x[1..])
  }

  function Decode(t: seq<byte>): seq<byte> {
    if t == [] then []
    else if |t| > 1 && t[0] == CR && t[1] == LF then [LF] + Decode(t[2..])
    else if |t| > 1 && t[0] == CR && t[1] == NUL then [CR] + Decode(t[2..])
    else [t[0]] + Decode(t[1..])
  }

  /** How many bytes the decoder consumes together. */
  function TokenLength(t: seq<byte>): nat
    requires t != []
  {
    if |t| > 1 && t[0] == CR && (t[1] == LF || t[1] == NUL) then 2 else 1
  }

  function TokenValue(t: seq<byte>): byte
    requires t != []
  {
    if |t| > 1 && t[0] == CR && t[1] == LF then LF else t[0]
  }

  lemma DecodeToken(t: seq<byte>)
    requires t != []
    ensures Decode(t) == [TokenValue(t)] + Decode(t[TokenLength(t)..])
  {
  }

  /** How many bytes of its source the encoder consumes together, and what they become. */
  function SourceLength(x: seq<byte>): nat
    requires x != []
  {
    if |x| > 1 && x[0] == CR && x[1] == LF then 2 else 1
  }

  function Encoded(x: seq<byte>): seq<byte>
    requires x != []
  {
    if SourceLength(x) == 2 || x[0] == LF then [CR, LF] else if x[0] == CR then [CR, NUL] else [x[0]]
  }

  lemma EncodeToken(x: seq<byte>)
    requires x != []
    ensures Encode(x) == Encoded(x) + Encode(x[SourceLength(x)..])
  {
  }

  method FormatToNETASCII(data: seq<byte>) returns (formatted: seq<byte>)
    ensures formatted == Encode(data)
  {
    formatted := [];
    var i := 0;
    while i < |data|
      invariant 0 <= i <= |data|
      invariant formatted + Encode(data[i..]) == Encode(data)
    {
      hide Encode;
      ghost var rest := data[i..];
      EncodeToken(rest);
      assert rest[SourceLength(rest)..] == data[i + SourceLength(rest)..];
      Associate(formatted, Encoded(rest), Encode(rest[SourceLength(rest)..]));
      if data[i] == CR {
        if i + 1 < |data| && data[i + 1] == LF {
          formatted := formatted + [CR, LF];
          i := i + 1;
        } else {
          formatted := formatted + [CR, NUL];
        }
      } else if data[i] == LF {
        formatted := formatted + [CR, LF];
      } else {
        formatted := formatted + [data[i]];
      }
      i := i + 1;
    }
  }

  method FormatFromNETASCII(data: seq<byte>) returns (result: seq<byte>)
    ensures result == Decode(data)
  {
    result := [];
    var i := 0;
    while i < |data|
      invariant 0 <= i <= |data|
      invariant result + Decode(data[i..]) == Decode(data)
    {
      ghost var before, rest := result, data[i..];
      ghost var n, v := TokenLength(rest), TokenValue(rest);
      assert rest[n..] == data[i + n..];
      if i < |data| - 1 && data[i] == CR {
        if data[i + 1] == LF {
          result := result + [LF];
          i := i + 1;
        } else if data[i + 1] == NUL {
          result := result + [CR];
          i := i + 1;
        } else {
          result := result + [data[i]];
        }
      } else {
        result := result + [data[i]];
      }
      i := i + 1;
      assert result == before + [v] && data[i..] == rest[n..];
      DecodeToken(rest);
      Associate(before, [v], Decode(rest[n..]));
    }
  }

  /** x with each CR LF replaced by LF. */
  function Collapse(x: seq<byte>): seq<byte> {
    if x == [] then []
    else if |x| > 1 && x[0] == CR && x[1] == LF then [LF] + Collapse(x[2..])
    else [x[0]] + Collapse(x[1..])
  }

  predicate Has(x: seq<byte>, a: byte, b: byte) {
    exists i :: 0 <= i < |x| - 1 && x[i] == a && x[i + 1] == b
  }

  lemma HasCons(x: seq<byte>, a: byte, b: byte)
    requires |x| > 0
    ensures Has(x, a, b) <==> (|x| > 1 && x[0] == a && x[1] == b) || Has(x[1..], a, b)
  {
    if Has(x, a, b) {
      var i :| 0 <= i < |x| - 1 && x[i] == a && x[i + 1] == b;
      if i > 0 {
        assert x[1..][i - 1] == a && x[1..][i - 1 + 1] == b;
      }
    }
    if Has(x[1..], a, b) {
      var i :| 0 <= i < |x[1..]| - 1 && x[1..][i] == a && x[1..][i + 1] == b;
      assert x[i + 1] == a && x[i + 1 + 1] == b;
    }
  }

  lemma {:induction false} CollapseShortens(x: seq<byte>)
    ensures |Collapse(x)| <= |x|
    ensures Collapse(x) == x <==> !Has(x, CR, LF)
  {
    if x != [] {
      HasCons(x, CR, LF);
      if |x| > 1 && x[0] == CR && x[1] == LF {
        CollapseShortens(x[2..]);
      } else {
        CollapseShortens(x[1..]);
        assert x == [x[0]] + x[1..];
      }
    }
  }

  /** Decoding an encoding collapses CR LF to LF and changes nothing else, so
      the round trip is exact precisely on inputs without CR LF. */
  lemma {:induction false} RoundTrip(x: seq<byte>)
    ensures Decode(Encode(x)) == Collapse(x)
    ensures Decode(Encode(x)) == x <==> !Has(x, 13, 10)
  {
    CollapseShortens(x);
    if x != [] {
      var k := if |x| > 1 && x[0] == CR && x[1] == LF then 2 else 1;
      RoundTrip(x[k..]);
      var e := Encode(x[k..]);
      assert ([CR, LF] + e)[2..] == e && ([CR, NUL] + e)[2..] == e && ([x[0]] + e)[1..] == e;
    }
  }

  /** Decoding shortens, and changes nothing only where there is nothing to decode. */
  lemma {:induction false} DecodeShortens(t: seq<byte>)
    ensures |Decode(t)| <= |t|
    ensures Decode(t) == t <==> !Has(t, 13, 10) && !Has(t, 13, 0)
  {
    if t != [] {
      HasCons(t, CR, LF);
      HasCons(t, CR, NUL);
      DecodeToken(t);
      DecodeShortens(t[TokenLength(t)..]);
      assert t == [t[0]] + t[1..];
    }
  }

  /** In bytes: CR is 13, LF 10 and NUL 0. */
  predicate WellFormed(t: seq<byte>) {
    && (forall i :: 0 <= i < |t| && t[i] == 13 ==> i + 1 < |t| && (t[i + 1] == 10 || t[i + 1] == 0))
    && (forall i :: 0 <= i < |t| && t[i] == 10 ==> i > 0 && t[i - 1] == 13)
  }

  lemma WellFormedConcat(head: seq<byte>, rest: seq<byte>)
    requires WellFormed(head) && WellFormed(rest)
    ensures WellFormed(head + rest)
  {
    var t := head + rest;
    forall i | 0 <= i < |t| && t[i] == CR
      ensures i + 1 < |t| && (t[i + 1] == LF || t[i + 1] == NUL)
    {
      if i < |head| {
        assert head[i] == CR;
      } else {
        assert rest[i - |head|] == CR;
      }
    }
    forall i | 0 <= i < |t| && t[i] == LF
      ensures i > 0 && t[i - 1] == CR
    {
      if i < |head| {
        assert head[i] == LF;
      } else {
        assert rest[i - |head|] == LF;
      }
    }
  }

  /** Every CR of an encoding is followed by LF or NUL, every LF is preceded by
      CR, and the encoding is at most twice as long as its source. */
  lemma {:induction false} EncodeWellFormed(x: seq<byte>)
    ensures WellFormed(Encode(x))
    ensures |x| <= |Encode(x)| <= 2 * |x|
  {
    if x != [] {
      EncodeToken(x);
      EncodeWellFormed(x[SourceLength(x)..]);
      WellFormedConcat(Encoded(x), Encode(x[SourceLength(x)..]));
    }
  }
}
