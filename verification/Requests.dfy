/** src/common/TftpPacketStuff/ReadWritePacket.cpp and OackPacket.cpp: the
    requests and the option acknowledgment as packets. */
module Requests {
  import opened Bytes
  import opened FileWriter
  import opened Packets
  import opened Options
  import opened OptionLaws

  const MAX_REQUEST_LENGTH := 512

  const NETASCII_TEXT: seq<byte> := [110, 101, 116, 97, 115, 99, 105, 105]
  const OCTET_TEXT: seq<byte> := [111, 99, 116, 101, 116]

  datatype ReadWritePacket =
    ReadWritePacket(opcode: byte, filepath: seq<byte>, mode: DataFormat, options: seq<Opt>)

  predicate IsRequest(opcode: byte) {
    opcode == OPCODE_RRQ || opcode == OPCODE_WRQ
  }

  function ModeToString(mode: DataFormat): seq<byte> {
    if mode.NETASCII? then NETASCII_TEXT else OCTET_TEXT
  }

  function ParseMode(text: seq<byte>): Result<DataFormat> {
    if Fold(text) == NETASCII_TEXT then Ok(NETASCII)
    else if Fold(text) == OCTET_TEXT then Ok(OCTET)
    else Err(IllegalOperation)
  }

  /** GetOpcodeFromRaw. */
  function OpcodeOf(raw: seq<byte>): Result<byte> {
    if |raw| < 2 || raw[0] != 0 || raw[1] < OPCODE_RRQ || raw[1] > OPCODE_OACK then Err(IllegalOperation)
    else Ok(raw[1])
  }

  /** What follows the opcode, cut to the length limit: path and mode, each up
      to a NUL, then options if anything is left. */
  function ParseBody(opcode: byte, body: seq<byte>): Result<ReadWritePacket> {
    var n := FindNul(body);
    if n == |body| then Err(IllegalOperation)
    else
      var rest := body[n + 1..];
      var m := FindNul(rest);
      if m == |rest| then Err(IllegalOperation)
      else
        var mode :- ParseMode(rest[..m]);
        var options :- ParseRest(Request, rest[m + 1..], []);
        Ok(ReadWritePacket(opcode, body[..n], mode, options))
  }

  function ParseRequest(raw: seq<byte>): Result<ReadWritePacket> {
    var opcode :- OpcodeOf(raw);
    if !IsRequest(opcode) || |raw| < 4 then Err(IllegalOperation)
    else ParseBody(opcode, (if |raw| > MAX_REQUEST_LENGTH then raw[..MAX_REQUEST_LENGTH] else raw)[2..])
  }

  /** The constructor from raw bytes. */
  method FromRaw(raw: seq<byte>) returns (r: Result<ReadWritePacket>)
    ensures r == ParseRequest(raw)
  {
    var opcode := OpcodeOf(raw);
    if opcode.Err? {
      return Err(opcode.error);
    }
    if !IsRequest(opcode.value) || |raw| < 4 {
      return Err(IllegalOperation);
    }
    var kept := if |raw| > MAX_REQUEST_LENGTH then raw[..MAX_REQUEST_LENGTH] else raw;
    r := FromBody(opcode.value, kept[2..]);
  }

  method FromBody(opcode: byte, body: seq<byte>) returns (r: Result<ReadWritePacket>)
    ensures r == ParseBody(opcode, body)
  {
    var filepathEnd := FindNul(body);
    if filepathEnd == |body| {
      return Err(IllegalOperation);
    }
    var rest := body[filepathEnd + 1..];
    var modeEnd := FindNul(rest);
    if modeEnd == |rest| {
      return Err(IllegalOperation);
    }
    var mode := ParseMode(rest[..modeEnd]);
    if mode.Err? {
      return Err(mode.error);
    }
    var options: seq<Opt> := [];
    if modeEnd != |rest| - 1 {
      var parsed := ParseOptions(Request, rest[modeEnd + 1..]);
      if parsed.Err? {
        return Err(parsed.error);
      }
      options := parsed.value;
    }
    return Ok(ReadWritePacket(opcode, body[..filepathEnd], mode.value, options));
  }

  function PrintedBody(q: ReadWritePacket): seq<byte>
    requires AllSupported(q.options)
  {
    q.filepath + [NUL] + ModeToString(q.mode) + [NUL] + Printed(q.options)
  }

  function PrintRequest(q: ReadWritePacket): Result<seq<byte>> {
    if AllSupported(q.options) then Ok([0, q.opcode] + PrintedBody(q)) else Err(UnsupportedOption)
  }

  method MakeRaw(q: ReadWritePacket) returns (r: Result<seq<byte>>)
    ensures r == PrintRequest(q)
  {
    var raw: seq<byte> := [0, q.opcode];
    raw := raw + (q.filepath + [NUL]);
    raw := raw + (ModeToString(q.mode) + [NUL]);
    var options := MakeRawOptions(q.options);
    if options.Err? {
      return Err(options.error);
    }
    raw := raw + options.value;
    assert raw == [0, q.opcode] + PrintedBody(q);
    return Ok(raw);
  }

  /** A request that C strings can carry. */
  predicate SendableRequest(q: ReadWritePacket) {
    IsRequest(q.opcode) && NoNul(q.filepath) && AllSendable(q.options) && Distinct(q.options)
  }

  function FoldRequest(q: ReadWritePacket): ReadWritePacket {
    q.(options := FoldOptions(q.options))
  }

  lemma ModeLaws(mode: DataFormat)
    ensures NoNul(ModeToString(mode)) && ParseMode(ModeToString(mode)) == Ok(mode)
  {
    var t := ModeToString(mode);
    assert Fold(t) == t;
    assert |NETASCII_TEXT| != |OCTET_TEXT|;
  }

  /** The modes by their names, in letters of any case. */
  lemma KnownModes(text: seq<byte>)
    ensures ParseMode(text)
         == if Fold(text) == Ascii("netascii") then Ok(NETASCII)
            else if Fold(text) == Ascii("octet") then Ok(OCTET)
            else Err(IllegalOperation)
    ensures ModeToString(NETASCII) == Ascii("netascii") && ModeToString(OCTET) == Ascii("octet")
  {
    assert NETASCII_TEXT == Ascii("netascii") && OCTET_TEXT == Ascii("octet");
  }

  /** A request as any program may write it. */
  function WrittenRequest(opcode: byte, path: seq<byte>, text: seq<byte>, fields: seq<Field>): seq<byte> {
    [0, opcode] + (path + [NUL] + text + [NUL] + Written(fields))
  }

  predicate KnownMode(text: seq<byte>) {
    Fold(text) == Ascii("netascii") || Fold(text) == Ascii("octet")
  }

  function ModeOf(text: seq<byte>): DataFormat {
    if Fold(text) == Ascii("octet") then OCTET else NETASCII
  }

  lemma ModeIsKnown(text: seq<byte>)
    ensures ParseMode(text).Ok? <==> KnownMode(text)
    ensures ParseMode(text) == if KnownMode(text) then Ok(ModeOf(text)) else Err(IllegalOperation)
  {
    KnownModes(text);
    assert |Ascii("netascii")| != |Ascii("octet")|;
  }

  lemma BodyRead(opcode: byte, path: seq<byte>, text: seq<byte>, options: seq<byte>)
    requires NoNul(path) && NoNul(text)
    ensures var r, parsed := ParseBody(opcode, path + [NUL] + text + [NUL] + options), ParseRest(Request, options, []);
            r == if !KnownMode(text) then Err(IllegalOperation)
                 else if parsed.Err? then Err(parsed.error)
                 else Ok(ReadWritePacket(opcode, path, ModeOf(text), parsed.value))
  {
    hide FindNul, ParseRest, ParseMode, KnownMode, ModeOf, NoNul;
    ModeIsKnown(text);
    FieldsFound(path, text, options);
  }

  lemma OptionsRead(p: Parser, fields: seq<Field>)
    requires AllNulFree(fields)
    ensures var r := ParseRest(p, Written(fields), []);
            && (r.Ok? <==> AllAdmissible(p, fields) && Distinct(ReadAll(fields)))
            && (r.Ok? ==> r.value == ReadAll(fields))
  {
    hide ParseRest, Written, AllNulFree, AllAdmissible, Distinct, ReadAll;
    NothingDistinct();
    ParseWritten(p, fields, []);
    assert [] + ReadAll(fields) == ReadAll(fields);
  }

  lemma RequestRead(opcode: byte, path: seq<byte>, text: seq<byte>, fields: seq<Field>)
    requires |WrittenRequest(opcode, path, text, fields)| <= 512
    ensures ParseRequest(WrittenRequest(opcode, path, text, fields))
         == if opcode == 1 || opcode == 2 then ParseBody(opcode, path + [NUL] + text + [NUL] + Written(fields))
            else Err(IllegalOperation)
  {
    hide ParseBody, Written;
    var raw := WrittenRequest(opcode, path, text, fields);
    assert raw[2..] == path + [NUL] + text + [NUL] + Written(fields);
  }

  /** What the server makes of it: opcode 1 or 2, a mode it knows in any case,
      and options it admits, read in order and in lower case; otherwise the
      options decide what is thrown, if it comes to them. */
  lemma AnyRequest(opcode: byte, path: seq<byte>, text: seq<byte>, fields: seq<Field>)
    requires NoNul(path) && NoNul(text) && AllNulFree(fields)
    requires |WrittenRequest(opcode, path, text, fields)| <= 512
    ensures var r := ParseRequest(WrittenRequest(opcode, path, text, fields));
            var options := ParseRest(Request, Written(fields), []);
            && (!(opcode == 1 || opcode == 2) || !KnownMode(text) ==> r == Err(IllegalOperation))
            && ((opcode == 1 || opcode == 2) && KnownMode(text) && options.Err? ==> r == Err(options.error))
            && (r.Ok? <==>
                  && (opcode == 1 || opcode == 2) && KnownMode(text)
                  && AllAdmissible(Request, fields) && Distinct(ReadAll(fields)))
            && (r.Ok? ==> r.value == ReadWritePacket(opcode, path, ModeOf(text), ReadAll(fields)))
  {
    hide ParseRequest, ParseBody, ParseRest, KnownMode, ModeOf, WrittenRequest, Written, NoNul, AllNulFree,
      AllAdmissible, Distinct, ReadAll;
    RequestRead(opcode, path, text, fields);
    BodyRead(opcode, path, text, Written(fields));
    OptionsRead(Request, fields);
  }

  lemma AcceptedBody(opcode: byte, body: seq<byte>)
    returns (path: seq<byte>, text: seq<byte>, fields: seq<Field>)
    requires ParseBody(opcode, body).Ok?
    ensures NoNul(path) && NoNul(text) && AllNulFree(fields)
    ensures body == path + [NUL] + text + [NUL] + Written(fields)
  {
    hide ParseRest, ParseMode, Written, AllNulFree;
    path := body[..FindNul(body)];
    var rest := body[FindNul(body) + 1..];
    text := rest[..FindNul(rest)];
    fields := AcceptedIsWritten(Request, rest[FindNul(rest) + 1..], []);
  }

  /** And it accepts nothing else; of a longer datagram it reads the first 512 bytes. */
  lemma AcceptedRequest(raw: seq<byte>)
    returns (opcode: byte, path: seq<byte>, text: seq<byte>, fields: seq<Field>)
    requires ParseRequest(raw).Ok?
    ensures NoNul(path) && NoNul(text) && AllNulFree(fields)
    ensures (if |raw| > 512 then raw[..512] else raw) == WrittenRequest(opcode, path, text, fields)
    ensures ParseRequest(raw) == ParseRequest(if |raw| > 512 then raw[..512] else raw)
  {
    hide ParseBody, NoNul, AllNulFree, Written;
    var kept := if |raw| > 512 then raw[..512] else raw;
    opcode := raw[1];
    path, text, fields := AcceptedBody(opcode, kept[2..]);
    assert kept == [0, opcode] + kept[2..];
  }

  /** The bytes of a printed request. */
  lemma PrintedRequestBytes(q: ReadWritePacket)
    requires AllSupported(q.options)
    ensures PrintRequest(q) == Ok(WrittenRequest(q.opcode, q.filepath,
                                                 if q.mode.OCTET? then Ascii("octet") else Ascii("netascii"),
                                                 FieldsOf(q.options)))
  {
    hide Printed, Written;
    KnownModes([]);
    PrintedIsWritten(q.options);
  }

  lemma ParseFields(opcode: byte, path: seq<byte>, text: seq<byte>, tail: seq<byte>,
                    mode: DataFormat, options: seq<Opt>)
    requires NoNul(path) && NoNul(text) && ParseMode(text) == Ok(mode)
    requires ParseRest(Request, tail, []) == Ok(options)
    ensures ParseBody(opcode, path + [NUL] + text + [NUL] + tail)
         == Ok(ReadWritePacket(opcode, path, mode, options))
  {
    FieldsFound(path, text, tail);
  }

  lemma ParsePrintedBody(q: ReadWritePacket)
    requires SendableRequest(q)
    ensures AllSupported(q.options) && ParseBody(q.opcode, PrintedBody(q)) == Ok(FoldRequest(q))
  {
    ParseAfterPrint(Request, q.options);
    ModeLaws(q.mode);
    ParseFields(q.opcode, q.filepath, ModeToString(q.mode), Printed(q.options), q.mode, FoldOptions(q.options));
  }

  lemma {:induction false} FindNulPrefix(s: seq<byte>, k: nat)
    requires k <= |s| && FindNul(s[..k]) < k
    ensures FindNul(s) == FindNul(s[..k])
  {
    var n := FindNul(s[..k]);
    assert s[..n] == s[..k][..n];
    FirstNul(s, n);
  }

  /** A printed option list is not what a shorter string parses to. */
  lemma ShorterDiffers(opts: seq<Opt>, left: seq<byte>)
    requires AllSupported(opts) && |left| < |Printed(opts)|
    ensures ParseRest(Request, left, []) != Ok(FoldOptions(opts))
  {
    if ParseRest(Request, left, []) == Ok(FoldOptions(opts)) {
      PrintAfterParse(Request, left, []);
      assert FoldOptions(opts)[0..] == FoldOptions(opts);
      PrintedFolded(opts);
    }
  }

  /** What a cut string leaves after the two fields is a cut tail. */
  lemma CutFields(path: seq<byte>, text: seq<byte>, tail: seq<byte>, k: nat)
    requires NoNul(path) && NoNul(text)
    requires var body := path + [NUL] + text + [NUL] + tail; k < |body|
    ensures var cut := (path + [NUL] + text + [NUL] + tail)[..k];
            var n := FindNul(cut);
            n < |cut| ==>
              var rest := cut[n + 1..];
              var m := FindNul(rest);
              m < |rest| ==> |rest[m + 1..]| < |tail|
  {
    hide FindNul;
    var body := path + [NUL] + text + [NUL] + tail;
    var cut := body[..k];
    FieldsFound(path, text, tail);
    var n := FindNul(cut);
    if n < |cut| {
      FindNulPrefix(body, k);
      var rest := body[n + 1..];
      assert cut[n + 1..] == rest[..k - n - 1];
      if FindNul(cut[n + 1..]) < k - n - 1 {
        FindNulPrefix(rest, k - n - 1);
      }
    }
  }

  /** A body cut short is never read as the whole request. */
  lemma CutBody(q: ReadWritePacket, k: nat)
    requires SendableRequest(q) && AllSupported(q.options) && k < |PrintedBody(q)|
    ensures ParseBody(q.opcode, PrintedBody(q)[..k]).Ok? ==>
              ParseBody(q.opcode, PrintedBody(q)[..k]).value.options != FoldOptions(q.options)
  {
    var cut := PrintedBody(q)[..k];
    ModeLaws(q.mode);
    CutFields(q.filepath, ModeToString(q.mode), Printed(q.options), k);
    if ParseBody(q.opcode, cut).Ok? {
      var rest := cut[FindNul(cut) + 1..];
      ShorterDiffers(q.options, rest[FindNul(rest) + 1..]);
    }
  }

  lemma {:induction false} PrintedFolded(opts: seq<Opt>)
    requires AllSupported(opts)
    ensures AllSupported(FoldOptions(opts))
    ensures |Printed(FoldOptions(opts))| == |Printed(opts)|
  {
    if opts != [] {
      PrintedFolded(opts[1..]);
      assert FoldOptions(opts)[1..] == FoldOptions(opts[1..]);
    }
  }

  lemma PrintedBodyLength(q: ReadWritePacket)
    requires AllSupported(q.options)
    ensures |PrintedBody(q)| >= 2
  {
  }

  /** Parse after print: the server reads back the client's opcode, path, mode
      and options, values in lower case, exactly when the printed request has at
      most 512 bytes. */
  lemma RequestRoundTrip(q: ReadWritePacket)
    requires SendableRequest(q)
    ensures PrintRequest(q).Ok?
    ensures ParseRequest(PrintRequest(q).value) == Ok(FoldRequest(q))
       <==> |PrintRequest(q).value| <= 512
    ensures |PrintRequest(q).value| > 512 ==>
              ParseRequest(PrintRequest(q).value).Err?
              || ParseRequest(PrintRequest(q).value).value.options != FoldOptions(q.options)
  {
    hide ParseBody, PrintedBody, Printed, NoNul, AllSendable;
    ParsePrintedBody(q);
    var raw, body := PrintRequest(q).value, PrintedBody(q);
    assert raw[2..] == body;
    assert |raw| == 2 + |body|;
    PrintedBodyLength(q);
    if |raw| > MAX_REQUEST_LENGTH {
      var k := MAX_REQUEST_LENGTH - 2;
      CutBody(q, k);
      assert raw[..MAX_REQUEST_LENGTH][2..] == body[..k];
      assert ParseRequest(raw) == ParseBody(q.opcode, body[..k]);
    } else {
      assert ParseRequest(raw) == ParseBody(q.opcode, body);
    }
  }
}
