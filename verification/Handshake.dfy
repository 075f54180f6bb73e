/** The whole negotiation, end to end: request printed, parsed and negotiated,
    OACK printed, parsed and validated. */
module Handshake {
  import opened Bytes
  import opened FileWriter
  import opened Numbers
  import opened Packets
  import opened Options
  import opened OptionLaws
  import opened Requests
  import opened Negotiation
  import opened ClientProgram
  import opened Server

  /** The options as the server read and as the client accepted them, and the
      fields both ends are left with. */
  datatype Terms =
    Terms(atServer: seq<Opt>, atClient: seq<Opt>, server: Params, client: Params)

  /** The server's part: the options it read, its fields, and its OACK, empty
      when no option came. */
  datatype Served = Served(options: seq<Opt>, params: Params, oack: seq<byte>)

  function Serve(request: seq<byte>): Result<Served> {
    var received :- ParseRequest(request);
    var n := Negotiate(DEFAULTS, received.options);
    if n.failed then Err(OutOfRange)
    else if received.options == [] then Ok(Served([], n.params, []))
    else
      var oack :- PrintOack(n.options);
      Ok(Served(received.options, n.params, oack))
  }

  function Negotiating(q: ReadWritePacket): Result<Terms>
    requires AllChecked(q.options)
  {
    var request :- PrintRequest(q);
    var served :- Serve(request);
    var asked := Setup(DEFAULTS, q.options);
    if served.options == [] then Ok(Terms([], [], served.params, asked))
    else
      var accepted :- AcceptOack(served.oack, q.options);
      assert AllChecked(accepted) by { AcceptedChecked(served.oack, q.options); }
      Ok(Terms(served.options, accepted, served.params, Setup(asked, accepted)))
  }

  lemma RequestChecked(raw: seq<byte>)
    requires ParseRequest(raw).Ok?
    ensures AllChecked(ParseRequest(raw).value.options)
  {
    hide FindNul, ParseRest;
    var body := (if |raw| > MAX_REQUEST_LENGTH then raw[..MAX_REQUEST_LENGTH] else raw)[2..];
    var rest := body[FindNul(body) + 1..];
    ParsedChecked(Request, rest[FindNul(rest) + 1..], []);
  }

  /** The same by the methods of the two ends. */
  method NegotiateOverTheWire(opcode: byte, filepath: seq<byte>, client: TftpClient, server: ClientHandler)
    returns (r: Result<()>)
    requires client.Valid() && client.udp != server.udp
    requires client.Fields() == Setup(DEFAULTS, client.options) && server.Fields() == DEFAULTS
    modifies client, server, client.udp`socketTimeout, server.udp`socketTimeout
    ensures var agreed := Negotiating(ReadWritePacket(opcode, filepath, OCTET, old(client.options)));
            if agreed.Err? then
              r == Err(agreed.error) && client.options == old(client.options) && client.Fields() == old(client.Fields())
            else
              r == Ok(()) && client.options == agreed.value.atClient
              && client.Fields() == agreed.value.client && server.Fields() == agreed.value.server
  {
    var request := MakeRaw(ReadWritePacket(opcode, filepath, OCTET, client.options));
    if request.Err? {
      return Err(request.error);
    }
    var received := FromRaw(request.value);
    if received.Err? {
      return Err(received.error);
    }
    RequestChecked(request.value);
    var negotiated := server.NegotiateOptions(received.value.options);
    if negotiated.Err? {
      return Err(negotiated.error);
    }
    if received.value.options == [] {
      // The server answers with ACK 0 or DATA 1, and the client drops its options.
      client.options := [];
      client.SetupUdpClient();
      return Ok(());
    }
    var options := MakeRawOptions(negotiated.value);
    if options.Err? {
      return Err(options.error);
    }
    r := client.TakeOack([0, OPCODE_OACK] + options.value);
  }

  /** std::stoi takes the transfer size. */
  predicate TsizeFits(opts: seq<Opt>) {
    forall i :: 0 <= i < |opts| && opts[i].name.TSIZE? ==> Stoi(opts[i].value).Value?
  }

  lemma {:induction false} SupportedPrints(opts: seq<Opt>)
    ensures AllSupported(Supported(opts))
  {
    if opts != [] {
      SupportedPrints(opts[..|opts| - 1]);
    }
  }

  /** Checked options convert, all but a transfer size that does not fit an int. */
  lemma OnlyTsizeFails(opts: seq<Opt>)
    requires AllChecked(opts)
    ensures (exists i :: 0 <= i < |opts| && Unconvertible(opts[i])) <==> !TsizeFits(opts)
  {
    forall i | 0 <= i < |opts|
      ensures Unconvertible(opts[i]) <==> opts[i].name.TSIZE? && !Stoi(opts[i].value).Value?
    {
      if opts[i].name.BLKSIZE? || opts[i].name.TIMEOUT? {
        CheckedConverts(opts[i]);
      }
    }
  }

  /** The server's answer to a request as any program may write it: options it
      does not support are left out of the OACK, all others are granted as
      asked, and without options there is no OACK; only a transfer size that
      does not fit an int makes it throw (RFC 2347). */
  lemma AnyRequestServed(opcode: byte, path: seq<byte>, text: seq<byte>, fields: seq<Field>)
    requires NoNul(path) && NoNul(text) && AllNulFree(fields)
    requires |WrittenRequest(opcode, path, text, fields)| <= 512
    requires (opcode == 1 || opcode == 2) && KnownMode(text)
    requires AllAdmissible(Request, fields) && Distinct(ReadAll(fields))
    ensures var opts, served := ReadAll(fields), Serve(WrittenRequest(opcode, path, text, fields));
            && (served.Ok? <==> TsizeFits(opts))
            && (served.Err? ==> served.error.OutOfRange?)
            && AllSupported(Supported(opts))
            && (served.Ok? ==>
                  && served.value.options == opts
                  && served.value.oack == (if fields == [] then [] else [0, 6] + Printed(Supported(opts)))
                  && served.value.params == Params(Asked(opts, BLKSIZE, 512), Asked(opts, TIMEOUT, 1),
                                                   Asked(opts, TSIZE, 0), Asked(opts, TIMEOUT, 1)))
  {
    hide ParseRequest, WrittenRequest, NoNul, AllNulFree, AllAdmissible, Distinct, KnownMode, ReadAll, Supported,
      Negotiate, Asked, TsizeFits, AllSupported, Printed, AllChecked;
    var opts, raw := ReadAll(fields), WrittenRequest(opcode, path, text, fields);
    AnyRequest(opcode, path, text, fields);
    RequestChecked(raw);
    NegotiateExactly(DEFAULTS, opts);
    OnlyTsizeFails(opts);
    SupportedPrints(opts);
    assert |opts| == |fields|;
  }

  lemma FoldedLaws(opts: seq<Opt>)
    requires AllSendable(opts)
    ensures var f := FoldOptions(opts);
            && AllSendable(f) && AllChecked(opts) && FoldOptions(f) == f
            && (Distinct(opts) ==> Distinct(f))
            && (TsizeFits(f) <==> TsizeFits(opts))
            && forall i :: 0 <= i < |opts| ==> Stoi(f[i].value) == Stoi(opts[i].value)
  {
    var f := FoldOptions(opts);
    forall i | 0 <= i < |opts|
      ensures Sendable(f[i]) && FoldOption(f[i]) == f[i] && Stoi(f[i].value) == Stoi(opts[i].value)
    {
      ConversionsFold(opts[i].value);
      FoldTwice(opts[i].value);
    }
    forall i | 0 <= i < |opts| && opts[i].name.TSIZE?
      ensures Stoi(f[i].value).Value? <==> Stoi(opts[i].value).Value?
    {
    }
    assert FoldOptions(f) == f;
  }

  lemma FoldOptionsFront(opts: seq<Opt>)
    requires opts != []
    ensures FoldOptions(opts)[..|opts| - 1] == FoldOptions(opts[..|opts| - 1])
  {
  }

  lemma {:induction false} AskedFolded(opts: seq<Opt>, name: Name, default: int)
    ensures Asked(FoldOptions(opts), name, default) == Asked(opts, name, default)
  {
    if opts != [] {
      ConversionsFold(opts[|opts| - 1].value);
      AskedFolded(opts[..|opts| - 1], name, default);
      FoldOptionsFront(opts);
    }
  }

  lemma AskedTwice(opts: seq<Opt>, name: Name, default: int)
    ensures Asked(opts, name, Asked(opts, name, default)) == Asked(opts, name, default)
  {
    AskedAgain(opts, name, default, Asked(opts, name, default));
  }

  lemma {:induction false} AskedAgain(opts: seq<Opt>, name: Name, a: int, b: int)
    ensures Asked(opts, name, a) == Asked(opts, name, b)
            || (Asked(opts, name, a) == a && Asked(opts, name, b) == b)
  {
    if opts != [] {
      AskedAgain(opts[..|opts| - 1], name, a, b);
    }
  }

  /** The server takes every option, unless the transfer size does not fit an int. */
  lemma ServerTakes(opts: seq<Opt>)
    requires AllSendable(opts)
    ensures var n := Negotiate(DEFAULTS, opts);
            && (n.failed <==> !TsizeFits(opts))
            && (!n.failed ==> n.options == opts
                              && n.params.blksize == Asked(opts, BLKSIZE, 512)
                              && n.params.timeout == Asked(opts, TIMEOUT, 1)
                              && n.params.socket == Asked(opts, TIMEOUT, 1))
  {
    SupportedSent(opts);
    SupportedIsAll(opts);
    NegotiateExactly(DEFAULTS, opts);
    OnlyTsizeFails(opts);
  }

  lemma {:induction false} ClientTakes(p: Params, opts: seq<Opt>)
    requires AllChecked(opts)
    ensures Setup(p, opts).blksize == Asked(opts, BLKSIZE, p.blksize)
    ensures Setup(p, opts).timeout == Asked(opts, TIMEOUT, p.timeout)
    ensures Setup(p, opts).socket == Asked(opts, TIMEOUT, p.socket)
  {
    if opts != [] {
      var last := opts[|opts| - 1];
      ClientTakes(p, opts[..|opts| - 1]);
      if last.name.BLKSIZE? || last.name.TIMEOUT? {
        CheckedConverts(last);
      }
    }
  }

  lemma {:induction false} AskedInRange(opts: seq<Opt>)
    requires AllChecked(opts)
    ensures MIN_BLOCK_SIZE <= Asked(opts, BLKSIZE, 512) <= MAX_BLOCK_SIZE
  {
    if opts != [] {
      var last := opts[|opts| - 1];
      AskedInRange(opts[..|opts| - 1]);
      if last.name.BLKSIZE? {
        CheckedConverts(last);
      }
    }
  }

  lemma PairWithFolded(o: Opt)
    requires !o.name.UNSUPPORTED? && Stoi(o.value).Value?
    ensures CheckPair(FoldOption(o), o) == Ok(true)
  {
    ConversionsFold(o.value);
  }

  lemma SentConverts(opts: seq<Opt>, i: nat)
    requires AllSendable(opts) && TsizeFits(opts) && i < |opts|
    ensures Stoi(opts[i].value).Value?
  {
    assert Sendable(opts[i]);
    if !opts[i].name.TSIZE? {
      CheckedConverts(opts[i]);
    }
  }

  /** A folded option against one the client asked for. */
  lemma PairOf(opts: seq<Opt>, i: nat, k: nat)
    requires AllSendable(opts) && Distinct(opts) && TsizeFits(opts) && i < |opts| && k < |opts|
    ensures CheckPair(FoldOption(opts[i]), opts[k]) == Ok(i == k)
  {
    hide AllSendable, TsizeFits;
    if i == k {
      SentConverts(opts, i);
      SupportedSent(opts);
      PairWithFolded(opts[i]);
    } else {
      assert opts[i].name != opts[k].name;
    }
  }

  /** An option that came back folded is found once, with the same value. */
  lemma {:induction false} FoundOnce(opts: seq<Opt>, i: nat, k: nat)
    requires AllSendable(opts) && Distinct(opts) && TsizeFits(opts) && i < |opts| && k <= |opts|
    ensures CheckAgainst(FoldOption(opts[i]), opts[..k]) == Ok(i < k)
    decreases k
  {
    if k > 0 {
      hide AllSendable, TsizeFits, Distinct, CheckPair;
      FoundOnce(opts, i, k - 1);
      PairOf(opts, i, k - 1);
      assert opts[..k][..k - 1] == opts[..k - 1] && opts[..k][k - 1] == opts[k - 1];
    }
  }

  lemma {:induction false} FoldedValidates(opts: seq<Opt>, k: nat)
    requires AllSendable(opts) && Distinct(opts) && TsizeFits(opts) && k <= |opts|
    ensures Validate(FoldOptions(opts)[..k], opts) == Ok(())
  {
    var f := FoldOptions(opts);
    if k > 0 {
      hide AllSendable, TsizeFits, Distinct, CheckAgainst;
      FoldedValidates(opts, k - 1);
      assert f[..k][..k - 1] == f[..k - 1];
      FoundOnce(opts, k - 1, |opts|);
      assert opts[..|opts|] == opts;
    }
  }

  lemma OackAccepted(opts: seq<Opt>)
    requires AllSendable(opts) && Distinct(opts) && TsizeFits(opts)
    ensures var f := FoldOptions(opts);
            && PrintOack(f).Ok?
            && AcceptOack(PrintOack(f).value, opts) == Ok(f)
  {
    var f := FoldOptions(opts);
    FoldedLaws(opts);
    ParseAfterPrint(Oack, f);
    assert ([0, OPCODE_OACK] + Printed(f))[2..] == Printed(f);
    FoldedValidates(opts, |opts|);
    assert f[..|opts|] == f;
  }

  /** Agreement: both ends end up with the options the client sent, values in
      lower case, exactly when the request has at most 512 bytes and the
      transfer size fits an int. */
  predicate Agreed(q: ReadWritePacket)
    requires AllChecked(q.options)
  {
    var r := Negotiating(q);
    r.Ok? && r.value.atServer == FoldOptions(q.options) && r.value.atClient == FoldOptions(q.options)
  }

  lemma ServedInFull(q: ReadWritePacket)
    requires SendableRequest(q) && PrintRequest(q).Ok?
    requires ParseRequest(PrintRequest(q).value) == Ok(FoldRequest(q))
    ensures var f := FoldOptions(q.options);
            var served := Serve(PrintRequest(q).value);
            && AllSupported(f)
            && (served.Ok? <==> TsizeFits(q.options))
            && (served.Ok? ==>
                  served == Ok(Served(f, Negotiate(DEFAULTS, f).params,
                                      if f == [] then [] else PrintOack(f).value)))
  {
    var f := FoldOptions(q.options);
    FoldedLaws(q.options);
    SupportedSent(f);
    ServerTakes(f);
  }

  lemma ReadInFull(q: ReadWritePacket)
    requires SendableRequest(q) && AllChecked(q.options) && PrintRequest(q).Ok?
    requires ParseRequest(PrintRequest(q).value) == Ok(FoldRequest(q))
    ensures Agreed(q) <==> TsizeFits(q.options)
    ensures var f := FoldOptions(q.options);
            AllChecked(f)
            && (TsizeFits(q.options) ==>
                  Negotiating(q) == Ok(Terms(f, f, Negotiate(DEFAULTS, f).params,
                                             Setup(Setup(DEFAULTS, q.options), f))))
  {
    var f := FoldOptions(q.options);
    ServedInFull(q);
    FoldedLaws(q.options);
    FoldedLaws(f);
    if TsizeFits(q.options) {
      OackAccepted(q.options);
    }
  }

  lemma ReadInPart(q: ReadWritePacket)
    requires SendableRequest(q) && AllChecked(q.options) && PrintRequest(q).Ok?
    requires var r := ParseRequest(PrintRequest(q).value);
             r.Err? || r.value.options != FoldOptions(q.options)
    ensures !Agreed(q)
  {
    var raw := PrintRequest(q).value;
    assert Serve(raw).Ok? ==> Serve(raw).value.options == ParseRequest(raw).value.options;
  }

  lemma AgreedExactly(q: ReadWritePacket)
    requires SendableRequest(q)
    ensures AllChecked(q.options) && PrintRequest(q).Ok?
    ensures Agreed(q) <==> |PrintRequest(q).value| <= 512 && TsizeFits(q.options)
  {
    FoldedLaws(q.options);
    RequestRoundTrip(q);
    if |PrintRequest(q).value| <= MAX_REQUEST_LENGTH {
      ReadInFull(q);
    } else {
      ReadInPart(q);
    }
  }

  /** Then both block sizes are equal and legal, 512 when none was asked for,
      and so are the timeouts. */
  lemma AgreedBlockSize(q: ReadWritePacket)
    requires SendableRequest(q) && AllChecked(q.options) && Agreed(q)
    ensures var r := Negotiating(q).value;
            && r.server.blksize == r.client.blksize == Asked(q.options, BLKSIZE, 512)
            && 8 <= r.server.blksize <= 65464
            && r.server.timeout == r.client.timeout && r.server.socket == r.client.socket
  {
    var opts, f := q.options, FoldOptions(q.options);
    AgreedExactly(q);
    RequestRoundTrip(q);
    ReadInFull(q);
    FoldedLaws(opts);
    ServerTakes(f);
    AskedFolded(opts, BLKSIZE, 512);
    AskedFolded(opts, TIMEOUT, 1);
    AskedInRange(opts);
    ClientTakes(DEFAULTS, opts);
    var asked := Setup(DEFAULTS, opts);
    ClientTakes(asked, f);
    AskedFolded(opts, BLKSIZE, asked.blksize);
    AskedFolded(opts, TIMEOUT, asked.timeout);
    AskedTwice(opts, BLKSIZE, 512);
    AskedTwice(opts, TIMEOUT, 1);
  }

  /** Where the value asked for comes from. */
  lemma {:induction false} AskedFrom(opts: seq<Opt>, name: Name, default: int)
    ensures Asked(opts, name, default) == default
            || exists i :: 0 <= i < |opts| && opts[i].name == name
                           && Stoi(opts[i].value) == Value(Asked(opts, name, default))
  {
    if opts != [] {
      var front, last := opts[..|opts| - 1], opts[|opts| - 1];
      AskedFrom(front, name, default);
      if last.name != name || !Stoi(last.value).Value? {
        if Asked(front, name, default) != default {
          var i :| 0 <= i < |front| && front[i].name == name
                   && Stoi(front[i].value) == Value(Asked(front, name, default));
          assert opts[i] == front[i];
        }
      }
    }
  }

  /** A value no larger than any asked for, when one was, is no larger than the one in force. */
  lemma {:induction false} AskedAtLeast(opts: seq<Opt>, name: Name, default: int, v: int)
    requires Listed(opts, name)
    requires forall j :: 0 <= j < |opts| && opts[j].name == name ==>
                           Stoi(opts[j].value).Value? && v <= Stoi(opts[j].value).n
    ensures v <= Asked(opts, name, default)
  {
    var front, last := opts[..|opts| - 1], opts[|opts| - 1];
    if last.name != name {
      var i :| 0 <= i < |opts| && opts[i].name == name;
      assert front[i].name == name;
      AskedAtLeast(front, name, default, v);
    }
  }

  /** Whatever server answers: an OACK the client accepts leaves it with a legal
      block size no larger than the one it asked for. */
  lemma AnyOackShrinks(raw: seq<byte>, requested: seq<Opt>)
    requires AllChecked(requested) && AcceptOack(raw, requested).Ok?
    ensures var accepted := AcceptOack(raw, requested).value;
            var asked := Setup(DEFAULTS, requested);
            && AllChecked(accepted)
            && 8 <= Setup(asked, accepted).blksize <= asked.blksize <= 65464
  {
    var accepted := AcceptOack(raw, requested).value;
    AcceptedChecked(raw, requested);
    ValidateExactly(accepted, requested);
    ClientTakes(DEFAULTS, requested);
    AskedInRange(requested);
    var asked := Setup(DEFAULTS, requested);
    ClientTakes(asked, accepted);
    AskedFrom(accepted, BLKSIZE, asked.blksize);
    var v := Asked(accepted, BLKSIZE, asked.blksize);
    if v != asked.blksize {
      var i :| 0 <= i < |accepted| && accepted[i].name == BLKSIZE && Stoi(accepted[i].value) == Value(v);
      CheckedConverts(accepted[i]);
      assert AcceptableTo(accepted[i], requested);
      forall j | 0 <= j < |requested| && requested[j].name == BLKSIZE
        ensures Stoi(requested[j].value).Value? && v <= Stoi(requested[j].value).n
      {
        assert Acceptable(accepted[i], requested[j]);
      }
      AskedAtLeast(requested, BLKSIZE, 512, v);
    }
  }

  /** A block size printed in decimal makes an option exactly when it is legal,
      and print can carry that option. */
  lemma DecimalOption(n: nat)
    ensures var made := MakeOption(BLKSIZE_NAME, Decimal(n));
            && (made.Ok? <==> 8 <= n <= 65464)
            && (made.Ok? ==> Sendable(made.value) && made.value.name == BLKSIZE && Stoi(made.value.value) == Value(n))
  {
    var made := MakeOption(BLKSIZE_NAME, Decimal(n));
    NameTextLaws(BLKSIZE);
    DecimalConverts([], [], [], n, []);
    assert [] + ([] + ([] + Decimal(n) + [])) == Decimal(n);
    if made.Ok? {
      assert NoNul(made.value.value);
      SendableExactly(made.value);
    }
  }

  lemma {:induction false} AskedOnce(opts: seq<Opt>, i: nat, name: Name, default: int)
    requires i < |opts| && Distinct(opts) && opts[i].name == name && Stoi(opts[i].value).Value?
    ensures Asked(opts, name, default) == Stoi(opts[i].value).n
  {
    var last := |opts| - 1;
    if i < last {
      assert opts[i].name != opts[last].name;
      AskedOnce(opts[..last], i, name, default);
    }
  }

  /** A client that asks for n bytes a block, as users write numbers, gets them:
      after an agreed negotiation both ends use n. */
  lemma BlockSizeAsAsked(q: ReadWritePacket, n: nat)
    requires SendableRequest(q) && AllChecked(q.options) && Agreed(q)
    requires MakeOption(BLKSIZE_NAME, Decimal(n)).Ok? && MakeOption(BLKSIZE_NAME, Decimal(n)).value in q.options
    ensures Negotiating(q).value.client.blksize == Negotiating(q).value.server.blksize == n
  {
    hide Agreed, Negotiating, MakeOption, Asked, Decimal;
    DecimalOption(n);
    var i :| 0 <= i < |q.options| && q.options[i] == MakeOption(BLKSIZE_NAME, Decimal(n)).value;
    AskedOnce(q.options, i, BLKSIZE, 512);
    AgreedBlockSize(q);
  }
}
