/** Option negotiation over the wire: ClientHandler::NegotiateOptions at the
    server, ValidateOptionsInOack and SetupUdpClient at the client (RFC 2347,
    RFC 2348). */
module Negotiation {
  import opened Bytes
  import opened Numbers
  import opened Packets
  import opened Options
  import opened OptionLaws
  import opened Requests

  /** The fields blksize_, timeout_.tv_sec and tsize_ of an end, and the timeout
      of its socket. */
  datatype Params = Params(blksize: int, timeout: int, tsize: int, socket: int) {
    /** Fit for a transfer. */
    predicate Usable() {
      MIN_BLOCK_SIZE <= blksize <= MAX_BLOCK_SIZE && socket > 0
    }
  }

  const DEFAULTS := Params(512, 1, 0, 1)

  /** How far NegotiateOptions has come; failed when std::stoi threw. */
  datatype Negotiated = Negotiated(params: Params, options: seq<Opt>, failed: bool)

  function NegotiateOne(n: Negotiated, o: Opt): Negotiated {
    if n.failed || o.name.UNSUPPORTED? then n
    else if !Stoi(o.value).Value? then n.(failed := true)
    else
      var v, options := Stoi(o.value).n, n.options + [o];
      match o.name
      case BLKSIZE => Negotiated(n.params.(blksize := v), options, false)
      case TIMEOUT => Negotiated(n.params.(timeout := v, socket := v), options, false)
      case _ => Negotiated(n.params.(tsize := v), options, false)
  }

  function Negotiate(params: Params, opts: seq<Opt>): Negotiated {
    if opts == [] then Negotiated(params, [], false)
    else NegotiateOne(Negotiate(params, opts[..|opts| - 1]), opts[|opts| - 1])
  }

  lemma {:induction false} NegotiateStuck(params: Params, opts: seq<Opt>, k: nat)
    requires k <= |opts| && Negotiate(params, opts[..k]).failed
    ensures Negotiate(params, opts) == Negotiate(params, opts[..k])
    decreases |opts| - k
  {
    if k < |opts| {
      assert opts[..k + 1][..k] == opts[..k];
      NegotiateStuck(params, opts, k + 1);
    } else {
      assert opts[..k] == opts;
    }
  }

  /** The value the last option of a name asks for. */
  function Asked(opts: seq<Opt>, name: Name, default: int): int {
    if opts == [] then default
    else
      var last := opts[|opts| - 1];
      if last.name == name && Stoi(last.value).Value? then Stoi(last.value).n
      else Asked(opts[..|opts| - 1], name, default)
  }

  /** The options the program supports, in order. */
  function Supported(opts: seq<Opt>): seq<Opt> {
    if opts == [] then []
    else
      var last := opts[|opts| - 1];
      Supported(opts[..|opts| - 1]) + (if last.name.UNSUPPORTED? then [] else [last])
  }

  lemma {:induction false} SupportedIsAll(opts: seq<Opt>)
    requires AllSupported(opts)
    ensures Supported(opts) == opts
  {
    if opts != [] {
      SupportedIsAll(opts[..|opts| - 1]);
    }
  }

  predicate Unconvertible(o: Opt) {
    !o.name.UNSUPPORTED? && !Stoi(o.value).Value?
  }

  /** The server's negotiation of any option list: it fails exactly when a
      supported option's value does not convert; otherwise options it does not
      support are ignored and all others are granted, in order, and each field
      is what the last option of its name asks for. */
  lemma {:induction false} NegotiateExactly(params: Params, opts: seq<Opt>)
    ensures var n := Negotiate(params, opts);
            && (n.failed <==> exists i :: 0 <= i < |opts| && Unconvertible(opts[i]))
            && (!n.failed ==>
                  && n.options == Supported(opts)
                  && n.params == Params(Asked(opts, BLKSIZE, params.blksize), Asked(opts, TIMEOUT, params.timeout),
                                        Asked(opts, TSIZE, params.tsize), Asked(opts, TIMEOUT, params.socket)))
  {
    if opts != [] {
      var front, last := opts[..|opts| - 1], opts[|opts| - 1];
      NegotiateExactly(params, front);
      assert forall i :: 0 <= i < |front| ==> front[i] == opts[i];
      assert opts == front + [last];
    }
  }

  /** One option of the OACK against one the client asked for. */
  function CheckPair(o: Opt, c: Opt): Result<bool> {
    if o.name != c.name then Ok(false)
    else if o.name.UNSUPPORTED? then Err(IllegalOperation)
    else if !Stoi(o.value).Value? || !Stoi(c.value).Value? then Err(OutOfRange)
    else if o.name.BLKSIZE? then
      if Stoi(o.value).n > Stoi(c.value).n then Err(IllegalOperation) else Ok(true)
    else if Stoi(o.value).n != Stoi(c.value).n then Err(IllegalOperation) else Ok(true)
  }

  /** The inner loop: whether the name was found, unless a check threw. */
  function CheckAgainst(o: Opt, requested: seq<Opt>): Result<bool> {
    if requested == [] then Ok(false)
    else
      var found :- CheckAgainst(o, requested[..|requested| - 1]);
      var here :- CheckPair(o, requested[|requested| - 1]);
      Ok(found || here)
  }

  function CheckOne(o: Opt, requested: seq<Opt>): Result<()> {
    var found :- CheckAgainst(o, requested);
    if found then Ok(()) else Err(IllegalOperation)
  }

  function Validate(oack: seq<Opt>, requested: seq<Opt>): Result<()> {
    if oack == [] then Ok(())
    else
      var _ :- Validate(oack[..|oack| - 1], requested);
      CheckOne(oack[|oack| - 1], requested)
  }

  lemma {:induction false} ValidateStops(oack: seq<Opt>, requested: seq<Opt>, k: nat)
    requires k <= |oack| && Validate(oack[..k], requested).Err?
    ensures Validate(oack, requested) == Validate(oack[..k], requested)
    decreases |oack| - k
  {
    if k < |oack| {
      assert oack[..k + 1][..k] == oack[..k];
      ValidateStops(oack, requested, k + 1);
    } else {
      assert oack[..k] == oack;
    }
  }

  lemma {:induction false} CheckStops(o: Opt, requested: seq<Opt>, k: nat)
    requires k <= |requested| && CheckAgainst(o, requested[..k]).Err?
    ensures CheckAgainst(o, requested) == CheckAgainst(o, requested[..k])
    decreases |requested| - k
  {
    if k < |requested| {
      assert requested[..k + 1][..k] == requested[..k];
      CheckStops(o, requested, k + 1);
    } else {
      assert requested[..k] == requested;
    }
  }

  /** Options whose values passed the constructor's checks. */
  predicate AllChecked(opts: seq<Opt>) {
    forall i :: 0 <= i < |opts| ==> CheckValue(opts[i].name, opts[i].value).Ok?
  }

  lemma CheckedConverts(o: Opt)
    requires CheckValue(o.name, o.value).Ok? && (o.name.BLKSIZE? || o.name.TIMEOUT?)
    ensures Stoi(o.value).Value?
    ensures o.name.BLKSIZE? ==> MIN_BLOCK_SIZE <= Stoi(o.value).n <= MAX_BLOCK_SIZE
    ensures o.name.TIMEOUT? ==> MIN_TIMEOUT <= Stoi(o.value).n <= MAX_TIMEOUT
  {
  }

  function SetupOne(p: Params, o: Opt): Params
    requires CheckValue(o.name, o.value).Ok?
  {
    if o.name.BLKSIZE? then CheckedConverts(o); p.(blksize := Stoi(o.value).n)
    else if o.name.TIMEOUT? then CheckedConverts(o); p.(timeout := Stoi(o.value).n, socket := Stoi(o.value).n)
    else p
  }

  function Setup(p: Params, opts: seq<Opt>): Params
    requires AllChecked(opts)
  {
    if opts == [] then p
    else SetupOne(Setup(p, opts[..|opts| - 1]), opts[|opts| - 1])
  }

  /** Block size and timeout do not depend on the socket's timeout before. */
  lemma {:induction false} SetupIgnoresSocket(p: Params, socket: int, opts: seq<Opt>)
    requires AllChecked(opts)
    ensures Setup(p.(socket := socket), opts).blksize == Setup(p, opts).blksize
    ensures Setup(p.(socket := socket), opts).timeout == Setup(p, opts).timeout
  {
    if opts != [] {
      SetupIgnoresSocket(p, socket, opts[..|opts| - 1]);
    }
  }

  lemma {:induction false} SetupKeepsUsable(p: Params, opts: seq<Opt>)
    requires AllChecked(opts) && p.Usable()
    ensures Setup(p, opts).Usable()
  {
    if opts != [] {
      var last := opts[|opts| - 1];
      SetupKeepsUsable(p, opts[..|opts| - 1]);
      if last.name.BLKSIZE? || last.name.TIMEOUT? {
        CheckedConverts(last);
      }
    }
  }

  function PrintOack(opts: seq<Opt>): Result<seq<byte>> {
    if AllSupported(opts) then Ok([0, OPCODE_OACK] + Printed(opts)) else Err(UnsupportedOption)
  }

  function ParseOack(raw: seq<byte>): Result<seq<Opt>> {
    var opcode :- OpcodeOf(raw);
    if opcode != OPCODE_OACK then Err(IllegalOperation) else ParseRest(Oack, raw[2..], [])
  }

  /** What the client makes of an OACK: the options it will use. */
  function AcceptOack(raw: seq<byte>, requested: seq<Opt>): Result<seq<Opt>> {
    var opts :- ParseOack(raw);
    if |requested| < |opts| then Err(IllegalOperation)
    else
      var _ :- Validate(opts, requested);
      Ok(opts)
  }

  lemma OneChecked(p: Parser, s: seq<byte>, parsed: seq<Opt>)
    requires s != [] && ParseOne(p, s, parsed).Ok?
    ensures var o := ParseOne(p, s, parsed).value.0; CheckValue(o.name, o.value).Ok?
  {
    hide CheckValue, NameOf, FindNul, Fold;
  }

  lemma {:induction false} ParsedChecked(p: Parser, s: seq<byte>, parsed: seq<Opt>)
    requires AllChecked(parsed) && ParseRest(p, s, parsed).Ok?
    ensures AllChecked(ParseRest(p, s, parsed).value)
    decreases |s|
  {
    if s != [] {
      hide ParseOne, CheckValue;
      OneChecked(p, s, parsed);
      var (o, rest) := ParseOne(p, s, parsed).value;
      ParsedChecked(p, rest, parsed + [o]);
    }
  }

  lemma AcceptedChecked(oack: seq<byte>, requested: seq<Opt>)
    requires AcceptOack(oack, requested).Ok?
    ensures AllChecked(AcceptOack(oack, requested).value)
  {
    ParsedChecked(Oack, oack[2..], []);
  }

  /** What the client demands of an OACK option against one it asked for. */
  predicate Acceptable(o: Opt, c: Opt) {
    o.name == c.name ==>
      && !o.name.UNSUPPORTED?
      && Stoi(o.value).Value? && Stoi(c.value).Value?
      && if o.name.BLKSIZE? then Stoi(o.value).n <= Stoi(c.value).n else Stoi(o.value).n == Stoi(c.value).n
  }

  predicate AcceptableTo(o: Opt, requested: seq<Opt>) {
    Listed(requested, o.name) && forall j :: 0 <= j < |requested| ==> Acceptable(o, requested[j])
  }

  lemma CheckPairMeans(o: Opt, c: Opt)
    ensures CheckPair(o, c).Ok? <==> Acceptable(o, c)
    ensures CheckPair(o, c).Ok? ==> (CheckPair(o, c).value <==> o.name == c.name)
  {
  }

  lemma NothingListed(name: Name)
    ensures !Listed([], name)
  {
  }

  lemma ListedFront(opts: seq<Opt>, name: Name)
    requires opts != []
    ensures Listed(opts, name) <==> Listed(opts[..|opts| - 1], name) || opts[|opts| - 1].name == name
  {
    var front, last := opts[..|opts| - 1], |opts| - 1;
    if Listed(front, name) {
      var i :| 0 <= i < |front| && front[i].name == name;
      assert opts[i].name == name;
    }
    if Listed(opts, name) && opts[last].name != name {
      var i :| 0 <= i < |opts| && opts[i].name == name;
      assert front[i].name == name;
    }
  }

  lemma {:induction false} CheckAgainstMeans(o: Opt, requested: seq<Opt>)
    ensures CheckAgainst(o, requested).Ok?
       <==> forall j :: 0 <= j < |requested| ==> Acceptable(o, requested[j])
    ensures CheckAgainst(o, requested).Ok? ==>
              (CheckAgainst(o, requested).value <==> Listed(requested, o.name))
  {
    NothingListed(o.name);
    hide CheckPair, Acceptable, Listed;
    if requested != [] {
      var front, last := requested[..|requested| - 1], requested[|requested| - 1];
      CheckAgainstMeans(o, front);
      CheckPairMeans(o, last);
      ListedFront(requested, o.name);
      assert requested == front + [last];
    }
  }

  /** An OACK is accepted exactly when each of its options was asked for and
      agrees with what was asked: block size at most, the others the same. */
  lemma {:induction false} ValidateExactly(oack: seq<Opt>, requested: seq<Opt>)
    ensures Validate(oack, requested).Ok?
       <==> forall i :: 0 <= i < |oack| ==> AcceptableTo(oack[i], requested)
  {
    if oack != [] {
      var front, last := oack[..|oack| - 1], oack[|oack| - 1];
      ValidateExactly(front, requested);
      CheckAgainstMeans(last, requested);
      assert oack == front + [last];
    }
  }

  /** Distinct names that all stand in a list are no more than it has. */
  lemma {:induction false} ListedAreFewer(opts: seq<Opt>, requested: seq<Opt>)
    requires Distinct(opts) && forall i :: 0 <= i < |opts| ==> Listed(requested, opts[i].name)
    ensures |opts| <= |requested|
    decreases |opts|
  {
    if opts != [] {
      var front, last := opts[..|opts| - 1], opts[|opts| - 1];
      var j :| 0 <= j < |requested| && requested[j].name == last.name;
      var others := requested[..j] + requested[j + 1..];
      forall i | 0 <= i < |front|
        ensures Listed(others, front[i].name)
      {
        assert opts[i].name != last.name;
        var k :| 0 <= k < |requested| && requested[k].name == opts[i].name;
        assert others[if k < j then k else k - 1] == requested[k];
      }
      ListedAreFewer(front, others);
    }
  }

  predicate AllAcceptable(opts: seq<Opt>, requested: seq<Opt>) {
    forall i :: 0 <= i < |opts| ==> AcceptableTo(opts[i], requested)
  }

  /** The client accepts an OACK exactly when it parses and each of its options
      is acceptable; the test on their number decides nothing, and an OACK may
      grant fewer options than were asked for (RFC 2347). */
  lemma AcceptExactly(raw: seq<byte>, requested: seq<Opt>)
    ensures var parsed, r := ParseOack(raw), AcceptOack(raw, requested);
            && (r.Ok? <==> parsed.Ok? && AllAcceptable(parsed.value, requested))
            && (r.Ok? || parsed.Err? ==> r == parsed)
            && (parsed.Ok? && |parsed.value| > |requested| ==> r == Err(IllegalOperation))
  {
    var parsed := ParseOack(raw);
    if parsed.Ok? {
      hide ParseRest, AcceptableTo, Acceptable, Validate, Distinct, Listed;
      ValidateExactly(parsed.value, requested);
      NothingDistinct();
      PrintAfterParse(Oack, raw[2..], []);
      if AllAcceptable(parsed.value, requested) {
        forall i | 0 <= i < |parsed.value|
          ensures Listed(requested, parsed.value[i].name)
        {
          AcceptableIsListed(parsed.value[i], requested);
        }
        ListedAreFewer(parsed.value, requested);
      }
    }
  }

  /** An option that std::stoi cannot compare with the one asked for. */
  predicate Incomparable(o: Opt, c: Opt) {
    !o.name.UNSUPPORTED? && (!Stoi(o.value).Value? || !Stoi(c.value).Value?)
  }

  lemma PairFault(o: Opt, c: Opt)
    requires !Acceptable(o, c)
    ensures CheckPair(o, c) == Err(if Incomparable(o, c) then OutOfRange else IllegalOperation)
  {
  }

  /** What the client throws: the first option that is not acceptable decides,
      by the first it asked for that is in the way, if any is. */
  lemma AcceptFault(raw: seq<byte>, requested: seq<Opt>, i: nat, j: nat)
    requires ParseOack(raw).Ok? && i < |ParseOack(raw).value| <= |requested|
    requires AllAcceptable(ParseOack(raw).value[..i], requested)
    requires var o := ParseOack(raw).value[i];
             && j <= |requested| && (forall k :: 0 <= k < j ==> Acceptable(o, requested[k]))
             && if j < |requested| then !Acceptable(o, requested[j]) else !Listed(requested, o.name)
    ensures AcceptOack(raw, requested)
         == Err(if j < |requested| && Incomparable(ParseOack(raw).value[i], requested[j]) then OutOfRange
                else IllegalOperation)
  {
    hide ParseOack, Acceptable, Incomparable, Listed, CheckPair, AcceptableTo;
    var opts := ParseOack(raw).value;
    var o := opts[i];
    ValidateExactly(opts[..i], requested);
    CheckAgainstMeans(o, requested[..j]);
    if j < |requested| {
      PairFault(o, requested[j]);
      assert requested[..j + 1][..j] == requested[..j];
      CheckStops(o, requested, j + 1);
    } else {
      assert requested[..j] == requested;
    }
    assert opts[..i + 1][..i] == opts[..i];
    ValidateStops(opts, requested, i + 1);
  }

  lemma AcceptableIsListed(o: Opt, requested: seq<Opt>)
    requires AcceptableTo(o, requested)
    ensures Listed(requested, o.name)
  {
  }

  /** That is, of an OACK as any program may write it. */
  lemma AnyOack(fields: seq<Field>, requested: seq<Opt>)
    requires AllNulFree(fields)
    ensures var r := AcceptOack([0, 6] + Written(fields), requested);
            && (r.Ok? <==>
                  && AllAdmissible(Oack, fields) && Distinct(ReadAll(fields))
                  && AllAcceptable(ReadAll(fields), requested))
            && (r.Ok? ==> r.value == ReadAll(fields))
  {
    hide Written, AllNulFree, AllAdmissible, Distinct, AllAcceptable, ReadAll, ParseRest, AcceptOack;
    var raw := [0, 6] + Written(fields);
    assert raw[2..] == Written(fields);
    AcceptExactly(raw, requested);
    OptionsRead(Oack, fields);
  }

  /** And of one that this program prints. */
  lemma PrintedOack(opts: seq<Opt>, requested: seq<Opt>)
    requires AllSendable(opts) && Distinct(opts)
    ensures AllSupported(opts) && PrintOack(opts) == Ok([0, 6] + Written(FieldsOf(opts)))
    ensures AcceptOack(PrintOack(opts).value, requested).Ok? <==> AllAcceptable(FoldOptions(opts), requested)
  {
    hide AllSendable, AllAcceptable, AcceptOack, Written, Printed, ParseRest;
    PrintedIsWritten(opts) by { SupportedSent(opts); }
    SupportedSent(opts);
    var raw := PrintOack(opts).value;
    assert raw[2..] == Printed(opts);
    ParseAfterPrint(Oack, opts);
    AcceptExactly(raw, requested);
  }
}
