/** src/common/TftpPacketStuff/Option.cpp and the option parsers of
    ReadWritePacket.cpp and OackPacket.cpp (RFC 2347). */
module Options {
  import opened Bytes
  import opened Numbers
  import opened Packets

  datatype Name = BLKSIZE | TIMEOUT | TSIZE | UNSUPPORTED

  /** An Option object; nameStr is kept for unsupported names. */
  datatype Opt = Opt(name: Name, nameStr: seq<byte>, value: seq<byte>)

  const BLKSIZE_NAME: seq<byte> := [98, 108, 107, 115, 105, 122, 101]
  const TIMEOUT_NAME: seq<byte> := [116, 105, 109, 101, 111, 117, 116]
  const TSIZE_NAME: seq<byte> := [116, 115, 105, 122, 101]

  const MIN_TIMEOUT := 1
  const MAX_TIMEOUT := 255

  function NameOf(folded: seq<byte>): Name {
    if folded == BLKSIZE_NAME then BLKSIZE
    else if folded == TIMEOUT_NAME then TIMEOUT
    else if folded == TSIZE_NAME then TSIZE
    else UNSUPPORTED
  }

  function NameText(name: Name): seq<byte>
    requires !name.UNSUPPORTED?
  {
    match name
    case BLKSIZE => BLKSIZE_NAME
    case TIMEOUT => TIMEOUT_NAME
    case TSIZE => TSIZE_NAME
  }

  /** An invalid number is an InvalidOptionValueException, which the packet
      constructors turn into a failed negotiation; one out of range is not caught. */
  function CheckRange(n: Conversion, min: int, max: int): Result<int> {
    match n
    case Invalid => Err(FailedNegotiation)
    case TooLarge => Err(OutOfRange)
    case Value(v) => if min <= v <= max then Ok(v) else Err(FailedNegotiation)
  }

  function CheckValue(name: Name, value: seq<byte>): Result<int> {
    match name
    case BLKSIZE => CheckRange(Stoi(value), MIN_BLOCK_SIZE, MAX_BLOCK_SIZE)
    case TIMEOUT => CheckRange(Stoll(value), MIN_TIMEOUT, MAX_TIMEOUT)
    case TSIZE => CheckRange(Stoull(value), 0, 0xffff_ffff_ffff_ffff)
    case UNSUPPORTED => Ok(0)
  }

  /** Option's constructor. */
  function MakeOption(nameStr: seq<byte>, value: seq<byte>): Result<Opt> {
    var folded := Fold(nameStr);
    var name := NameOf(folded);
    var _ :- CheckValue(name, value);
    Ok(Opt(name, folded, value))
  }

  /** Option::MakeRaw throws for an unsupported option. */
  function PrintOption(o: Opt): Result<seq<byte>> {
    if o.name.UNSUPPORTED? then Err(UnsupportedOption)
    else Ok(NameText(o.name) + [NUL] + o.value + [NUL])
  }

  predicate AllSupported(opts: seq<Opt>) {
    forall i :: 0 <= i < |opts| ==> !opts[i].name.UNSUPPORTED?
  }

  /** The options of a packet in print, one after the other. */
  function Printed(opts: seq<Opt>): seq<byte>
    requires AllSupported(opts)
  {
    if opts == [] then [] else PrintOption(opts[0]).value + Printed(opts[1..])
  }

  lemma PrintedStep(opts: seq<Opt>, i: nat)
    requires AllSupported(opts) && i < |opts|
    ensures Printed(opts[i..]) == PrintOption(opts[i]).value + Printed(opts[i + 1..])
  {
    assert opts[i..][1..] == opts[i + 1..];
  }

  /** The loop shared by the two MakeRaw methods. */
  method MakeRawOptions(opts: seq<Opt>) returns (r: Result<seq<byte>>)
    ensures r == if AllSupported(opts) then Ok(Printed(opts)) else Err(UnsupportedOption)
  {
    hide NameText;
    var raw: seq<byte> := [];
    for i := 0 to |opts|
      invariant forall j :: 0 <= j < i ==> !opts[j].name.UNSUPPORTED?
      invariant AllSupported(opts) ==> raw + Printed(opts[i..]) == Printed(opts)
    {
      if opts[i].name.UNSUPPORTED? {
        return Err(UnsupportedOption);
      }
      var optionVec := PrintOption(opts[i]).value;
      if AllSupported(opts) {
        PrintedStep(opts, i);
        Associate(raw, optionVec, Printed(opts[i + 1..]));
      }
      raw := raw + optionVec;
    }
    assert opts[|opts|..] == [] && raw + [] == raw;
    return Ok(raw);
  }

  predicate Listed(opts: seq<Opt>, name: Name) {
    exists i :: 0 <= i < |opts| && opts[i].name == name
  }

  predicate Distinct(opts: seq<Opt>) {
    forall i, j :: 0 <= i < j < |opts| ==> opts[i].name != opts[j].name
  }

  /** Which of the two parsers: a request may carry empty values, an OACK may not. */
  datatype Parser = Request | Oack

  /** The option made of two fields, once it is known not to repeat a name.
      Two names the program does not support count as the same. */
  function Register(p: Parser, name: seq<byte>, value: seq<byte>, parsed: seq<Opt>): Result<Opt> {
    if p.Oack? && value == [] then Err(IllegalOperation)
    else
      var o :- MakeOption(name, value);
      if Listed(parsed, o.name) then Err(IllegalOperation) else Ok(o)
  }

  /** The next option of a non-empty string and what follows it. */
  function ParseOne(p: Parser, s: seq<byte>, parsed: seq<Opt>): (r: Result<(Opt, seq<byte>)>)
    requires s != []
    ensures r.Ok? ==> |r.value.1| < |s|
  {
    var n := FindNul(s);
    if n == |s| then Err(IllegalOperation)
    else
      var rest := s[n + 1..];
      var m := FindNul(rest);
      if m == |rest| then Err(IllegalOperation)
      else
        var o :- Register(p, Fold(s[..n]), Fold(rest[..m]), parsed);
        Ok((o, rest[m + 1..]))
  }

  function ParseRest(p: Parser, s: seq<byte>, parsed: seq<Opt>): Result<seq<Opt>>
    decreases |s|
  {
    if s == [] then Ok(parsed)
    else
      var (o, rest) :- ParseOne(p, s, parsed);
      ParseRest(p, rest, parsed + [o])
  }

  /** The cursor loop of both ParseOptions methods. */
  method ParseOptions(p: Parser, options: seq<byte>) returns (r: Result<seq<Opt>>)
    ensures r == ParseRest(p, options, [])
  {
    var parsed: seq<Opt> := [];
    var i := 0;
    while i < |options|
      invariant i <= |options|
      invariant ParseRest(p, options[i..], parsed) == ParseRest(p, options, [])
    {
      var option, next := ReadOption(p, options, i, parsed);
      if option.Err? {
        return Err(option.error);
      }
      parsed := parsed + [option.value];
      i := next;
    }
    assert options[i..] == [];
    return Ok(parsed);
  }

  /** One pass of that loop. */
  method ReadOption(p: Parser, options: seq<byte>, i: nat, parsed: seq<Opt>)
    returns (option: Result<Opt>, next: nat)
    requires i < |options|
    ensures option.Ok? ==> next <= |options|
    ensures ParseOne(p, options[i..], parsed)
         == if option.Ok? then Ok((option.value, options[next..])) else Err(option.error)
  {
    hide Register, FindNul, Fold;
    ghost var s := options[i..];
    var optionName, j := ReadField(options, i);
    if j == |options| {
      return Err(IllegalOperation), j;
    }
    assert options[i..j] == s[..FindNul(s)];
    j := j + 1;
    ghost var rest := options[j..];
    assert rest == s[FindNul(s) + 1..];
    var optionValue, k := ReadField(options, j);
    if k == |options| {
      return Err(IllegalOperation), k;
    }
    assert options[j..k] == rest[..FindNul(rest)];
    next := k + 1;
    assert options[next..] == rest[FindNul(rest) + 1..];
    option := RegisterOption(p, optionName, optionValue, parsed);
  }

  method RegisterOption(p: Parser, optionName: seq<byte>, optionValue: seq<byte>, parsed: seq<Opt>)
    returns (option: Result<Opt>)
    ensures option == Register(p, optionName, optionValue, parsed)
  {
    if p.Oack? && optionValue == [] {
      return Err(IllegalOperation);
    }
    option := MakeOption(optionName, optionValue);
    if option.Err? {
      return;
    }
    for l := 0 to |parsed|
      invariant forall m :: 0 <= m < l ==> parsed[m].name != option.value.name
    {
      if parsed[l].name == option.value.name {
        return Err(IllegalOperation);
      }
    }
  }

  /** One field, folded to lower case, and the position of its NUL. */
  method ReadField(options: seq<byte>, i: nat) returns (field: seq<byte>, end: nat)
    requires i <= |options|
    ensures end == i + FindNul(options[i..]) && end <= |options| && field == Fold(options[i..end])
  {
    field, end := [], i;
    while end < |options| && options[end] != NUL
      invariant i <= end <= |options|
      invariant NoNul(options[i..end]) && field == Fold(options[i..end])
    {
      FoldConcat(options[i..end], [options[end]]);
      assert options[i..end + 1] == options[i..end] + [options[end]];
      field := field + [ToLower(options[end])];
      end := end + 1;
    }
    assert options[i..][..end - i] == options[i..end];
    FirstNul(options[i..], end - i);
  }
}
