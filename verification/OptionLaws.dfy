/** How the option parsers and the option printer invert each other. */
module OptionLaws {
  import opened Bytes
  import opened Numbers
  import opened Options

  /** An option as an Option object holds it that can be printed as a C string. */
  predicate Sendable(o: Opt) {
    && !o.name.UNSUPPORTED?
    && o.nameStr == NameText(o.name)
    && NoNul(o.value)
    && CheckValue(o.name, o.value).Ok?
  }

  predicate AllSendable(opts: seq<Opt>) {
    forall i :: 0 <= i < |opts| ==> Sendable(opts[i])
  }

  function FoldOption(o: Opt): Opt {
    o.(value := Fold(o.value))
  }

  function FoldOptions(opts: seq<Opt>): (r: seq<Opt>)
    ensures |r| == |opts|
    ensures forall i :: 0 <= i < |opts| ==> r[i] == FoldOption(opts[i])
  {
    seq(|opts|, i requires 0 <= i < |opts| => FoldOption(opts[i]))
  }

  /** What the constructor makes and print can carry is sendable, and nothing else is. */
  lemma SendableExactly(o: Opt)
    requires !o.name.UNSUPPORTED?
    ensures Sendable(o) <==> MakeOption(o.nameStr, o.value) == Ok(o) && NoNul(o.value)
  {
    NameTextLaws(o.name);
  }

  lemma NameTextLaws(name: Name)
    requires !name.UNSUPPORTED?
    ensures var t := NameText(name); NoNul(t) && Fold(t) == t && NameOf(t) == name
  {
    var t := NameText(name);
    assert Fold(t) == t;
    assert BLKSIZE_NAME != TIMEOUT_NAME && |TSIZE_NAME| == 5 by {
      assert BLKSIZE_NAME[0] != TIMEOUT_NAME[0];
    }
  }

  /** The options the program knows by their names, and the values it takes:
      block sizes from 8 to 65464 (RFC 2348), timeouts from 1 to 255 seconds and
      any transfer size (RFC 2349). */
  lemma KnownOptions(name: seq<byte>, value: seq<byte>)
    ensures NameOf(name).BLKSIZE? <==> name == Ascii("blksize")
    ensures NameOf(name).TIMEOUT? <==> name == Ascii("timeout")
    ensures NameOf(name).TSIZE? <==> name == Ascii("tsize")
    ensures NameText(BLKSIZE) == Ascii("blksize") && NameText(TIMEOUT) == Ascii("timeout")
            && NameText(TSIZE) == Ascii("tsize")
    ensures CheckValue(BLKSIZE, value).Ok? <==> Stoi(value).Value? && 8 <= Stoi(value).n <= 65464
    ensures CheckValue(TIMEOUT, value).Ok? <==> Stoll(value).Value? && 1 <= Stoll(value).n <= 255
    ensures CheckValue(TSIZE, value).Ok? <==> Stoull(value).Value?
    ensures CheckValue(UNSUPPORTED, value).Ok?
    ensures forall n | CheckValue(n, value).Err? ::
              CheckValue(n, value).error
              == if || (n.BLKSIZE? && Stoi(value).TooLarge?) || (n.TIMEOUT? && Stoll(value).TooLarge?)
                    || (n.TSIZE? && Stoull(value).TooLarge?) then OutOfRange else FailedNegotiation
  {
    assert BLKSIZE_NAME == Ascii("blksize") && TIMEOUT_NAME == Ascii("timeout") && TSIZE_NAME == Ascii("tsize");
    NameTextLaws(BLKSIZE);
    NameTextLaws(TIMEOUT);
    NameTextLaws(TSIZE);
  }

  lemma FoldTwice(s: seq<byte>)
    ensures Fold(Fold(s)) == Fold(s)
  {
  }

  /** The fields of one printed option, found again by the two NUL searches. */
  lemma FieldsFound(name: seq<byte>, value: seq<byte>, tail: seq<byte>)
    requires NoNul(name) && NoNul(value)
    ensures var s := name + [NUL] + value + [NUL] + tail;
            var n := FindNul(s);
            && n == |name| && s[..n] == name
            && var rest := s[n + 1..];
            var m := FindNul(rest);
            m == |value| && rest[..m] == value && m < |rest| && rest[m + 1..] == tail
  {
    var s := name + [NUL] + value + [NUL] + tail;
    assert s[..|name|] == name;
    FirstNul(s, |name|);
    var rest := s[|name| + 1..];
    assert rest == value + [NUL] + tail;
    assert rest[..|value|] == value;
    FirstNul(rest, |value|);
  }

  lemma SupportedSent(opts: seq<Opt>)
    requires AllSendable(opts)
    ensures AllSupported(opts)
  {
  }

  lemma ParseRestOne(p: Parser, s: seq<byte>, parsed: seq<Opt>, o: Opt, rest: seq<byte>)
    requires s != [] && ParseOne(p, s, parsed) == Ok((o, rest))
    ensures ParseRest(p, s, parsed) == ParseRest(p, rest, parsed + [o])
  {
  }

  /** One option as any program may write it: two fields, each ended by a NUL. */
  datatype Field = Field(name: seq<byte>, value: seq<byte>) {
    predicate NulFree() {
      NoNul(name) && NoNul(value)
    }

    /** The option it stands for, whatever the case of its letters. */
    function Read(): Opt {
      Opt(NameOf(Fold(name)), Fold(name), Fold(value))
    }

    /** What a parser demands of it alone; the value of an option that the
        program does not support is not looked at. */
    predicate Admissible(p: Parser) {
      CheckValue(NameOf(Fold(name)), Fold(value)).Ok? && (p.Oack? ==> value != [])
    }

    /** What it throws where it cannot be read, an admissible one as a repetition. */
    function Fault(p: Parser): Error {
      var checked := CheckValue(NameOf(Fold(name)), Fold(value));
      if checked.Ok? || (p.Oack? && value == []) then IllegalOperation else checked.error
    }
  }

  function Written(fields: seq<Field>): seq<byte> {
    if fields == [] then []
    else fields[0].name + [NUL] + fields[0].value + [NUL] + Written(fields[1..])
  }

  function ReadAll(fields: seq<Field>): (r: seq<Opt>)
    ensures |r| == |fields|
    ensures forall i :: 0 <= i < |fields| ==> r[i] == fields[i].Read()
  {
    seq(|fields|, i requires 0 <= i < |fields| => fields[i].Read())
  }

  predicate AllNulFree(fields: seq<Field>) {
    forall i :: 0 <= i < |fields| ==> fields[i].NulFree()
  }

  predicate AllAdmissible(p: Parser, fields: seq<Field>) {
    forall i :: 0 <= i < |fields| ==> fields[i].Admissible(p)
  }

  lemma RegisterField(p: Parser, f: Field, parsed: seq<Opt>)
    ensures var r := Register(p, Fold(f.name), Fold(f.value), parsed);
            && (r.Ok? <==> f.Admissible(p) && !Listed(parsed, f.Read().name))
            && (r.Ok? ==> r.value == f.Read())
            && (r.Err? ==> r.error == f.Fault(p))
  {
    hide CheckValue, NameOf;
    FoldTwice(f.name);
  }

  lemma ParseOneField(p: Parser, f: Field, tail: seq<byte>, parsed: seq<Opt>)
    requires f.NulFree()
    ensures var r := ParseOne(p, f.name + [NUL] + f.value + [NUL] + tail, parsed);
            && (r.Ok? <==> f.Admissible(p) && !Listed(parsed, f.Read().name))
            && (r.Ok? ==> r.value == (f.Read(), tail))
            && (r.Err? ==> r.error == f.Fault(p))
  {
    hide FindNul, Fold, Register, Field.Admissible, Field.Fault;
    FieldsFound(f.name, f.value, tail);
    RegisterField(p, f, parsed);
  }

  /** How a list that is distinct grows by one. */
  lemma DistinctMore(parsed: seq<Opt>, o: Opt, more: seq<Opt>)
    requires Distinct(parsed)
    ensures Distinct(parsed + [o]) <==> !Listed(parsed, o.name)
    ensures Distinct(parsed + ([o] + more)) ==> !Listed(parsed, o.name)
    ensures parsed + ([o] + more) == (parsed + [o]) + more
  {
    var all, one := parsed + ([o] + more), parsed + [o];
    assert all[|parsed|] == o && one[|parsed|] == o;
    forall i | 0 <= i < |parsed|
      ensures all[i] == parsed[i] == one[i]
    {
    }
    if Listed(parsed, o.name) {
      var i :| 0 <= i < |parsed| && parsed[i].name == o.name;
      assert all[i].name == all[|parsed|].name && one[i].name == one[|parsed|].name;
    }
  }

  lemma FieldsSplit(p: Parser, fields: seq<Field>)
    requires fields != []
    ensures var f, rest := fields[0], fields[1..];
            && ReadAll(fields) == [f.Read()] + ReadAll(rest)
            && (AllNulFree(fields) <==> f.NulFree() && AllNulFree(rest))
            && (AllAdmissible(p, fields) <==> f.Admissible(p) && AllAdmissible(p, rest))
  {
    hide Field.NulFree, Field.Read, Field.Admissible;
    assert fields == [fields[0]] + fields[1..];
  }

  /** Both parsers on everything that has the form of options: they accept it
      exactly when each field is admissible and no name comes twice, names that
      the program does not support counting as one name, and read the options
      in order, in lower case. */
  lemma {:induction false} ParseWritten(p: Parser, fields: seq<Field>, parsed: seq<Opt>)
    requires AllNulFree(fields) && Distinct(parsed)
    ensures var r := ParseRest(p, Written(fields), parsed);
            && (r.Ok? <==> AllAdmissible(p, fields) && Distinct(parsed + ReadAll(fields)))
            && (r.Ok? ==> r.value == parsed + ReadAll(fields))
    decreases |fields|
  {
    if fields == [] {
      assert parsed + ReadAll(fields) == parsed;
    } else {
      hide ParseOne, Distinct, Listed, AllNulFree, AllAdmissible, ReadAll, Field.Admissible, Field.NulFree, Field.Read,
        Field.Fault;
      var f, rest := fields[0], fields[1..];
      FieldsSplit(p, fields);
      ParseOneField(p, f, Written(rest), parsed);
      DistinctMore(parsed, f.Read(), ReadAll(rest));
      if f.Admissible(p) && !Listed(parsed, f.Read().name) {
        ParseWritten(p, rest, parsed + [f.Read()]);
      }
    }
  }

  /** The first field that cannot be read decides what is thrown. */
  lemma {:induction false} FirstFault(p: Parser, fields: seq<Field>, f: Field, more: seq<Field>, parsed: seq<Opt>)
    requires AllNulFree(fields + [f] + more) && Distinct(parsed)
    requires AllAdmissible(p, fields) && Distinct(parsed + ReadAll(fields))
    requires !f.Admissible(p) || Listed(parsed + ReadAll(fields), f.Read().name)
    ensures ParseRest(p, Written(fields + [f] + more), parsed) == Err(f.Fault(p))
    decreases |fields|
  {
    hide ParseOne, Distinct, Listed, Field.Admissible, Field.NulFree, Field.Read, Field.Fault;
    var all := fields + [f] + more;
    if fields == [] {
      assert all[0] == f && all[1..] == more && parsed + ReadAll(fields) == parsed;
      ParseOneField(p, f, Written(more), parsed);
    } else {
      var g, rest := fields[0], fields[1..];
      assert all[0] == g && all[1..] == rest + [f] + more;
      assert ReadAll(fields) == [g.Read()] + ReadAll(rest);
      DistinctMore(parsed, g.Read(), ReadAll(rest));
      ParseOneField(p, g, Written(rest + [f] + more), parsed);
      FirstFault(p, rest, f, more, parsed + [g.Read()]);
    }
  }

  lemma FirstField(p: Parser, s: seq<byte>, parsed: seq<Opt>) returns (f: Field)
    requires s != [] && ParseOne(p, s, parsed).Ok?
    ensures f.NulFree() && s == f.name + [NUL] + f.value + [NUL] + ParseOne(p, s, parsed).value.1
  {
    hide Register, Fold, ParseRest;
    var n := FindNul(s);
    var rest := s[n + 1..];
    f := Field(s[..n], rest[..FindNul(rest)]);
  }

  /** And they accept nothing else. */
  lemma {:induction false} AcceptedIsWritten(p: Parser, s: seq<byte>, parsed: seq<Opt>) returns (fields: seq<Field>)
    requires ParseRest(p, s, parsed).Ok?
    ensures AllNulFree(fields) && s == Written(fields)
    decreases |s|
  {
    if s == [] {
      fields := [];
    } else {
      hide ParseOne;
      var (o, next) := ParseOne(p, s, parsed).value;
      var f := FirstField(p, s, parsed);
      var more := AcceptedIsWritten(p, next, parsed + [o]);
      fields := [f] + more;
      assert fields[1..] == more;
    }
  }

  /** The fields that print an option list. */
  function FieldsOf(opts: seq<Opt>): (r: seq<Field>)
    requires AllSupported(opts)
    ensures |r| == |opts|
    ensures forall i :: 0 <= i < |opts| ==> r[i] == Field(NameText(opts[i].name), opts[i].value)
  {
    seq(|opts|, i requires 0 <= i < |opts| => Field(NameText(opts[i].name), opts[i].value))
  }

  lemma {:induction false} PrintedIsWritten(opts: seq<Opt>)
    requires AllSupported(opts)
    ensures Printed(opts) == Written(FieldsOf(opts))
  {
    if opts != [] {
      PrintedIsWritten(opts[1..]);
      assert FieldsOf(opts)[1..] == FieldsOf(opts[1..]);
    }
  }

  lemma SentField(p: Parser, o: Opt)
    requires Sendable(o)
    ensures var f := Field(NameText(o.name), o.value); f.NulFree() && f.Admissible(p) && f.Read() == FoldOption(o)
  {
    NameTextLaws(o.name);
    ConversionsFold(o.value);
    if o.value == [] {
      assert SkipSpace(o.value) == [];
    }
  }

  lemma SentFields(p: Parser, opts: seq<Opt>)
    requires AllSendable(opts) && AllSupported(opts)
    ensures var fields := FieldsOf(opts);
            AllNulFree(fields) && AllAdmissible(p, fields) && ReadAll(fields) == FoldOptions(opts)
  {
    hide Sendable, Field.Admissible, Field.NulFree, Field.Read, FoldOption;
    forall i | 0 <= i < |opts|
      ensures var f := FieldsOf(opts)[i]; f.NulFree() && f.Admissible(p) && f.Read() == FoldOption(opts[i])
    {
      SentField(p, opts[i]);
    }
  }

  lemma NothingDistinct()
    ensures Distinct([])
  {
  }

  lemma FoldedDistinct(opts: seq<Opt>)
    requires Distinct(opts)
    ensures Distinct(FoldOptions(opts))
  {
    assert forall i :: 0 <= i < |opts| ==> FoldOptions(opts)[i].name == opts[i].name;
  }

  /** Parse after print: both parsers give the options back, values in lower case. */
  lemma ParseAfterPrint(p: Parser, opts: seq<Opt>)
    requires AllSendable(opts) && Distinct(opts)
    ensures AllSupported(opts) && ParseRest(p, Printed(opts), []) == Ok(FoldOptions(opts))
  {
    hide AllSendable, AllNulFree, AllAdmissible, Distinct, ReadAll, ParseRest, Printed, Written, FieldsOf, FoldOptions;
    SupportedSent(opts);
    SentFields(p, opts);
    PrintedIsWritten(opts);
    FoldedDistinct(opts);
    NothingDistinct();
    ParseWritten(p, FieldsOf(opts), []);
    assert [] + FoldOptions(opts) == FoldOptions(opts);
  }

  /** Print after parse: when every parsed option is supported, printing gives
      exactly the input in lower case, with no byte left over; names are
      pairwise distinct in any case. */
  lemma {:induction false} PrintAfterParse(p: Parser, s: seq<byte>, parsed: seq<Opt>)
    requires ParseRest(p, s, parsed).Ok? && Distinct(parsed)
    ensures var opts := ParseRest(p, s, parsed).value;
            && |parsed| <= |opts| && opts[..|parsed|] == parsed
            && Distinct(opts)
            && (AllSupported(opts[|parsed|..]) ==> Printed(opts[|parsed|..]) == Fold(s))
    decreases |s|
  {
    var opts := ParseRest(p, s, parsed).value;
    if s == [] {
      assert opts[|parsed|..] == [];
    } else {
      var (o, rest) := ParseOne(p, s, parsed).value;
      ParseRestOne(p, s, parsed, o, rest);
      ParseOneLaws(p, s, parsed);
      PrintAfterParse(p, rest, parsed + [o]);
      PrintedNext(opts, parsed, o);
    }
  }

  lemma PrintedNext(opts: seq<Opt>, parsed: seq<Opt>, o: Opt)
    requires |parsed| < |opts| && opts[..|parsed| + 1] == parsed + [o]
    ensures opts[..|parsed|] == parsed
    ensures AllSupported(opts[|parsed|..]) ==>
              !o.name.UNSUPPORTED? && AllSupported(opts[|parsed| + 1..])
              && Printed(opts[|parsed|..]) == PrintOption(o).value + Printed(opts[|parsed| + 1..])
  {
    var n := |parsed|;
    assert opts[..n] == opts[..n + 1][..n];
    assert opts[n] == opts[..n + 1][n] == o;
    if AllSupported(opts[n..]) {
      assert opts[n..][0] == o && opts[n..][1..] == opts[n + 1..];
    }
  }

  lemma RegisterLaws(p: Parser, name: seq<byte>, value: seq<byte>, parsed: seq<Opt>)
    requires Register(p, name, value, parsed).Ok? && Distinct(parsed)
    ensures var o := Register(p, name, value, parsed).value;
            && Distinct(parsed + [o])
            && o.value == value
            && (!o.name.UNSUPPORTED? ==> NameText(o.name) == Fold(name))
  {
  }

  lemma FoldFields(a: seq<byte>, b: seq<byte>, c: seq<byte>)
    ensures Fold(a + [NUL] + b + [NUL] + c) == Fold(a) + [NUL] + Fold(b) + [NUL] + Fold(c)
  {
  }

  lemma PrintRegistered(p: Parser, name: seq<byte>, value: seq<byte>, parsed: seq<Opt>)
    requires Register(p, Fold(name), Fold(value), parsed).Ok? && Distinct(parsed)
    ensures var o := Register(p, Fold(name), Fold(value), parsed).value;
            && Distinct(parsed + [o])
            && (!o.name.UNSUPPORTED? ==> PrintOption(o).value == Fold(name) + [NUL] + Fold(value) + [NUL])
  {
    RegisterLaws(p, Fold(name), Fold(value), parsed);
    FoldTwice(name);
  }

  lemma ParseOneLaws(p: Parser, s: seq<byte>, parsed: seq<Opt>)
    requires s != [] && ParseOne(p, s, parsed).Ok? && Distinct(parsed)
    ensures var (o, rest) := ParseOne(p, s, parsed).value;
            && Distinct(parsed + [o])
            && (!o.name.UNSUPPORTED? ==> PrintOption(o).value + Fold(rest) == Fold(s))
  {
    hide Register, FindNul, Fold, PrintOption;
    var n := FindNul(s);
    var rest := s[n + 1..];
    var m := FindNul(rest);
    PrintRegistered(p, s[..n], rest[..m], parsed);
    assert s == s[..n] + [NUL] + rest[..m] + [NUL] + rest[m + 1..];
    FoldFields(s[..n], rest[..m], rest[m + 1..]);
  }

  predicate NoEmptyValue(opts: seq<Opt>) {
    forall i :: 0 <= i < |opts| ==> opts[i].value != []
  }

  lemma ParseOneAgrees(s: seq<byte>, parsed: seq<Opt>)
    requires s != []
    ensures ParseOne(Oack, s, parsed).Ok?
       <==> ParseOne(Request, s, parsed).Ok? && ParseOne(Request, s, parsed).value.0.value != []
    ensures ParseOne(Oack, s, parsed).Ok? ==> ParseOne(Oack, s, parsed) == ParseOne(Request, s, parsed)
  {
  }

  lemma {:induction false} ParseRestKeeps(p: Parser, s: seq<byte>, parsed: seq<Opt>)
    requires ParseRest(p, s, parsed).Ok?
    ensures parsed <= ParseRest(p, s, parsed).value
    decreases |s|
  {
    if s != [] {
      var (o, rest) := ParseOne(p, s, parsed).value;
      ParseRestKeeps(p, rest, parsed + [o]);
    }
  }

  /** The OACK parser accepts exactly what the request parser accepts with every
      value non-empty, and then reads the same options. */
  lemma {:induction false} ParsersAgree(s: seq<byte>, parsed: seq<Opt>)
    requires NoEmptyValue(parsed)
    ensures ParseRest(Oack, s, parsed).Ok?
       <==> ParseRest(Request, s, parsed).Ok? && NoEmptyValue(ParseRest(Request, s, parsed).value)
    ensures ParseRest(Oack, s, parsed).Ok? ==> ParseRest(Oack, s, parsed) == ParseRest(Request, s, parsed)
    decreases |s|
  {
    if s != [] {
      ParseOneAgrees(s, parsed);
      if ParseOne(Request, s, parsed).Ok? {
        var (o, rest) := ParseOne(Request, s, parsed).value;
        if o.value != [] {
          ParsersAgree(rest, parsed + [o]);
        } else if ParseRest(Request, s, parsed).Ok? {
          ParseRestKeeps(Request, rest, parsed + [o]);
          assert ParseRest(Request, s, parsed).value[|parsed|] == (parsed + [o])[|parsed|];
        }
      }
    }
  }
}
