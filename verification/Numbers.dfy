/** std::stoi, std::stoll and std::stoull on byte strings, base 10: leading white
    space, a sign, and the longest run of digits; the rest is ignored. */
module Numbers {
  import opened Bytes

  /** Invalid is std::invalid_argument, TooLarge std::out_of_range. */
  datatype Conversion = Value(n: int) | Invalid | TooLarge

  predicate IsSpace(b: byte) {
    b == 32 || 9 <= b <= 13
  }

  predicate IsDigit(b: byte) {
    48 <= b <= 57
  }

  function SkipSpace(s: seq<byte>): seq<byte> {
    if s != [] && IsSpace(s[0]) then SkipSpace(s[1..]) else s
  }

  predicate Negative(s: seq<byte>) {
    s != [] && s[0] == 45
  }

  function SkipSign(s: seq<byte>): seq<byte> {
    if s != [] && (s[0] == 45 || s[0] == 43) then s[1..] else s
  }

  function Magnitude(s: seq<byte>, sofar: nat): nat {
    if s != [] && IsDigit(s[0]) then Magnitude(s[1..], 10 * sofar + (s[0] - 48)) else sofar
  }

  predicate StartsWithDigit(s: seq<byte>) {
    s != [] && IsDigit(s[0])
  }

  function Signed(s: seq<byte>, min: int, max: int): Conversion {
    var t := SkipSpace(s);
    var digits := SkipSign(t);
    if !StartsWithDigit(digits) then Invalid
    else
      var n: int := Magnitude(digits, 0);
      var n := if Negative(t) then -n else n;
      if min <= n <= max then Value(n) else TooLarge
  }

  function Stoi(s: seq<byte>): Conversion {
    Signed(s, -0x8000_0000, 0x7fff_ffff)
  }

  function Stoll(s: seq<byte>): Conversion {
    Signed(s, -0x8000_0000_0000_0000, 0x7fff_ffff_ffff_ffff)
  }

  /** strtoull negates a negative number within 64 bits. */
  function Stoull(s: seq<byte>): Conversion {
    var t := SkipSpace(s);
    var digits := SkipSign(t);
    if !StartsWithDigit(digits) then Invalid
    else
      var n := Magnitude(digits, 0);
      if n > 0xffff_ffff_ffff_ffff then TooLarge
      else Value(if Negative(t) && n > 0 then 0x1_0000_0000_0000_0000 - n else n)
  }

  lemma {:induction false} SkipSpaceFold(s: seq<byte>)
    ensures SkipSpace(Fold(s)) == Fold(SkipSpace(s))
  {
    if s != [] && IsSpace(s[0]) {
      SkipSpaceFold(s[1..]);
      assert Fold(s)[1..] == Fold(s[1..]);
    }
  }

  lemma {:induction false} MagnitudeFold(s: seq<byte>, sofar: nat)
    ensures Magnitude(Fold(s), sofar) == Magnitude(s, sofar)
  {
    if s != [] && IsDigit(s[0]) {
      MagnitudeFold(s[1..], 10 * sofar + (s[0] - 48));
      assert Fold(s)[1..] == Fold(s[1..]);
    }
  }

  /** Folding to lower case changes no digit, sign or space, so no conversion. */
  lemma ConversionsFold(s: seq<byte>)
    ensures Stoi(Fold(s)) == Stoi(s) && Stoll(Fold(s)) == Stoll(s) && Stoull(Fold(s)) == Stoull(s)
  {
    SkipSpaceFold(s);
    var t := SkipSpace(s);
    assert SkipSign(Fold(t)) == Fold(SkipSign(t));
    MagnitudeFold(SkipSign(t), 0);
  }

  /** std::to_string of a natural number. */
  function Decimal(n: nat): (s: seq<byte>)
    ensures s != [] && forall i :: 0 <= i < |s| ==> IsDigit(s[i])
  {
    if n < 10 then [48 + n] else Decimal(n / 10) + [48 + n % 10]
  }

  /** Reading digits is reading their value from the left, up to the first non-digit. */
  lemma {:induction false} MagnitudeAppend(digits: seq<byte>, rest: seq<byte>, sofar: nat)
    requires forall i :: 0 <= i < |digits| ==> IsDigit(digits[i])
    ensures Magnitude(digits + rest, sofar) == Magnitude(rest, Magnitude(digits, sofar))
    decreases |digits|
  {
    if digits == [] {
      assert digits + rest == rest;
    } else {
      assert (digits + rest)[1..] == digits[1..] + rest;
      MagnitudeAppend(digits[1..], rest, 10 * sofar + (digits[0] - 48));
    }
  }

  lemma {:induction false} MagnitudeDecimal(n: nat)
    ensures Magnitude(Decimal(n), 0) == n
  {
    if n < 10 {
      assert [48 + n][1..] == [];
    } else {
      MagnitudeDecimal(n / 10);
      MagnitudeAppend(Decimal(n / 10), [48 + n % 10], 0);
      assert [48 + n % 10][1..] == [];
    }
  }

  predicate AllZeros(s: seq<byte>) {
    forall i :: 0 <= i < |s| ==> s[i] == 48
  }

  lemma {:induction false} MagnitudeZeros(zeros: seq<byte>)
    requires AllZeros(zeros)
    ensures Magnitude(zeros, 0) == 0
  {
    if zeros != [] {
      MagnitudeZeros(zeros[1..]);
    }
  }

  /** White space in the "C" locale. */
  predicate AllSpace(s: seq<byte>) {
    forall i :: 0 <= i < |s| ==> s[i] == 32 || 9 <= s[i] <= 13
  }

  predicate IsSign(s: seq<byte>) {
    s == [] || s == Ascii("+") || s == Ascii("-")
  }

  lemma {:induction false} SkipSpaceExactly(spaces: seq<byte>, rest: seq<byte>)
    requires AllSpace(spaces) && (rest != [] ==> !IsSpace(rest[0]))
    ensures SkipSpace(spaces + rest) == rest
  {
    if spaces == [] {
      assert spaces + rest == rest;
    } else {
      assert (spaces + rest)[1..] == spaces[1..] + rest;
      SkipSpaceExactly(spaces[1..], rest);
    }
  }

  lemma SignSkipped(sign: seq<byte>, rest: seq<byte>)
    requires IsSign(sign) && (sign == [] && rest != [] ==> rest[0] != 43 && rest[0] != 45)
    ensures SkipSign(sign + rest) == rest
    ensures Negative(sign + rest) <==> sign == Ascii("-")
  {
    if sign == [] {
      assert sign + rest == rest;
    } else {
      assert (sign + rest)[1..] == rest;
      assert sign[0] == 43 || sign[0] == 45;
    }
  }

  lemma DigitsRead(zeros: seq<byte>, n: nat, rest: seq<byte>)
    requires AllZeros(zeros) && (rest != [] ==> !IsDigit(rest[0]))
    ensures Magnitude(zeros + Decimal(n) + rest, 0) == n
    ensures StartsWithDigit(zeros + Decimal(n) + rest)
  {
    MagnitudeZeros(zeros);
    MagnitudeDecimal(n);
    MagnitudeAppend(zeros, Decimal(n), 0);
    MagnitudeAppend(zeros + Decimal(n), rest, 0);
  }

  /** The three conversions of white space, a sign and a decimal number, leading
      zeros or not, whatever text without a leading digit follows: its value,
      where the type holds it; std::stoull takes a negative number modulo 2^64. */
  lemma DecimalConverts(spaces: seq<byte>, sign: seq<byte>, zeros: seq<byte>, n: nat, rest: seq<byte>)
    requires AllSpace(spaces) && IsSign(sign) && AllZeros(zeros) && (rest != [] ==> !IsDigit(rest[0]))
    ensures var s := spaces + (sign + (zeros + Decimal(n) + rest));
            var v: int := if sign == Ascii("-") then 0 - n else n;
            && Stoi(s) == (if -0x8000_0000 <= v <= 0x7fff_ffff then Value(v) else TooLarge)
            && Stoll(s) == (if -0x8000_0000_0000_0000 <= v <= 0x7fff_ffff_ffff_ffff then Value(v) else TooLarge)
            && Stoull(s) == (if n <= 0xffff_ffff_ffff_ffff then Value(v % 0x1_0000_0000_0000_0000) else TooLarge)
  {
    hide Magnitude, SkipSpace, SkipSign, Negative, Decimal, AllSpace, AllZeros;
    var digits := zeros + Decimal(n) + rest;
    DigitsRead(zeros, n, rest);
    SignSkipped(sign, digits);
    SkipSpaceExactly(spaces, sign + digits);
    Modulo64(n);
  }

  lemma Modulo64(n: nat)
    ensures n <= 0xffff_ffff_ffff_ffff ==>
              && n % 0x1_0000_0000_0000_0000 == n
              && (0 - n) % 0x1_0000_0000_0000_0000 == if n > 0 then 0x1_0000_0000_0000_0000 - n else 0
  {
  }

  /** Without a digit there is nothing to convert. */
  lemma NothingConverts(spaces: seq<byte>, sign: seq<byte>, rest: seq<byte>)
    requires AllSpace(spaces) && IsSign(sign)
    requires rest != [] ==> !IsDigit(rest[0])
                            && (sign == [] ==> !IsSpace(rest[0]) && rest[0] != 43 && rest[0] != 45)
    ensures var s := spaces + (sign + rest); Stoi(s) == Stoll(s) == Stoull(s) == Invalid
  {
    SignSkipped(sign, rest);
    SkipSpaceExactly(spaces, sign + rest);
  }
}
