/**
 * The two JavaScript number conversions the controller and the service rely on:
 * the global `parseInt(string)` with no radix argument (ECMAScript 2023, section
 * 19.2.5), and the decimal rendering of an integer that a template literal such
 * as `${id}` produces. Numbers are unbounded integers here, not IEEE doubles.
 */
module JsNumbers {

  /** What `parseInt` yields: `NaN`, or an integral number. */
  datatype ParsedInt = NaN | Num(value: int)

  /**
   * The ECMAScript WhiteSpace and LineTerminator code points, which `parseInt` skips at
   * the start. None of them is a digit, a letter or a sign, so skipping them never eats
   * part of a numeral.
   */
  function IsJsWhitespace(c: char): (b: bool)
    ensures b ==> DigitValue(c) == 36 && c != '-' && c != '+'
    ensures c == ' ' || c == '\t' || c == '\n' || c == '\r' ==> b
  {
    var u := c as int;
    u == 0x09 || u == 0x0A || u == 0x0B || u == 0x0C || u == 0x0D || u == 0x20
    || u == 0xA0 || u == 0x1680 || (0x2000 <= u <= 0x200A) || u == 0x2028 || u == 0x2029
    || u == 0x202F || u == 0x205F || u == 0x3000 || u == 0xFEFF
  }

  /** The input with its leading white space removed. */
  function TrimStart(s: string): (r: string)
    ensures |r| <= |s| && r == s[|s| - |r|..]
    ensures forall i :: 0 <= i < |s| - |r| ==> IsJsWhitespace(s[i])
    ensures r == [] || !IsJsWhitespace(r[0])
  {
    if s != [] && IsJsWhitespace(s[0]) then TrimStart(s[1..]) else s
  }

  /** The value of `c` as a digit in radix 36 (`0`-`9`, then `a`-`z` or `A`-`Z`); 36 when it is no digit at all. */
  function DigitValue(c: char): (v: nat)
    ensures v <= 36
    ensures v < 10 <==> '0' <= c <= '9'
  {
    if '0' <= c <= '9' then c as int - '0' as int
    else if 'a' <= c <= 'z' then c as int - 'a' as int + 10
    else if 'A' <= c <= 'Z' then c as int - 'A' as int + 10
    else 36
  }

  /** The length of the longest prefix of `s` made of digits of the given radix. */
  function DigitRun(s: string, radix: nat): (n: nat)
    ensures n <= |s|
    ensures forall i :: 0 <= i < n ==> DigitValue(s[i]) < radix
    ensures n == |s| || DigitValue(s[n]) >= radix
  {
    if s == [] || DigitValue(s[0]) >= radix then 0 else 1 + DigitRun(s[1..], radix)
  }

  /** The mathematical value of a string of digits in the given radix, most significant digit first. */
  function DigitsValue(z: string, radix: nat): nat
    requires forall i :: 0 <= i < |z| ==> DigitValue(z[i]) < radix
  {
    if z == [] then 0
    else
      var init := z[..|z| - 1];
      assert forall i :: 0 <= i < |init| ==> init[i] == z[i];
      ShiftLeft(DigitsValue(init, radix), radix) + DigitValue(z[|z| - 1])
  }

  /** A value read so far, moved one digit place to the left. */
  function ShiftLeft(high: nat, radix: nat): nat {
    high * radix
  }

  /** The longest run of radix digits at the start of `w`, read as a number; `NaN` when there is none. */
  function ReadDigits(w: string, radix: nat): (r: ParsedInt)
    ensures r.NaN? <==> w == [] || DigitValue(w[0]) >= radix
    ensures r.Num? ==> r.value >= 0
  {
    var z := w[..DigitRun(w, radix)];
    if z == [] then NaN else Num(DigitsValue(z, radix))
  }

  /** `u` starts with the `0x` or `0X` prefix of a hexadecimal numeral. */
  predicate HexPrefixed(u: string) {
    |u| >= 2 && u[0] == '0' && (u[1] == 'x' || u[1] == 'X')
  }

  /**
   * The unsigned part `u` of a numeral has no digit to read: after a `0x` or `0X` prefix
   * no hexadecimal digit follows, and otherwise `u` does not start with a decimal digit.
   */
  predicate NoDigitToRead(u: string) {
    if HexPrefixed(u) then |u| == 2 || DigitValue(u[2]) >= 16
    else u == [] || DigitValue(u[0]) >= 10
  }

  /** The unsigned part of a numeral: a `0x` or `0X` prefix selects radix 16, otherwise radix 10. */
  function ReadMagnitude(u: string): (r: ParsedInt)
    ensures r.NaN? <==> NoDigitToRead(u)
    ensures r.Num? ==> r.value >= 0
  {
    if HexPrefixed(u) then ReadDigits(u[2..], 16)
    else ReadDigits(u, 10)
  }

  /** What follows an optional leading `-` or `+`. */
  function AfterSign(s: string): string {
    if s != [] && (s[0] == '-' || s[0] == '+') then s[1..] else s
  }

  function Negate(p: ParsedInt): ParsedInt {
    match p
    case NaN => NaN
    case Num(v) => Num(-v)
  }

  /**
   * `parseInt(input)` with the radix left undefined: skip leading white space, take an
   * optional sign, switch to radix 16 after a `0x` or `0X` prefix, and read the longest
   * run of digits; no digit gives `NaN`, and anything after the run is ignored.
   */
  function ParseInt(input: string): (r: ParsedInt)
    ensures r.NaN? <==> NoDigitToRead(AfterSign(TrimStart(input)))
    ensures r.Num? && TrimStart(input) != [] && TrimStart(input)[0] == '-' ==> r.value <= 0
    ensures r.Num? && (TrimStart(input) == [] || TrimStart(input)[0] != '-') ==> r.value >= 0
  {
    var s := TrimStart(input);
    var m := ReadMagnitude(AfterSign(s));
    if s != [] && s[0] == '-' then Negate(m) else m
  }

  function DigitChar(d: nat): (c: char)
    requires d < 10
    ensures DigitValue(c) == d
  {
    ('0' as int + d) as char
  }

  /** The decimal numeral of `n`, without leading zeros. */
  function DecimalString(n: nat): (s: string)
    ensures |s| >= 1
    ensures forall i :: 0 <= i < |s| ==> DigitValue(s[i]) < 10
    ensures n > 0 ==> s[0] != '0'
  {
    if n < 10 then [DigitChar(n)] else DecimalString(n / 10) + [DigitChar(n % 10)]
  }

  /**
   * The text JavaScript gives an integral number, as in "News with id ${id} not found.":
   * a minus sign exactly for a negative number, then decimal digits.
   */
  function NumberToString(i: int): (s: string)
    ensures |s| >= 1
    ensures s[0] == '-' <==> i < 0
    ensures forall k :: (if i < 0 then 1 else 0) <= k < |s| ==> DigitValue(s[k]) < 10
  {
    if i < 0 then "-" + DecimalString(-i) else DecimalString(i)
  }

  /** Reading back the decimal numeral of `n` gives `n`. */
  lemma {:induction false} DecimalStringValue(n: nat)
    ensures DigitsValue(DecimalString(n), 10) == n
  {
    var s := DecimalString(n);
    if n >= 10 {
      assert s[..|s| - 1] == DecimalString(n / 10);
      DecimalStringValue(n / 10);
    }
  }

  /** A run of digits followed by something that is no digit is read exactly up to its end. */
  lemma {:induction false} DigitRunStopsAtJunk(d: string, junk: string, radix: nat)
    requires forall i :: 0 <= i < |d| ==> DigitValue(d[i]) < radix
    requires junk == [] || DigitValue(junk[0]) >= radix
    ensures DigitRun(d + junk, radix) == |d|
  {
    if d != [] {
      assert (d + junk)[1..] == d[1..] + junk;
      DigitRunStopsAtJunk(d[1..], junk, radix);
    }
  }

  /** The digits of a decimal numeral followed by anything that is no digit read as that numeral's value. */
  lemma ReadDigitsDecimal(n: nat, junk: string)
    requires junk == [] || DigitValue(junk[0]) >= 10
    ensures ReadDigits(DecimalString(n) + junk, 10) == Num(n)
  {
    var d := DecimalString(n);
    DigitRunStopsAtJunk(d, junk, 10);
    assert (d + junk)[..|d|] == d;
    DecimalStringValue(n);
  }

  /** A string that starts with a decimal digit and no `0x` prefix is read as a decimal numeral. */
  lemma ParseIntDecimalStart(s: string)
    requires s != [] && DigitValue(s[0]) < 10 && !HexPrefixed(s)
    ensures ParseInt(s) == ReadDigits(s, 10)
  {
    TrimStartNoWhitespace(s);
    assert AfterSign(s) == s;
  }

  /**
   * `parseInt` reads any leading run of decimal digits, leading zeros included, and ignores
   * what follows: "12abc" and "0012abc" both give 12.
   */
  lemma ParseIntDecimalPrefix(d: string, junk: string)
    requires d != [] && (forall i :: 0 <= i < |d| ==> DigitValue(d[i]) < 10) && DigitsValue(d, 10) > 0
    requires junk == [] || DigitValue(junk[0]) >= 10
    ensures ParseInt(d + junk) == Num(DigitsValue(d, 10))
  {
    NoHexPrefixBeforeValue(d, junk);
    assert (d + junk)[0] == d[0];
    ParseIntDecimalStart(d + junk);
    ReadDigitsBeforeJunk(d, junk);
  }

  /** A digit run with a positive value never starts a `0x` prefix, whatever follows it. */
  lemma NoHexPrefixBeforeValue(d: string, junk: string)
    requires d != [] && (forall i :: 0 <= i < |d| ==> DigitValue(d[i]) < 10) && DigitsValue(d, 10) > 0
    ensures !HexPrefixed(d + junk)
  {
    var s := d + junk;
    if |d| == 1 {
      assert DigitsValue(d, 10) == DigitValue(d[0]);
      assert s[0] == d[0] != '0';
    } else {
      assert s[1] == d[1];
    }
  }

  /** A digit run followed by something that is no digit is read as the run's value. */
  lemma ReadDigitsBeforeJunk(d: string, junk: string)
    requires d != [] && (forall i :: 0 <= i < |d| ==> DigitValue(d[i]) < 10)
    requires junk == [] || DigitValue(junk[0]) >= 10
    ensures ReadDigits(d + junk, 10) == Num(DigitsValue(d, 10))
  {
    DigitRunStopsAtJunk(d, junk, 10);
    assert (d + junk)[..|d|] == d;
  }

  /** `parseInt` reads back the text of every integral number. */
  lemma ParseIntOfNumberToString(i: int)
    ensures ParseInt(NumberToString(i)) == Num(i)
  {
    if i < 0 {
      NegativeNumeral(-i);
    } else {
      NonNegativeNumeral(i);
    }
  }

  /**
   * The text of an integral number followed by anything that starts with no letter or
   * digit reads back as that number: "7 not found." gives 7.
   */
  lemma ParseIntNumeralPrefix(i: int, junk: string)
    requires junk == [] || DigitValue(junk[0]) == 36
    ensures ParseInt(NumberToString(i) + junk) == Num(i)
  {
    if i < 0 {
      NegativeNumeralPrefix(-i, junk);
    } else {
      NonNegativeNumeralPrefix(i, junk);
    }
  }

  /** A string that starts with no white space is its own trimmed form. */
  lemma TrimStartNoWhitespace(s: string)
    requires s != [] && !IsJsWhitespace(s[0])
    ensures TrimStart(s) == s
  {
  }

  /** After trimming, a leading minus negates the magnitude read from the rest. */
  lemma ParseIntMinusSign(s: string)
    requires s != [] && s[0] == '-'
    ensures ParseInt(s) == Negate(ReadMagnitude(s[1..]))
  {
    TrimStartNoWhitespace(s);
  }

  /** After trimming, a string with no sign in front is read as a magnitude. */
  lemma ParseIntUnsigned(u: string)
    requires u != [] && DigitValue(u[0]) < 10
    ensures ParseInt(u) == ReadMagnitude(u)
  {
    TrimStartNoWhitespace(u);
  }

  /** A minus sign in front of a string that starts with a decimal digit negates what `parseInt` reads. */
  lemma ParseIntMinus(u: string)
    requires u != [] && DigitValue(u[0]) < 10
    ensures ParseInt("-" + u) == Negate(ParseInt(u))
  {
    var s := "-" + u;
    assert s[0] == '-' && s[1..] == u;
    ParseIntMinusSign(s);
    ParseIntUnsigned(u);
  }

  lemma NegativeNumeralPrefix(n: nat, junk: string)
    requires n > 0
    requires junk == [] || DigitValue(junk[0]) == 36
    ensures ParseInt(NumberToString(-(n as int)) + junk) == Num(-(n as int))
  {
    var d := DecimalString(n);
    assert NumberToString(-(n as int)) + junk == "-" + (d + junk);
    assert (d + junk)[0] == d[0];
    ParseIntMinus(d + junk);
    NonNegativeNumeralPrefix(n, junk);
    assert NumberToString(n) == d;
  }

  lemma NonNegativeNumeralPrefix(n: nat, junk: string)
    requires junk == [] || DigitValue(junk[0]) == 36
    ensures ParseInt(NumberToString(n) + junk) == Num(n)
  {
    var d := DecimalString(n);
    var s := d + junk;
    assert NumberToString(n) == d;
    assert s[0] == d[0] && DigitValue(s[0]) < 10;
    assert !HexPrefixed(s) by {
      if |s| >= 2 && s[0] == '0' {
        assert n == 0 && |d| == 1;
        assert s[1] == junk[0];
      }
    }
    ParseIntDecimalStart(s);
    ReadDigitsDecimal(n, junk);
  }

  /** Dropping leading white space before `TrimStart` changes nothing. */
  lemma {:induction false} TrimStartSkipsWhitespace(ws: string, s: string)
    requires forall i :: 0 <= i < |ws| ==> IsJsWhitespace(ws[i])
    ensures TrimStart(ws + s) == TrimStart(s)
  {
    if ws == [] {
      assert ws + s == s;
    } else {
      assert (ws + s)[0] == ws[0] && (ws + s)[1..] == ws[1..] + s;
      TrimStartSkipsWhitespace(ws[1..], s);
    }
  }

  /** Leading white space does not change what `parseInt` reads: " 12" gives 12. */
  lemma ParseIntSkipsWhitespace(ws: string, s: string)
    requires forall i :: 0 <= i < |ws| ==> IsJsWhitespace(ws[i])
    ensures ParseInt(ws + s) == ParseInt(s)
  {
    TrimStartSkipsWhitespace(ws, s);
  }

  lemma NonNegativeNumeral(n: nat)
    ensures ParseInt(DecimalString(n)) == Num(n)
  {
    assert NumberToString(n) + [] == DecimalString(n);
    NonNegativeNumeralPrefix(n, []);
  }

  /**
   * A minus sign followed by any run of decimal digits with a positive value, leading zeros
   * included, and then anything but a digit, parses to the negated value: "-007x" gives -7.
   */
  lemma ParseIntNegativeDecimalPrefix(d: string, junk: string)
    requires d != [] && (forall i :: 0 <= i < |d| ==> DigitValue(d[i]) < 10) && DigitsValue(d, 10) > 0
    requires junk == [] || DigitValue(junk[0]) >= 10
    ensures ParseInt("-" + (d + junk)) == Num(-(DigitsValue(d, 10) as int))
  {
    assert (d + junk)[0] == d[0];
    ParseIntMinus(d + junk);
    ParseIntDecimalPrefix(d, junk);
  }

  lemma NegativeNumeral(n: nat)
    requires n > 0
    ensures ParseInt("-" + DecimalString(n)) == Num(-(n as int))
  {
    assert NumberToString(-(n as int)) + [] == "-" + DecimalString(n);
    NegativeNumeralPrefix(n, []);
  }

  /**
   * A string whose first character is no white space, sign or decimal digit gives `NaN`.
   * This restates a special case of the contract of `ParseInt` for readers.
   */
  lemma ParseIntNoDigits(s: string)
    requires s == [] || (!IsJsWhitespace(s[0]) && s[0] != '-' && s[0] != '+' && DigitValue(s[0]) >= 10)
    ensures ParseInt(s) == NaN
  {
  }

  /**
   * A numeral with a minus sign, after any white space, never parses to a positive number.
   * This restates the sign bound in the contract of `ParseInt` for readers.
   */
  lemma ParseIntNegative(s: string)
    requires TrimStart(s) != [] && TrimStart(s)[0] == '-'
    ensures ParseInt(s) == NaN || ParseInt(s).value <= 0
  {
  }
}
