/**
 * xtoi of the intersect tool (tools/intersect.cpp:10-87): a wide C string
 * holding an optional '-', an optional base prefix ("0x", "0X", "x" or
 * "X" for hexadecimal) and digits, read as an int.
 *
 * `total` is unbounded here: the source's int overflows (undefined
 * behaviour in C) on numbers above 2^31 - 1.
 */
module Intersect {
  import opened Errors
  import opened Utility

  /** How xtoi splits its argument: the sign, the base prefix and the digits. */
  datatype Parts = Parts(negative: bool, prefix: string, digits: string) {
    predicate Hex() { prefix != "" }
  }

  /**
   * The sign and prefix tests (intersect.cpp:22-45): a '-' is taken
   * first, then "0x"/"0X", or else a bare "x"/"X"; a lone leading "0" is
   * a digit.
   */
  function Split(c: string): Parts
  {
    var negative := |c| > 0 && c[0] == '-';
    var rest := if negative then c[1..] else c;
    if |rest| >= 2 && rest[0] == '0' && (rest[1] == 'x' || rest[1] == 'X') then Parts(negative, [rest[0], rest[1]], rest[2..])
    else if |rest| >= 1 && (rest[0] == 'x' || rest[0] == 'X') then Parts(negative, [rest[0]], rest[1..])
    else Parts(negative, "", rest)
  }

  /**
   * Split takes the string apart without loss: the sign, one of the four
   * prefixes (or none), and the digits; with no prefix the digits do not
   * start with one.
   */
  lemma SplitMeaning(c: string)
    ensures var p := Split(c);
      && c == (if p.negative then "-" else "") + p.prefix + p.digits
      && (p.negative <==> |c| > 0 && c[0] == '-')
      && p.prefix in {"", "0x", "0X", "x", "X"}
      && (p.prefix == "" ==>
            && !(|p.digits| > 0 && (p.digits[0] == 'x' || p.digits[0] == 'X'))
            && !(|p.digits| > 1 && p.digits[0] == '0' && (p.digits[1] == 'x' || p.digits[1] == 'X')))
  {
  }

  function Base(hex: bool): nat
  {
    if hex then 16 else 10
  }

  /**
   * A digit of the base (intersect.cpp:52-63, 73-80): 0-9, and in
   * hexadecimal also the upper-case A-F; lower-case a-f is not a digit.
   */
  function Digit(c: char, hex: bool): (d: Option<nat>)
    ensures d.Some? <==> '0' <= c <= '9' || (hex && 'A' <= c <= 'F')
    ensures d.Some? ==> d.value < Base(hex)
  {
    if '0' <= c <= '9' then Some(c as int - '0' as int)
    else if hex && 'A' <= c <= 'F' then Some(10 + (c as int - 'A' as int))
    else None
  }

  /** All characters are digits of the base. */
  predicate AllDigits(digits: string, hex: bool)
  {
    forall i :: 0 <= i < |digits| ==> Digit(digits[i], hex).Some?
  }

  /**
   * The digit loops (intersect.cpp:47-84): `total = total * base + digit`
   * from the first digit on, failing at a character that is not a digit.
   */
  function ValueOf(digits: string, hex: bool): (r: Result<nat>)
    ensures r.Fail? ==> r.error == (if hex then InvalidHexadecimalCharacter else InvalidDecimalCharacter)
    decreases |digits|
  {
    if |digits| == 0 then Ok(0)
    else
      var total :- ValueOf(digits[..|digits| - 1], hex);
      var d := Digit(digits[|digits| - 1], hex);
      if d.None? then Fail(if hex then InvalidHexadecimalCharacter else InvalidDecimalCharacter)
      else Ok(total * Base(hex) + d.value)
  }

  function Power(b: nat, n: nat): nat
  {
    if n == 0 then 1 else b * Power(b, n - 1)
  }

  /** The positional value read from the most significant digit: d0 * base^(n-1) + ... + d(n-1). */
  function Positional(digits: string, hex: bool): nat
    requires AllDigits(digits, hex)
  {
    if |digits| == 0 then 0
    else Digit(digits[0], hex).value * Power(Base(hex), |digits| - 1) + Positional(digits[1..], hex)
  }

  /** xtoi on the characters before the terminator. */
  function Parse(str: string): Result<int>
  {
    var p := Split(UntilNul(str, '\0'));
    var total :- ValueOf(p.digits, p.Hex());
    Ok(if p.negative then total * -1 else total)
  }

  /** The digit loops succeed exactly when every character is a digit of the base. */
  lemma {:induction false} ValueOfOk(digits: string, hex: bool)
    ensures ValueOf(digits, hex).Ok? <==> AllDigits(digits, hex)
    decreases |digits|
  {
    if |digits| > 0 {
      var init := digits[..|digits| - 1];
      ValueOfOk(init, hex);
      assert AllDigits(digits, hex) <==> AllDigits(init, hex) && Digit(digits[|digits| - 1], hex).Some? by {
        assert forall i :: 0 <= i < |init| ==> init[i] == digits[i];
      }
    }
  }

  /** A digit appended at the least significant end. */
  lemma {:induction false} PositionalAppend(digits: string, c: char, hex: bool)
    requires AllDigits(digits, hex) && Digit(c, hex).Some?
    ensures AllDigits(digits + [c], hex)
    ensures Positional(digits + [c], hex) == Positional(digits, hex) * Base(hex) + Digit(c, hex).value
    decreases |digits|
  {
    var e := digits + [c];
    assert forall i :: 0 <= i < |e| ==> e[i] == if i < |digits| then digits[i] else c;
    if |digits| > 0 {
      assert e[1..] == digits[1..] + [c];
      PositionalAppend(digits[1..], c, hex);
      var b, n := Base(hex), |digits| - 1;
      assert Power(b, n + 1) == b * Power(b, n);
      ShiftDigit(Digit(digits[0], hex).value, Power(b, n), Positional(digits[1..], hex), b, Digit(c, hex).value);
    }
  }

  lemma ShiftDigit(d: nat, x: nat, p: nat, b: nat, c: nat)
    ensures d * (b * x) + (p * b + c) == (d * x + p) * b + c
  {
    assert d * (b * x) == (d * x) * b;
    assert (d * x) * b + p * b == (d * x + p) * b;
  }

  /** The loop computes the positional value of the digits. */
  lemma {:induction false} ValueIsPositional(digits: string, hex: bool)
    requires AllDigits(digits, hex)
    ensures ValueOf(digits, hex) == Ok(Positional(digits, hex))
    decreases |digits|
  {
    if |digits| > 0 {
      var init := digits[..|digits| - 1];
      var c := digits[|digits| - 1];
      ValueIsPositional(init, hex);
      PositionalAppend(init, c, hex);
      assert init + [c] == digits;
    }
  }

  /**
   * What xtoi returns: with all digits of the chosen base, the signed
   * positional value; otherwise the error of that base.  Characters after
   * the terminator are never looked at.
   */
  lemma ParseMeaning(str: string)
    ensures var p := Split(UntilNul(str, '\0'));
      && (Parse(str).Ok? <==> AllDigits(p.digits, p.Hex()))
      && (AllDigits(p.digits, p.Hex()) ==>
            var v := Positional(p.digits, p.Hex()) as int;
            Parse(str) == Ok(if p.negative then -v else v))
      && (Parse(str).Fail? ==>
            Parse(str).error == (if p.Hex() then InvalidHexadecimalCharacter else InvalidDecimalCharacter))
  {
    var p := Split(UntilNul(str, '\0'));
    ParseParts(str);
    ValueOfOk(p.digits, p.Hex());
    hide Parse, Split, UntilNul, ValueOf, Positional;
    if AllDigits(p.digits, p.Hex()) {
      ValueIsPositional(p.digits, p.Hex());
    }
  }

  /** An empty digit string ("", "-", "0x", "x", "-0X") gives 0. */
  lemma NoDigitsIsZero(str: string)
    requires Split(UntilNul(str, '\0')).digits == ""
    ensures Parse(str) == Ok(0)
  {
  }

  /** One more character for the digit loop. */
  lemma ValueOfAppend(digits: string, c: char, hex: bool)
    requires ValueOf(digits, hex).Ok?
    ensures ValueOf(digits + [c], hex) ==
      if Digit(c, hex).Some? then Ok(ValueOf(digits, hex).value * Base(hex) + Digit(c, hex).value)
      else Fail(if hex then InvalidHexadecimalCharacter else InvalidDecimalCharacter)
  {
    assert (digits + [c])[..|digits|] == digits;
  }

  lemma ParseParts(str: string)
    ensures var p := Split(UntilNul(str, '\0'));
      var v := ValueOf(p.digits, p.Hex());
      Parse(str) == if v.Ok? then Ok(if p.negative then v.value * -1 else v.value) else Fail(v.error)
  {
  }

  /** The digit loop takes one more character. */
  lemma DigitStep(c: string, start: nat, at: nat, hex: bool, total: nat)
    requires start <= at < |c| && ValueOf(c[start..at], hex) == Ok(total) && Digit(c[at], hex).Some?
    ensures ValueOf(c[start..at + 1], hex) == Ok(total * Base(hex) + Digit(c[at], hex).value)
  {
    assert c[start..at + 1] == c[start..at] + [c[at]];
    ValueOfAppend(c[start..at], c[at], hex);
  }

  /** A character that is not a digit makes the whole digit string fail. */
  lemma NotADigit(c: string, start: nat, at: nat, hex: bool)
    requires start <= at < |c| && Digit(c[at], hex).None?
    ensures ValueOf(c[start..], hex).Fail?
  {
    assert c[start..][at - start] == c[at];
    ValueOfOk(c[start..], hex);
  }

  /** What the digit loop has read from `start` up to `at`, before the terminator. */
  function DigitsRead(str: string, start: nat, at: nat, hex: bool): Result<nat>
    requires start <= at <= |UntilNul(str, '\0')|
  {
    ValueOf(UntilNul(str, '\0')[start..at], hex)
  }

  /** One turn of the digit loop, on the characters before the terminator. */
  lemma DigitAt(str: string, start: nat, at: nat, hex: bool, total: nat)
    requires start <= at <= |UntilNul(str, '\0')| && at < |str| && str[at] != '\0'
    requires DigitsRead(str, start, at, hex) == Ok(total)
    ensures at + 1 <= |UntilNul(str, '\0')|
    ensures var d := Digit(str[at], hex);
      && (d.None? ==> ValueOf(UntilNul(str, '\0')[start..], hex) == Fail(if hex then InvalidHexadecimalCharacter else InvalidDecimalCharacter))
      && (d.Some? ==> DigitsRead(str, start, at + 1, hex) == Ok(total * Base(hex) + d.value))
  {
    var c := UntilNul(str, '\0');
    ContentAt(str, at);
    if Digit(c[at], hex).None? {
      NotADigit(c, start, at, hex);
    } else {
      DigitStep(c, start, at, hex, total);
    }
  }

  /** At the terminator the digit loop has read all of the digit string. */
  lemma DigitsEnd(str: string, start: nat, at: nat, hex: bool)
    requires start <= at <= |UntilNul(str, '\0')| && !(at < |str| && str[at] != '\0')
    ensures DigitsRead(str, start, at, hex) == ValueOf(UntilNul(str, '\0')[start..], hex)
  {
    ContentAt(str, at);
    assert UntilNul(str, '\0')[start..at] == UntilNul(str, '\0')[start..];
  }

  /** The characters xtoi tests, read through the terminator rule. */
  lemma ContentAt(str: string, i: nat)
    requires i <= |UntilNul(str, '\0')|
    ensures (i < |str| && str[i] != '\0') <==> i < |UntilNul(str, '\0')|
    ensures i < |UntilNul(str, '\0')| ==> str[i] == UntilNul(str, '\0')[i]
  {
  }

  /** Split by positions: the digits start after the sign and the prefix. */
  lemma SplitIndex(c: string)
    ensures var p := Split(c);
      var k := if p.negative then 1 else 0;
      && k + |p.prefix| <= |c| && p.digits == c[k + |p.prefix|..]
      && p.negative == (|c| > 0 && c[0] == '-')
      && |p.prefix| ==
           (if |c| >= k + 2 && c[k] == '0' && (c[k + 1] == 'x' || c[k + 1] == 'X') then 2
            else if |c| >= k + 1 && (c[k] == 'x' || c[k] == 'X') then 1
            else 0)
  {
  }

  /**
   * xtoi (intersect.cpp:10-87): the sign and prefix tests walk the
   * pointer forward, then the digit loop reads the rest.
   */
  method Xtoi(str: string) returns (r: Result<int>)
    ensures r == Parse(str)
  {
    ghost var c := UntilNul(str, '\0');
    ghost var p := Split(c);
    ParseParts(str);
    SplitIndex(c);
    hide Parse, ValueOf, Split, UntilNul;
    var at := 0;
    var negative, hex := false, false;
    ContentAt(str, 0);
    if at < |str| && str[at] != '\0' && str[at] == '-' {
      negative := true;
      at := at + 1;
    }
    ContentAt(str, at);
    if at < |str| && str[at] != '\0' {
      if str[at] == '0' {
        ContentAt(str, at + 1);
        if at + 1 < |str| && str[at + 1] != '\0' && (str[at + 1] == 'x' || str[at + 1] == 'X') {
          at := at + 2;
          hex := true;
        }
      } else if str[at] == 'x' || str[at] == 'X' {
        at := at + 1;
        hex := true;
      }
    }
    assert negative == p.negative && hex == p.Hex() && c[at..] == p.digits;
    var total :- ReadDigits(str, at, hex);
    var value: int := total;
    r := Ok(if negative then value * -1 else value);
  }

  /**
   * The digit loops (intersect.cpp:47-84) from position `start`:
   * `total = total * base + digit` up to the terminator.
   */
  method ReadDigits(str: string, start: nat, hex: bool) returns (r: Result<nat>)
    requires start <= |UntilNul(str, '\0')|
    ensures r == ValueOf(UntilNul(str, '\0')[start..], hex)
  {
    assert DigitsRead(str, start, start, hex) == Ok(0);
    hide *;
    var at := start;
    var total := 0;
    while at < |str| && str[at] != '\0'
      invariant start <= at <= |UntilNul(str, '\0')|
      invariant DigitsRead(str, start, at, hex) == Ok(total)
    {
      DigitAt(str, start, at, hex, total);
      var d := Digit(str[at], hex);
      if d.None? {
        return Fail(if hex then InvalidHexadecimalCharacter else InvalidDecimalCharacter);
      }
      total := total * Base(hex) + d.value;
      at := at + 1;
    }
    DigitsEnd(str, start, at, hex);
    r := Ok(total);
  }
}
