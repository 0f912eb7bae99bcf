/** Decimal numerals as the system prints and reads them: Python's str(int) and int(s),
    Arduino's String(int) and String::toInt, C's atoi and sscanf's %d. */
module Numerals {
  import opened Wrappers
  import opened Text

  function DigitChar(d: nat): (c: char)
    requires d < 10
    ensures IsDigit(c)
  {
    ('0' as int + d) as char
  }

  function DigitValue(c: char): (d: nat)
    requires IsDigit(c)
    ensures d < 10
  {
    c as int - '0' as int
  }

  predicate AllDigits(s: string) {
    forall i :: 0 <= i < |s| ==> IsDigit(s[i])
  }

  /** The number a run of decimal digits denotes, most significant digit first. */
  function DigitsValue(s: string): nat
    requires AllDigits(s)
  {
    if |s| == 0 then 0 else 10 * DigitsValue(s[..|s| - 1]) + DigitValue(s[|s| - 1])
  }

  /** The decimal digits of `n` without leading zeros (Python's str on a natural number). */
  function NatToString(n: nat): (s: string)
    ensures |s| > 0 && AllDigits(s)
    ensures |s| > 1 ==> s[0] != '0'
    ensures DigitsValue(s) == n
  {
    if n < 10 then [DigitChar(n)]
    else
      var prefix := NatToString(n / 10);
      var s := prefix + [DigitChar(n % 10)];
      assert s[..|s| - 1] == prefix;
      s
  }

  /** Python's str(n) and Arduino's String(n): a minus sign for negatives, then the digits. */
  function IntToString(n: int): string {
    if n < 0 then "-" + NatToString(-n) else NatToString(n)
  }

  lemma IntToStringShape(n: int)
    ensures |IntToString(n)| > 0
    ensures forall i :: 0 <= i < |IntToString(n)| ==> IsDigit(IntToString(n)[i]) || IntToString(n)[i] == '-'
    ensures NoSpace(Py, IntToString(n)) && NoSpace(C, IntToString(n))
  {
    var s := IntToString(n);
    forall i | 0 <= i < |s|
      ensures !IsSpace(Py, s[i]) && !IsSpace(C, s[i])
    {
      assert IsDigit(s[i]) || s[i] == '-';
    }
  }

  /** Appending a digit shifts the value by one decimal place. */
  lemma DigitsValueSnoc(s: string, c: char)
    requires AllDigits(s) && IsDigit(c)
    ensures AllDigits(s + [c])
    ensures DigitsValue(s + [c]) == 10 * DigitsValue(s) + DigitValue(c)
  {
    assert (s + [c])[..|s|] == s;
  }

  /** Python's int(s) for a base-10 string: optional surrounding white space, an optional
      sign, then one or more ASCII digits; None where Python raises ValueError. */
  function PyInt(s: string): (r: Option<int>)
    ensures r.Some? ==> exists i :: 0 <= i < |s| && IsDigit(s[i])
  {
    var t := Strip(Py, s);
    if |t| > 0 && (t[0] == '+' || t[0] == '-') then
      var body := t[1..];
      if |body| > 0 && AllDigits(body) then
        assert IsDigit(t[1]);
        var v: int := DigitsValue(body);
        Some(if t[0] == '-' then -v else v)
      else None
    else if |t| > 0 && AllDigits(t) then
      assert IsDigit(t[0]);
      Some(DigitsValue(t))
    else None
  }

  /** A numeral (digits, possibly after a minus sign) is left alone by str.strip(). */
  lemma {:induction false} StripKeepsNumeral(s: string)
    requires |s| > 0 && (IsDigit(s[0]) || s[0] == '-') && IsDigit(s[|s| - 1])
    ensures Strip(Py, s) == s
  {
    assert !IsSpace(Py, s[0]);
    assert !IsSpace(Py, s[|s| - 1]);
    StripOfStripped(Py, s);
  }

  /** The printed form of a negative number is a minus sign and the printed magnitude. */
  lemma IntToStringParts(n: int)
    ensures n < 0 ==> IntToString(n)[0] == '-' && IntToString(n)[1..] == NatToString(-n)
    ensures n >= 0 ==> IntToString(n) == NatToString(n) && IsDigit(IntToString(n)[0])
  {
  }

  /** Python's int() reads a run of digits, with or without a minus sign before it. */
  lemma {:induction false} PyIntOfNumeral(s: string, negative: bool, d: string)
    requires |d| > 0 && AllDigits(d)
    requires s == (if negative then "-" else "") + d
    ensures PyInt(s) == Some(if negative then -(DigitsValue(d) as int) else DigitsValue(d) as int)
  {
    if negative {
      PyIntOfNegative(s, d);
    } else {
      assert s == d;
      PyIntOfDigits(d);
    }
  }

  lemma {:induction false} PyIntOfDigits(d: string)
    requires |d| > 0 && AllDigits(d)
    ensures PyInt(d) == Some(DigitsValue(d) as int)
  {
    StripKeepsNumeral(d);
  }

  lemma {:induction false} PyIntOfNegative(s: string, d: string)
    requires |d| > 0 && AllDigits(d) && s == "-" + d
    ensures PyInt(s) == Some(-(DigitsValue(d) as int))
  {
    assert s[|s| - 1] == d[|d| - 1];
    StripKeepsNumeral(s);
    assert s[1..] == d;
  }

  /** Python's int() reads back what str() printed. */
  lemma {:induction false} PyIntOfIntToString(n: int)
    ensures PyInt(IntToString(n)) == Some(n)
  {
    var d := NatToString(if n < 0 then -n else n);
    PyIntOfNumeral(IntToString(n), n < 0, d);
  }

  lemma {:induction false} DigitsValueHundredfold(d: string)
    requires AllDigits(d)
    ensures AllDigits(d + "00")
    ensures DigitsValue(d + "00") == 100 * DigitsValue(d)
  {
    DigitsValueSnoc(d, '0');
    DigitsValueSnoc(d + ['0'], '0');
    assert d + "00" == d + ['0'] + ['0'];
  }

  /** Appending "00" to a printed integer and reading it back multiplies it by 100. */
  lemma {:induction false} PyIntOfHundredfold(n: int)
    ensures PyInt(IntToString(n) + "00") == Some(100 * n)
  {
    AppendToPrinted(n, "00");
    PyIntOfHundredfoldNumeral(n < 0, NatToString(if n < 0 then -n else n));
  }

  lemma {:induction false} PyIntOfHundredfoldNumeral(negative: bool, d: string)
    requires |d| > 0 && AllDigits(d)
    ensures PyInt((if negative then "-" else "") + (d + "00"))
            == Some(100 * (if negative then -(DigitsValue(d) as int) else DigitsValue(d) as int))
  {
    DigitsValueHundredfold(d);
    var v: int := DigitsValue(d + "00");
    PyIntOfNumeral((if negative then "-" else "") + (d + "00"), negative, d + "00");
    assert (if negative then -v else v) == 100 * (if negative then -(DigitsValue(d) as int) else DigitsValue(d) as int);
  }

  /** Text after a printed integer extends its digits, not its sign. */
  lemma AppendToPrinted(n: int, tail: string)
    ensures IntToString(n) + tail == (if n < 0 then "-" else "") + (NatToString(if n < 0 then -n else n) + tail)
  {
  }

  /** Length of the run of digits at the front of `s`. */
  function DigitRun(s: string): (n: nat)
    ensures n <= |s|
    ensures AllDigits(s[..n])
    ensures n < |s| ==> !IsDigit(s[n])
  {
    if |s| == 0 || !IsDigit(s[0]) then 0
    else
      var n' := DigitRun(s[1..]);
      assert s[..n' + 1] == [s[0]] + s[1..][..n'];
      n' + 1
  }

  /** The value of the digits at the front of `s` with an optional sign before them. */
  function SignedPrefix(t: string): int {
    if |t| > 0 && (t[0] == '-' || t[0] == '+') then
      var v: int := DigitsValue(t[1..][..DigitRun(t[1..])]);
      if t[0] == '-' then -v else v
    else DigitsValue(t[..DigitRun(t)])
  }

  /** C's atoi and Arduino's String::toInt: skip leading white space, read an optional
      sign and the longest run of digits; 0 when there are none. */
  function Atoi(s: string): int {
    SignedPrefix(s[LeadingSpaces(C, s)..])
  }

  /** sscanf's %d: skip white space, read an optional sign and at least one digit; returns
      the value and the unread rest, or None on a matching failure. */
  function ScanInt(s: string): (r: Option<(int, string)>)
    ensures r.Some? ==> |r.value.1| < |s|
  {
    var t := s[LeadingSpaces(C, s)..];
    var signed := |t| > 0 && (t[0] == '-' || t[0] == '+');
    var body := if signed then t[1..] else t;
    var n := DigitRun(body);
    if n == 0 then None
    else
      var v: int := DigitsValue(body[..n]);
      Some((if signed && t[0] == '-' then -v else v, body[n..]))
  }

  /** The digits of a printed natural number run up to the first non-digit. */
  lemma {:induction false} DigitRunOfConcat(d: string, rest: string)
    requires AllDigits(d)
    requires |rest| == 0 || !IsDigit(rest[0])
    ensures DigitRun(d + rest) == |d|
    decreases |d|
  {
    var s := d + rest;
    if |d| == 0 {
      assert s == rest;
    } else {
      assert s[0] == d[0];
      assert s[1..] == d[1..] + rest;
      DigitRunOfConcat(d[1..], rest);
    }
  }

  /** atoi reads back a printed integer, whatever non-digit text follows it. */
  lemma {:induction false} AtoiOfIntToString(n: int, rest: string)
    requires |rest| == 0 || !IsDigit(rest[0])
    ensures Atoi(IntToString(n) + rest) == n
  {
    var d := NatToString(if n < 0 then -n else n);
    var s := IntToString(n) + rest;
    IntToStringShape(n);
    assert !IsSpace(C, s[0]);
    assert LeadingSpaces(C, s) == 0;
    assert s[0..] == s;
    DigitRunOfConcat(d, rest);
    if n < 0 {
      assert s[1..] == d + rest;
      assert (d + rest)[..|d|] == d;
    } else {
      assert s == d + rest;
      assert (d + rest)[..|d|] == d;
    }
  }

  /** sscanf's %d reads back a printed integer and leaves whatever non-digit text follows. */
  lemma {:induction false} ScanIntOfIntToString(n: int, rest: string)
    requires |rest| == 0 || !IsDigit(rest[0])
    ensures ScanInt(IntToString(n) + rest) == Some((n, rest))
  {
    var d := NatToString(if n < 0 then -n else n);
    var s := IntToString(n) + rest;
    IntToStringShape(n);
    assert !IsSpace(C, s[0]);
    assert LeadingSpaces(C, s) == 0;
    assert s[0..] == s;
    DigitRunOfConcat(d, rest);
    IntToStringParts(n);
    if n < 0 {
      assert s[1..] == d + rest;
    } else {
      assert s == d + rest;
    }
    assert (d + rest)[..|d|] == d;
    assert (d + rest)[|d|..] == rest;
  }
}
