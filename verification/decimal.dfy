/** Decimal text and 32-bit integers: `std::stoi` (text to `int`) and
    `std::to_string` (`int` to text) as the modelled code uses them. */
module Decimal {
  import opened Wrappers

  /** Range of the C++ `int` the parsed values are stored in. */
  const IntMin: int := -0x8000_0000
  const IntMax: int := 0x7FFF_FFFF

  predicate InIntRange(n: int) {
    IntMin <= n <= IntMax
  }

  /** `isspace` in the C locale: space, and tab through carriage return. */
  predicate IsSpace(c: char) {
    c == ' ' || '\t' <= c <= '\r'
  }

  predicate IsDigit(c: char) {
    '0' <= c <= '9'
  }

  predicate AllDigits(s: string) {
    forall i :: 0 <= i < |s| ==> IsDigit(s[i])
  }

  /** The value of a decimal digit (0 for any other character). */
  function DigitValue(c: char): (d: nat)
    ensures d < 10
  {
    if IsDigit(c) then (c as int) - ('0' as int) else 0
  }

  function DigitChar(d: nat): (c: char)
    requires d < 10
    ensures IsDigit(c) && DigitValue(c) == d
  {
    ('0' as int + d) as char
  }

  /** The number a run of decimal digits denotes, most significant first. */
  function ValueOf(ds: string): nat
    decreases |ds|
  {
    if |ds| == 0 then 0
    else 10 * ValueOf(ds[..|ds| - 1]) + DigitValue(ds[|ds| - 1])
  }

  /** What is left of `s` after its leading white space. */
  function SkipSpace(s: string): (t: string)
    ensures |t| <= |s| && t == s[|s| - |t|..]
    ensures |t| > 0 ==> !IsSpace(t[0])
    ensures forall i :: 0 <= i < |s| - |t| ==> IsSpace(s[i])
    decreases |s|
  {
    if |s| > 0 && IsSpace(s[0]) then SkipSpace(s[1..]) else s
  }

  /** Length of the run of digits at the front of `s`. */
  function DigitRun(s: string): (n: nat)
    ensures n <= |s| && AllDigits(s[..n])
    ensures n < |s| ==> !IsDigit(s[n])
    decreases |s|
  {
    if |s| > 0 && IsDigit(s[0]) then 1 + DigitRun(s[1..]) else 0
  }

  /** `std::stoi(s)` with base 10: optional leading white space, an optional
      sign, at least one digit; whatever follows the digits is ignored. No
      digit, or a value outside `int`, is a failure (`invalid_argument` or
      `out_of_range` in the source). */
  function Stoi(s: string): (r: Option<int>)
    ensures r.Some? ==> InIntRange(r.value)
  {
    ParseSigned(SkipSpace(s))
  }

  /** The part of `stoi` after the white space: sign, digits, range check. */
  function ParseSigned(t: string): (r: Option<int>)
    ensures r.Some? ==> InIntRange(r.value)
    ensures r.Some? ==> |t| > 0 && (IsDigit(t[0]) || ((t[0] == '-' || t[0] == '+') && |t| > 1 && IsDigit(t[1])))
    ensures r.Some? && r.value < 0 ==> t[0] == '-'
  {
    var negative := |t| > 0 && t[0] == '-';
    var unsigned := if |t| > 0 && (t[0] == '-' || t[0] == '+') then t[1..] else t;
    var n := DigitRun(unsigned);
    if n == 0 then None
    else
      var magnitude: int := ValueOf(unsigned[..n]);
      var v := if negative then -magnitude else magnitude;
      if InIntRange(v) then Some(v) else None
  }

  /** Decimal digits of `n`, without leading zeros. */
  function NatToString(n: nat): (s: string)
    ensures |s| > 0 && AllDigits(s)
    ensures ValueOf(s) == n
    ensures s[0] == '0' ==> n == 0
    decreases n
  {
    if n < 10 then [DigitChar(n)]
    else
      var prefix := NatToString(n / 10);
      var s := prefix + [DigitChar(n % 10)];
      assert s[..|s| - 1] == prefix;
      s
  }

  /** `std::to_string(n)`: a minus sign for negative numbers, then the digits. */
  function IntToString(n: int): (s: string)
    ensures |s| > 0
  {
    if n < 0 then "-" + NatToString(-n) else NatToString(n)
  }

  /** Leading white space never changes what `stoi` reads. */
  lemma {:induction false} StoiSkipsLeadingSpace(ws: string, s: string)
    requires forall i :: 0 <= i < |ws| ==> IsSpace(ws[i])
    ensures Stoi(ws + s) == Stoi(s)
  {
    SkipSpaceOfBlanks(ws, s);
  }

  lemma {:induction false} SkipSpaceOfBlanks(ws: string, s: string)
    requires forall i :: 0 <= i < |ws| ==> IsSpace(ws[i])
    ensures SkipSpace(ws + s) == SkipSpace(s)
    decreases |ws|
  {
    if |ws| > 0 {
      assert (ws + s)[1..] == ws[1..] + s;
      SkipSpaceOfBlanks(ws[1..], s);
    } else {
      assert ws + s == s;
    }
  }

  lemma {:induction false} DigitRunOfDigits(ds: string, rest: string)
    requires AllDigits(ds)
    requires |rest| == 0 || !IsDigit(rest[0])
    ensures DigitRun(ds + rest) == |ds|
    ensures (ds + rest)[..|ds|] == ds
    decreases |ds|
  {
    if |ds| > 0 {
      assert (ds + rest)[1..] == ds[1..] + rest;
      DigitRunOfDigits(ds[1..], rest);
    }
  }

  /** `stoi` reads back what `to_string` writes, and stops at the first
      character that is not a digit. */
  lemma {:induction false} StoiReadsToString(n: int, rest: string)
    requires InIntRange(n)
    requires |rest| == 0 || !IsDigit(rest[0])
    ensures Stoi(IntToString(n) + rest) == Some(n)
  {
    var s := IntToString(n) + rest;
    if n < 0 {
      var ds := NatToString(-n);
      assert s == "-" + (ds + rest);
      ParseNegative(ds, rest);
    } else {
      var ds := NatToString(n);
      assert s == ds + rest;
      ParseNonNegative(ds, rest);
    }
  }

  lemma {:induction false} ParseNonNegative(ds: string, rest: string)
    requires |ds| > 0 && AllDigits(ds) && InIntRange(ValueOf(ds))
    requires |rest| == 0 || !IsDigit(rest[0])
    ensures Stoi(ds + rest) == Some(ValueOf(ds))
  {
    StoiOfSignedDigits("", ds, rest);
    assert "" + (ds + rest) == ds + rest;
  }

  lemma {:induction false} ParseNegative(ds: string, rest: string)
    requires |ds| > 0 && AllDigits(ds) && InIntRange(-(ValueOf(ds) as int))
    requires |rest| == 0 || !IsDigit(rest[0])
    ensures Stoi("-" + (ds + rest)) == Some(-(ValueOf(ds) as int))
  {
    StoiOfSignedDigits("-", ds, rest);
  }

  /** Text that does not start with white space goes to the sign and digit
      reader unchanged. */
  lemma {:induction false} StoiOfUnspaced(s: string)
    requires |s| > 0 && !IsSpace(s[0])
    ensures Stoi(s) == ParseSigned(s)
  {
  }

  /** The value `stoi` gives a digit string under an optional sign, when it
      fits in an `int`. */
  function SignedValue(sign: string, ds: string): int {
    if sign == "-" then -(ValueOf(ds) as int) else ValueOf(ds)
  }

  /** Text that starts with an optional sign and a run of digits reads as
      the signed value of the digits when that fits in an `int`, and fails
      (`out_of_range`) when it does not; the `+` sign changes nothing. */
  lemma {:induction false} StoiOfSignedDigits(sign: string, ds: string, rest: string)
    requires sign == "" || sign == "+" || sign == "-"
    requires |ds| > 0 && AllDigits(ds)
    requires |rest| == 0 || !IsDigit(rest[0])
    ensures var v := SignedValue(sign, ds);
      Stoi(sign + (ds + rest)) == if InIntRange(v) then Some(v) else None
  {
    var u := ds + rest;
    var s := sign + u;
    DigitRunOfDigits(ds, rest);
    assert u[0] == ds[0];
    if sign == "" {
      assert s == u;
    } else {
      assert s[0] == sign[0] && s[1..] == u;
    }
    StoiOfUnspaced(s);
    SignStep(s, u, |ds|);
  }

  lemma {:induction false} SignStep(t: string, unsigned: string, n: nat)
    requires |t| > 0 && |unsigned| > 0
    requires if t[0] == '-' || t[0] == '+' then t[1..] == unsigned else t == unsigned
    requires 0 < n == DigitRun(unsigned)
    ensures var v := if t[0] == '-' then -(ValueOf(unsigned[..n]) as int) else ValueOf(unsigned[..n]);
      ParseSigned(t) == if InIntRange(v) then Some(v) else None
  {
  }

  /** A digit string whose value does not fit in an `int` fails, with or
      without a sign: `std::stoi` throws `out_of_range`. */
  lemma {:induction false} StoiRejectsOutOfRange(ds: string, rest: string)
    requires |ds| > 0 && AllDigits(ds)
    requires |rest| == 0 || !IsDigit(rest[0])
    ensures !InIntRange(ValueOf(ds)) ==> Stoi(ds + rest) == None && Stoi("+" + (ds + rest)) == None
    ensures !InIntRange(-(ValueOf(ds) as int)) ==> Stoi("-" + (ds + rest)) == None
  {
    StoiOfSignedDigits("", ds, rest);
    assert "" + (ds + rest) == ds + rest;
    StoiOfSignedDigits("+", ds, rest);
    StoiOfSignedDigits("-", ds, rest);
  }

  /** An explicit `+` reads as no sign at all. */
  lemma {:induction false} StoiPlusSign(ds: string, rest: string)
    requires |ds| > 0 && AllDigits(ds)
    requires |rest| == 0 || !IsDigit(rest[0])
    ensures Stoi("+" + (ds + rest)) == Stoi(ds + rest)
  {
    StoiOfSignedDigits("", ds, rest);
    assert "" + (ds + rest) == ds + rest;
    StoiOfSignedDigits("+", ds, rest);
  }

  /** The round trip `stoi(to_string(n)) == n` for every `int`. */
  lemma {:induction false} StoiToStringRoundTrip(n: int)
    requires InIntRange(n)
    ensures Stoi(IntToString(n)) == Some(n)
  {
    StoiReadsToString(n, "");
    assert IntToString(n) + "" == IntToString(n);
  }

  /** Text whose first non-blank character is neither a sign nor a digit is
      rejected, and so is a sign not followed by a digit. */
  lemma {:induction false} StoiRejectsNonNumeric(s: string)
    requires var t := SkipSpace(s);
      || |t| == 0
      || (t[0] != '-' && t[0] != '+' && !IsDigit(t[0]))
      || ((t[0] == '-' || t[0] == '+') && (|t| == 1 || !IsDigit(t[1])))
    ensures Stoi(s) == None
  {
  }

  /** `to_string` writes only digits and a leading minus sign. */
  lemma {:induction false} IntToStringAlphabet(n: int)
    ensures forall i :: 0 <= i < |IntToString(n)| ==>
      IsDigit(IntToString(n)[i]) || (i == 0 && IntToString(n)[i] == '-')
  {
    if n < 0 {
      var ds := NatToString(-n);
      assert forall i :: 1 <= i < |IntToString(n)| ==> IntToString(n)[i] == ds[i - 1];
    }
  }
}
