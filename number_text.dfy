/**
 * Number text conversions the core relies on from the C++ library:
 * std::to_string for int and double (serializer) and std::stoi / std::stod
 * (text parser). Characters are classified as in the "C" locale.
 */
module NumberText {
  import opened Wrappers
  import opened Jsonable

  predicate IsDigit(c: char) {
    '0' <= c <= '9'
  }

  /** isspace() in the "C" locale. */
  predicate IsSpace(c: char) {
    c == ' ' || c == '\t' || c == '\n' || c == '\U{B}' || c == '\U{C}' || c == '\r'
  }

  predicate AllDigits(s: string) {
    forall k :: 0 <= k < |s| ==> IsDigit(s[k])
  }

  /** The value of a decimal digit; no other character is ever asked for. */
  function DigitValue(c: char): nat {
    if IsDigit(c) then c as int - '0' as int else 0
  }

  function DigitChar(d: nat): (c: char)
    requires d < 10
    ensures IsDigit(c) && DigitValue(c) == d
  {
    ('0' as int + d) as char
  }

  function Pow10(e: nat): (r: nat)
    ensures r > 0
  {
    if e == 0 then 1 else 10 * Pow10(e - 1)
  }

  /** The value of a run of decimal digits, most significant first. */
  function DigitsValue(s: string): nat {
    if |s| == 0 then 0 else DigitsValue(s[..|s| - 1]) * 10 + DigitValue(s[|s| - 1])
  }

  /** The decimal digits of n, most significant first, without leading zeros. */
  function NatText(n: nat): (r: string)
    ensures |r| > 0 && AllDigits(r)
  {
    if n < 10 then [DigitChar(n)] else NatText(n / 10) + [DigitChar(n % 10)]
  }

  lemma {:induction false} DigitsValueOfNatText(n: nat)
    ensures DigitsValue(NatText(n)) == n
  {
    var t := NatText(n);
    if n >= 10 {
      assert t[..|t| - 1] == NatText(n / 10);
      DigitsValueOfNatText(n / 10);
    }
  }

  /** std::to_string(int): decimal digits, with a leading '-' when negative. */
  function IntText(i: int): (r: string)
    ensures |r| > 0 && (r[0] == '-') == (i < 0)
    ensures forall k :: 0 <= k < |r| ==> r[k] == '-' || IsDigit(r[k])
    ensures forall k :: 0 < k < |r| ==> IsDigit(r[k])
  {
    if i < 0 then "-" + NatText(-i) else NatText(i)
  }

  // ----- std::stoi and std::stod -----

  /** The first position at or after i that is not white space. */
  function SkipSpaces(s: string, i: nat): (r: nat)
    requires i <= |s|
    ensures i <= r <= |s|
    decreases |s| - i
  {
    if i < |s| && IsSpace(s[i]) then SkipSpaces(s, i + 1) else i
  }

  /** The end of the run of digits starting at i. */
  function DigitRunEnd(s: string, i: nat): (r: nat)
    requires i <= |s|
    ensures i <= r <= |s|
    decreases |s| - i
  {
    if i < |s| && IsDigit(s[i]) then DigitRunEnd(s, i + 1) else i
  }

  /** Over a run of digits that reaches the end, the digit run ends at the end. */
  lemma {:induction false} DigitRunToEnd(s: string, i: nat)
    requires i <= |s| && forall k :: i <= k < |s| ==> IsDigit(s[k])
    ensures DigitRunEnd(s, i) == |s|
    decreases |s| - i
  {
    if i < |s| {
      DigitRunToEnd(s, i + 1);
    }
  }

  /** Where the digits start once an optional sign at i is passed. */
  function AfterSign(s: string, i: nat): (r: nat)
    requires i <= |s|
    ensures i <= r <= |s|
  {
    if i < |s| && (s[i] == '-' || s[i] == '+') then i + 1 else i
  }

  /**
   * std::stoi: leading white space, an optional sign and the longest run of
   * decimal digits; what follows is ignored. No digits, or a value outside
   * int, is an error (invalid_argument / out_of_range), here None.
   */
  function ParseInt(token: string): (r: Option<int>)
    ensures r.Some? ==> IsInt32(r.value)
  {
    var i := SkipSpaces(token, 0);
    var j := AfterSign(token, i);
    var k := DigitRunEnd(token, j);
    if k == j then None
    else
      var m: int := DigitsValue(token[j..k]);
      var v := if j > i && token[i] == '-' then -m else m;
      if IsInt32(v) then Some(v) else None
  }

  /** std::to_string(int) read back by std::stoi gives the int back. */
  lemma IntTextRoundTrip(i: int)
    requires IsInt32(i)
    ensures ParseInt(IntText(i)) == Some(i)
  {
    var t := IntText(i);
    assert SkipSpaces(t, 0) == 0;
    var j := if i < 0 then 1 else 0;
    assert AfterSign(t, 0) == j;
    DigitRunToEnd(t, j);
    if i < 0 {
      assert t[1..|t|] == NatText(-i);
      DigitsValueOfNatText(-i);
    } else {
      assert t[0..|t|] == NatText(i);
      DigitsValueOfNatText(i);
    }
  }

  /**
   * A token that does not open with white space, a sign or a digit is not a
   * number to stoi: "true", "null", "{..." and "[..." all fail.
   */
  lemma ParseIntRejectsNonNumber(token: string)
    requires |token| == 0 || (!IsSpace(token[0]) && token[0] != '-' && token[0] != '+' && !IsDigit(token[0]))
    ensures ParseInt(token) == None
  {
  }

  /** The text of an int outside the 32-bit range is rejected by stoi (out_of_range). */
  lemma IntTextOutOfRange(i: int)
    requires !IsInt32(i)
    ensures ParseInt(IntText(i)) == None
  {
    var t := IntText(i);
    assert SkipSpaces(t, 0) == 0;
    var j := if i < 0 then 1 else 0;
    assert AfterSign(t, 0) == j;
    DigitRunToEnd(t, j);
    if i < 0 {
      assert t[1..|t|] == NatText(-i);
      DigitsValueOfNatText(-i);
    } else {
      assert t[0..|t|] == NatText(i);
      DigitsValueOfNatText(i);
    }
  }

  /** An optional exponent at p: e or E, an optional sign, at least one digit. */
  function ExponentAt(s: string, p: nat): int
    requires p <= |s|
  {
    if p < |s| && (s[p] == 'e' || s[p] == 'E') then
      var q := AfterSign(s, p + 1);
      var e := DigitRunEnd(s, q);
      if e == q then 0
      else if q == p + 2 && s[p + 1] == '-' then -(DigitsValue(s[q..e]) as int)
      else DigitsValue(s[q..e])
    else 0
  }

  /** x times ten to the power e. */
  function Scale(x: real, e: int): real
    decreases if e < 0 then -e else e
  {
    if e == 0 then x
    else if e > 0 then Scale(x, e - 1) * 10.0
    else Scale(x, e + 1) / 10.0
  }

  /**
   * std::stod on decimal notation: leading white space, an optional sign,
   * digits with an optional '.', at least one digit, an optional exponent;
   * what follows is ignored. Anything else is an error, here None.
   */
  function ParseDouble(token: string): Option<real> {
    var i := SkipSpaces(token, 0);
    var j := AfterSign(token, i);
    var k := DigitRunEnd(token, j);
    var f := if k < |token| && token[k] == '.' then DigitRunEnd(token, k + 1) else k;
    var fraction := if f > k then token[k + 1..f] else "";
    if k == j && |fraction| == 0 then None
    else
      var digits := DigitsValue(token[j..k] + fraction) as real;
      var magnitude := Scale(digits, ExponentAt(token, f) - |fraction|);
      Some(if j > i && token[i] == '-' then -magnitude else magnitude)
  }

  /**
   * A token that does not open with white space, a sign, a digit or a '.' is
   * not a number to stod (in the decimal notation modelled here).
   */
  lemma ParseDoubleRejectsNonNumber(token: string)
    requires |token| == 0 || (!IsSpace(token[0]) && token[0] != '-' && token[0] != '+' && !IsDigit(token[0]) && token[0] != '.')
    ensures ParseDouble(token) == None
  {
  }

  // ----- std::to_string(double) -----

  /** Rounding to the nearest integer, ties to even. */
  function RoundHalfEven(x: real): (r: nat)
    requires x >= 0.0
  {
    var f := x.Floor;
    var frac := x - f as real;
    if frac < 0.5 then f
    else if frac > 0.5 then f + 1
    else if f % 2 == 0 then f else f + 1
  }

  /** s with zeros in front, up to the given width. */
  function ZeroPad(s: string, width: nat): (r: string)
    ensures |r| >= |s|
    decreases width - |s|
  {
    if |s| >= width then s else ZeroPad("0" + s, width)
  }

  /**
   * std::to_string(double), i.e. printf's "%f": an optional '-', the integer
   * part, '.', and six decimals, rounded.
   */
  function DoubleText(d: real): (r: string)
    ensures '.' in r
    ensures forall k :: 0 <= k < |r| ==> r[k] == '-' || r[k] == '.' || IsDigit(r[k])
  {
    var magnitude := if d < 0.0 then -d else d;
    var n := RoundHalfEven(magnitude * 1000000.0);
    var sign := if d < 0.0 then "-" else "";
    var whole := sign + NatText(n / 1000000);
    var decimals := ZeroPad(NatText(n % 1000000), 6);
    ZeroPadKeepsDigits(NatText(n % 1000000), 6);
    var r := whole + "." + decimals;
    assert r[|whole|] == '.';
    assert forall k :: 0 <= k < |r| ==> r[k] == (if k < |whole| then whole[k] else if k == |whole| then '.' else decimals[k - |whole| - 1]);
    r
  }

  lemma {:induction false} ZeroPadKeepsDigits(s: string, width: nat)
    requires AllDigits(s)
    ensures AllDigits(ZeroPad(s, width))
    decreases width - |s|
  {
    if |s| < width {
      ZeroPadKeepsDigits("0" + s, width);
    }
  }
}
