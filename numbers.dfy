/**
 * Integers as text: `str(int)` and the part of `int(float(s))` the utilities
 * use to read ratings and read counts (an optional sign, decimal digits and an
 * optional fraction, truncated toward zero).
 */
module Numbers {
  import opened Wrappers
  import opened Text

  function DigitChar(d: nat): (c: char)
    requires d < 10
    ensures IsDigit(c)
  {
    (d + '0' as int) as char
  }

  function DigitOf(c: char): (d: nat)
    requires IsDigit(c)
    ensures d < 10 && DigitChar(d) == c
  {
    c as int - '0' as int
  }

  /** `str(n)` for a non-negative integer: no leading zeros. */
  function NatToString(n: nat): (s: string)
    ensures s != [] && AllDigits(s)
  {
    if n < 10 then [DigitChar(n)] else NatToString(n / 10) + [DigitChar(n % 10)]
  }

  /** `str(i)`. */
  function IntToString(i: int): string {
    if i < 0 then "-" + NatToString(-i) else NatToString(i)
  }

  /** The value of a run of decimal digits. */
  function DigitsValue(s: string): nat
    requires AllDigits(s)
  {
    if s == [] then 0 else DigitsValue(s[..|s| - 1]) * 10 + DigitOf(s[|s| - 1])
  }

  /** Length of the run of digits at the head of `s`. */
  function DigitRun(s: string): (k: nat)
    ensures k <= |s| && AllDigits(s[..k])
    ensures k < |s| ==> !IsDigit(s[k])
  {
    if s != [] && IsDigit(s[0]) then
      var k := 1 + DigitRun(s[1..]);
      assert s[..k] == [s[0]] + s[1..][..k - 1];
      k
    else 0
  }

  /**
   * `int(float(s))` on the decimal texts `float` accepts without an exponent:
   * blanks around the number, an optional sign, digits with an optional
   * fraction (at least one digit in all). The result is truncated toward zero;
   * any other text is a parse failure.
   */
  /**
   * The magnitude of an unsigned decimal: a run of digits, optionally
   * followed by a point and more digits, with at least one digit in all.
   * The fraction is dropped, which is how `int` truncates a float toward zero.
   */
  function Magnitude(body: string): (r: Option<nat>)
  {
    var k := DigitRun(body);
    var rest := body[k..];
    var wellFormed :=
      (rest == [] && k > 0)
      || (rest != [] && rest[0] == '.' && AllDigits(rest[1..]) && (k > 0 || |rest| > 1));
    if !wellFormed then None else Some(DigitsValue(body[..k]))
  }

  function ParseTrunc(s: string): (r: Option<int>)
    ensures r.Some? ==> !AllSpace(s)
  {
    var t := Strip(s);
    var signed := t != [] && (t[0] == '+' || t[0] == '-');
    var body := if signed then t[1..] else t;
    match Magnitude(body)
    case None => None
    case Some(m) => Some(if signed && t[0] == '-' then -(m as int) else m as int)
  }

  // ---------------------------------------------------------------------------
  // Lemmas
  // ---------------------------------------------------------------------------

  /** Reading back `str(n)` gives `n`. */
  lemma {:induction false} NatToStringValue(n: nat)
    ensures DigitsValue(NatToString(n)) == n
  {
    if n >= 10 {
      var s := NatToString(n);
      assert s[..|s| - 1] == NatToString(n / 10);
      NatToStringValue(n / 10);
    }
  }

  /** Distinct numbers have distinct decimal texts. */
  lemma NatToStringInjective(a: nat, b: nat)
    requires NatToString(a) == NatToString(b)
    ensures a == b
  {
    NatToStringValue(a);
    NatToStringValue(b);
  }

  lemma {:induction false} DigitRunAll(s: string)
    requires AllDigits(s)
    ensures DigitRun(s) == |s|
  {
    if s != [] {
      DigitRunAll(s[1..]);
    }
  }

  /** A run of digits, with nothing around it, reads as its value. */
  lemma DigitsParse(digits: string)
    requires AllDigits(digits) && digits != []
    ensures ParseTrunc(digits) == Some(DigitsValue(digits) as int)
  {
    assert !IsDigit('-') && !IsDigit('+');
    StripUnpadded(digits);
    DigitRunAll(digits);
    assert digits[DigitRun(digits)..] == [];
    assert digits[..DigitRun(digits)] == digits;
  }

  /** A signed run of digits, with nothing around it, reads as its value with that sign. */
  lemma SignedDigitsParse(s: string, digits: string)
    requires AllDigits(digits) && digits != [] && s == "-" + digits
    ensures ParseTrunc(s) == Some(-(DigitsValue(digits) as int))
  {
    assert s[0] == '-' && s[1..] == digits;
    assert !IsSpace(s[|s| - 1]) by { assert s[|s| - 1] == digits[|digits| - 1]; }
    StripUnpadded(s);
    DigitRunAll(digits);
    assert digits[DigitRun(digits)..] == [];
    assert digits[..DigitRun(digits)] == digits;
  }

  /** `int(float(str(i)))` is `i`: the integer texts produced here read back exactly. */
  lemma IntToStringParses(i: int)
    ensures ParseTrunc(IntToString(i)) == Some(i)
  {
    var n: nat := if i < 0 then -i else i;
    NatToStringValue(n);
    if i < 0 {
      SignedDigitsParse(IntToString(i), NatToString(n));
    } else {
      DigitsParse(NatToString(n));
    }
  }

  /** A run of digits ends where the first non-digit after it stands. */
  lemma {:induction false} DigitRunBefore(a: string, b: string)
    requires AllDigits(a) && (b == [] || !IsDigit(b[0]))
    ensures DigitRun(a + b) == |a|
  {
    if a != [] {
      assert (a + b)[1..] == a[1..] + b;
      DigitRunBefore(a[1..], b);
    } else {
      assert a + b == b;
    }
  }

  /** The unsigned body of a decimal with a fraction reads as its whole part. */
  lemma FractionBody(digits: string, f: string)
    requires AllDigits(digits) && digits != [] && AllDigits(f)
    ensures var body := digits + "." + f;
      && DigitRun(body) == |digits|
      && body[..|digits|] == digits
      && body[|digits|..] == "." + f
  {
    var body := digits + "." + f;
    assert body == digits + ("." + f);
    DigitRunBefore(digits, "." + f);
  }

  /** The magnitude of digits, a point and more digits is the value of the digits before the point. */
  lemma FractionMagnitude(digits: string, f: string)
    requires AllDigits(digits) && digits != [] && AllDigits(f) && f != []
    ensures Magnitude(digits + "." + f) == Some(DigitsValue(digits))
  {
    var body := digits + "." + f;
    FractionBody(digits, f);
    var rest := body[DigitRun(body)..];
    assert rest == "." + f && rest[1..] == f;
  }

  /** Text that starts with a digit and has no padding reads as its magnitude. */
  lemma UnsignedParse(body: string)
    requires body != [] && IsDigit(body[0]) && !IsSpace(body[|body| - 1])
    ensures ParseTrunc(body) == if Magnitude(body).Some? then Some(Magnitude(body).value as int) else None
  {
    StripUnpadded(body);
  }

  /** A minus sign in front of such text negates its magnitude. */
  lemma NegatedParse(body: string)
    requires body != [] && IsDigit(body[0]) && !IsSpace(body[|body| - 1])
    ensures ParseTrunc("-" + body) == if Magnitude(body).Some? then Some(-(Magnitude(body).value as int)) else None
  {
    var s := "-" + body;
    assert s[0] == '-' && s[1..] == body && s[|s| - 1] == body[|body| - 1];
    StripUnpadded(s);
  }

  /** An unsigned decimal with a fraction reads as the value of its whole part. */
  lemma UnsignedFraction(digits: string, f: string)
    requires AllDigits(digits) && digits != [] && AllDigits(f) && f != []
    ensures ParseTrunc(digits + "." + f) == Some(DigitsValue(digits) as int)
  {
    var body := digits + "." + f;
    assert body[0] == digits[0] && body[|body| - 1] == f[|f| - 1];
    FractionMagnitude(digits, f);
    UnsignedParse(body);
  }

  /** A minus sign, a whole part, a point and a fraction read as minus the magnitude of the rest. */
  lemma NegatedFraction(digits: string, f: string, v: nat)
    requires digits != [] && IsDigit(digits[0]) && f != [] && !IsSpace(f[|f| - 1])
    requires Magnitude(digits + "." + f) == Some(v)
    ensures ParseTrunc("-" + digits + "." + f) == Some(-(v as int))
  {
    var body := digits + "." + f;
    assert "-" + digits + "." + f == "-" + body;
    assert body[0] == digits[0] && body[|body| - 1] == f[|f| - 1];
    NegatedParse(body);
  }

  /**
   * `int(float(s))` truncates toward zero: an integer followed by a fraction
   * reads as that integer, whatever the fraction's digits.
   */
  lemma FractionTruncates(i: int, f: string)
    requires AllDigits(f) && f != []
    ensures ParseTrunc(IntToString(i) + "." + f) == Some(i)
  {
    var n: nat := if i < 0 then -i else i;
    NatToStringValue(n);
    if i < 0 {
      FractionMagnitude(NatToString(n), f);
      NegatedFraction(NatToString(n), f, n);
    } else {
      UnsignedFraction(NatToString(n), f);
    }
  }
}
