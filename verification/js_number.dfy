/** JavaScript numbers as the client meets them: `parseInt(text, 10)` and
    the decimal text a number turns into inside a template string or
    `Array.prototype.join`. Only integers and NaN arise, so a number is one
    of those two; integers are unbounded (no 2^53 rounding, no exponent
    notation). */
module JsNumber {
  import opened JsString

  datatype Num = Int(value: int) | NaN

  predicate IsDigit(c: char) {
    '0' <= c <= '9'
  }

  predicate AllDigits(s: string) {
    forall i :: 0 <= i < |s| ==> IsDigit(s[i])
  }

  function DigitValue(c: char): nat
    requires IsDigit(c)
  {
    (c as int) - ('0' as int)
  }

  function DigitChar(d: nat): (c: char)
    requires d < 10
    ensures IsDigit(c) && DigitValue(c) == d
  {
    (('0' as int) + d) as char
  }

  /** The longest prefix of `s` made of decimal digits. */
  function DigitPrefix(s: string): (r: string)
    ensures |r| <= |s| && r == s[..|r|]
    ensures AllDigits(r)
    ensures |r| < |s| ==> !IsDigit(s[|r|])
    decreases |s|
  {
    if |s| > 0 && IsDigit(s[0]) then [s[0]] + DigitPrefix(s[1..]) else ""
  }

  /** The value of a string of decimal digits, most significant first. */
  function DigitsValue(ds: string): nat
    requires AllDigits(ds)
    decreases |ds|
  {
    if |ds| == 0 then 0
    else DigitsValue(ds[..|ds| - 1]) * 10 + DigitValue(ds[|ds| - 1])
  }

  /** `parseInt` accepts one optional sign in front of the digits. */
  predicate HasSign(t: string) {
    |t| > 0 && (t[0] == '-' || t[0] == '+')
  }

  function Unsigned(t: string): string {
    if HasSign(t) then t[1..] else t
  }

  /** `parseInt(s, 10)`: skip leading whitespace, take an optional sign, then
      the longest run of decimal digits; with no digit at all the result is
      NaN. Anything after the digits is ignored. */
  function ParseInt(s: string): Num {
    var t := TrimStart(s);
    var ds := DigitPrefix(Unsigned(t));
    if |ds| == 0 then NaN
    else if t[0] == '-' then Int(-(DigitsValue(ds) as int))
    else Int(DigitsValue(ds))
  }

  /** `parseInt` gives NaN exactly when no digit follows the optional sign. */
  lemma {:induction false} ParseIntNaN(s: string)
    ensures var u := Unsigned(TrimStart(s));
      ParseInt(s).NaN? <==> (|u| == 0 || !IsDigit(u[0]))
  {
  }

  /** `parseInt` reads the maximal digit run: whatever follows the first
      non-digit is ignored. */
  lemma {:induction false} ParseIntIgnoresTail(ds: string, tail: string)
    requires |ds| > 0 && AllDigits(ds)
    requires |tail| == 0 || !IsDigit(tail[0])
    ensures ParseInt(ds + tail) == Int(DigitsValue(ds))
  {
    var s := ds + tail;
    assert !IsSpace(s[0]);
    assert TrimStart(s) == s;
    DigitPrefixOfDigits(ds, tail);
  }

  lemma {:induction false} DigitPrefixOfDigits(ds: string, tail: string)
    requires AllDigits(ds)
    requires |tail| == 0 || !IsDigit(tail[0])
    ensures DigitPrefix(ds + tail) == ds
    decreases |ds|
  {
    if |ds| > 0 {
      assert (ds + tail)[1..] == ds[1..] + tail;
      DigitPrefixOfDigits(ds[1..], tail);
      assert [ds[0]] + ds[1..] == ds;
    } else {
      assert ds + tail == tail;
    }
  }

  /** Decimal digits of `n`, without leading zeros. */
  function NatToDigits(n: nat): (r: string)
    ensures |r| > 0 && AllDigits(r)
    decreases n
  {
    if n < 10 then [DigitChar(n)] else NatToDigits(n / 10) + [DigitChar(n % 10)]
  }

  /** Reading back the digits of `n` gives `n`. */
  lemma {:induction false} DigitsRoundTrip(n: nat)
    ensures DigitsValue(NatToDigits(n)) == n
    decreases n
  {
    if n >= 10 {
      DigitsRoundTrip(n / 10);
      var ds := NatToDigits(n);
      assert ds[..|ds| - 1] == NatToDigits(n / 10);
    }
  }

  /** The text of a number: `${x}` or `String(x)`. */
  function NumToString(x: Num): string {
    match x
    case NaN => "NaN"
    case Int(v) => if v < 0 then ['-'] + NatToDigits(-v) else NatToDigits(v)
  }

  /** The text of a number is never empty and holds only digits, `-`, `N`
      and `a`: no whitespace, no comma, no parenthesis, no `L`. */
  lemma {:induction false} NumToStringAlphabet(x: Num)
    ensures |NumToString(x)| > 0
    ensures forall i :: 0 <= i < |NumToString(x)| ==>
      var c := NumToString(x)[i]; IsDigit(c) || c == '-' || c == 'N' || c == 'a'
  {
  }

  /** A minus sign in front of digits negates their value. */
  lemma {:induction false} ParseIntNegative(ds: string)
    requires |ds| > 0 && AllDigits(ds)
    ensures ParseInt(['-'] + ds) == Int(-(DigitsValue(ds) as int))
  {
    var s := ['-'] + ds;
    assert s[0] == '-' && !IsSpace(s[0]);
    assert TrimStart(s) == s;
    assert HasSign(s);
    assert s[1..] == ds;
    DigitPrefixOfDigits(ds, "");
    assert ds + "" == ds;
    assert DigitPrefix(Unsigned(s)) == ds;
  }

  /** `parseInt(String(x), 10)` gives back `x`, NaN included. */
  lemma {:induction false} NumRoundTrip(x: Num)
    ensures ParseInt(NumToString(x)) == x
  {
    match x
    case NaN => NaNRoundTrip("NaN");
    case Int(v) => IntRoundTrip(v);
  }

  lemma {:induction false} NaNRoundTrip(s: string)
    requires s == "NaN"
    ensures ParseInt(s) == NaN
  {
    assert s[0] == 'N';
    assert !IsSpace(s[0]);
    assert TrimStart(s) == s;
    assert !HasSign(s);
    assert !IsDigit(s[0]);
  }

  lemma {:induction false} IntRoundTrip(v: int)
    ensures ParseInt(NumToString(Int(v))) == Int(v)
  {
    if v < 0 {
      NegativeRoundTrip(v);
    } else {
      NaturalRoundTrip(v);
    }
  }

  lemma {:induction false} NegativeRoundTrip(v: int)
    requires v < 0
    ensures ParseInt(NumToString(Int(v))) == Int(v)
  {
    var ds := NatToDigits(-v);
    assert NumToString(Int(v)) == ['-'] + ds;
    DigitsRoundTrip(-v);
    ParseIntNegative(ds);
  }

  lemma {:induction false} NaturalRoundTrip(v: int)
    requires v >= 0
    ensures ParseInt(NumToString(Int(v))) == Int(v)
  {
    var ds := NatToDigits(v);
    assert NumToString(Int(v)) == ds;
    DigitsRoundTrip(v);
    ParseIntDigits(ds);
  }

  /** A run of digits alone reads as its value. */
  lemma {:induction false} ParseIntDigits(ds: string)
    requires |ds| > 0 && AllDigits(ds)
    ensures ParseInt(ds) == Int(DigitsValue(ds))
  {
    ParseIntIgnoresTail(ds, "");
    assert ds + "" == ds;
  }
}
