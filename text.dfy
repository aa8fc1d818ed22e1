/** The two places where the editors cross between numbers and strings:
    JavaScript's decimal `toString` of an integer (node labels, edge ids and
    the `"from,to"` keys of a max-flow request) and `parseInt(value, 10)`
    (the capacity field). */
module Text {
  import opened Common

  predicate IsDigit(c: char) {
    '0' <= c <= '9'
  }

  function DigitChar(d: nat): (c: char)
    requires d < 10
    ensures IsDigit(c)
  {
    ('0' as int + d) as char
  }

  /** The value of a digit character (0 for any other character). */
  function DigitValue(c: char): (d: nat)
    ensures d < 10
    ensures IsDigit(c) ==> DigitChar(d) == c
  {
    if IsDigit(c) then (c as int - '0' as int) as nat else 0
  }

  /** The value of a string of decimal digits, most significant first. */
  function DigitsValue(s: string): nat {
    if s == [] then 0 else DigitsValue(s[..|s| - 1]) * 10 + DigitValue(s[|s| - 1])
  }

  /** The decimal form of a natural number without leading zeros, as
      `Number.prototype.toString()` writes an integer. */
  function NatToString(n: nat): (s: string)
    ensures |s| >= 1
    ensures forall k :: 0 <= k < |s| ==> IsDigit(s[k])
    ensures s[0] == '0' ==> n == 0
  {
    if n < 10 then [DigitChar(n)] else NatToString(n / 10) + [DigitChar(n % 10)]
  }

  /** The decimal form of an integer: a minus sign before negative values. */
  function IntToString(i: int): (s: string)
    ensures |s| >= 1
    ensures i >= 0 ==> IsDigit(s[0])
    ensures i < 0 ==> s[0] == '-'
    ensures forall k :: 0 < k < |s| ==> IsDigit(s[k])
  {
    if i < 0 then "-" + NatToString(-i) else NatToString(i)
  }

  /** Reading back what `NatToString` wrote gives the number again. */
  lemma {:induction false} NatToStringValue(n: nat)
    ensures DigitsValue(NatToString(n)) == n
  {
    if n >= 10 {
      var s, q, r := NatToString(n), n / 10, n % 10;
      assert s == NatToString(q) + [DigitChar(r)];
      assert s[..|s| - 1] == NatToString(q) && s[|s| - 1] == DigitChar(r);
      NatToStringValue(q);
      assert DigitsValue(s) == q * 10 + r;
    }
  }

  lemma NatToStringInjective(a: nat, b: nat)
    requires NatToString(a) == NatToString(b)
    ensures a == b
  {
    NatToStringValue(a);
    NatToStringValue(b);
  }

  lemma IntToStringInjective(a: int, b: int)
    requires IntToString(a) == IntToString(b)
    ensures a == b
  {
    if a < 0 && b < 0 {
      assert NatToString(-a) == IntToString(a)[1..];
      assert NatToString(-b) == IntToString(b)[1..];
      NatToStringInjective(-a, -b);
    } else if a >= 0 && b >= 0 {
      NatToStringInjective(a, b);
    }
  }

  /** The characters `parseInt` skips before the number: the ECMAScript
      white space and line terminators (the Unicode space separators other
      than U+00A0 are not listed). */
  predicate IsWhiteSpace(c: char) {
    c == ' ' || c == '\t' || c == '\n' || c == '\r' || c == '\U{B}' || c == '\U{C}'
    || c == '\U{A0}' || c == '\U{FEFF}' || c == '\U{2028}' || c == '\U{2029}'
  }

  /** `s` without its leading white space. */
  function TrimStart(s: string): string {
    if s != [] && IsWhiteSpace(s[0]) then TrimStart(s[1..]) else s
  }

  /** The longest prefix of `s` made of decimal digits. */
  function DigitPrefix(s: string): string {
    if s != [] && IsDigit(s[0]) then [s[0]] + DigitPrefix(s[1..]) else []
  }

  /** `parseInt(s, 10)`: skip leading white space, take an optional sign, read
      the longest run of digits; `None` stands for `NaN` (no digit at all).
      Trailing characters are ignored. */
  function ParseInt(s: string): (r: Option<int>)
    ensures s == [] ==> r == None
    ensures s != [] && IsDigit(s[0]) ==> r.Some? && r.value >= 0
  {
    ParseSigned(TrimStart(s))
  }

  /** An optional sign followed by what `ParseDigits` reads. */
  function ParseSigned(t: string): Option<int> {
    if t != [] && t[0] == '-' then Negated(ParseDigits(t[1..]))
    else if t != [] && t[0] == '+' then ParseDigits(t[1..])
    else ParseDigits(t)
  }

  function Negated(o: Option<int>): Option<int> {
    if o.Some? then Some(-o.value) else None
  }

  /** The value of the leading digits, if there are any. */
  function ParseDigits(t: string): Option<int> {
    var digits := DigitPrefix(t);
    if digits == [] then None else Some(DigitsValue(digits))
  }

  /** Leading white space does not change what `parseInt` reads. */
  lemma ParseIntSkipsWhiteSpace(s: string)
    requires s != [] && IsWhiteSpace(s[0])
    ensures ParseInt(s) == ParseInt(s[1..])
  {
    assert TrimStart(s) == TrimStart(s[1..]);
  }

  /** A string without any digit reads as `NaN`. */
  lemma {:induction false} ParseIntWithoutDigits(s: string)
    requires forall k :: 0 <= k < |s| ==> !IsDigit(s[k])
    ensures ParseInt(s) == None
  {
    if s != [] && IsWhiteSpace(s[0]) {
      ParseIntSkipsWhiteSpace(s);
      forall k | 0 <= k < |s| - 1 ensures !IsDigit(s[1..][k]) {
        assert s[1..][k] == s[k + 1];
      }
      ParseIntWithoutDigits(s[1..]);
    } else {
      assert TrimStart(s) == s;
      if |s| > 1 {
        assert s[1..][0] == s[1];
      }
    }
  }

  lemma {:induction false} DigitPrefixOfDigits(s: string)
    requires forall k :: 0 <= k < |s| ==> IsDigit(s[k])
    ensures DigitPrefix(s) == s
  {
    if s != [] {
      DigitPrefixOfDigits(s[1..]);
    }
  }

  /** A run of digits reads as its value. */
  lemma ParseIntOfDigits(digits: string)
    requires digits != [] && forall k :: 0 <= k < |digits| ==> IsDigit(digits[k])
    ensures ParseInt(digits) == Some(DigitsValue(digits) as int)
  {
    assert !IsWhiteSpace(digits[0]);
    assert TrimStart(digits) == digits;
    assert ParseInt(digits) == ParseSigned(digits);
    assert digits[0] != '-' && digits[0] != '+';
    assert ParseSigned(digits) == ParseDigits(digits);
    DigitPrefixOfDigits(digits);
    assert ParseDigits(digits) == Some(DigitsValue(digits));
  }

  /** A minus sign and a run of digits worth `v` read as `-v`. */
  lemma ParseIntOfNegative(s: string, digits: string, v: int)
    requires |s| >= 2 && s[0] == '-' && s[1..] == digits
    requires forall k :: 0 <= k < |digits| ==> IsDigit(digits[k])
    requires DigitsValue(digits) == v
    ensures ParseInt(s) == Some(-v)
  {
    assert TrimStart(s) == s;
    assert ParseSigned(s) == Negated(ParseDigits(digits));
    DigitPrefixOfDigits(digits);
  }

  /** `parseInt` reads back the decimal form of a negative integer. */
  lemma ParseIntOfNegativeToString(i: int)
    requires i < 0
    ensures ParseInt(IntToString(i)) == Some(i)
  {
    NatToStringValue(-i);
    ParseIntOfNegative(IntToString(i), NatToString(-i), -i);
  }

  /** `parseInt` reads back the decimal form of a natural number. */
  lemma ParseIntOfNatToString(n: nat)
    ensures ParseInt(IntToString(n)) == Some(n)
  {
    ParseIntOfDigits(NatToString(n));
    NatToStringValue(n);
  }

  /** `parseInt` reads back every integer that `toString` writes. */
  lemma ParseIntOfIntToString(i: int)
    ensures ParseInt(IntToString(i)) == Some(i)
  {
    if i < 0 {
      ParseIntOfNegativeToString(i);
    } else {
      ParseIntOfNatToString(i);
    }
  }
}
