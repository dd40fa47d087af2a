/** The JavaScript number operations the worker relies on: `parseInt`,
    integer `toString`, `Math.floor`/`Math.ceil` of a quotient, `%` and
    `Math.min`. Numbers are unbounded integers or NaN. */
module JsNumber {

  /** A JavaScript number as the worker uses it: an integer, or NaN */
  datatype Number = Num(value: int) | NaN

  /** `a > b` on numbers: false whenever either side is NaN */
  predicate Gt(a: Number, b: Number) {
    a.Num? && b.Num? && a.value > b.value
  }

  /** `Math.floor(a / b)` for a positive divisor */
  function FloorDiv(a: int, b: int): int
    requires b > 0
  {
    a / b
  }

  lemma FloorDivBounds(a: int, b: int)
    requires b > 0
    ensures b * FloorDiv(a, b) <= a < b * FloorDiv(a, b) + b
  {
  }

  /** `Math.ceil(a / b)` for a positive divisor */
  function CeilDiv(a: int, b: int): int
    requires b > 0
  {
    -((-a) / b)
  }

  lemma CeilDivBounds(a: int, b: int)
    requires b > 0
    ensures b * CeilDiv(a, b) - b < a <= b * CeilDiv(a, b)
  {
  }

  /** `a % b`, whose result takes the sign of the dividend */
  function JsRem(a: int, b: int): (r: int)
    requires b > 0
    ensures a >= 0 ==> r == a % b
    ensures a < 0 ==> -b < r <= 0
    ensures a < 0 ==> r == (if a % b == 0 then 0 else a % b - b)
  {
    if a >= 0 then a % b
    else
      var q := (-a) / b;
      var m := (-a) % b;
      if m == 0 then
        ModUnique(a, b, -q, 0);
        -m
      else
        ModUnique(a, b, -q - 1, b - m);
        -m
  }

  /** The Euclidean remainder is the one `t` in `[0, b)` with `x == k * b + t` */
  lemma ModUnique(x: int, b: int, k: int, t: int)
    requires b > 0 && x == k * b + t && 0 <= t < b
    ensures x % b == t
  {
    var d := x / b - k;
    assert d * b == t - x % b;
    MultipleBounds(d, b);
  }

  /** A non-zero multiple of `b` is at least `b` away from zero */
  lemma MultipleBounds(d: int, b: int)
    requires b > 0
    ensures d >= 1 ==> d * b >= b
    ensures d <= -1 ==> d * b <= -b
  {
    if d >= 1 {
      assert d * b == (d - 1) * b + b;
      assert (d - 1) * b >= 0;
    } else if d <= -1 {
      assert d * b == (d + 1) * b - b;
      assert (d + 1) * b <= 0;
    }
  }

  function Min(a: int, b: int): int {
    if a <= b then a else b
  }

  /** The characters `parseInt` skips before the number: the ECMAScript
      WhiteSpace and LineTerminator code points. */
  predicate IsJsWhiteSpace(c: char) {
    c == '\t' || c == '\n' || c == '\U{000B}' || c == '\U{000C}' || c == '\r' || c == ' '
    || c == '\U{00A0}' || c == '\U{1680}' || ('\U{2000}' <= c <= '\U{200A}')
    || c == '\U{2028}' || c == '\U{2029}' || c == '\U{202F}' || c == '\U{205F}'
    || c == '\U{3000}' || c == '\U{FEFF}'
  }

  function TrimStart(s: string): (r: string)
    ensures |r| <= |s|
    ensures |r| > 0 ==> !IsJsWhiteSpace(r[0])
  {
    if |s| > 0 && IsJsWhiteSpace(s[0]) then TrimStart(s[1..]) else s
  }

  /** The value of `c` as a digit of the given radix (10 or 16), or -1 */
  function DigitValue(c: char, radix: nat): (d: int)
    ensures d < radix
  {
    var v :=
      if '0' <= c <= '9' then c as int - '0' as int
      else if 'a' <= c <= 'f' then c as int - 'a' as int + 10
      else if 'A' <= c <= 'F' then c as int - 'A' as int + 10
      else -1;
    if v < radix then v else -1
  }

  /** The longest prefix of `s` made of digits of the radix */
  function DigitPrefix(s: string, radix: nat): (r: string)
    ensures |r| <= |s| && r == s[..|r|]
    ensures forall k :: 0 <= k < |r| ==> DigitValue(r[k], radix) >= 0
  {
    if |s| > 0 && DigitValue(s[0], radix) >= 0 then [s[0]] + DigitPrefix(s[1..], radix) else ""
  }

  /** The value of a string of digits, most significant first */
  function DigitsValue(s: string, radix: nat): nat
    requires forall k :: 0 <= k < |s| ==> DigitValue(s[k], radix) >= 0
  {
    if |s| == 0 then 0
    else
      var init := s[..|s| - 1];
      assert forall k :: 0 <= k < |init| ==> init[k] == s[k];
      AppendDigit(DigitsValue(init, radix), radix, DigitValue(s[|s| - 1], radix) as nat)
  }

  /** The value of the digits of `high` followed by the digit `low` */
  function AppendDigit(high: nat, radix: nat, low: nat): nat {
    high * radix + low
  }

  /** The magnitude `parseInt` reads after the sign: an optional `0x`/`0X`
      prefix (which selects radix 16), then the longest run of digits;
      -1 when that run is empty. */
  function ParseMagnitude(u: string): (m: int)
    ensures m >= -1
  {
    var hex := |u| >= 2 && u[0] == '0' && (u[1] == 'x' || u[1] == 'X');
    var radix := if hex then 16 else 10;
    var digits := DigitPrefix(if hex then u[2..] else u, radix);
    if |digits| == 0 then -1 else DigitsValue(digits, radix)
  }

  /** `parseInt(s)` with no radix argument: skips leading white space, reads
      an optional sign, then the magnitude; NaN when there are no digits.
      Trailing characters are ignored. */
  function ParseInt(s: string): (r: Number)
    ensures |TrimStart(s)| == 0 ==> r == NaN
    ensures r.Num? && r.value < 0 ==> |TrimStart(s)| > 0 && TrimStart(s)[0] == '-'
    ensures r.Num? && |TrimStart(s)| > 0 && TrimStart(s)[0] != '-' ==> r.value >= 0
  {
    var t := TrimStart(s);
    var negative := |t| > 0 && t[0] == '-';
    var unsigned := if |t| > 0 && (t[0] == '-' || t[0] == '+') then t[1..] else t;
    var magnitude := ParseMagnitude(unsigned);
    if magnitude == -1 then NaN
    else Num(if negative then -magnitude else magnitude)
  }

  function DigitChar(d: nat): (c: char)
    requires d < 10
    ensures DigitValue(c, 10) == d
  {
    ('0' as int + d) as char
  }

  /** The decimal digits of a natural number, without leading zeros */
  function NatToString(n: nat): (s: string)
    ensures |s| >= 1
    ensures forall k :: 0 <= k < |s| ==> '0' <= s[k] <= '9'
    ensures s[0] == '0' <==> n == 0
    decreases n
  {
    if n < 10 then [DigitChar(n)] else NatToString(n / 10) + [DigitChar(n % 10)]
  }

  /** `String(n)` for an integer: a minus sign exactly for a negative
      number, then decimal digits with no leading zero */
  function IntToString(n: int): (s: string)
    ensures |s| > (if n < 0 then 1 else 0)
    ensures s[0] == '-' <==> n < 0
    ensures forall k :: (if n < 0 then 1 else 0) <= k < |s| ==> '0' <= s[k] <= '9'
    ensures s[if n < 0 then 1 else 0] == '0' <==> n == 0
  {
    if n < 0 then "-" + NatToString(-n) else NatToString(n)
  }

  lemma {:induction false} NatToStringValue(n: nat)
    ensures DigitPrefix(NatToString(n), 10) == NatToString(n)
    ensures DigitsValue(NatToString(n), 10) == n
    decreases n
  {
    var s := NatToString(n);
    DigitPrefixOfDigits(s);
    if n >= 10 {
      NatToStringValue(n / 10);
      assert s[..|s| - 1] == NatToString(n / 10);
      assert DigitValue(s[|s| - 1], 10) == n % 10;
    }
  }

  lemma {:induction false} DigitPrefixOfDigits(s: string)
    requires forall k :: 0 <= k < |s| ==> '0' <= s[k] <= '9'
    ensures DigitPrefix(s, 10) == s
  {
    if |s| > 0 {
      DigitPrefixOfDigits(s[1..]);
    }
  }

  lemma ParseMagnitudeOfDigits(n: nat)
    ensures ParseMagnitude(NatToString(n)) == n
  {
    var u := NatToString(n);
    NatToStringValue(n);
    if |u| >= 2 {
      assert '0' <= u[1] <= '9';
    }
  }

  /** Reading back what `String(n)` wrote gives `n`: `parseInt` inverts
      integer `toString`. */
  lemma ParseIntOfIntToString(n: int)
    ensures ParseInt(IntToString(n)) == Num(n)
  {
    var m: nat := if n < 0 then -n else n;
    ParseMagnitudeOfDigits(m);
    ParseIntOfSignedDigits(n < 0, NatToString(m), m);
    assert IntToString(n) == (if n < 0 then "-" else "") + NatToString(m);
  }

  /** A string of decimal digits, with or without a leading minus sign, is
      read as its magnitude with that sign. */
  lemma ParseIntOfSignedDigits(negative: bool, digits: string, m: nat)
    requires |digits| >= 1 && '0' <= digits[0] <= '9' && ParseMagnitude(digits) == m
    ensures ParseInt((if negative then "-" else "") + digits) == Num(if negative then -(m as int) else m)
  {
    var s := (if negative then "-" else "") + digits;
    assert !IsJsWhiteSpace(s[0]);
    assert TrimStart(s) == s;
    if negative {
      assert s[1..] == digits;
    } else {
      assert s == digits;
    }
  }

  /** The text `null`, which is what a missing header reads as, is NaN. */
  lemma ParseIntOfNull()
    ensures ParseInt("null") == NaN
  {
    assert TrimStart("null") == "null";
    assert DigitValue('n', 10) == -1;
  }
}
