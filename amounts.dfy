/** Sale amounts: the cleaning of the amount text (commas removed,
    whitespace stripped), its conversion to a number as pandas'
    `to_numeric` reads a decimal string, the text the IIF file shows for
    a number, and Python's `round(x, 2)` for the daily bank charge.
    Amounts are exact decimals, not binary floats. */
module Amounts {
  import opened Options
  import opened Text

  /** ±magnitude / 10^scale. The sign is kept apart from the magnitude so
      that negating zero gives a negative zero, as negating a Python float
      does (`-0.0` prints as "-0.0"). */
  datatype Decimal = Decimal(negative: bool, magnitude: nat, scale: nat)

  function Value(d: Decimal): real {
    var v := d.magnitude as real / Pow10(d.scale) as real;
    if d.negative then -v else v
  }

  /** Python's unary minus on the amount. */
  function Negate(d: Decimal): (r: Decimal)
    ensures Value(r) == -Value(d) && r.scale == d.scale
  {
    d.(negative := !d.negative)
  }

  lemma NegateValue(d: Decimal)
    ensures Value(Negate(d)) == -Value(d)
    ensures Negate(Negate(d)) == d
  {
  }

  /** A whole number of cents as a decimal with two places. */
  function FromCents(c: int): Decimal {
    if c < 0 then Decimal(true, -c, 2) else Decimal(false, c, 2)
  }

  lemma FromCentsValue(c: int)
    ensures Value(FromCents(c)) == c as real / 100.0
    ensures FromCents(c).negative <==> c < 0
  {
  }

  // ---------------------------------------------------------------------
  // Cleaning: the cell as text, with every comma taken out and the
  // surrounding whitespace stripped.

  /** The amount text with every comma removed and surrounding whitespace
      stripped; what is left is a piece of the comma-free text. */
  function CleanAmount(s: string): (r: string)
    ensures ',' !in r
    ensures r != [] ==> !IsSpace(r[0]) && !IsSpace(r[|r| - 1])
    ensures exists i :: StrippedAt(RemoveChar(s, ','), i, r)
  {
    var t := RemoveChar(s, ',');
    var r := Strip(t);
    assert ',' !in r by {
      var i :| StrippedAt(t, i, r);
      PieceAvoids(t, i, r, ',');
    }
    r
  }

  // ---------------------------------------------------------------------
  // Conversion of a cleaned text to a number, where a text that is not a
  // number becomes NaN rather than an error.
  // pandas reads an optional sign, digits with at most one decimal point
  // (at least one digit in all), and an optional exponent `e`/`E` with an
  // optional sign and at least one digit; anything else is NaN, and the
  // row is dropped.

  /** The value m × 10^(e − f) of a mantissa with `f` fraction digits and
      exponent `e`, kept exact. */
  function Scaled(negative: bool, m: nat, f: nat, e: int): (r: Decimal)
    ensures r.negative == negative
    ensures e <= f ==> r == Decimal(negative, m, f - e)
  {
    if e >= f then Decimal(negative, m * Pow10(e - f), 0) else Decimal(negative, m, f - e)
  }

  /** The exponent part of a number: empty (exponent 0) or `e`/`E`, an
      optional sign and one or more digits. */
  function ParseExponent(t: string): (r: Option<int>)
    ensures t == [] ==> r == Some(0)
    ensures t != [] && t[0] != 'e' && t[0] != 'E' ==> r == None
  {
    if t == [] then Some(0)
    else if t[0] != 'e' && t[0] != 'E' then None
    else
      var u := t[1..];
      var signed := |u| > 0 && (u[0] == '+' || u[0] == '-');
      var digits := if signed then u[1..] else u;
      if digits != [] && AllDigits(digits) then
        var v: int := DigitsValue(digits);
        Some(if signed && u[0] == '-' then -v else v)
      else None
  }

  /** Digits with at most one decimal point, at least one digit in all:
      the value of the digits, the number of digits after the point, and
      the text that follows. */
  function ParseMantissa(body: string): (r: Option<(nat, nat, string)>)
    ensures r.Some? ==> |r.value.2| < |body|
  {
    var i := SpanDigits(body);
    var whole, afterWhole := body[..i], body[i..];
    if |afterWhole| > 0 && afterWhole[0] == '.' then
      var rest := afterWhole[1..];
      var j := SpanDigits(rest);
      if i + j == 0 then None
      else
        AllDigitsAppend(whole, rest[..j]);
        Some((DigitsValue(whole + rest[..j]), j, rest[j..]))
    else if i == 0 then None
    else Some((DigitsValue(whole), 0, afterWhole))
  }

  /** pandas' reading of a cleaned amount, or None when it is not a number. */
  function ParseNumber(s: string): (r: Option<Decimal>)
    ensures s == [] ==> r == None
    ensures r.Some? ==> r.value.negative == (s[0] == '-')
  {
    var signed := |s| > 0 && (s[0] == '+' || s[0] == '-');
    var body := if signed then s[1..] else s;
    match ParseMantissa(body)
    case None => None
    case Some((m, f, tail)) =>
      match ParseExponent(tail)
      case None => None
      case Some(e) => Some(Scaled(signed && s[0] == '-', m, f, e))
  }

  // ---------------------------------------------------------------------
  // The number syntax as a grammar, stated apart from the reader: an
  // optional sign, a mantissa of digits with at most one point, and an
  // optional exponent part.

  /** One or more digits, optionally after a '+' or '-'. */
  predicate IsSignedDigits(u: string) {
    (|u| >= 1 && AllDigits(u))
    || (|u| >= 2 && (u[0] == '+' || u[0] == '-') && AllDigits(u[1..]))
  }

  /** An exponent part: nothing, or `e`/`E` and signed digits. */
  predicate IsExponentText(x: string) {
    x == [] || (|x| >= 2 && (x[0] == 'e' || x[0] == 'E') && IsSignedDigits(x[1..]))
  }

  /** Digits, or digits on either side of one point, with at least one
      digit in all. */
  predicate IsMantissaText(t: string) {
    (|t| >= 1 && AllDigits(t))
    || exists p :: 0 <= p < |t| && t[p] == '.' && AllDigits(t[..p]) && AllDigits(t[p + 1..]) && |t| >= 2
  }

  /** A mantissa followed by an exponent part. */
  predicate IsUnsignedNumberText(b: string) {
    exists k :: 0 <= k <= |b| && IsMantissaText(b[..k]) && IsExponentText(b[k..])
  }

  /** An optional sign, then an unsigned number. */
  predicate IsNumberText(s: string) {
    IsUnsignedNumberText(s)
    || (|s| >= 1 && (s[0] == '+' || s[0] == '-') && IsUnsignedNumberText(s[1..]))
  }

  /** The exponent reader accepts exactly the exponent parts. */
  lemma ExponentIff(x: string)
    ensures ParseExponent(x).Some? <==> IsExponentText(x)
  {
    if x != [] && (x[0] == 'e' || x[0] == 'E') {
      var u := x[1..];
      if |u| > 0 && (u[0] == '+' || u[0] == '-') {
        assert !IsDigit(u[0]);
      }
    }
  }

  /** What the mantissa reader consumes is a mantissa of the grammar. */
  lemma MantissaShape(b: string)
    requires ParseMantissa(b).Some?
    ensures |ParseMantissa(b).value.2| <= |b|
    ensures b[|b| - |ParseMantissa(b).value.2|..] == ParseMantissa(b).value.2
    ensures IsMantissaText(b[..|b| - |ParseMantissa(b).value.2|])
  {
    var i := SpanDigits(b);
    if i < |b| && b[i] == '.' {
      var j := SpanDigits(b[i + 1..]);
      PointSlices(b, i, j);
      assert b[..i + 1 + j][i] == '.';
    }
  }

  /** The pieces of `b` around a point at `i` followed by `j` more
      characters, as slices of the whole. */
  lemma PointSlices(b: string, i: nat, j: nat)
    requires i + 1 + j <= |b|
    ensures b[i..][1..] == b[i + 1..] && b[i + 1..][j..] == b[i + 1 + j..]
    ensures b[..i + 1 + j][..i] == b[..i] && b[..i + 1 + j][i + 1..] == b[i + 1..][..j]
    ensures b[..i + 1 + j][i] == b[i]
  {
  }

  /** Digits, a point and digits, followed by text that starts with no
      digit, are read up to that text. */
  lemma PointMantissaTail(b: string, p: nat, k: nat)
    requires p < k <= |b| && 2 <= k && b[p] == '.'
    requires AllDigits(b[..p]) && AllDigits(b[p + 1..k]) && SpanDigits(b[k..]) == 0
    ensures ParseMantissa(b).Some? && ParseMantissa(b).value.2 == b[k..]
  {
    var afterWhole := b[p..];
    assert b == b[..p] + afterWhole;
    assert afterWhole[0] == '.';
    SpanDigitsAppend(b[..p], afterWhole);
    var rest := afterWhole[1..];
    assert rest == b[p + 1..k] + b[k..];
    SpanDigitsAppend(b[p + 1..k], b[k..]);
    assert rest[k - p - 1..] == b[k..];
  }

  /** A mantissa of the grammar followed by an exponent part is read up to
      the exponent part. */
  lemma MantissaTail(b: string, k: int)
    requires 0 <= k <= |b| && IsMantissaText(b[..k]) && IsExponentText(b[k..])
    ensures ParseMantissa(b).Some? && ParseMantissa(b).value.2 == b[k..]
  {
    var t, x := b[..k], b[k..];
    assert b == t + x;
    assert SpanDigits(x) == 0;
    if |t| >= 1 && AllDigits(t) {
      SpanDigitsAppend(t, x);
    } else {
      var p :| 0 <= p < |t| && t[p] == '.' && AllDigits(t[..p]) && AllDigits(t[p + 1..]) && |t| >= 2;
      assert t[..p] == b[..p] && t[p + 1..] == b[p + 1..k];
      PointMantissaTail(b, p, k);
    }
  }

  /** An unsigned number starts with a digit or the point. */
  lemma UnsignedStart(b: string)
    requires IsUnsignedNumberText(b)
    ensures |b| >= 1 && (IsDigit(b[0]) || b[0] == '.')
  {
    var k :| 0 <= k <= |b| && IsMantissaText(b[..k]) && IsExponentText(b[k..]);
    var t := b[..k];
    if !(|t| >= 1 && AllDigits(t)) {
      var p :| 0 <= p < |t| && t[p] == '.' && AllDigits(t[..p]) && AllDigits(t[p + 1..]) && |t| >= 2;
      if p > 0 {
        assert t[..p][0] == t[0];
      }
    }
    assert b[0] == t[0];
  }

  /** An unsigned number of the grammar is read to the end. */
  lemma UnsignedParses(b: string)
    requires IsUnsignedNumberText(b)
    ensures ParseMantissa(b).Some? && ParseExponent(ParseMantissa(b).value.2).Some?
  {
    var k :| 0 <= k <= |b| && IsMantissaText(b[..k]) && IsExponentText(b[k..]);
    MantissaTail(b, k);
    ExponentIff(b[k..]);
  }

  /** A mantissa and an exponent part that both read make an unsigned
      number of the grammar. */
  lemma UnsignedRead(b: string)
    requires ParseMantissa(b).Some? && ParseExponent(ParseMantissa(b).value.2).Some?
    ensures IsUnsignedNumberText(b)
  {
    var tail := ParseMantissa(b).value.2;
    MantissaShape(b);
    ExponentIff(tail);
    var k := |b| - |tail|;
    assert IsMantissaText(b[..k]) && IsExponentText(b[k..]);
  }

  /** A text read as a number is a text of the grammar. */
  lemma ParsedIsNumberText(s: string)
    requires ParseNumber(s).Some?
    ensures IsNumberText(s)
  {
    var signed := |s| > 0 && (s[0] == '+' || s[0] == '-');
    UnsignedRead(if signed then s[1..] else s);
  }

  /** A text of the grammar is read as a number. */
  lemma NumberTextParses(s: string)
    requires IsNumberText(s)
    ensures ParseNumber(s).Some?
  {
    if IsUnsignedNumberText(s) {
      UnsignedStart(s);
      UnsignedParses(s);
    } else {
      UnsignedParses(s[1..]);
    }
  }

  /** A cleaned amount is a number exactly when it is a text of the
      grammar; anything else, such as "12abc", "1.2.3", "1e" or "--5", is
      NaN. */
  lemma NumberIff(s: string)
    ensures ParseNumber(s).Some? <==> IsNumberText(s)
  {
    if ParseNumber(s).Some? {
      ParsedIsNumberText(s);
    }
    if IsNumberText(s) {
      NumberTextParses(s);
    }
  }

  /** Texts outside the grammar: trailing letters, a second point. */
  lemma NotNumbersTrailing()
    ensures ParseNumber("12abc") == None && ParseNumber("1.2.3") == None
  {
  }

  /** Texts outside the grammar: an exponent mark without digits. */
  lemma NotNumbersExponent()
    ensures ParseNumber("1e") == None && ParseNumber("1e+") == None
  {
  }

  /** Texts outside the grammar: two signs, a point without digits. */
  lemma NotNumbersMantissa()
    ensures ParseNumber("--5") == None && ParseNumber(".") == None
  {
  }

  /** Thousands separators are ignored: "1,234.50" reads as 1234.50. */
  lemma GroupedAmount(high: string, low: string, fraction: string)
    requires |high| >= 1 && AllDigits(high) && AllDigits(low)
    requires |fraction| >= 1 && AllDigits(fraction)
    ensures AllDigits(high + low + fraction)
    ensures ParseNumber(CleanAmount(high + "," + low + "." + fraction))
            == Some(Decimal(false, DigitsValue(high + low + fraction), |fraction|))
  {
    var whole := high + low;
    AllDigitsAppend(high, low);
    GroupedCleaned(high, low, fraction);
    PointedNumber("", whole, fraction);
    EmptyPrefix("", whole);
  }

  /** Cleaning "high,low.fraction" leaves "highlow.fraction". */
  lemma GroupedCleaned(high: string, low: string, fraction: string)
    requires |high| >= 1 && AllDigits(high) && AllDigits(low)
    requires |fraction| >= 1 && AllDigits(fraction)
    ensures CleanAmount(high + "," + low + "." + fraction) == high + low + "." + fraction
  {
    var tail := low + "." + fraction;
    var t := high + low + "." + fraction;
    assert ',' !in high by { NoCommaInDigits(high); }
    assert ',' !in tail by {
      NoCommaInDigits(low);
      NoCommaInDigits(fraction);
    }
    CommaRemoved(high, tail);
    AppendAssoc(high + ",", low, ".");
    AppendAssoc(high + ",", low + ".", fraction);
    AppendAssoc(high, low, ".");
    AppendAssoc(high, low + ".", fraction);
    assert RemoveChar(high + "," + low + "." + fraction, ',') == t;
    assert t[0] == high[0] && t[|t| - 1] == fraction[|fraction| - 1];
    StripUnspaced(t);
  }

  lemma NoCommaInDigits(s: string)
    requires AllDigits(s)
    ensures ',' !in s
  {
  }

  /** Text written around a comma loses the comma and nothing else,
      when it has no other comma. */
  lemma CommaRemoved(a: string, b: string)
    requires ',' !in a && ',' !in b
    ensures RemoveChar(a + "," + b, ',') == a + b
  {
    assert RemoveChar(a, ',') == a && RemoveChar(b, ',') == b;
    RemoveCharAround(a, ',', b);
  }

  /** Only commas and surrounding whitespace are removed: an amount that
      still carries a currency label in front ("KES 2,000") is not a number. */
  lemma LabelledAmountRejected(unit: string, rest: string)
    requires |unit| >= 1 && !IsSpace(unit[0]) && !IsDigit(unit[0])
    requires unit[0] !in {',', '+', '-', '.'}
    ensures ParseNumber(CleanAmount(unit + rest)) == None
  {
    var s := unit + rest;
    var t := RemoveChar(s, ',');
    assert s[0] == unit[0];
    assert t[0] == unit[0] && |t| >= 1;
    var r := CleanAmount(s);
    var i :| StrippedAt(t, i, r);
    assert r != [] && r[0] == unit[0];
    assert SpanDigits(r) == 0;
  }

  // ---------------------------------------------------------------------
  // Display: the text of a number in the IIF file

  /** The same number with trailing fraction zeros dropped. */
  function Normalize(d: Decimal): (r: Decimal)
    ensures r.negative == d.negative && r.scale <= d.scale
    ensures r.scale == 0 || r.magnitude % 10 != 0
    decreases d.scale
  {
    if d.scale > 0 && d.magnitude % 10 == 0 then
      Normalize(Decimal(d.negative, d.magnitude / 10, d.scale - 1))
    else d
  }

  /** Dropping trailing zeros keeps the value. */
  lemma {:induction false} NormalizeValue(d: Decimal)
    ensures Value(Normalize(d)) == Value(d)
    decreases d.scale
  {
    if d.scale > 0 && d.magnitude % 10 == 0 {
      var smaller := Decimal(d.negative, d.magnitude / 10, d.scale - 1);
      NormalizeValue(smaller);
      DropZeroValue(d.magnitude / 10, Pow10(d.scale - 1));
      assert d.magnitude == 10 * (d.magnitude / 10);
    }
  }

  lemma DropZeroValue(k: nat, p: nat)
    requires p >= 1
    ensures (10 * k) as real / (10 * p) as real == k as real / p as real
  {
  }

  /** An amount as the file shows it: an optional minus sign, the integer
      part without leading zeros, a point, and the fraction without
      trailing zeros but with at least one digit ("1000.0", "-0.5",
      "12.34"). This is how Python prints a float of ordinary magnitude. */
  function Format(d: Decimal): (r: string)
    ensures |r| >= 3 && (r[0] == '-' <==> d.negative) && '.' in r
  {
    var n := Normalize(d);
    var (q, r) := DivModPow10(n.magnitude, n.scale);
    (if n.negative then "-" else "")
      + NatToDigits(q) + "."
      + (if n.scale == 0 then "0" else PadDigits(r, n.scale))
  }

  /** The integer part and the fraction digits of magnitude / 10^scale. */
  function DivModPow10(m: nat, scale: nat): (qr: (nat, nat))
    ensures qr.1 < Pow10(scale)
    ensures m == qr.0 * Pow10(scale) + qr.1
  {
    var p := Pow10(scale);
    DivMod(m, p);
    (m / p, m % p)
  }

  lemma DivMod(m: nat, p: nat)
    requires p >= 1
    ensures m / p >= 0 && m % p < p && m == (m / p) * p + m % p
  {
  }

  /** pandas reads "[-]digits.digits" as the digits with the point put back. */
  lemma ParsePointed(negative: bool, whole: string, fraction: string)
    requires |whole| >= 1 && AllDigits(whole) && AllDigits(fraction) && |fraction| >= 1
    ensures AllDigits(whole + fraction)
    ensures ParseNumber((if negative then "-" else "") + whole + "." + fraction)
            == Some(Decimal(negative, DigitsValue(whole + fraction), |fraction|))
  {
    PointedNumber(if negative then "-" else "", whole, fraction);
  }

  lemma PointedNumber(sign: string, whole: string, fraction: string)
    requires sign == "" || sign == "-"
    requires |whole| >= 1 && AllDigits(whole) && AllDigits(fraction) && |fraction| >= 1
    ensures AllDigits(whole + fraction)
    ensures ParseNumber(sign + whole + "." + fraction)
            == Some(Decimal(sign == "-", DigitsValue(whole + fraction), |fraction|))
  {
    AllDigitsAppend(whole, fraction);
    var body := whole + ("." + fraction);
    MantissaPointed(whole, fraction);
    AppendAssoc(sign + whole, ".", fraction);
    AppendAssoc(sign, whole, "." + fraction);
    assert body[0] == whole[0];
    SignedNumber(sign, body, DigitsValue(whole + fraction), |fraction|);
  }

  /** An optional minus sign before a mantissa with nothing after it. */
  lemma SignedNumber(sign: string, body: string, m: nat, f: nat)
    requires sign == "" || sign == "-"
    requires |body| >= 1 && IsDigit(body[0])
    requires ParseMantissa(body) == Some((m, f, ""))
    ensures ParseNumber(sign + body) == Some(Decimal(sign == "-", m, f))
  {
    var s := sign + body;
    if sign == "-" {
      DropFirst(sign, body);
      assert s[0] == '-';
    } else {
      EmptyPrefix(sign, body);
    }
    assert ParseExponent("") == Some(0);
  }

  /** Digits with no point, followed by nothing or an exponent mark, read
      as a whole number with no fraction digits. */
  lemma {:induction false} MantissaWhole(whole: string, tail: string)
    requires |whole| >= 1 && AllDigits(whole)
    requires tail == [] || tail[0] == 'e' || tail[0] == 'E'
    ensures ParseMantissa(whole + tail) == Some((DigitsValue(whole), 0, tail))
  {
    var body := whole + tail;
    SpanDigitsAppend(whole, tail);
    assert SpanDigits(tail) == 0;
    assert body[..|whole|] == whole && body[|whole|..] == tail;
  }

  /** Digits, a point and digits, at least one digit in all ("1.5", "1.",
      ".5"), read as the digits with the point put back, leaving what
      follows. */
  lemma {:induction false} MantissaPoint(whole: string, fraction: string, tail: string)
    requires AllDigits(whole) && AllDigits(fraction) && |whole| + |fraction| >= 1
    requires tail == [] || tail[0] == 'e' || tail[0] == 'E'
    ensures AllDigits(whole + fraction)
    ensures ParseMantissa(whole + ("." + (fraction + tail)))
            == Some((DigitsValue(whole + fraction), |fraction|, tail))
  {
    AllDigitsAppend(whole, fraction);
    var rest := fraction + tail;
    var afterWhole := "." + rest;
    var body := whole + afterWhole;
    SpanDigitsAppend(whole, afterWhole);
    assert SpanDigits(afterWhole) == 0;
    assert body[..|whole|] == whole && body[|whole|..] == afterWhole;
    assert afterWhole[1..] == rest;
    SpanDigitsAppend(fraction, tail);
    assert SpanDigits(tail) == 0;
    assert rest[..|fraction|] == fraction && rest[|fraction|..] == tail;
  }

  /** The integer written by an optional sign and a string of digits. */
  function SignedDigits(sign: string, digits: string): int
    requires AllDigits(digits)
  {
    if sign == "-" then -(DigitsValue(digits) as int) else DigitsValue(digits) as int
  }

  /** An exponent: `e` or `E`, an optional sign and digits. */
  lemma {:induction false} ExponentRead(mark: char, sign: string, digits: string)
    requires mark == 'e' || mark == 'E'
    requires sign == "" || sign == "+" || sign == "-"
    requires |digits| >= 1 && AllDigits(digits)
    ensures ParseExponent([mark] + (sign + digits)) == Some(SignedDigits(sign, digits))
  {
    var u := sign + digits;
    DropFirst([mark], u);
    if sign == "" {
      EmptyPrefix(sign, digits);
    } else {
      DropFirst(sign, digits);
      assert u[0] == sign[0];
    }
  }

  /** An optional sign before a mantissa whose tail is an exponent: the
      number the mantissa and the exponent give, with that sign. */
  lemma {:induction false} NumberRead(sign: string, body: string, m: nat, f: nat, tail: string, e: int)
    requires sign == "" || sign == "+" || sign == "-"
    requires |body| >= 1 && (IsDigit(body[0]) || body[0] == '.')
    requires ParseMantissa(body) == Some((m, f, tail)) && ParseExponent(tail) == Some(e)
    ensures ParseNumber(sign + body) == Some(Scaled(sign == "-", m, f, e))
  {
    var s := sign + body;
    if sign == "" {
      EmptyPrefix(sign, body);
    } else {
      DropFirst(sign, body);
      assert s[0] == sign[0];
    }
  }

  /** A whole number with an optional sign, such as "1000" once the
      thousands separator is gone, reads as itself. */
  lemma {:induction false} IntegerAmount(sign: string, digits: string)
    requires sign == "" || sign == "+" || sign == "-"
    requires |digits| >= 1 && AllDigits(digits)
    ensures ParseNumber(sign + digits) == Some(Decimal(sign == "-", DigitsValue(digits), 0))
    ensures Value(ParseNumber(sign + digits).value)
            == if sign == "-" then -(DigitsValue(digits) as real) else DigitsValue(digits) as real
  {
    MantissaWhole(digits, "");
    assert digits + "" == digits;
    assert ParseExponent("") == Some(0);
    NumberRead(sign, digits, DigitsValue(digits), 0, "", 0);
  }

  /** 10^e as a real, for an exponent of either sign. */
  function PowerOfTen(e: int): (r: real)
    ensures r > 0.0
    ensures e >= 0 ==> r == Pow10(e) as real
    ensures e < 0 ==> r * Pow10(-e) as real == 1.0
  {
    if e >= 0 then Pow10(e) as real else 1.0 / Pow10(-e) as real
  }

  lemma {:induction false} Pow10Add(a: nat, b: nat)
    ensures Pow10(a + b) == Pow10(a) * Pow10(b)
    decreases a
  {
    if a > 0 {
      Pow10Add(a - 1, b);
    }
  }

  /** The cases of `Scaled` on real numbers, with every power of ten as a
      plain number. */
  lemma {:induction false} ScaleUp(x: real, k: real, p: real, xk: real, t: real)
    requires p > 0.0 && xk == x * k && t == k * p
    ensures xk == x * t / p
  {
  }

  lemma {:induction false} ScaleDown(x: real, a: real, b: real, pf: real, t: real)
    requires a > 0.0 && b > 0.0 && pf == a * b && t == a
    ensures x / b == x * t / pf
  {
  }

  lemma {:induction false} ScaleDownNegative(x: real, p: real, q: real, pfe: real, t: real)
    requires p > 0.0 && q > 0.0 && pfe == p * q && t * q == 1.0
    ensures x / pfe == x * t / p
  {
  }

  lemma {:induction false} ProductAsReal(a: nat, b: nat)
    ensures (a * b) as real == a as real * b as real
  {
  }

  lemma {:induction false} UpCore(m: nat, k: nat, p: nat, t: real)
    requires p >= 1 && t == (k * p) as real
    ensures (m * k) as real == m as real * t / p as real
  {
    ProductAsReal(m, k);
    ProductAsReal(k, p);
    ScaleUp(m as real, k as real, p as real, (m * k) as real, t);
  }

  lemma {:induction false} DownCore(m: nat, a: nat, b: nat, pf: nat, t: real)
    requires a >= 1 && b >= 1 && pf == a * b && t == a as real
    ensures m as real / b as real == m as real * t / pf as real
  {
    ProductAsReal(a, b);
    ScaleDown(m as real, a as real, b as real, pf as real, t);
  }

  lemma {:induction false} DownNegativeCore(m: nat, p: nat, q: nat, pfe: nat, t: real)
    requires p >= 1 && q >= 1 && pfe == p * q && t * q as real == 1.0
    ensures m as real / pfe as real == m as real * t / p as real
  {
    ProductAsReal(p, q);
    ScaleDownNegative(m as real, p as real, q as real, pfe as real, t);
  }

  /** 10^(d + f) as a real number is 10^d × 10^f. */
  lemma {:induction false} PowerOfTenSplit(d: nat, f: nat)
    ensures PowerOfTen(d + f) == (Pow10(d) * Pow10(f)) as real
  {
    Pow10Add(d, f);
  }

  lemma {:induction false} PowerOfTenNatural(a: nat)
    ensures PowerOfTen(a) == Pow10(a) as real
  {
  }

  lemma {:induction false} PowerOfTenNegative(q: nat)
    requires q >= 1
    ensures PowerOfTen(-(q as int)) * Pow10(q) as real == 1.0
  {
  }

  /** The real number a mantissa `m` with `f` fraction digits and exponent
      `e` stands for: ±m × 10^e / 10^f. */
  function ScientificValue(negative: bool, m: nat, f: nat, e: int): real {
    var v := m as real * PowerOfTen(e) / Pow10(f) as real;
    if negative then -v else v
  }

  /** When the exponent is at least the number of fraction digits, `Scaled`
      multiplies the mantissa by 10^d with d = e - f, which is
      m × 10^e / 10^f: first as arithmetic on powers of ten ... */
  lemma {:induction false} UpPower(m: nat, d: nat, f: nat)
    ensures (m * Pow10(d)) as real == m as real * PowerOfTen(d + f) / Pow10(f) as real
  {
    PowerOfTenSplit(d, f);
    UpCore(m, Pow10(d), Pow10(f), PowerOfTen(d + f));
  }

  /** ... then as a scientific value ... */
  lemma {:induction false} UpScientific(m: nat, d: nat, f: nat)
    ensures (m * Pow10(d)) as real == ScientificValue(false, m, f, d + f)
  {
    UpPower(m, d, f);
  }

  /** ... for any exponent e = d + f. */
  lemma {:induction false} UpReal(m: nat, f: nat, e: int, d: nat)
    requires d + f == e
    ensures (m * Pow10(d)) as real == ScientificValue(false, m, f, e)
  {
    UpScientific(m, d, f);
  }

  /** Otherwise it keeps the mantissa with g = f - e digits after the point,
      which is again m × 10^e / 10^f; first for 0 <= e ... */
  lemma {:induction false} DownPower(m: nat, a: nat, g: nat)
    ensures m as real / Pow10(g) as real == m as real * PowerOfTen(a) / Pow10(a + g) as real
  {
    Pow10Add(a, g);
    PowerOfTenNatural(a);
    DownCore(m, Pow10(a), Pow10(g), Pow10(a + g), PowerOfTen(a));
  }

  lemma {:induction false} DownScientific(m: nat, a: nat, g: nat)
    ensures m as real / Pow10(g) as real == ScientificValue(false, m, a + g, a)
  {
    DownPower(m, a, g);
  }

  lemma {:induction false} DownReal(m: nat, f: nat, a: nat, g: nat)
    requires a + g == f
    ensures m as real / Pow10(g) as real == ScientificValue(false, m, f, a)
  {
    DownScientific(m, a, g);
  }

  /** ... then for e = -q < 0, where f - e = f + q. */
  lemma {:induction false} NegativePower(m: nat, f: nat, q: nat)
    requires q >= 1
    ensures m as real / Pow10(f + q) as real == m as real * PowerOfTen(-(q as int)) / Pow10(f) as real
  {
    Pow10Add(f, q);
    PowerOfTenNegative(q);
    DownNegativeCore(m, Pow10(f), Pow10(q), Pow10(f + q), PowerOfTen(-(q as int)));
  }

  lemma {:induction false} NegativeScientific(m: nat, f: nat, q: nat)
    requires q >= 1
    ensures m as real / Pow10(f + q) as real == ScientificValue(false, m, f, -(q as int))
  {
    NegativePower(m, f, q);
  }

  lemma {:induction false} DownRealNegative(m: nat, f: nat, e: int, q: nat)
    requires e < 0 && q == -e
    ensures m as real / Pow10(f + q) as real == ScientificValue(false, m, f, e)
  {
    NegativeScientific(m, f, q);
  }

  /** A decimal with no digits after the point is worth its magnitude. */
  lemma {:induction false} WholeValue(d: Decimal)
    requires d.scale == 0
    ensures Value(d) == if d.negative then -(d.magnitude as real) else d.magnitude as real
  {
    assert Pow10(0) == 1;
  }

  /** `Scaled` keeps the value of the mantissa and exponent it is given. */
  lemma {:induction false} ScaledValue(negative: bool, m: nat, f: nat, e: int)
    ensures Value(Scaled(negative, m, f, e)) == ScientificValue(negative, m, f, e)
  {
    if e >= f {
      WholeValue(Scaled(negative, m, f, e));
      UpReal(m, f, e, e - f);
    } else if e >= 0 {
      DownReal(m, f, e, f - e);
    } else {
      DownRealNegative(m, f, e, -e);
    }
  }

  /** An optional sign, a mantissa and an exponent read as
      ±m × 10^e / 10^f. */
  lemma {:induction false} NumberValue(sign: string, body: string, m: nat, f: nat, tail: string, e: int)
    requires sign == "" || sign == "+" || sign == "-"
    requires |body| >= 1 && (IsDigit(body[0]) || body[0] == '.')
    requires ParseMantissa(body) == Some((m, f, tail)) && ParseExponent(tail) == Some(e)
    ensures ParseNumber(sign + body).Some?
    ensures Value(ParseNumber(sign + body).value) == ScientificValue(sign == "-", m, f, e)
  {
    NumberRead(sign, body, m, f, tail, e);
    ScaledValue(sign == "-", m, f, e);
  }

  /** The longest form pandas reads, "[+-]digits.digits(e|E)[+-]digits",
      with the value it gives, e.g. "1.5e3" is 1500 and "-2.5E-1" is -0.25. */
  lemma {:induction false} ExponentAmount(sign: string, whole: string, fraction: string, mark: char,
                       expSign: string, expDigits: string)
    requires sign == "" || sign == "+" || sign == "-"
    requires AllDigits(whole) && AllDigits(fraction) && |whole| + |fraction| >= 1
    requires mark == 'e' || mark == 'E'
    requires expSign == "" || expSign == "+" || expSign == "-"
    requires |expDigits| >= 1 && AllDigits(expDigits)
    ensures AllDigits(whole + fraction)
    ensures ParseNumber(sign + (whole + ("." + (fraction + ([mark] + (expSign + expDigits)))))).Some?
    ensures Value(ParseNumber(sign + (whole + ("." + (fraction + ([mark] + (expSign + expDigits)))))).value)
            == ScientificValue(sign == "-", DigitsValue(whole + fraction), |fraction|, SignedDigits(expSign, expDigits))
  {
    var tail := [mark] + (expSign + expDigits);
    var body := whole + ("." + (fraction + tail));
    MantissaPoint(whole, fraction, tail);
    ExponentRead(mark, expSign, expDigits);
    if whole == [] {
      EmptyPrefix(whole, "." + (fraction + tail));
    } else {
      assert body[0] == whole[0];
    }
    NumberValue(sign, body, DigitsValue(whole + fraction), |fraction|, tail, SignedDigits(expSign, expDigits));
  }

  /** The same without a point, "[+-]digits(e|E)[+-]digits", e.g. "15e2" is
      1500 and "-3E-2" is -0.03. */
  lemma {:induction false} WholeExponentAmount(sign: string, whole: string, mark: char,
                       expSign: string, expDigits: string)
    requires sign == "" || sign == "+" || sign == "-"
    requires |whole| >= 1 && AllDigits(whole)
    requires mark == 'e' || mark == 'E'
    requires expSign == "" || expSign == "+" || expSign == "-"
    requires |expDigits| >= 1 && AllDigits(expDigits)
    ensures ParseNumber(sign + (whole + ([mark] + (expSign + expDigits)))).Some?
    ensures Value(ParseNumber(sign + (whole + ([mark] + (expSign + expDigits)))).value)
            == ScientificValue(sign == "-", DigitsValue(whole), 0, SignedDigits(expSign, expDigits))
  {
    var tail := [mark] + (expSign + expDigits);
    var body := whole + tail;
    MantissaWhole(whole, tail);
    ExponentRead(mark, expSign, expDigits);
    assert body[0] == whole[0];
    NumberValue(sign, body, DigitsValue(whole), 0, tail, SignedDigits(expSign, expDigits));
  }

  lemma MantissaPointed(whole: string, fraction: string)
    requires |whole| >= 1 && AllDigits(whole) && AllDigits(fraction) && |fraction| >= 1
    ensures AllDigits(whole + fraction)
    ensures ParseMantissa(whole + ("." + fraction)) == Some((DigitsValue(whole + fraction), |fraction|, ""))
  {
    AllDigitsAppend(whole, fraction);
    var body := whole + ("." + fraction);
    SpanDigitsAppend(whole, "." + fraction);
    assert SpanDigits("." + fraction) == 0;
    assert body[..|whole|] == whole;
    assert body[|whole|..] == "." + fraction;
    SpanDigitsAppend(fraction, "");
    assert fraction + "" == fraction;
    assert ("." + fraction)[1..] == fraction;
    assert fraction[..|fraction|] == fraction && fraction[|fraction|..] == [];
  }

  /** Reading back what `Format` writes gives the same number with the same sign. */
  lemma FormatRoundTrip(d: Decimal)
    ensures ParseNumber(Format(d)).Some?
    ensures Value(ParseNumber(Format(d)).value) == Value(d)
    ensures ParseNumber(Format(d)).value.negative == d.negative
  {
    var n := Normalize(d);
    var (q, r) := DivModPow10(n.magnitude, n.scale);
    var whole := NatToDigits(q);
    var fraction := if n.scale == 0 then "0" else PadDigits(r, n.scale);
    ParsePointed(n.negative, whole, fraction);
    assert Format(d) == (if n.negative then "-" else "") + whole + "." + fraction;
    DigitsValueAppend(whole, fraction);
    NormalizeValue(d);
    if n.scale == 0 {
      assert DigitsValue(fraction) == 0;
      assert DigitsValue(whole + fraction) == 10 * q;
      assert n.magnitude == q;
      DropZeroValue(q, 1);
    } else {
      assert DigitsValue(whole + fraction) == n.magnitude;
    }
  }

  // ---------------------------------------------------------------------
  // Rounding: Python's `round(x, 2)` on an exact value

  /** The integer nearest to `x`; a tie goes to the even neighbour. */
  function RoundHalfEven(x: real): (n: int)
    ensures x - 0.5 <= n as real <= x + 0.5
    ensures (n as real == x - 0.5 || n as real == x + 0.5) ==> n % 2 == 0
  {
    var f := x.Floor;
    var rest := x - f as real;
    if rest < 0.5 then f
    else if rest > 0.5 then f + 1
    else if f % 2 == 0 then f
    else f + 1
  }

  /** Those two properties single out one integer. */
  lemma RoundHalfEvenUnique(x: real, k: int)
    requires x - 0.5 <= k as real <= x + 0.5
    requires (k as real == x - 0.5 || k as real == x + 0.5) ==> k % 2 == 0
    ensures k == RoundHalfEven(x)
  {
  }

  /** The daily bank charge in cents: 2% of the day's total, rounded to
      two places as Python's `round` does. */
  function ChargeCents(total: real): (c: int)
    ensures total * 2.0 - 0.5 <= c as real <= total * 2.0 + 0.5
  {
    RoundHalfEven(total * 0.02 * 100.0)
  }
}
