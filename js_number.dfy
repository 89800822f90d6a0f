/** The amount check `isNaN(Number(s)) || parseFloat(s) <= 0`, over the
    decimal literals of ECMAScript's StringNumericLiteral grammar written
    without an exponent. */
module JsNumber {
  import opened Wrappers
  import opened JsString

  predicate IsDigit(c: char) {
    '0' <= c <= '9'
  }

  predicate AllDigits(s: string) {
    forall i :: 0 <= i < |s| ==> IsDigit(s[i])
  }

  predicate HasNonzeroDigit(s: string) {
    exists i :: 0 <= i < |s| && '1' <= s[i] <= '9'
  }

  /** The value of a run of decimal digits, most significant first. */
  function DigitsValue(s: string): nat
    requires AllDigits(s)
    decreases |s|
  {
    if s == [] then 0 else DigitsValue(s[..|s| - 1]) * 10 + (s[|s| - 1] as int - '0' as int)
  }

  /** A run of digits denotes a positive number exactly when one of its
      digits is not `0`. */
  lemma {:induction false} DigitsValuePositive(s: string)
    requires AllDigits(s)
    ensures DigitsValue(s) > 0 <==> HasNonzeroDigit(s)
    decreases |s|
  {
    if s != [] {
      var p := s[..|s| - 1];
      DigitsValuePositive(p);
      if HasNonzeroDigit(p) {
        var i :| 0 <= i < |p| && '1' <= p[i] <= '9';
        assert s[i] == p[i];
      }
      if HasNonzeroDigit(s) {
        var i :| 0 <= i < |s| && '1' <= s[i] <= '9';
        if i < |p| {
          assert p[i] == s[i];
        }
      }
    }
  }

  function Pow10(n: nat): (r: nat)
    ensures r >= 1
  {
    if n == 0 then 1 else 10 * Pow10(n - 1)
  }

  /** A finite decimal number, worth (-1)^negative * mantissa / 10^scale. */
  datatype Decimal = Decimal(negative: bool, mantissa: nat, scale: nat) {
    function Value(): real {
      var magnitude := mantissa as real / Pow10(scale) as real;
      if negative then -magnitude else magnitude
    }
  }

  /** An unsigned decimal literal: `D`, `D.`, `D.D` or `.D`, where `D` is a
      non-empty run of digits. The digits on both sides of the point together
      form the mantissa; the number of fraction digits is the scale. */
  function ParseUnsigned(b: string): (r: Option<Decimal>)
    ensures r.Some? ==> !r.value.negative
  {
    if '.' !in b then
      if b != [] && AllDigits(b) then Some(Decimal(false, DigitsValue(b), 0)) else None
    else
      var k := IndexOf(b, '.');
      var whole, fraction := b[..k], b[k + 1..];
      if AllDigits(whole) && AllDigits(fraction) && |whole| + |fraction| > 0 then
        Some(Decimal(false, DigitsValue(whole + fraction), |fraction|))
      else None
  }

  /** The literal without its leading sign, if it has one. */
  function Unsigned(t: string): string {
    if t != [] && (t[0] == '+' || t[0] == '-') then t[1..] else t
  }

  /** `Number(s)` on decimal literals without an exponent; `None` for every
      other non-blank string. White space around the literal is ignored and
      the empty or blank string is 0. A `+` or `-` sign may lead. */
  function ToNumber(s: string): Option<Decimal> {
    var t := Trim(s);
    if t == [] then Some(Decimal(false, 0, 0))
    else
      match ParseUnsigned(Unsigned(t))
      case None => None
      case Some(d) => Some(d.(negative := t[0] == '-'))
  }

  /** The negation of `isNaN(Number(s)) || parseFloat(s) <= 0`. On every
      string `Number` reads as a decimal literal, `parseFloat` reads the
      same literal and returns the same value. */
  predicate IsPositiveNumber(s: string) {
    match ToNumber(s)
    case None => false
    case Some(d) => d.Value() > 0.0
  }

  /** A decimal is greater than zero exactly when it carries no minus sign
      and its mantissa is not zero. */
  lemma DecimalPositive(d: Decimal)
    ensures d.Value() > 0.0 <==> !d.negative && d.mantissa > 0
  {
    var p := Pow10(d.scale) as real;
    var m := d.mantissa as real / p;
    assert m * p == d.mantissa as real;
    if d.mantissa > 0 {
      assert m > 0.0;
    } else {
      assert m == 0.0;
    }
  }

  lemma ParseUnsignedShape(b: string)
    requires ParseUnsigned(b).Some?
    ensures forall i :: 0 <= i < |b| ==> IsDigit(b[i]) || b[i] == '.'
    ensures ParseUnsigned(b).value.mantissa > 0 <==> HasNonzeroDigit(b)
  {
    if '.' !in b {
      DigitsValuePositive(b);
    } else {
      PointShape(b);
    }
  }

  lemma PointShape(b: string)
    requires '.' in b && ParseUnsigned(b).Some?
    ensures forall i :: 0 <= i < |b| ==> IsDigit(b[i]) || b[i] == '.'
    ensures ParseUnsigned(b).value.mantissa > 0 <==> HasNonzeroDigit(b)
  {
    var k := IndexOf(b, '.');
    var whole, fraction := b[..k], b[k + 1..];
    assert AllDigits(whole) && AllDigits(fraction);
    forall i | 0 <= i < |b| ensures IsDigit(b[i]) || b[i] == '.' {
      if i < k {
        assert b[i] == whole[i];
      } else if i > k {
        assert b[i] == fraction[i - k - 1];
      }
    }
    var digits := whole + fraction;
    assert ParseUnsigned(b).value.mantissa == DigitsValue(digits);
    DigitsValuePositive(digits);
    if HasNonzeroDigit(digits) {
      var i :| 0 <= i < |digits| && '1' <= digits[i] <= '9';
      if i < |whole| {
        assert b[i] == digits[i];
      } else {
        assert b[i + 1] == digits[i];
      }
    }
    if HasNonzeroDigit(b) {
      var i :| 0 <= i < |b| && '1' <= b[i] <= '9';
      if i < k {
        assert digits[i] == b[i];
      } else {
        assert digits[i - 1] == b[i];
      }
    }
  }

  lemma UnsignedNonzero(t: string)
    ensures HasNonzeroDigit(Unsigned(t)) <==> HasNonzeroDigit(t)
  {
    var b := Unsigned(t);
    if b != t {
      if HasNonzeroDigit(t) {
        var i :| 0 <= i < |t| && '1' <= t[i] <= '9';
        assert b[i - 1] == t[i];
      }
      if HasNonzeroDigit(b) {
        var i :| 0 <= i < |b| && '1' <= b[i] <= '9';
        assert t[i + 1] == b[i];
      }
    }
  }

  /** The amount check, stated on the trimmed text: it passes exactly when
      that text is a decimal literal with no minus sign and with a digit
      other than `0`. */
  lemma PositiveNumberIff(s: string)
    ensures IsPositiveNumber(s) <==>
      ToNumber(s).Some? && Trim(s) != [] && Trim(s)[0] != '-' && HasNonzeroDigit(Trim(s))
  {
    var t := Trim(s);
    if t != [] && ToNumber(s).Some? {
      DecimalPositive(ToNumber(s).value);
      ParseUnsignedShape(Unsigned(t));
      UnsignedNonzero(t);
    } else if ToNumber(s).Some? {
      DecimalPositive(ToNumber(s).value);
    }
  }

  /** A run of digits, not all `0`, passes the amount check. */
  lemma DigitsArePositive(s: string)
    requires s != [] && AllDigits(s) && HasNonzeroDigit(s)
    ensures IsPositiveNumber(s)
    ensures ToNumber(s) == Some(Decimal(false, DigitsValue(s), 0))
  {
    assert IsDigit(s[0]) && IsDigit(s[|s| - 1]);
    TrimUnchanged(s);
    assert Unsigned(s) == s;
    assert '.' !in s by {
      forall i | 0 <= i < |s| ensures s[i] != '.' {
        assert IsDigit(s[i]);
      }
    }
    DigitsValuePositive(s);
    DecimalPositive(Decimal(false, DigitsValue(s), 0));
  }

  /** Text that passes the amount check is not blank and consists of white
      space, digits, `.` and `+` only. */
  lemma PositiveNumberChars(s: string)
    requires IsPositiveNumber(s)
    ensures !IsBlank(s)
    ensures forall i :: 0 <= i < |s| ==> IsWhiteSpace(s[i]) || IsDigit(s[i]) || s[i] == '.' || s[i] == '+'
  {
    PositiveNumberIff(s);
    TrimEmptyIffBlank(s);
    TrimCovers(s);
    var t := Trim(s);
    var b := Unsigned(t);
    ParseUnsignedShape(b);
    forall c | c in t ensures IsDigit(c) || c == '.' || c == '+' {
      var n :| 0 <= n < |t| && t[n] == c;
      if b != t && n > 0 {
        assert c == b[n - 1];
      } else if b == t {
        assert c == b[n];
      }
    }
  }
}
