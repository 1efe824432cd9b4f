/** Java `double` values as the core uses them: exact real arithmetic for the
    finite values, IEEE 754 infinities and NaN, `Double.parseDouble` and the
    `%.2f` conversion of `String.format`. */
module JavaDoubles {
  import opened JavaBase
  import opened JavaStrings
  import opened Digits

  /** A `double`: a finite value (held exactly), an infinity, or NaN. */
  datatype Double = Finite(value: real) | PosInf | NegInf | NaN

  function Neg(d: Double): Double
  {
    match d
    case Finite(x) => Finite(-x)
    case PosInf => NegInf
    case NegInf => PosInf
    case NaN => NaN
  }

  /** The infinity whose sign is `positive`. */
  function Infinity(positive: bool): Double
  {
    if positive then PosInf else NegInf
  }

  /** `a * b` under IEEE 754, without rounding: infinity times zero is NaN,
      otherwise the signs multiply. */
  function Mul(a: Double, b: Double): (r: Double)
    ensures a.NaN? || b.NaN? ==> r.NaN?
    ensures a.Finite? && b.Finite? ==> r == Finite(a.value * b.value)
  {
    if a.NaN? || b.NaN? then NaN
    else if a.Finite? && b.Finite? then Finite(a.value * b.value)
    else if a.Finite? then (if a.value == 0.0 then NaN else Infinity((a.value > 0.0) == b.PosInf?))
    else if b.Finite? then (if b.value == 0.0 then NaN else Infinity((b.value > 0.0) == a.PosInf?))
    else Infinity(a == b)
  }

  /** `a / b` under IEEE 754, without rounding: a nonzero value over zero is an
      infinity, zero over zero and infinity over infinity are NaN, a finite
      value over an infinity is zero. */
  function Div(a: Double, b: Double): (r: Double)
    ensures a.NaN? || b.NaN? ==> r.NaN?
    ensures a.Finite? && b.Finite? && b.value != 0.0 ==> r == Finite(a.value / b.value)
  {
    if a.NaN? || b.NaN? then NaN
    else if a.Finite? && b.Finite? then
      if b.value != 0.0 then Finite(a.value / b.value)
      else if a.value == 0.0 then NaN
      else Infinity(a.value > 0.0)
    else if a.Finite? then Finite(0.0)
    else if b.Finite? then Infinity((b.value >= 0.0) == a.PosInf?)
    else NaN
  }

  /** Java's `d <= 0`: false for NaN. */
  predicate AtMostZero(d: Double)
  {
    (d.Finite? && d.value <= 0.0) || d.NegInf?
  }

  /** Multiplying by one leaves every value as it is. */
  lemma MulOne(a: Double)
    ensures Mul(a, Finite(1.0)) == a
  {
  }

  /** A value divided by itself is one, for finite nonzero values. */
  lemma DivSelf(x: real)
    requires x != 0.0
    ensures Div(Finite(x), Finite(x)) == Finite(1.0)
  {
  }

  /** Multiplying by a finite nonzero value and dividing by it again gives back
      every value, infinities and NaN included. */
  lemma MulThenDiv(a: Double, y: real)
    requires y != 0.0
    ensures Div(Mul(a, Finite(y)), Finite(y)) == a
  {
    if a.Finite? {
      assert a.value * y / y == a.value;
    }
  }

  /** The number written by an unsigned decimal: digits with at most one point
      and at least one digit, as `Double.parseDouble` accepts it. */
  function ParseDecimal(u: string): (r: Option<real>)
    ensures r.Some? ==> r.value >= 0.0
  {
    var parts := Pieces(u, '.');
    if |parts| == 1 then
      if u != [] && AllDigits(u) then Some(Value(u) as real) else None
    else if |parts| == 2 then
      var whole, fraction := parts[0], parts[1];
      if AllDigits(whole) && AllDigits(fraction) && |whole| + |fraction| > 0
      then Some(Value(whole) as real + Value(fraction) as real / Pow10(|fraction|) as real)
      else None
    else None
  }

  function ParseUnsigned(u: string): Option<Double>
  {
    if u == "NaN" then Some(NaN)
    else if u == "Infinity" then Some(PosInf)
    else match ParseDecimal(u)
      case Some(x) => Some(Finite(x))
      case None => None
  }

  function ParseSigned(t: string): Option<Double>
  {
    if t != [] && t[0] == '-' then
      match ParseUnsigned(t[1..])
      case Some(d) => Some(Neg(d))
      case None => None
    else if t != [] && t[0] == '+' then ParseUnsigned(t[1..])
    else ParseUnsigned(t)
  }

  /** `Double.parseDouble(s)`: `None` where it throws `NumberFormatException`.
      Surrounding blanks are ignored; then an optional sign and "NaN",
      "Infinity" or a plain decimal. */
  function ParseDouble(s: string): (r: Option<Double>)
    ensures Trim(s) == [] ==> r.None?
  {
    ParseSigned(Trim(s))
  }

  /** The count of hundredths `%.2f` shows for `x >= 0`: rounded half up. */
  function Hundredths(x: real): (q: nat)
    requires x >= 0.0
    ensures (q as real) / 100.0 <= x + 0.005 < (q as real + 1.0) / 100.0
  {
    (x * 100.0 + 0.5).Floor
  }

  /** The value `%.2f` shows: rounded half up (away from zero) to two decimals. */
  function Round2(d: Double): (r: Double)
    ensures d.Finite? <==> r.Finite?
    ensures d.Finite? ==> -0.005 <= r.value - d.value <= 0.005
    ensures !d.Finite? ==> r == d
  {
    match d
    case Finite(x) =>
      if x < 0.0 then Finite(-(Hundredths(-x) as real / 100.0))
      else Finite(Hundredths(x) as real / 100.0)
    case _ => d
  }

  function FixedUnsigned(x: real): (s: string)
    requires x >= 0.0
  {
    var q := Hundredths(x);
    Decimal(q / 100) + "." + Pad(q % 100, 2)
  }

  /** `String.format("%.2f", d)` with a locale whose decimal separator is '.'. */
  function Format2(d: Double): (s: string)
  {
    match d
    case NaN => "NaN"
    case PosInf => "Infinity"
    case NegInf => "-Infinity"
    case Finite(x) => if x < 0.0 then "-" + FixedUnsigned(-x) else FixedUnsigned(x)
  }

  lemma FixedUnsignedShape(x: real)
    requires x >= 0.0
    ensures var s := FixedUnsigned(x);
      s != [] && IsDigit(s[0]) && IsDigit(s[|s| - 1]) && ',' !in s
  {
    var q := Hundredths(x);
    DigitsHaveNo(Decimal(q / 100), ',');
    DigitsHaveNo(Pad(q % 100, 2), ',');
  }

  /** What `%.2f` writes is one non-empty field: no comma, no blank at either end. */
  lemma Format2Shape(d: Double)
    ensures var s := Format2(d);
      s != [] && ',' !in s && !IsBlank(s[0]) && !IsBlank(s[|s| - 1])
  {
    match d
    case Finite(x) =>
      if x < 0.0 {
        FixedUnsignedShape(-x);
      } else {
        FixedUnsignedShape(x);
      }
    case _ =>
  }

  lemma {:induction false} ParseFixedUnsigned(x: real)
    requires x >= 0.0
    ensures ParseUnsigned(FixedUnsigned(x)) == Some(Finite(Hundredths(x) as real / 100.0))
  {
    var q := Hundredths(x);
    var whole, fraction := Decimal(q / 100), Pad(q % 100, 2);
    var s := FixedUnsigned(x);
    assert s == whole + ['.'] + fraction;
    DigitsHaveNo(whole, '.');
    DigitsHaveNo(fraction, '.');
    PiecesConcat(whole, fraction, '.');
    PiecesWithout(whole, '.');
    PiecesWithout(fraction, '.');
    assert Pieces(s, '.') == [whole, fraction];
    ValueOfDecimal(q / 100);
    assert q % 100 < Pow10(2);
    ValueOfPad(q % 100, 2);
    assert (q / 100) * 100 + q % 100 == q;
    assert (q / 100) as real + (q % 100) as real / 100.0 == q as real / 100.0;
    assert ParseDecimal(s) == Some(q as real / 100.0);
    assert s != "NaN" && s != "Infinity" by {
      assert IsDigit(s[0]);
    }
  }

  lemma ParseFormat2Finite(x: real)
    ensures ParseDouble(Format2(Finite(x))) == Some(Round2(Finite(x)))
  {
    if x < 0.0 {
      ParseNegativeFixed(x);
    } else {
      ParseNonNegativeFixed(x);
    }
  }

  /** `%.2f` of a non-negative value reads back as its hundredths. */
  lemma ParseNonNegativeFixed(x: real)
    requires x >= 0.0
    ensures ParseDouble(Format2(Finite(x))) == Some(Round2(Finite(x)))
  {
    var s := FixedUnsigned(x);
    assert Format2(Finite(x)) == s;
    FixedUnsignedShape(x);
    TrimUnchanged(s);
    ParseFixedUnsigned(x);
    assert ParseSigned(s) == ParseUnsigned(s);
  }

  /** `%.2f` of a negative value is a minus sign and the text of its magnitude. */
  lemma ParseNegativeFixed(x: real)
    requires x < 0.0
    ensures ParseDouble(Format2(Finite(x))) == Some(Round2(Finite(x)))
  {
    var y := -x;
    var q := Hundredths(y);
    var u := FixedUnsigned(y);
    assert Format2(Finite(x)) == "-" + u;
    assert Round2(Finite(x)) == Neg(Finite(q as real / 100.0));
    FixedUnsignedShape(y);
    ParseFixedUnsigned(y);
    ParseMinus(u, Finite(q as real / 100.0));
  }

  /** A minus sign before an unsigned number that starts and ends with a
      digit negates it. */
  lemma ParseMinus(u: string, d: Double)
    requires u != [] && IsDigit(u[0]) && IsDigit(u[|u| - 1]) && ParseUnsigned(u) == Some(d)
    ensures ParseDouble("-" + u) == Some(Neg(d))
  {
    var s := "-" + u;
    assert s[0] == '-' && s[1..] == u && s[|s| - 1] == u[|u| - 1];
    TrimUnchanged(s);
  }

  lemma ParseWord(w: string, d: Double)
    requires w == "NaN" || w == "Infinity"
    requires d == (if w == "NaN" then NaN else PosInf)
    ensures ParseDouble(w) == Some(d)
    ensures ParseDouble("-" + w) == Some(Neg(d))
  {
    assert w[0] != '-' && w[0] != '+' && !IsBlank(w[0]) && !IsBlank(w[|w| - 1]);
    TrimUnchanged(w);
    assert ParseUnsigned(w) == Some(d);
    assert ParseSigned(w) == Some(d);
    var m := "-" + w;
    assert m[0] == '-' && m[1..] == w && m[|m| - 1] == w[|w| - 1];
    TrimUnchanged(m);
    assert ParseSigned(m) == Some(Neg(d));
  }

  /** Reading back what `%.2f` wrote gives the value rounded to two decimals;
      infinities and NaN come back unchanged. */
  lemma {:induction false} ParseFormat2(d: Double)
    ensures ParseDouble(Format2(d)) == Some(Round2(d))
  {
    if d.Finite? {
      ParseFormat2Finite(d.value);
    } else if d.NaN? {
      assert Format2(d) == "NaN";
      ParseWord("NaN", NaN);
    } else if d.PosInf? {
      assert Format2(d) == "Infinity";
      ParseWord("Infinity", PosInf);
    } else {
      assert Format2(d) == "-" + "Infinity";
      ParseWord("Infinity", PosInf);
    }
  }
}
