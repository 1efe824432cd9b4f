/** `java.time.LocalDateTime` as the history file uses it: `toString()` writes
    the ISO-8601 local date-time and `LocalDateTime.parse` reads it back. */
module JavaDateTime {
  import opened JavaBase
  import opened Digits

  datatype DateTime = DateTime(year: int, month: int, day: int,
                               hour: int, minute: int, second: int, nano: int)

  predicate IsLeapYear(y: int)
  {
    y % 4 == 0 && (y % 100 != 0 || y % 400 == 0)
  }

  function DaysInMonth(y: int, m: int): int
  {
    if m == 2 then (if IsLeapYear(y) then 29 else 28)
    else if m == 4 || m == 6 || m == 9 || m == 11 then 30
    else 31
  }

  /** A date-time that exists in the proleptic Gregorian calendar, with a
      four-digit year. */
  predicate Valid(t: DateTime)
  {
    && 0 <= t.year <= 9999
    && 1 <= t.month <= 12
    && 1 <= t.day <= DaysInMonth(t.year, t.month)
    && 0 <= t.hour < 24
    && 0 <= t.minute < 60
    && 0 <= t.second < 60
    && 0 <= t.nano < 1000000000
  }

  type LocalDateTime = t: DateTime | Valid(t) witness DateTime(1970, 1, 1, 0, 0, 0, 0)

  /** The fraction of a second as `LocalTime.toString` writes it: nothing for
      zero, else 3, 6 or 9 digits, the fewest that are exact. */
  function Fraction(nano: nat): (s: string)
    requires nano < 1000000000
  {
    if nano == 0 then ""
    else if nano % 1000000 == 0 then "." + Pad(nano / 1000000, 3)
    else if nano % 1000 == 0 then "." + Pad(nano / 1000, 6)
    else "." + Pad(nano, 9)
  }

  /** `t.toString()`: `yyyy-MM-ddTHH:mm`, then `:ss` and the fraction only when
      the seconds or the nanoseconds are not zero. */
  function Format(t: LocalDateTime): (s: string)
  {
    Pad(t.year, 4) + "-" + Pad(t.month, 2) + "-" + Pad(t.day, 2) + "T"
    + Pad(t.hour, 2) + ":" + Pad(t.minute, 2)
    + (if t.second > 0 || t.nano > 0 then ":" + Pad(t.second, 2) + Fraction(t.nano) else "")
  }

  /** Reads what follows the minutes: nothing, or `:ss`, or `:ss.` and one to
      nine digits of fraction; gives (second, nanosecond). */
  function ParseSeconds(rest: string): Option<(nat, nat)>
  {
    if rest == [] then Some((0, 0))
    else if |rest| < 3 || rest[0] != ':' || !AllDigits(rest[1..3]) then None
    else if |rest| == 3 then Some((Value(rest[1..3]), 0))
    else if rest[3] != '.' || |rest| < 5 || |rest| > 13 || !AllDigits(rest[4..]) then None
    else Some((Value(rest[1..3]), Value(rest[4..]) * Pow10(9 - (|rest| - 4))))
  }

  predicate DigitsAt(s: string, i: nat, j: nat)
  {
    i <= j <= |s| && AllDigits(s[i..j])
  }

  /** `LocalDateTime.parse(s)`: `None` where it throws `DateTimeParseException`,
      which includes fields out of range and days the month does not have.
      `ISO_LOCAL_DATE_TIME` parses case-insensitively, so the separator may
      be `T` or `t`. */
  function Parse(s: string): (r: Option<LocalDateTime>)
    ensures r.Some? ==> |s| >= 16
  {
    if |s| < 16 || s[4] != '-' || s[7] != '-' || (s[10] != 'T' && s[10] != 't') || s[13] != ':' then None
    else if !(DigitsAt(s, 0, 4) && DigitsAt(s, 5, 7) && DigitsAt(s, 8, 10)
              && DigitsAt(s, 11, 13) && DigitsAt(s, 14, 16)) then None
    else match ParseSeconds(s[16..])
      case None => None
      case Some(sn) =>
        var t := DateTime(Value(s[0..4]), Value(s[5..7]), Value(s[8..10]),
                          Value(s[11..13]), Value(s[14..16]), sn.0, sn.1);
        if Valid(t) then Some(t) else None
  }

  /** Reading `width` digits of `nano / unit` back and scaling by `unit` gives
      `nano`, when `unit` divides `nano`. */
  lemma ScaledDigits(nano: nat, width: nat, unit: nat)
    requires width <= 9 && nano < 1000000000 && unit == Pow10(9 - width)
    requires nano % unit == 0
    ensures nano / unit < Pow10(width)
    ensures Value(Pad(nano / unit, width)) * Pow10(9 - width) == nano
  {
    var q := nano / unit;
    assert nano == q * unit by {
      assert nano == q * unit + nano % unit;
    }
    PowSplit(width, 9 - width);
    Pow9();
    assert q * unit < Pow10(width) * unit;
    MulLessCancel(q, Pow10(width), unit);
    ValueOfPad(q, width);
  }

  lemma MulLessCancel(a: nat, b: nat, c: nat)
    requires a * c < b * c
    ensures a < b
  {
  }

  lemma Pow9()
    ensures Pow10(9) == 1000000000
  {
  }

  lemma {:induction false} PowSplit(a: nat, b: nat)
    ensures Pow10(a + b) == Pow10(a) * Pow10(b)
  {
    if a > 0 {
      PowSplit(a - 1, b);
    }
  }

  lemma {:induction false} ParseFraction(second: nat, nano: nat)
    requires second < 60 && nano < 1000000000
    requires second > 0 || nano > 0
    ensures ParseSeconds(":" + Pad(second, 2) + Fraction(nano)) == Some((second, nano))
  {
    if nano == 0 {
      var rest := ":" + Pad(second, 2);
      assert rest[1..3] == Pad(second, 2);
      ValueOfPad(second, 2);
    } else if nano % 1000000 == 0 {
      assert Pow10(6) == 1000000;
      ScaledDigits(nano, 3, 1000000);
      ParseSecondsWithFraction(second, Pad(nano / 1000000, 3), nano);
    } else if nano % 1000 == 0 {
      assert Pow10(3) == 1000;
      ScaledDigits(nano, 6, 1000);
      ParseSecondsWithFraction(second, Pad(nano / 1000, 6), nano);
    } else {
      ScaledDigits(nano, 9, 1);
      assert nano / 1 == nano;
      ParseSecondsWithFraction(second, Pad(nano, 9), nano);
    }
  }

  /** Seconds followed by a point and one to nine digits of fraction read
      back as the seconds and the nanoseconds the digits scale to. */
  lemma ParseSecondsWithFraction(second: nat, digits: string, nano: nat)
    requires second < 60 && AllDigits(digits) && 1 <= |digits| <= 9
    requires Value(digits) * Pow10(9 - |digits|) == nano
    ensures ParseSeconds(":" + Pad(second, 2) + ("." + digits)) == Some((second, nano))
  {
    var rest := ":" + Pad(second, 2) + ("." + digits);
    assert rest[1..3] == Pad(second, 2);
    assert rest[3] == '.';
    assert rest[4..] == digits;
    ValueOfPad(second, 2);
  }

  /** The slices of the text `toString` writes. */
  lemma FormatSlices(t: LocalDateTime)
    ensures var s := Format(t);
      && |s| >= 16 && s[4] == '-' && s[7] == '-' && s[10] == 'T' && s[13] == ':'
      && s[0..4] == Pad(t.year, 4) && s[5..7] == Pad(t.month, 2) && s[8..10] == Pad(t.day, 2)
      && s[11..13] == Pad(t.hour, 2) && s[14..16] == Pad(t.minute, 2)
      && s[16..] == (if t.second > 0 || t.nano > 0 then ":" + Pad(t.second, 2) + Fraction(t.nano) else "")
  {
    var tail := if t.second > 0 || t.nano > 0 then ":" + Pad(t.second, 2) + Fraction(t.nano) else "";
    Layout(Pad(t.year, 4), Pad(t.month, 2), Pad(t.day, 2), Pad(t.hour, 2), Pad(t.minute, 2), tail);
  }

  /** Where each field sits in `yyyy-MM-ddTHH:mm` followed by a tail. */
  lemma Layout(year: string, month: string, day: string, hour: string, minute: string, tail: string)
    requires |year| == 4 && |month| == 2 && |day| == 2 && |hour| == 2 && |minute| == 2
    ensures var s := year + "-" + month + "-" + day + "T" + hour + ":" + minute + tail;
      && |s| >= 16 && s[4] == '-' && s[7] == '-' && s[10] == 'T' && s[13] == ':'
      && s[0..4] == year && s[5..7] == month && s[8..10] == day
      && s[11..13] == hour && s[14..16] == minute && s[16..] == tail
  {
  }

  /** `LocalDateTime.parse` reads back exactly the date-time `toString` wrote. */
  lemma ParseFormat(t: LocalDateTime)
    ensures Parse(Format(t)) == Some(t)
  {
    FormatSlices(t);
    DateValues(Format(t), t);
    TimeValues(Format(t), t);
    SecondsValue(Format(t)[16..], t);
    ParseDigits(Format(t), t);
  }

  /** The padded fields of `t`, placed in a text, read back as the fields
      of `t`. */
  lemma DateValues(s: string, t: LocalDateTime)
    requires |s| >= 10
    requires s[0..4] == Pad(t.year, 4) && s[5..7] == Pad(t.month, 2) && s[8..10] == Pad(t.day, 2)
    ensures AllDigits(s[0..4]) && Value(s[0..4]) == t.year
    ensures AllDigits(s[5..7]) && Value(s[5..7]) == t.month
    ensures AllDigits(s[8..10]) && Value(s[8..10]) == t.day
  {
    assert Pow10(2) == 100 && Pow10(4) == 10000;
    PadField(s, 0, 4, t.year);
    PadField(s, 5, 7, t.month);
    PadField(s, 8, 10, t.day);
  }

  lemma TimeValues(s: string, t: LocalDateTime)
    requires |s| >= 16
    requires s[11..13] == Pad(t.hour, 2) && s[14..16] == Pad(t.minute, 2)
    ensures AllDigits(s[11..13]) && Value(s[11..13]) == t.hour
    ensures AllDigits(s[14..16]) && Value(s[14..16]) == t.minute
  {
    assert Pow10(2) == 100;
    PadField(s, 11, 13, t.hour);
    PadField(s, 14, 16, t.minute);
  }

  /** The seconds part written by `Format` reads back as the seconds and nanoseconds. */
  lemma SecondsValue(tail: string, t: LocalDateTime)
    requires tail == (if t.second > 0 || t.nano > 0 then ":" + Pad(t.second, 2) + Fraction(t.nano) else "")
    ensures ParseSeconds(tail) == Some((t.second, t.nano))
  {
    if t.second > 0 || t.nano > 0 {
      ParseFraction(t.second, t.nano);
    }
  }

  /** A slice holding `n` padded to its width reads back as `n`. */
  lemma PadField(s: string, i: nat, j: nat, n: nat)
    requires i <= j <= |s| && n < Pow10(j - i) && s[i..j] == Pad(n, j - i)
    ensures AllDigits(s[i..j]) && Value(s[i..j]) == n
  {
    ValueOfPad(n, j - i);
  }

  /** A text whose digit fields have the values of `t`, and whose seconds read
      back as those of `t`, parses to `t`. */
  lemma ParseDigits(s: string, t: LocalDateTime)
    requires |s| >= 16 && s[4] == '-' && s[7] == '-' && s[10] == 'T' && s[13] == ':'
    requires AllDigits(s[0..4]) && Value(s[0..4]) == t.year
    requires AllDigits(s[5..7]) && Value(s[5..7]) == t.month
    requires AllDigits(s[8..10]) && Value(s[8..10]) == t.day
    requires AllDigits(s[11..13]) && Value(s[11..13]) == t.hour
    requires AllDigits(s[14..16]) && Value(s[14..16]) == t.minute
    requires ParseSeconds(s[16..]) == Some((t.second, t.nano))
    ensures Parse(s) == Some(t)
  {
  }

  /** The date-time separator is read without regard to case. */
  lemma ParseIgnoresSeparatorCase(s: string)
    requires |s| > 10 && s[10] == 'T'
    ensures Parse(s[10 := 't']) == Parse(s)
  {
    var l := s[10 := 't'];
    if |s| >= 16 {
      assert l[0..4] == s[0..4] && l[5..7] == s[5..7] && l[8..10] == s[8..10];
      assert l[11..13] == s[11..13] && l[14..16] == s[14..16] && l[16..] == s[16..];
    }
  }

  /** What `toString` writes is one non-empty field: it has no comma. */
  lemma FormatHasNoComma(t: LocalDateTime)
    ensures |Format(t)| >= 16 && ',' !in Format(t)
  {
    DigitsHaveNo(Pad(t.year, 4), ',');
    DigitsHaveNo(Pad(t.month, 2), ',');
    DigitsHaveNo(Pad(t.day, 2), ',');
    DigitsHaveNo(Pad(t.hour, 2), ',');
    DigitsHaveNo(Pad(t.minute, 2), ',');
    DigitsHaveNo(Pad(t.second, 2), ',');
    DigitsHaveNo(Pad(t.nano / 1000000, 3), ',');
    DigitsHaveNo(Pad(t.nano / 1000, 6), ',');
    DigitsHaveNo(Pad(t.nano, 9), ',');
  }
}
