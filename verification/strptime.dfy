/**
  The numeric directives of the strptime patterns that pandas' `to_datetime`
  uses with an explicit `format=` (the regular expressions of CPython's
  `_strptime.TimeRE`). Each field parser accepts exactly the strings its
  directive's regular expression matches in full, and yields the number.
 */
module Strptime {
  import opened Wrappers
  import opened Text

  /** `1[0-2]|0[1-9]|[1-9]`: the %m (month) and %I (12-hour clock hour) directives. */
  function OneToTwelve(f: string): (r: Option<nat>)
    ensures r.Some? ==> 1 <= r.value <= 12
  {
    if |f| == 1 && '1' <= f[0] <= '9' then Some(DigitValue(f[0]))
    else if |f| == 2 && f[0] == '0' && '1' <= f[1] <= '9' then Some(DigitValue(f[1]))
    else if |f| == 2 && f[0] == '1' && '0' <= f[1] <= '2' then Some(10 + DigitValue(f[1]))
    else None
  }

  /** `3[01]|[12]\d|0[1-9]|[1-9]| [1-9]`: the %d (day of month) directive. */
  function DayOfMonth(f: string): (r: Option<nat>)
    ensures r.Some? ==> 1 <= r.value <= 31
  {
    if |f| == 1 && '1' <= f[0] <= '9' then Some(DigitValue(f[0]))
    else if |f| == 2 && (f[0] == '0' || f[0] == ' ') && '1' <= f[1] <= '9' then Some(DigitValue(f[1]))
    else if |f| == 2 && '1' <= f[0] <= '2' && IsDigit(f[1]) then Some(10 * DigitValue(f[0]) + DigitValue(f[1]))
    else if |f| == 2 && f[0] == '3' && '0' <= f[1] <= '1' then Some(30 + DigitValue(f[1]))
    else None
  }

  /** `[0-5]\d|\d`: the %M (minute) directive. */
  function Minute(f: string): (r: Option<nat>)
    ensures r.Some? ==> r.value < 60
  {
    if |f| == 1 && IsDigit(f[0]) then Some(DigitValue(f[0]))
    else if |f| == 2 && '0' <= f[0] <= '5' && IsDigit(f[1]) then Some(10 * DigitValue(f[0]) + DigitValue(f[1]))
    else None
  }

  /** `6[0-1]|[0-5]\d|\d`: the %S (second) directive; it admits the leap seconds 60 and 61. */
  function Second(f: string): (r: Option<nat>)
    ensures r.Some? ==> r.value <= 61
  {
    if |f| == 1 && IsDigit(f[0]) then Some(DigitValue(f[0]))
    else if |f| == 2 && '0' <= f[0] <= '5' && IsDigit(f[1]) then Some(10 * DigitValue(f[0]) + DigitValue(f[1]))
    else if |f| == 2 && f[0] == '6' && '0' <= f[1] <= '1' then Some(60 + DigitValue(f[1]))
    else None
  }

  /** `\d\d\d\d`: the %Y (four-digit year) directive. */
  function Year(f: string): (r: Option<nat>)
    ensures r.Some? ==> r.value < 10000
  {
    if |f| == 4 && AllDigits(f) then
      Some(1000 * DigitValue(f[0]) + 100 * DigitValue(f[1]) + 10 * DigitValue(f[2]) + DigitValue(f[3]))
    else None
  }

  // The ways a number is written in these fields.

  /** Decimal without leading zeros (one or two digits). */
  function Unpadded(n: nat): string
    requires n < 100
  {
    if n < 10 then [DigitChar(n)] else [DigitChar(n / 10), DigitChar(n % 10)]
  }

  /** Exactly two decimal digits. */
  function ZeroPadded(n: nat): string
    requires n < 100
  {
    [DigitChar(n / 10), DigitChar(n % 10)]
  }

  /** A single digit after one blank, as C's `%e` writes a day. */
  function SpacePadded(n: nat): string
    requires n < 10
  {
    [' ', DigitChar(n)]
  }

  /** Exactly four decimal digits. */
  function FourDigits(n: nat): string
    requires n < 10000
  {
    [DigitChar(n / 1000), DigitChar(n / 100 % 10), DigitChar(n / 10 % 10), DigitChar(n % 10)]
  }

  predicate PlainSpelling(f: string, n: nat) {
    n < 100 && (f == Unpadded(n) || f == ZeroPadded(n))
  }

  predicate DaySpelling(f: string, n: nat) {
    PlainSpelling(f, n) || (n < 10 && f == SpacePadded(n))
  }

  lemma TwoDigitSpelling(f: string, n: nat)
    requires |f| == 2 && IsDigit(f[0]) && IsDigit(f[1])
    requires n == 10 * DigitValue(f[0]) + DigitValue(f[1])
    ensures f == ZeroPadded(n)
  {
    DigitCharOfValue(f[0]);
    DigitCharOfValue(f[1]);
  }

  /** %m/%I read `f` as `n` exactly when `f` spells a number 1..12 with or without a leading zero. */
  lemma OneToTwelveSpellings(f: string, n: nat)
    ensures OneToTwelve(f) == Some(n) <==> 1 <= n <= 12 && PlainSpelling(f, n)
  {
    if OneToTwelve(f) == Some(n) {
      if |f| == 1 {
        DigitCharOfValue(f[0]);
      } else {
        TwoDigitSpelling(f, n);
      }
    }
  }

  /** %d reads `f` as `n` exactly when `f` spells a number 1..31 unpadded, zero-padded or blank-padded. */
  lemma DayOfMonthSpellings(f: string, n: nat)
    ensures DayOfMonth(f) == Some(n) <==> 1 <= n <= 31 && DaySpelling(f, n)
  {
    if DayOfMonth(f) == Some(n) {
      if |f| == 1 {
        DigitCharOfValue(f[0]);
      } else if f[0] == ' ' {
        DigitCharOfValue(f[1]);
      } else {
        TwoDigitSpelling(f, n);
      }
    }
  }

  /** %M reads `f` as `n` exactly when `f` spells a number 0..59 with one or two digits. */
  lemma MinuteSpellings(f: string, n: nat)
    ensures Minute(f) == Some(n) <==> n < 60 && PlainSpelling(f, n)
  {
    if Minute(f) == Some(n) {
      if |f| == 1 {
        DigitCharOfValue(f[0]);
      } else {
        TwoDigitSpelling(f, n);
      }
    }
  }

  /** %S reads `f` as `n` exactly when `f` spells a number 0..61 with one or two digits. */
  lemma SecondSpellings(f: string, n: nat)
    ensures Second(f) == Some(n) <==> n <= 61 && PlainSpelling(f, n)
  {
    if Second(f) == Some(n) {
      if |f| == 1 {
        DigitCharOfValue(f[0]);
      } else {
        TwoDigitSpelling(f, n);
      }
    }
  }

  lemma FourDigitArithmetic(a: nat, b: nat, c: nat, d: nat)
    requires a < 10 && b < 10 && c < 10 && d < 10
    ensures var n := 1000 * a + 100 * b + 10 * c + d;
      n / 1000 == a && n / 100 % 10 == b && n / 10 % 10 == c && n % 10 == d
  {
    var n := 1000 * a + 100 * b + 10 * c + d;
    assert n == 10 * (100 * a + 10 * b + c) + d;
    assert n / 10 == 100 * a + 10 * b + c;
    assert n == 100 * (10 * a + b) + (10 * c + d);
    assert n / 100 == 10 * a + b;
    assert n == 1000 * a + (100 * b + 10 * c + d);
  }

  lemma FourDigitDecomposition(n: nat)
    requires n < 10000
    ensures n == 1000 * (n / 1000) + 100 * (n / 100 % 10) + 10 * (n / 10 % 10) + n % 10
  {
    assert n == 10 * (n / 10) + n % 10;
    assert n / 10 == 10 * (n / 100) + n / 10 % 10;
    assert n / 100 == 10 * (n / 1000) + n / 100 % 10;
  }

  /** %Y reads `f` as `n` exactly when `f` is the four-digit spelling of `n`. */
  lemma YearSpellings(f: string, n: nat)
    ensures Year(f) == Some(n) <==> n < 10000 && f == FourDigits(n)
  {
    if Year(f) == Some(n) {
      FourDigitArithmetic(DigitValue(f[0]), DigitValue(f[1]), DigitValue(f[2]), DigitValue(f[3]));
      DigitCharOfValue(f[0]);
      DigitCharOfValue(f[1]);
      DigitCharOfValue(f[2]);
      DigitCharOfValue(f[3]);
    }
    if n < 10000 && f == FourDigits(n) {
      FourDigitDecomposition(n);
    }
  }

}
