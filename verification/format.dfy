/** `formatDuration` (src/App.jsx:7-21): a duration in milliseconds shown as
    its largest non-zero unit and the next unit below it, or as whole days or
    hours with one decimal. */
module Format {

  import opened Domain

  /** The `format` argument: 'days', 'hours', or any other value, which
      behaves as the default 'short'. */
  datatype Granularity = Short | InDays | InHours

  const SecondMs: int := 1000
  const MinuteMs: int := 60000

  /** The decimal digit `d` as a character. */
  function DigitChar(d: int): (c: char)
    requires 0 <= d < 10
    ensures '0' <= c <= '9' && c as int - '0' as int == d
  {
    ('0' as int + d) as char
  }

  /** A whole number in decimal, as a template literal shows it. */
  function NatToString(n: nat): (r: string)
    ensures |r| > 0
    ensures forall i :: 0 <= i < |r| ==> '0' <= r[i] <= '9'
  {
    if n < 10 then [DigitChar(n)] else NatToString(n / 10) + [DigitChar(n % 10)]
  }

  /** The value of a string of decimal digits. */
  function DigitsValue(s: string): int
    requires forall i :: 0 <= i < |s| ==> '0' <= s[i] <= '9'
  {
    if s == [] then 0 else DigitsValue(s[..|s| - 1]) * 10 + (s[|s| - 1] as int - '0' as int)
  }

  /** Reading the digits back gives the number: the decimal text is faithful. */
  lemma {:induction false} NatToStringRoundTrip(n: nat)
    ensures DigitsValue(NatToString(n)) == n
  {
    if n >= 10 {
      NatToStringRoundTrip(n / 10);
      var r := NatToString(n);
      assert r[..|r| - 1] == NatToString(n / 10);
    }
  }

  /** No leading zeros: only 0 is written with a leading '0'. */
  lemma {:induction false} NatToStringNoLeadingZero(n: nat)
    ensures NatToString(n)[0] == '0' <==> n == 0
  {
    if n >= 10 {
      NatToStringNoLeadingZero(n / 10);
    }
  }

  /** `Math.floor(ms / unit)` for a non-negative duration: the number of whole
      units in `ms`. */
  function Whole(ms: real, unit: nat): (w: nat)
    requires ms >= 0.0 && unit > 0
    ensures (w as real) * (unit as real) <= ms < ((w + 1) as real) * (unit as real)
  {
    var x := ms / unit as real;
    var f := x.Floor;
    assert f as real <= x < (f + 1) as real;
    assert x * (unit as real) == ms;
    ScaleBelow(f as real, x, unit as real);
    ScaleBelowStrict(x, (f + 1) as real, unit as real);
    f
  }

  lemma ScaleBelow(x: real, y: real, u: real)
    requires x <= y && u > 0.0
    ensures x * u <= y * u
  {
  }

  lemma ScaleBelowStrict(x: real, y: real, u: real)
    requires x < y && u > 0.0
    ensures x * u < y * u
  {
  }

  /** At most one whole number of units fits the bounds of `Whole`. */
  lemma WholeUnique(ms: real, unit: nat, w: int)
    requires ms >= 0.0 && unit > 0
    requires (w as real) * (unit as real) <= ms < ((w + 1) as real) * (unit as real)
    ensures w == Whole(ms, unit)
  {
    var v := Whole(ms, unit);
    NoLater(ms, unit as real, v, w);
    NoLater(ms, unit as real, w, v);
  }

  /** A count of units that fits below `ms` is at most one whose successor does not. */
  lemma NoLater(ms: real, u: real, v: int, w: int)
    requires u > 0.0 && ms < ((v + 1) as real) * u && (w as real) * u <= ms
    ensures w <= v
  {
    assert (w as real) * u < ((v + 1) as real) * u;
    ScaleBack(w as real, (v + 1) as real, u);
    assert (w as real) < (v + 1) as real;
  }

  /** Dividing both sides of a strict inequality by a positive factor. */
  lemma ScaleBack(x: real, y: real, u: real)
    requires u > 0.0 && x * u < y * u
    ensures x < y
  {
    if y <= x {
      ScaleBelow(y, x, u);
    }
  }

  /** Casting a product of integers to `real`. */
  lemma CastProduct(x: int, y: int, z: int)
    ensures ((x * y) as real) * (z as real) == (x as real) * ((y * z) as real)
  {
    assert (x * y) as real == (x as real) * (y as real);
    assert (y * z) as real == (y as real) * (z as real);
  }

  /** Flooring twice is flooring once by the product of the units. */
  lemma NestedWhole(ms: real, a: nat, b: nat)
    requires ms >= 0.0 && a > 0 && b > 0
    ensures Whole(ms, a) / b == Whole(ms, a * b)
  {
    var q := Whole(ms, a);
    var p := q / b;
    DivBounds(q, b);
    LowerScaled(ms, q, p * b, a);
    UpperScaled(ms, q + 1, (p + 1) * b, a);
    CastProduct(p, b, a);
    CastProduct(p + 1, b, a);
    assert b * a == a * b;
    WholeUnique(ms, a * b, p);
  }

  /** Euclidean division brackets its dividend. */
  lemma DivBounds(q: nat, b: nat)
    requires b > 0
    ensures (q / b) * b <= q && q + 1 <= (q / b + 1) * b
  {
    assert q == (q / b) * b + q % b;
  }

  lemma LowerScaled(ms: real, q: int, m: int, a: nat)
    requires a > 0 && m <= q && (q as real) * (a as real) <= ms
    ensures (m as real) * (a as real) <= ms
  {
    ScaleBelow(m as real, q as real, a as real);
  }

  lemma UpperScaled(ms: real, q: int, m: int, a: nat)
    requires a > 0 && q <= m && ms < (q as real) * (a as real)
    ensures ms < (m as real) * (a as real)
  {
    ScaleBelow(q as real, m as real, a as real);
  }

  /** Some whole unit fits in `ms` exactly when `ms` is at least one unit. */
  lemma WholePositive(ms: real, unit: nat)
    requires ms >= 0.0 && unit > 0
    ensures Whole(ms, unit) > 0 <==> ms >= unit as real
  {
    var w, u := Whole(ms, unit), unit as real;
    if w > 0 {
      ScaleBelow(1.0, w as real, u);
      assert 1.0 * u == u;
    } else {
      assert ((w + 1) as real) * u == u;
    }
  }

  /** The display: `'0s'` for a duration that is not positive; otherwise the
      whole seconds, minutes, hours and days by successive floor division. */
  function FormatDuration(ms: real, g: Granularity): string
  {
    if ms <= 0.0 then "0s"
    else
      var seconds := Whole(ms, SecondMs);
      var minutes := seconds / 60;
      var hours := minutes / 60;
      var days := hours / 24;
      if g == InDays && days > 0 then NatToString(days) + ".0 days"
      else if g == InHours && hours > 0 then NatToString(hours) + ".0 hours"
      else if days > 0 then NatToString(days) + "d " + NatToString(hours % 24) + "h"
      else if hours > 0 then NatToString(hours) + "h " + NatToString(minutes % 60) + "m"
      else if minutes > 0 then NatToString(minutes) + "m " + NatToString(seconds % 60) + "s"
      else NatToString(seconds) + "s"
  }

  /** The successive floor divisions count whole minutes, hours and days of `ms`. */
  lemma Units(ms: real)
    requires ms > 0.0
    ensures Whole(ms, SecondMs) / 60 == Whole(ms, MinuteMs)
    ensures Whole(ms, SecondMs) / 60 / 60 == Whole(ms, HourMs)
    ensures Whole(ms, SecondMs) / 60 / 60 / 24 == Whole(ms, DayMs)
  {
    NestedWhole(ms, SecondMs, 60);
    NestedWhole(ms, MinuteMs, 60);
    NestedWhole(ms, HourMs, 24);
  }

  /** The sentinel: a duration shows as "0s" exactly when it is under one
      second (zero and negative durations included), whatever the format. */
  lemma ZeroSentinel(ms: real, g: Granularity)
    ensures FormatDuration(ms, g) == "0s" <==> ms < 1000.0
  {
    if ms > 0.0 {
      var seconds := Whole(ms, SecondMs);
      WholePositive(ms, SecondMs);
      if ms < 1000.0 {
        assert seconds / 60 == 0;
        assert NatToString(seconds) == "0";
      } else {
        NatToStringNoLeadingZero(seconds);
        var r := FormatDuration(ms, g);
        if seconds / 60 == 0 {
          assert r == NatToString(seconds) + "s";
          assert r[0] != '0';
        } else {
          assert |r| >= 5;
        }
      }
    }
  }

  /** From one day up, the short format shows the whole days and the whole
      hours left over, which are fewer than 24. */
  lemma ShortDays(ms: real)
    requires ms >= DayMs as real
    ensures Whole(ms, HourMs) % 24 < 24
    ensures FormatDuration(ms, Short) == NatToString(Whole(ms, DayMs)) + "d " + NatToString(Whole(ms, HourMs) % 24) + "h"
  {
    Units(ms);
    WholePositive(ms, DayMs);
  }

  /** From one hour up to a day, the short format shows whole hours and the
      whole minutes left over. */
  lemma ShortHours(ms: real)
    requires HourMs as real <= ms < DayMs as real
    ensures FormatDuration(ms, Short) == NatToString(Whole(ms, HourMs)) + "h " + NatToString(Whole(ms, MinuteMs) % 60) + "m"
  {
    Units(ms);
    WholePositive(ms, DayMs);
    WholePositive(ms, HourMs);
  }

  /** From one minute up to an hour: whole minutes and the seconds left over. */
  lemma ShortMinutes(ms: real)
    requires MinuteMs as real <= ms < HourMs as real
    ensures FormatDuration(ms, Short) == NatToString(Whole(ms, MinuteMs)) + "m " + NatToString(Whole(ms, SecondMs) % 60) + "s"
  {
    Units(ms);
    WholePositive(ms, DayMs);
    WholePositive(ms, HourMs);
    WholePositive(ms, MinuteMs);
  }

  /** Under a minute: the whole seconds only. */
  lemma ShortSeconds(ms: real)
    requires 0.0 < ms < MinuteMs as real
    ensures FormatDuration(ms, Short) == NatToString(Whole(ms, SecondMs)) + "s"
  {
    Units(ms);
    WholePositive(ms, MinuteMs);
  }

  /** 'days' shows the whole days with one decimal, and falls back to the
      short format under one day. */
  lemma DaysFormat(ms: real)
    ensures ms >= DayMs as real ==> FormatDuration(ms, InDays) == NatToString(Whole(ms, DayMs)) + ".0 days"
    ensures ms < DayMs as real ==> FormatDuration(ms, InDays) == FormatDuration(ms, Short)
  {
    if ms > 0.0 {
      Units(ms);
      WholePositive(ms, DayMs);
    }
  }

  /** 'hours' shows the whole hours with one decimal, and falls back to the
      short format under one hour. */
  lemma HoursFormat(ms: real)
    ensures ms >= HourMs as real ==> FormatDuration(ms, InHours) == NatToString(Whole(ms, HourMs)) + ".0 hours"
    ensures ms < HourMs as real ==> FormatDuration(ms, InHours) == FormatDuration(ms, Short)
  {
    if ms > 0.0 {
      Units(ms);
      WholePositive(ms, HourMs);
    }
  }

  /** One hour, two minutes and three seconds. */
  lemma HourExample()
    ensures FormatDuration(3723000.0, Short) == "1h 2m"
    ensures FormatDuration(3723000.0, InHours) == "1.0 hours"
  {
    WholeUnique(3723000.0, SecondMs, 3723);
    assert NatToString(1) == "1" && NatToString(2) == "2";
  }

  /** Two days in the 'days' format; just under a minute in the short one. */
  lemma DayAndSecondsExample()
    ensures FormatDuration(172800000.0, InDays) == "2.0 days"
    ensures FormatDuration(59999.0, Short) == "59s"
  {
    WholeUnique(172800000.0, SecondMs, 172800);
    WholeUnique(59999.0, SecondMs, 59);
    assert NatToString(2) == "2" && NatToString(59) == "59";
  }
}
