/**
 * Wall-clock times of day in the 24-hour `HH:mm` form the tracker stores,
 * the session duration computed from two of them, and the split of a
 * duration into hours and minutes used for display.
 */
module Clock {
  import opened Text

  const MinutesPerDay: nat := 24 * 60

  /** `s` is two digits, a colon and two digits, naming an hour below 24 and a minute below 60. */
  predicate WellFormedTime(s: string)
  {
    && |s| == 5
    && IsDigit(s[0]) && IsDigit(s[1]) && s[2] == ':' && IsDigit(s[3]) && IsDigit(s[4])
    && DigitValue(s[0]) * 10 + DigitValue(s[1]) < 24
    && DigitValue(s[3]) * 10 + DigitValue(s[4]) < 60
  }

  /** The hour field: `Number` of the text before the colon. */
  function Hours(s: string): (h: nat)
    requires WellFormedTime(s)
    ensures h < 24
  {
    DigitValue(s[0]) * 10 + DigitValue(s[1])
  }

  /** The minute field: `Number` of the text after the colon. */
  function Minutes(s: string): (m: nat)
    requires WellFormedTime(s)
    ensures m < 60
  {
    DigitValue(s[3]) * 10 + DigitValue(s[4])
  }

  /** Minutes since midnight, `hours * 60 + minutes`. */
  function MinutesOfDay(s: string): (m: nat)
    requires WellFormedTime(s)
    ensures m < MinutesPerDay
  {
    Hours(s) * 60 + Minutes(s)
  }

  /** The zero-padded `HH:mm` text of an hour and a minute. */
  function FormatTime(h: nat, m: nat): (s: string)
    requires h < 24 && m < 60
    ensures WellFormedTime(s) && Hours(s) == h && Minutes(s) == m
  {
    [DigitChar(h / 10), DigitChar(h % 10), ':', DigitChar(m / 10), DigitChar(m % 10)]
  }

  /** Formatting the fields of a well-formed time gives back the same text. */
  lemma FormatParsed(s: string)
    requires WellFormedTime(s)
    ensures FormatTime(Hours(s), Minutes(s)) == s
  {
    var f := FormatTime(Hours(s), Minutes(s));
    assert f[0] == s[0] && f[1] == s[1] && f[3] == s[3] && f[4] == s[4];
  }

  /** Every minute of the day has exactly one well-formed text. */
  lemma MinutesOfDayInjective(s: string, t: string)
    requires WellFormedTime(s) && WellFormedTime(t)
    requires MinutesOfDay(s) == MinutesOfDay(t)
    ensures s == t
  {
    FormatParsed(s);
    FormatParsed(t);
  }

  /**
   * The duration of a session in minutes: check-out minus check-in, plus one
   * day when the difference is negative (the session ran past midnight).
   * It is the number of minutes one moves forward on the clock face to go
   * from the check-in time to the check-out time.
   */
  function Duration(checkIn: string, checkOut: string): (d: int)
    requires WellFormedTime(checkIn) && WellFormedTime(checkOut)
    ensures 0 <= d < MinutesPerDay
    ensures (MinutesOfDay(checkIn) + d) % MinutesPerDay == MinutesOfDay(checkOut)
  {
    var diff := MinutesOfDay(checkOut) - MinutesOfDay(checkIn);
    if diff < 0 then diff + MinutesPerDay else diff
  }

  /** No other duration within one day takes the check-in time to the check-out time. */
  lemma DurationUnique(checkIn: string, checkOut: string, d: int)
    requires WellFormedTime(checkIn) && WellFormedTime(checkOut)
    requires 0 <= d < MinutesPerDay
    requires (MinutesOfDay(checkIn) + d) % MinutesPerDay == MinutesOfDay(checkOut)
    ensures d == Duration(checkIn, checkOut)
  {
    var a := MinutesOfDay(checkIn);
    var e := Duration(checkIn, checkOut);
    assert a + d < 2 * MinutesPerDay && a + e < 2 * MinutesPerDay;
    if a + d < MinutesPerDay {
      assert (a + d) % MinutesPerDay == a + d;
    } else {
      assert (a + d) % MinutesPerDay == a + d - MinutesPerDay;
    }
    if a + e < MinutesPerDay {
      assert (a + e) % MinutesPerDay == a + e;
    } else {
      assert (a + e) % MinutesPerDay == a + e - MinutesPerDay;
    }
  }

  /** A session within the day, 09:00 to 10:30, and one across midnight, 23:30 to 00:15. */
  lemma DurationExamples()
    ensures Duration("09:00", "10:30") == 90
    ensures Duration("23:30", "00:15") == 45
  {
    assert WellFormedTime("09:00") && MinutesOfDay("09:00") == 540;
    assert WellFormedTime("10:30") && MinutesOfDay("10:30") == 630;
    assert WellFormedTime("23:30") && MinutesOfDay("23:30") == 1410;
    assert WellFormedTime("00:15") && MinutesOfDay("00:15") == 15;
  }

  /**
   * `[Math.floor(d / 60), d % 60]` with JavaScript's `%`, whose remainder
   * takes the sign of the dividend.
   */
  function HoursMinutes(d: int): (hm: (int, int))
    ensures d >= 0 ==> hm.0 >= 0 && 0 <= hm.1 < 60 && hm.0 * 60 + hm.1 == d
    ensures d < 0 ==> hm.0 < 0 && -60 < hm.1 <= 0
  {
    (d / 60, if d >= 0 then d % 60 else -((-d) % 60))
  }
}
