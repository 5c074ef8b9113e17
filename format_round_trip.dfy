/** The inverse of the default formatter: a reader for `MM:SS.cc` and
    `HH:MM:SS.cc`, and the proof that it recovers what was formatted. */
module FormatRoundTrip {
  import opened Options
  import opened TimeFormat

  /** Reads `MM:SS.cc` (hours zero). */
  function ParseClock(t: string): Option<Fields>
    requires |t| == 8
  {
    if t[2] == ':' && t[5] == '.' && AllDigits(t[..2]) && AllDigits(t[3..5]) && AllDigits(t[6..])
    then Some(Fields(0, DigitsValue(t[..2]), DigitsValue(t[3..5]), DigitsValue(t[6..])))
    else None
  }

  /** A clock part read back, with the hour field read in front of it. */
  function WithHours(clock: Option<Fields>, hours: nat): Option<Fields> {
    match clock
    case None => None
    case Some(f) => Some(f.(hours := hours))
  }

  /** Reads a rendered time back: `MM:SS.cc` (exactly 8 characters) or
      `H..H:MM:SS.cc` (at least 11, the hour field taking all that precedes
      the last 9 characters). */
  function ParseTime(r: string): Option<Fields> {
    if |r| == 8 then
      ParseClock(r)
    else if |r| >= 11 && r[|r| - 9] == ':' && AllDigits(r[..|r| - 9]) then
      WithHours(ParseClock(r[|r| - 8..]), DigitsValue(r[..|r| - 9]))
    else
      None
  }

  lemma ParseClockPart(f: Fields)
    requires f.minutes < 100 && f.seconds < 100 && f.centis < 100
    ensures ParseClock(ClockPart(f)) == Some(f.(hours := 0))
  {
    ClockLayout(Pad2(f.minutes), Pad2(f.seconds), Pad2(f.centis));
  }

  lemma ParseTimeLong(r: string)
    requires |r| >= 11 && r[|r| - 9] == ':' && AllDigits(r[..|r| - 9])
    ensures ParseTime(r) == WithHours(ParseClock(r[|r| - 8..]), DigitsValue(r[..|r| - 9]))
  {
  }

  lemma ParseWithHours(h: string, t: string)
    requires |h| >= 2 && AllDigits(h) && |t| == 8 && ParseClock(t).Some?
    ensures ParseTime(h + ":" + t) == Some(ParseClock(t).value.(hours := DigitsValue(h)))
  {
    var r := h + ":" + t;
    HoursLayout(h, t);
    assert r[|r| - 8..] == t;
    assert r[..|r| - 9] == h;
    ParseTimeLong(r);
  }

  lemma ParseRenderShort(f: Fields)
    requires f.hours == 0 && f.minutes < 100 && f.seconds < 100 && f.centis < 100
    ensures ParseTime(Render(f)) == Some(f)
  {
    ParseClockPart(f);
    ClockLayout(Pad2(f.minutes), Pad2(f.seconds), Pad2(f.centis));
  }

  lemma ParseRenderLong(f: Fields)
    requires f.hours > 0 && f.minutes < 100 && f.seconds < 100 && f.centis < 100
    ensures ParseTime(Render(f)) == Some(f)
  {
    ParseClockPart(f);
    ClockLayout(Pad2(f.minutes), Pad2(f.seconds), Pad2(f.centis));
    ParseWithHours(Pad2(f.hours), ClockPart(f));
  }

  /** Reading the output back gives the fields it was made from. */
  lemma ParseRender(f: Fields)
    requires f.minutes < 100 && f.seconds < 100 && f.centis < 100
    ensures ParseTime(Render(f)) == Some(f)
  {
    if f.hours > 0 {
      ParseRenderLong(f);
    } else {
      ParseRenderShort(f);
    }
  }

  /** The round trip of the formatter: parsing its output recovers the input
      truncated to whole centiseconds, each field in range. */
  lemma ParseFormatTime(ms: nat)
    ensures ParseTime(DefaultFormatTime(ms)).Some?
    ensures var f := ParseTime(DefaultFormatTime(ms)).value;
      f.minutes < 60 && f.seconds < 60 && f.centis < 100 &&
      FieldsMs(f) == ms - ms % 10
  {
    ParseRender(Split(ms));
    SplitValue(ms);
  }
}
