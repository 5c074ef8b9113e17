/** The default countdown formatter `defaultFormatTime`: a millisecond count
    rendered as `MM:SS.cc`, or `HH:MM:SS.cc` once there is at least one hour,
    every field padded with '0' to two characters and never truncated. */
module TimeFormat {

  // ---------------------------------------------------------------------
  // Decimal digits: Number.prototype.toString() on a non-negative integer
  // ---------------------------------------------------------------------

  predicate IsDigit(c: char) {
    '0' <= c <= '9'
  }

  predicate AllDigits(s: string) {
    forall i :: 0 <= i < |s| ==> IsDigit(s[i])
  }

  function DigitValue(c: char): nat
    requires IsDigit(c)
  {
    c as int - '0' as int
  }

  function DigitChar(d: nat): (c: char)
    requires d < 10
    ensures IsDigit(c) && DigitValue(c) == d
  {
    ('0' as int + d) as char
  }

  /** The number a string of decimal digits denotes, most significant digit first. */
  function DigitsValue(s: string): nat
    requires AllDigits(s)
    decreases |s|
  {
    if s == [] then 0 else DigitsValue(s[..|s| - 1]) * 10 + DigitValue(s[|s| - 1])
  }

  /** `n.toString()`: the shortest decimal numeral of `n`, read back as `n`. */
  function NatToString(n: nat): (s: string)
    decreases n
    ensures AllDigits(s) && DigitsValue(s) == n
    ensures 1 <= |s|
    ensures |s| == 1 <==> n < 10
    ensures |s| <= 2 <==> n < 100
    ensures s[0] == '0' ==> n == 0
  {
    if n < 10 then
      [DigitChar(n)]
    else
      var s := NatToString(n / 10) + [DigitChar(n % 10)];
      assert s[..|s| - 1] == NatToString(n / 10);
      s
  }

  // ---------------------------------------------------------------------
  // String.prototype.padStart(width, fill) with a one-character fill
  // ---------------------------------------------------------------------

  /** Prefixes copies of `fill` until the string has `width` characters;
      a string already that long is returned unchanged (never truncated). */
  function PadStart(s: string, width: nat, fill: char): (r: string)
    ensures |r| == if |s| >= width then |s| else width
    ensures r[|r| - |s|..] == s
    ensures forall i :: 0 <= i < |r| - |s| ==> r[i] == fill
  {
    if |s| >= width then s else seq(width - |s|, _ => fill) + s
  }

  /** Leading zeros do not change the value of a numeral. */
  lemma {:induction false} LeadingZerosValue(z: string, s: string)
    requires forall i :: 0 <= i < |z| ==> z[i] == '0'
    requires AllDigits(s)
    ensures AllDigits(z + s) && DigitsValue(z + s) == DigitsValue(s)
    decreases |s|, |z|
  {
    if s == [] {
      assert z + s == z;
      if z != [] {
        LeadingZerosValue(z[..|z| - 1], []);
        assert z[..|z| - 1] + [] == z[..|z| - 1];
      }
    } else {
      var zs := z + s;
      assert zs[..|zs| - 1] == z + s[..|s| - 1];
      LeadingZerosValue(z, s[..|s| - 1]);
    }
  }

  /** `n.toString().padStart(2, '0')`: two digits below 100, all of them above. */
  function Pad2(n: nat): (r: string)
    ensures AllDigits(r) && DigitsValue(r) == n
    ensures |r| == if n < 100 then 2 else |NatToString(n)|
    ensures 2 <= |r|
  {
    var s := NatToString(n);
    var r := PadStart(s, 2, '0');
    LeadingZerosValue(r[..|r| - |s|], s);
    assert r[..|r| - |s|] + s == r;
    r
  }

  // ---------------------------------------------------------------------
  // defaultFormatTime
  // ---------------------------------------------------------------------

  /** The four numeric fields of a rendered time. */
  datatype Fields = Fields(hours: nat, minutes: nat, seconds: nat, centis: nat)

  /** The millisecond value the fields stand for. */
  function FieldsMs(f: Fields): nat {
    f.hours * 3600000 + f.minutes * 60000 + f.seconds * 1000 + f.centis * 10
  }

  /** Floor division of `ms` into hours, minutes, seconds and centiseconds. */
  function Split(ms: nat): (f: Fields)
    ensures f.minutes < 60 && f.seconds < 60 && f.centis < 100
  {
    var totalSeconds := ms / 1000;
    var hours := totalSeconds / 3600;
    var minutes := (totalSeconds % 3600) / 60;
    var seconds := totalSeconds % 60;
    var centis := (ms % 1000) / 10;
    Fields(hours, minutes, seconds, centis)
  }

  /** The fields add up to the input less its last digit, the centiseconds are
      truncated (not rounded) from the sub-second milliseconds, and the hour
      field is the number of whole hours. */
  lemma SplitValue(ms: nat)
    ensures var f := Split(ms);
      && FieldsMs(f) == ms - ms % 10
      && f.centis * 10 <= ms % 1000 < f.centis * 10 + 10
      && f.hours == ms / 3600000
      && (f.hours == 0 <==> ms < 3600000)
  {
    var t := ms / 1000;
    var h := t / 3600;
    var minutes := (t % 3600) / 60;
    var seconds := t % 60;
    var centis := (ms % 1000) / 10;
    assert t % 3600 == minutes * 60 + seconds;
    assert t == h * 3600 + minutes * 60 + seconds;
    assert ms == t * 1000 + ms % 1000;
    assert ms % 1000 == centis * 10 + ms % 10;
    assert ms == h * 3600000 + ((t % 3600) * 1000 + ms % 1000);
    assert 0 <= (t % 3600) * 1000 + ms % 1000 < 3600000;
  }

  /** The `MM:SS.cc` part of the display, common to both forms. */
  function ClockPart(f: Fields): string {
    Pad2(f.minutes) + ":" + Pad2(f.seconds) + "." + Pad2(f.centis)
  }

  /** The display string of the fields: hours are shown only when non-zero. */
  function Render(f: Fields): string {
    if f.hours > 0 then Pad2(f.hours) + ":" + ClockPart(f) else ClockPart(f)
  }

  /** `defaultFormatTime(ms)`, on a non-negative whole number of milliseconds. */
  function DefaultFormatTime(ms: nat): string {
    Render(Split(ms))
  }

  /** Where the separators and fields sit in `M:S.C` when all three are two wide. */
  lemma ClockLayout(m: string, sec: string, c: string)
    requires |m| == 2 && |sec| == 2 && |c| == 2
    ensures var t := m + ":" + sec + "." + c;
      |t| == 8 && t[..2] == m && t[2] == ':' && t[3..5] == sec && t[5] == '.' && t[6..] == c
  {
  }

  /** Where the hour field and the clock part sit in `H:MMSS`. */
  lemma HoursLayout(h: string, t: string)
    requires |t| == 8
    ensures var r := h + ":" + t;
      |r| == |h| + 9 && r[..|h|] == h && r[|h|] == ':' && r[|h| + 1..] == t
  {
  }

  /** `MM:SS.cc`: eight characters, ':' at index 2, '.' at index 5, digits elsewhere. */
  predicate ShortForm(r: string) {
    |r| == 8 && r[2] == ':' && r[5] == '.' &&
    AllDigits(r[..2]) && AllDigits(r[3..5]) && AllDigits(r[6..])
  }

  /** `H:MM:SS.cc`: a numeral denoting `h`, a ':', then the short form. */
  predicate LongForm(r: string, h: nat) {
    |r| >= 9 && r[|r| - 9] == ':' && ShortForm(r[|r| - 8..]) &&
    AllDigits(r[..|r| - 9]) && DigitsValue(r[..|r| - 9]) == h
  }

  lemma ClockPartShape(f: Fields)
    requires f.minutes < 100 && f.seconds < 100 && f.centis < 100
    ensures ShortForm(ClockPart(f))
  {
    ClockLayout(Pad2(f.minutes), Pad2(f.seconds), Pad2(f.centis));
  }

  /** A numeral, a ':' and a short form make a long form. */
  lemma LongLayout(hh: string, t: string)
    requires AllDigits(hh) && ShortForm(t)
    ensures |hh + ":" + t| == |hh| + 9
    ensures LongForm(hh + ":" + t, DigitsValue(hh))
  {
    var r := hh + ":" + t;
    HoursLayout(hh, t);
    assert r[|r| - 8..] == t;
    assert r[..|r| - 9] == hh;
  }

  /** The long form, for any fields with a non-zero hour. */
  lemma RenderLong(f: Fields)
    requires f.hours > 0 && f.minutes < 100 && f.seconds < 100 && f.centis < 100
    ensures |Render(f)| == 9 + |Pad2(f.hours)|
    ensures LongForm(Render(f), f.hours)
  {
    ClockPartShape(f);
    LongLayout(Pad2(f.hours), ClockPart(f));
  }

  /** Below one hour the output is `MM:SS.cc`; from one hour on it is
      `HH:MM:SS.cc` whose hour field reads back as the whole hours and is two
      digits wide below 100 hours and as wide as the hours need from there. */
  lemma FormatShape(ms: nat)
    ensures ms < 3600000 ==> ShortForm(DefaultFormatTime(ms))
    ensures ms >= 3600000 ==> LongForm(DefaultFormatTime(ms), ms / 3600000)
    ensures var h := ms / 3600000;
      ms >= 3600000 ==> |DefaultFormatTime(ms)| == 9 + (if h < 100 then 2 else |NatToString(h)|)
  {
    var f := Split(ms);
    SplitValue(ms);
    if ms < 3600000 {
      ClockPartShape(f);
    } else {
      RenderLong(f);
    }
  }

  lemma Pad2Small(n: nat)
    requires n < 10
    ensures Pad2(n) == ['0', DigitChar(n)]
  {
    assert NatToString(n) == [DigitChar(n)];
  }

  /** The worked values: zero and one hour, one minute and one second. */
  lemma FormatExamples()
    ensures DefaultFormatTime(0) == "00:00.00"
    ensures DefaultFormatTime(3661000) == "01:01:01.00"
  {
    Pad2Small(0);
    Pad2Small(1);
    assert DigitChar(0) == '0' && DigitChar(1) == '1';
    assert Pad2(0) == "00" && Pad2(1) == "01";
    assert Split(0) == Fields(0, 0, 0, 0);
    assert DefaultFormatTime(0) == Pad2(0) + ":" + Pad2(0) + "." + Pad2(0);
    assert Split(3661000) == Fields(1, 1, 1, 0);
    assert DefaultFormatTime(3661000) == Pad2(1) + ":" + (Pad2(1) + ":" + Pad2(1) + "." + Pad2(0));
  }
}
