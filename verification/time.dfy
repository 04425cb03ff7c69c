/** Times of day as the form stores them: the text of an `<input type="time">`,
    "HH:MM" on a 24-hour clock, and the numeric key the day sorter derives from it
    (`timeToNumber` in src/components/CalendarDay.tsx and its copy in
    src/components/Calendar.tsx). */
module Time {

  predicate IsDigit(c: char) {
    '0' <= c <= '9'
  }

  function DigitValue(c: char): (v: nat)
    requires IsDigit(c)
    ensures v <= 9
  {
    (c - '0') as nat
  }

  function DigitChar(v: nat): (c: char)
    requires v <= 9
    ensures IsDigit(c) && DigitValue(c) == v
  {
    ('0' as int + v) as char
  }

  /** A valid "HH:MM" time string, the value a time input yields at minute precision. */
  predicate IsTimeString(s: string) {
    && |s| == 5
    && IsDigit(s[0]) && IsDigit(s[1]) && s[2] == ':' && IsDigit(s[3]) && IsDigit(s[4])
    && DigitValue(s[0]) * 10 + DigitValue(s[1]) <= 23
    && DigitValue(s[3]) * 10 + DigitValue(s[4]) <= 59
  }

  function Hour(s: string): (h: nat)
    requires IsTimeString(s)
    ensures h <= 23
  {
    DigitValue(s[0]) * 10 + DigitValue(s[1])
  }

  function Minute(s: string): (m: nat)
    requires IsTimeString(s)
    ensures m <= 59
  {
    DigitValue(s[3]) * 10 + DigitValue(s[4])
  }

  /** Minutes since midnight: the reference order on times of day. */
  function MinutesSinceMidnight(s: string): (m: nat)
    requires IsTimeString(s)
    ensures m < 24 * 60
  {
    Hour(s) * 60 + Minute(s)
  }

  /** `parseFloat(time.replace(":", "."))`: "HH:MM" read as the decimal HH.MM.
      The value is exact; rounding to a binary64 double is not modelled. */
  function ParseFloatValue(s: string): (v: real)
    requires IsTimeString(s)
  {
    Hour(s) as real + (Minute(s) as real) / 100.0
  }

  /** The integer key used in place of the float: HH*100+MM, which is the
      float value scaled by 100, so differences keep their sign. */
  function TimeToNumber(s: string): (n: nat)
    requires IsTimeString(s)
    ensures n < 2400
  {
    Hour(s) * 100 + Minute(s)
  }

  /** The key reads back as the time: its hundreds are the hour and the rest
      are the minutes, as in the decimal "HH.MM". */
  lemma TimeToNumberDigits(s: string)
    requires IsTimeString(s)
    ensures TimeToNumber(s) / 100 == Hour(s) && TimeToNumber(s) % 100 == Minute(s)
  {
  }

  /** The integer key is the float value scaled by 100, so a difference of keys
      has the sign of the difference of the parsed values. */
  lemma TimeToNumberScalesParseFloat(a: string, b: string)
    requires IsTimeString(a) && IsTimeString(b)
    ensures TimeToNumber(a) as real == 100.0 * ParseFloatValue(a)
    ensures TimeToNumber(a) < TimeToNumber(b) <==> ParseFloatValue(a) < ParseFloatValue(b)
    ensures TimeToNumber(a) == TimeToNumber(b) <==> ParseFloatValue(a) == ParseFloatValue(b)
  {
  }

  /** Renders an hour and minute as "HH:MM", zero-padded. */
  function FormatTime(h: nat, m: nat): (s: string)
    requires h <= 23 && m <= 59
    ensures IsTimeString(s)
    ensures Hour(s) == h && Minute(s) == m
  {
    [DigitChar(h / 10), DigitChar(h % 10), ':', DigitChar(m / 10), DigitChar(m % 10)]
  }

  /** Reading a well-formed time and writing it back gives the same text. */
  lemma FormatParsed(s: string)
    requires IsTimeString(s)
    ensures FormatTime(Hour(s), Minute(s)) == s
  {
    var t := FormatTime(Hour(s), Minute(s));
    assert Hour(s) / 10 == DigitValue(s[0]) && Hour(s) % 10 == DigitValue(s[1]);
    assert Minute(s) / 10 == DigitValue(s[3]) && Minute(s) % 10 == DigitValue(s[4]);
    assert DigitChar(DigitValue(s[0])) == s[0];
    assert DigitChar(DigitValue(s[1])) == s[1];
    assert DigitChar(DigitValue(s[3])) == s[3];
    assert DigitChar(DigitValue(s[4])) == s[4];
  }

  /** The HH*100+MM encoding orders times exactly as minutes since midnight do,
      so comparing the keys is comparing the times. */
  lemma TimeToNumberOrder(a: string, b: string)
    requires IsTimeString(a) && IsTimeString(b)
    ensures TimeToNumber(a) < TimeToNumber(b) <==> MinutesSinceMidnight(a) < MinutesSinceMidnight(b)
    ensures TimeToNumber(a) == TimeToNumber(b) <==> MinutesSinceMidnight(a) == MinutesSinceMidnight(b)
  {
    var ha, ma, hb, mb := Hour(a), Minute(a), Hour(b), Minute(b);
    if ha < hb {
      assert ha * 100 + ma < hb * 100 + mb;
      assert ha * 60 + ma < hb * 60 + mb;
    } else if ha > hb {
      assert ha * 100 + ma > hb * 100 + mb;
      assert ha * 60 + ma > hb * 60 + mb;
    }
  }

  /** Equal keys only for equal texts: the key loses no information. */
  lemma TimeToNumberInjective(a: string, b: string)
    requires IsTimeString(a) && IsTimeString(b)
    requires TimeToNumber(a) == TimeToNumber(b)
    ensures a == b
  {
    TimeToNumberDigits(a);
    TimeToNumberDigits(b);
    FormatParsed(a);
    FormatParsed(b);
  }
}
