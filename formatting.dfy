/**
 * The text the watch face draws: the two-digit fields of the clock and date
 * lines (`parseTwoDigit`), the left-padding of the binary rows to six
 * characters (`toSixBits`), and the composed "HH:MM:SS" and "DD/MM/YYYY"
 * lines. Each numeral is read back with `DigitsValue` to state what it shows.
 */
module Formatting {
  import opened JavaLang

  /** The two console lines shown verbatim above the time and the date. */
  const TimeCommand: string := "root@watch:~$ date +%T"
  const DateCommand: string := "root@watch:~$ date +%x"

  /** Width of each binary row. */
  const BinaryWidth: nat := 6

  /** `parseTwoDigit`: the decimal of `time`, with a "0" put in front when
      `time` is below 10. */
  function ParseTwoDigit(time: int): string {
    if time >= 10 then IntToString(time) else "0" + IntToString(time)
  }

  /** A string of `k` zero characters. */
  function Zeros(k: nat): (z: string)
    ensures |z| == k
    ensures forall i :: 0 <= i < k ==> z[i] == '0'
  {
    seq(k, _ => '0')
  }

  /** `s` left-padded with '0' up to `width` characters; a string that is
      already that long is kept as it is. */
  function ZeroPadded(s: string, width: nat): (r: string)
    ensures |r| == if |s| >= width then |s| else width
    ensures r[|r| - |s|..] == s
    ensures forall i :: 0 <= i < |r| - |s| ==> r[i] == '0'
    ensures |s| >= width ==> r == s
  {
    if |s| >= width then s else Zeros(width - |s|) + s
  }

  /** `toSixBits`: prepend "0" while fewer than six characters are there. */
  method ToSixBits(s: string) returns (r: string)
    ensures r == ZeroPadded(s, BinaryWidth)
  {
    var m0 := BinaryWidth as int - |s|;
    var missing := m0;
    r := s;
    while missing > 0
      invariant missing <= m0
      invariant missing >= 0 || missing == m0
      invariant r == Zeros(m0 - missing) + s
    {
      PrependZero(m0 - missing, s);
      r := "0" + r;
      missing := missing - 1;
    }
  }

  lemma PrependZero(k: nat, s: string)
    ensures "0" + (Zeros(k) + s) == Zeros(k + 1) + s
  {
    var a, b := "0" + (Zeros(k) + s), Zeros(k + 1) + s;
    assert |a| == |b|;
    forall i | 0 <= i < |a|
      ensures a[i] == b[i]
    {
      if i <= k {
        assert a[i] == '0' && b[i] == '0';
      } else {
        assert a[i] == s[i - k - 1] == b[i];
      }
    }
  }

  /** The time line, "HH:MM:SS". */
  function TimeLine(hours: int, minutes: int, seconds: int): string {
    ParseTwoDigit(hours) + ":" + ParseTwoDigit(minutes) + ":" + ParseTwoDigit(seconds)
  }

  /** The date line, "DD/MM/" followed by the year as `Integer.toString` gives it. */
  function DateLine(day: int, month: int, year: int): string {
    ParseTwoDigit(day) + "/" + ParseTwoDigit(month) + "/" + IntToString(year)
  }

  /** A two-digit field: exactly two decimal digits, reading back as `v`;
      for v >= 10 the plain decimal of `v`, below 10 a "0" and its one digit. */
  lemma ParseTwoDigitCorrect(v: int)
    requires 0 <= v <= 99
    ensures |ParseTwoDigit(v)| == 2
    ensures AllDigits(ParseTwoDigit(v), 10)
    ensures DigitsValue(ParseTwoDigit(v), 10) == v
    ensures v >= 10 ==> ParseTwoDigit(v) == DigitString(v, 10)
    ensures v < 10 ==> ParseTwoDigit(v) == "0" + DigitString(v, 10)
  {
    DigitStringRoundTrip(v, 10);
    DigitStringLength(v, 10, 2);
    assert Pow(10, 2) == 100;
    if v < 10 {
      assert DigitString(v, 10) == [DigitChar(v)];
      LeadingZeros("0", DigitString(v, 10), 10);
    } else {
      DigitStringLength(v, 10, 1);
    }
  }

  /** The formatter does not truncate: from 100 on it is the full decimal,
      longer than two characters, still reading back as `v`. */
  lemma ParseTwoDigitWide(v: int)
    requires v >= 100
    ensures ParseTwoDigit(v) == DigitString(v, 10)
    ensures |ParseTwoDigit(v)| > 2
    ensures DigitsValue(ParseTwoDigit(v), 10) == v
  {
    DigitStringRoundTrip(v, 10);
    DigitStringLength(v, 10, 2);
    assert Pow(10, 2) == 100;
  }

  /** A binary row `toSixBits(Integer.toBinaryString(v))` is a base-2
      numeral of `v` (of v + 2^32 for a negative `v`), and it is exactly six
      characters wide precisely when 0 <= v < 64. */
  lemma SixBitsRow(v: int)
    requires IsInt32(v)
    ensures AllDigits(ZeroPadded(ToBinaryString(v), BinaryWidth), 2)
    ensures DigitsValue(ZeroPadded(ToBinaryString(v), BinaryWidth), 2) == v % TwoTo32
    ensures |ZeroPadded(ToBinaryString(v), BinaryWidth)| == 6 <==> 0 <= v < 64
  {
    var b := ToBinaryString(v);
    BinaryStringValue(v);
    if |b| < BinaryWidth {
      var z := Zeros(BinaryWidth - |b|);
      assert ZeroPadded(b, BinaryWidth) == z + b;
      LeadingZeros(z, b, 2);
    }
    if v >= 0 {
      DigitStringLength(v, 2, 6);
      assert Pow(2, 6) == 64;
    }
  }

  /** The time line is eight characters, ':' at indices 2 and 5, and every
      field reads back as the value it was built from. */
  lemma TimeLineLayout(hours: int, minutes: int, seconds: int)
    requires 0 <= hours <= 99 && 0 <= minutes <= 99 && 0 <= seconds <= 99
    ensures |TimeLine(hours, minutes, seconds)| == 8
    ensures TimeLine(hours, minutes, seconds)[2] == ':' && TimeLine(hours, minutes, seconds)[5] == ':'
    ensures AllDigits(TimeLine(hours, minutes, seconds)[0..2], 10)
    ensures AllDigits(TimeLine(hours, minutes, seconds)[3..5], 10)
    ensures AllDigits(TimeLine(hours, minutes, seconds)[6..8], 10)
    ensures DigitsValue(TimeLine(hours, minutes, seconds)[0..2], 10) == hours
    ensures DigitsValue(TimeLine(hours, minutes, seconds)[3..5], 10) == minutes
    ensures DigitsValue(TimeLine(hours, minutes, seconds)[6..8], 10) == seconds
  {
    var hh, mm, ss := ParseTwoDigit(hours), ParseTwoDigit(minutes), ParseTwoDigit(seconds);
    ParseTwoDigitCorrect(hours);
    ParseTwoDigitCorrect(minutes);
    ParseTwoDigitCorrect(seconds);
    var line := hh + ":" + mm + ":" + ss;
    assert TimeLine(hours, minutes, seconds) == line;
    assert line[0..2] == hh;
    assert line[3..5] == mm;
    assert line[6..8] == ss;
  }

  /** The date line has '/' at indices 2 and 5, its day and month fields read
      back as `day` and `month`, and the rest is `Integer.toString(year)`; for a
      four-digit year the line is ten characters long. */
  lemma DateLineLayout(day: int, month: int, year: int)
    requires 0 <= day <= 99 && 0 <= month <= 99 && year >= 0
    ensures DateLine(day, month, year)[2] == '/' && DateLine(day, month, year)[5] == '/'
    ensures AllDigits(DateLine(day, month, year)[0..2], 10)
    ensures AllDigits(DateLine(day, month, year)[3..5], 10)
    ensures AllDigits(DateLine(day, month, year)[6..], 10)
    ensures DigitsValue(DateLine(day, month, year)[0..2], 10) == day
    ensures DigitsValue(DateLine(day, month, year)[3..5], 10) == month
    ensures DigitsValue(DateLine(day, month, year)[6..], 10) == year
    ensures |DateLine(day, month, year)| >= 6 && DateLine(day, month, year)[6..] == IntToString(year)
    ensures |DateLine(day, month, year)| == 10 <==> 1000 <= year <= 9999
  {
    var dd, mm, yy := ParseTwoDigit(day), ParseTwoDigit(month), DigitString(year, 10);
    ParseTwoDigitCorrect(day);
    ParseTwoDigitCorrect(month);
    DigitStringRoundTrip(year, 10);
    var line := dd + "/" + mm + "/" + yy;
    assert DateLine(day, month, year) == line;
    assert |line| == 6 + |yy|;
    assert line[0..2] == dd;
    assert line[3..5] == mm;
    assert line[6..] == yy;
    assert |yy| == 4 <==> 1000 <= year <= 9999 by {
      DigitStringLength(year, 10, 4);
      DigitStringLength(year, 10, 3);
      assert Pow(10, 3) == 1000;
      assert Pow(10, 4) == 10000;
    }
  }
}
