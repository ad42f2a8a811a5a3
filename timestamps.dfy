/** The watermark: a calendar timestamp, the fixed "dd-MMM-yyyy HH:mm:ss"
    text form the sentinel file holds, and ReadLastImportDate's fallback to
    DateTime.MinValue (Program.cs:87-103, 159). */
module Timestamps {
  import opened Common

  /** A DateTime value: the calendar fields plus the sub-second part in
      100-nanosecond ticks. Second precision is all the sentinel text keeps. */
  datatype DateTime = DateTime(year: int, month: int, day: int,
                               hour: int, minute: int, second: int, fraction: int)

  const TicksPerSecond: int := 10_000_000

  predicate IsLeapYear(y: int) {
    y % 4 == 0 && (y % 100 != 0 || y % 400 == 0)
  }

  function DaysInMonth(y: int, m: int): int
    requires 1 <= m <= 12
  {
    if m == 2 then (if IsLeapYear(y) then 29 else 28)
    else if m == 4 || m == 6 || m == 9 || m == 11 then 30
    else 31
  }

  /** The values a DateTime can hold: years 1 to 9999 of the Gregorian calendar. */
  predicate Valid(t: DateTime) {
    1 <= t.year <= 9999 && 1 <= t.month <= 12 && 1 <= t.day <= DaysInMonth(t.year, t.month) &&
    0 <= t.hour < 24 && 0 <= t.minute < 60 && 0 <= t.second < 60 &&
    0 <= t.fraction < TicksPerSecond
  }

  /** DateTime.MinValue, the initial watermark (Program.cs:9). */
  const MinValue: DateTime := DateTime(1, 1, 1, 0, 0, 0, 0)

  /** `a < b` on DateTime: the fields compared from the year down. */
  predicate Before(a: DateTime, b: DateTime) {
    if a.year != b.year then a.year < b.year
    else if a.month != b.month then a.month < b.month
    else if a.day != b.day then a.day < b.day
    else if a.hour != b.hour then a.hour < b.hour
    else if a.minute != b.minute then a.minute < b.minute
    else if a.second != b.second then a.second < b.second
    else a.fraction < b.fraction
  }

  /** No valid timestamp lies before MinValue, and every other one lies after it:
      a file last accessed at exactly MinValue is the only one the default
      watermark excludes. */
  lemma MinValueIsLeast(t: DateTime)
    requires Valid(t)
    ensures Valid(MinValue)
    ensures !Before(t, MinValue)
    ensures t != MinValue ==> Before(MinValue, t)
  {
  }

  lemma BeforeTransitive(a: DateTime, b: DateTime, c: DateTime)
    requires Before(a, b) && Before(b, c)
    ensures Before(a, c)
  {
  }

  /** The instant with its sub-second part dropped. */
  function Truncate(t: DateTime): (r: DateTime)
    requires Valid(t)
    ensures Valid(r) && r.fraction == 0
    ensures !Before(t, r)
    ensures forall u :: Valid(u) && u.fraction == 0 && !Before(t, u) ==> !Before(r, u)
  {
    t.(fraction := 0)
  }

  // ---------------------------------------------------------------------
  // Text form "dd-MMM-yyyy HH:mm:ss"

  /** The culture-dependent parts of the custom format: the abbreviated month
      names that "MMM" stands for, and the time separator that ":" stands for. */
  datatype Culture = Culture(monthAbbreviations: seq<string>, timeSeparator: string)

  predicate WellFormedCulture(c: Culture) {
    |c.monthAbbreviations| == 12
  }

  /** CultureInfo.InvariantCulture, which the parser uses (Program.cs:96). */
  const Invariant: Culture :=
    Culture(["Jan", "Feb", "Mar", "Apr", "May", "Jun", "Jul", "Aug", "Sep", "Oct", "Nov", "Dec"], ":")

  predicate IsDigit(c: char) {
    '0' as int <= c as int <= '9' as int
  }

  function Digit(n: int): (c: char)
    requires 0 <= n <= 9
    ensures IsDigit(c) && c as int - '0' as int == n
  {
    (n + '0' as int) as char
  }

  function Pad2(n: int): (s: string)
    requires 0 <= n < 100
    ensures |s| == 2 && forall i :: 0 <= i < 2 ==> IsDigit(s[i])
  {
    [Digit(n / 10), Digit(n % 10)]
  }

  function Pad4(n: int): (s: string)
    requires 0 <= n < 10000
    ensures |s| == 4 && forall i :: 0 <= i < 4 ==> IsDigit(s[i])
  {
    [Digit(n / 1000), Digit(n / 100 % 10), Digit(n / 10 % 10), Digit(n % 10)]
  }

  /** The number a run of decimal digits spells. */
  function DigitsValue(s: string): (n: nat)
    requires AllDigits(s)
  {
    if s == [] then 0
    else
      assert IsDigit(s[|s| - 1]);
      DigitsValue(s[..|s| - 1]) * 10 + (s[|s| - 1] as int - '0' as int)
  }

  /** The value of a single digit character. */
  function DigitValue(c: char): int {
    c as int - '0' as int
  }

  lemma {:induction false} DigitsValue2(s: string)
    requires |s| == 2 && AllDigits(s)
    ensures DigitsValue(s) == DigitValue(s[0]) * 10 + DigitValue(s[1])
  {
    assert s[..1][..0] == [] && s[..1][0] == s[0];
    assert DigitsValue(s[..1]) == DigitValue(s[0]);
  }

  lemma {:induction false} DigitsValue4(s: string)
    requires |s| == 4 && AllDigits(s)
    ensures DigitsValue(s) ==
              ((DigitValue(s[0]) * 10 + DigitValue(s[1])) * 10 + DigitValue(s[2])) * 10 + DigitValue(s[3])
  {
    assert s[..3][..2] == s[..2];
    assert AllDigits(s[..3]) && AllDigits(s[..2]);
    DigitsValue2(s[..2]);
  }

  lemma Pad2Value(n: int)
    requires 0 <= n < 100
    ensures DigitsValue(Pad2(n)) == n
  {
    DigitsValue2(Pad2(n));
  }

  lemma Pad4Value(n: int)
    requires 0 <= n < 10000
    ensures DigitsValue(Pad4(n)) == n
  {
    DigitsValue4(Pad4(n));
    Pad4Arithmetic(n, n / 10, n / 100, n / 1000);
  }

  lemma Pad4Arithmetic(n: int, n1: int, n2: int, n3: int)
    requires 0 <= n && n1 == n / 10 && n2 == n / 100 && n3 == n / 1000
    ensures ((n3 * 10 + n2 % 10) * 10 + n1 % 10) * 10 + n % 10 == n
  {
    assert n2 == n1 / 10;
    assert n3 == n2 / 10;
  }

  /** `dt` in the custom format "dd-MMM-yyyy HH:mm:ss" under culture `c`. */
  function Format(t: DateTime, c: Culture): (s: string)
    requires Valid(t) && WellFormedCulture(c)
    ensures |s| == 15 + |c.monthAbbreviations[t.month - 1]| + 2 * |c.timeSeparator|
  {
    Pad2(t.day) + "-" + c.monthAbbreviations[t.month - 1] + "-" + Pad4(t.year) + " " +
    Pad2(t.hour) + c.timeSeparator + Pad2(t.minute) + c.timeSeparator + Pad2(t.second)
  }

  /** The month whose invariant abbreviation `name` spells, ignoring case. */
  function MonthNumber(name: string): (m: Option<int>)
    ensures m.Some? ==> 1 <= m.value <= 12 &&
                        EqualsIgnoreCase(name, Invariant.monthAbbreviations[m.value - 1])
    ensures m.None? ==> forall k :: 0 <= k < 12 ==>
                          !EqualsIgnoreCase(name, Invariant.monthAbbreviations[k])
  {
    MonthFrom(name, 0)
  }

  function MonthFrom(name: string, k: nat): (m: Option<int>)
    requires k <= 12
    ensures m.Some? ==> k + 1 <= m.value <= 12 &&
                        EqualsIgnoreCase(name, Invariant.monthAbbreviations[m.value - 1])
    ensures m.None? ==> forall j :: k <= j < 12 ==>
                          !EqualsIgnoreCase(name, Invariant.monthAbbreviations[j])
    decreases 12 - k
  {
    if k == 12 then None
    else if EqualsIgnoreCase(name, Invariant.monthAbbreviations[k]) then Some(k + 1)
    else MonthFrom(name, k + 1)
  }

  predicate AllDigits(s: string) {
    forall i :: 0 <= i < |s| ==> IsDigit(s[i])
  }

  /** DateTime.TryParseExact(s, "dd-MMM-yyyy HH:mm:ss", InvariantCulture,
      DateTimeStyles.None): exactly two digits for the day, hour, minute and
      second, four for the year, an invariant month abbreviation in any case,
      the literal separators, no surrounding white space, and a date that
      exists. */
  function Parse(s: string): (r: Option<DateTime>)
    ensures r.Some? ==> Valid(r.value) && r.value.fraction == 0
  {
    if |s| != 20 then None
    else if !(AllDigits(s[0..2]) && s[2] == '-' && s[6] == '-' && AllDigits(s[7..11]) &&
              s[11] == ' ' && AllDigits(s[12..14]) && s[14] == ':' && AllDigits(s[15..17]) &&
              s[17] == ':' && AllDigits(s[18..20])) then None
    else
      match MonthNumber(s[3..6])
      case None => None
      case Some(month) =>
        var t := DateTime(DigitsValue(s[7..11]), month, DigitsValue(s[0..2]),
                          DigitsValue(s[12..14]), DigitsValue(s[15..17]), DigitsValue(s[18..20]), 0);
        if Valid(t) then Some(t) else None
  }

  /** The month an abbreviation names, by its three upper-cased letters;
      -1 for any other letters. */
  function UpperMonthIndex(x: char, y: char, z: char): int {
    match (x, y, z)
    case ('J', 'A', 'N') => 0
    case ('F', 'E', 'B') => 1
    case ('M', 'A', 'R') => 2
    case ('A', 'P', 'R') => 3
    case ('M', 'A', 'Y') => 4
    case ('J', 'U', 'N') => 5
    case ('J', 'U', 'L') => 6
    case ('A', 'U', 'G') => 7
    case ('S', 'E', 'P') => 8
    case ('O', 'C', 'T') => 9
    case ('N', 'O', 'V') => 10
    case ('D', 'E', 'C') => 11
    case _ => -1
  }

  lemma UpperMonthIndexOfInvariant(i: int)
    requires 0 <= i < 12
    ensures var n := Invariant.monthAbbreviations[i];
            |n| == 3 && UpperMonthIndex(UpperAscii(n[0]), UpperAscii(n[1]), UpperAscii(n[2])) == i
  {
  }

  /** The invariant month names are told apart even ignoring case. */
  lemma InvariantMonthsDistinct(m: int, k: int)
    requires 1 <= m <= 12 && 0 <= k < 12
    requires EqualsIgnoreCase(Invariant.monthAbbreviations[m - 1], Invariant.monthAbbreviations[k])
    ensures k == m - 1
  {
    var a, b := Invariant.monthAbbreviations[m - 1], Invariant.monthAbbreviations[k];
    UpperMonthIndexOfInvariant(m - 1);
    UpperMonthIndexOfInvariant(k);
    assert UpperAscii(a[0]) == UpperAscii(b[0]);
    assert UpperAscii(a[1]) == UpperAscii(b[1]);
    assert UpperAscii(a[2]) == UpperAscii(b[2]);
  }

  /** Where each field sits in a formatted timestamp whose month name has
      three letters and whose time separator has one character. */
  lemma FormatLayout(t: DateTime, c: Culture)
    requires Valid(t) && WellFormedCulture(c)
    requires |c.monthAbbreviations[t.month - 1]| == 3 && |c.timeSeparator| == 1
    ensures var f := Format(t, c);
            |f| == 20 &&
            f[0..2] == Pad2(t.day) && f[2] == '-' && f[3..6] == c.monthAbbreviations[t.month - 1] &&
            f[6] == '-' && f[7..11] == Pad4(t.year) && f[11] == ' ' &&
            f[12..14] == Pad2(t.hour) && f[14] == c.timeSeparator[0] && f[15..17] == Pad2(t.minute) &&
            f[17] == c.timeSeparator[0] && f[18..20] == Pad2(t.second)
  {
    var date := Pad2(t.day) + "-" + c.monthAbbreviations[t.month - 1] + "-" + Pad4(t.year);
    var time := Pad2(t.hour) + c.timeSeparator + Pad2(t.minute) + c.timeSeparator + Pad2(t.second);
    var f := Format(t, c);
    assert f == date + " " + time;
    assert |date| == 11 && |time| == 8;
    assert f[..11] == date && f[12..] == time;
  }

  /** Formatting in the invariant culture and parsing back yields the instant
      to the second: the watermark written at the end of one run is the one
      read at the start of the next. */
  lemma {:induction false} ParseFormatRoundTrip(t: DateTime)
    requires Valid(t)
    ensures Parse(Format(t, Invariant)) == Some(Truncate(t))
  {
    var s := Format(t, Invariant);
    var name := Invariant.monthAbbreviations[t.month - 1];
    assert |name| == 3;
    FormatLayout(t, Invariant);
    Pad2Value(t.day);
    Pad4Value(t.year);
    Pad2Value(t.hour);
    Pad2Value(t.minute);
    Pad2Value(t.second);
    assert EqualsIgnoreCase(s[3..6], name);
    var m := MonthNumber(s[3..6]);
    InvariantMonthsDistinct(t.month, m.value - 1);
  }

  lemma DigitsPad2(d: string)
    requires |d| == 2 && AllDigits(d)
    ensures DigitsValue(d) < 100 && Pad2(DigitsValue(d)) == d
  {
    DigitsValue2(d);
    assert IsDigit(d[0]) && IsDigit(d[1]);
    DivMod(DigitValue(d[0]), DigitValue(d[1]), 10);
  }

  lemma DigitsPad4(d: string)
    requires |d| == 4 && AllDigits(d)
    ensures DigitsValue(d) < 10000 && Pad4(DigitsValue(d)) == d
  {
    DigitsValue4(d);
    assert IsDigit(d[0]) && IsDigit(d[1]) && IsDigit(d[2]) && IsDigit(d[3]);
    DigitsArithmetic(DigitValue(d[0]), DigitValue(d[1]), DigitValue(d[2]), DigitValue(d[3]));
  }

  lemma DigitsArithmetic(a: int, b: int, c: int, e: int)
    requires 0 <= a <= 9 && 0 <= b <= 9 && 0 <= c <= 9 && 0 <= e <= 9
    ensures var v := ((a * 10 + b) * 10 + c) * 10 + e;
            v < 10000 && v / 1000 == a && v / 100 % 10 == b && v / 10 % 10 == c && v % 10 == e
  {
    var v := ((a * 10 + b) * 10 + c) * 10 + e;
    DivMod((a * 10 + b) * 10 + c, e, 10);
    DivMod(a * 10 + b, c * 10 + e, 100);
    DivMod(a, b * 100 + c * 10 + e, 1000);
    DivMod(a * 10 + b, c, 10);
    DivMod(a, b, 10);
  }

  lemma DivMod(q: int, r: int, k: int)
    requires k == 10 || k == 100 || k == 1000
    requires 0 <= r < k
    ensures (q * k + r) / k == q && (q * k + r) % k == r
  {
    if k == 10 {
      assert (q * 10 + r) / 10 == q;
    } else if k == 100 {
      assert (q * 100 + r) / 100 == q;
    } else {
      assert (q * 1000 + r) / 1000 == q;
    }
  }

  /** The parser accepts nothing but the invariant format: whatever it
      accepts is the formatted form of its result, up to the case of the
      month name. */
  lemma {:induction false} ParseAcceptsOnlyFormat(s: string)
    requires Parse(s).Some?
    ensures EqualsIgnoreCase(Format(Parse(s).value, Invariant), s)
  {
    var t := Parse(s).value;
    DigitsPad2(s[0..2]);
    DigitsPad4(s[7..11]);
    DigitsPad2(s[12..14]);
    DigitsPad2(s[15..17]);
    DigitsPad2(s[18..20]);
    assert |Invariant.monthAbbreviations[t.month - 1]| == 3;
    FormatLayout(t, Invariant);
    SameLayoutEqualsIgnoreCase(Format(t, Invariant), s);
  }

  /** Two strings of the format's length that agree on every field, the
      month name up to case, agree up to case. */
  lemma SameLayoutEqualsIgnoreCase(f: string, s: string)
    requires |f| == 20 && |s| == 20
    requires f[0..2] == s[0..2] && f[7..11] == s[7..11] && f[12..14] == s[12..14]
    requires f[15..17] == s[15..17] && f[18..20] == s[18..20]
    requires f[2] == s[2] && f[6] == s[6] && f[11] == s[11] && f[14] == s[14] && f[17] == s[17]
    requires EqualsIgnoreCase(f[3..6], s[3..6])
    ensures EqualsIgnoreCase(f, s)
  {
    forall i | 0 <= i < 20 ensures UpperAscii(f[i]) == UpperAscii(s[i]) {
      if 3 <= i < 6 {
        assert f[3..6][i - 3] == f[i] && s[3..6][i - 3] == s[i];
      } else if i < 2 {
        assert f[0..2][i] == f[i] && s[0..2][i] == s[i];
      } else if 7 <= i < 11 {
        assert f[7..11][i - 7] == f[i] && s[7..11][i - 7] == s[i];
      } else if 12 <= i < 14 {
        assert f[12..14][i - 12] == f[i] && s[12..14][i - 12] == s[i];
      } else if 15 <= i < 17 {
        assert f[15..17][i - 15] == f[i] && s[15..17][i - 15] == s[i];
      } else if 18 <= i < 20 {
        assert f[18..20][i - 18] == f[i] && s[18..20][i - 18] == s[i];
      }
    }
  }

  // ---------------------------------------------------------------------
  // The sentinel file

  predicate IsLineBreak(c: char) {
    c == '\n' || c == '\r'
  }

  /** lines.FirstOrDefault() of File.ReadAllLines: no line at all for an empty
      file, otherwise the text before the first line break. */
  function FirstLine(text: string): (line: Option<string>)
    ensures text == [] <==> line.None?
    ensures line.Some? ==> |line.value| <= |text| && line.value == text[..|line.value|]
    ensures line.Some? ==> forall i :: 0 <= i < |line.value| ==> !IsLineBreak(line.value[i])
    ensures line.Some? && |line.value| < |text| ==> IsLineBreak(text[|line.value|])
  {
    if text == [] then None
    else Some(LineFrom(text))
  }

  function LineFrom(text: string): (line: string)
    ensures |line| <= |text| && line == text[..|line|]
    ensures forall i :: 0 <= i < |line| ==> !IsLineBreak(line[i])
    ensures |line| < |text| ==> IsLineBreak(text[|line|])
  {
    if text == [] || IsLineBreak(text[0]) then [] else [text[0]] + LineFrom(text[1..])
  }

  /** ReadLastImportDate (Program.cs:87-100): the current watermark stays when
      there is no sentinel file; otherwise it is reset to MinValue and replaced
      by the parsed first line when that parses. */
  function ReadLastImportDate(current: DateTime, sentinel: Option<string>): (w: DateTime)
    ensures sentinel.None? ==> w == current
    ensures sentinel.Some? ==> w == MinValue || (Valid(w) && w.fraction == 0)
    ensures Valid(current) ==> Valid(w)
  {
    match sentinel
    case None => current
    case Some(text) =>
      match FirstLine(text)
      case None => MinValue
      case Some(line) =>
        match Parse(line)
        case None => MinValue
        case Some(t) => t
  }

  predicate NoLineBreak(s: string) {
    forall i :: 0 <= i < |s| ==> !IsLineBreak(s[i])
  }

  lemma {:induction false} LineFromWholeLine(text: string)
    requires NoLineBreak(text)
    ensures LineFrom(text) == text
  {
    if text != [] {
      LineFromWholeLine(text[1..]);
    }
  }

  lemma {:induction false} LineFromStopsAtBreak(line: string, b: char, rest: string)
    requires NoLineBreak(line) && IsLineBreak(b)
    ensures LineFrom(line + [b] + rest) == line
  {
    if line != [] {
      assert (line + [b] + rest)[1..] == line[1..] + [b] + rest;
      LineFromStopsAtBreak(line[1..], b, rest);
    }
  }

  /** Only the first line of the sentinel counts: whatever follows the first
      line break, `\n` or `\r` (which also starts `\r\n`), is never looked at. */
  lemma {:induction false} OnlyFirstLineRead(current: DateTime, line: string, b: char, rest: string)
    requires NoLineBreak(line) && IsLineBreak(b)
    ensures ReadLastImportDate(current, Some(line + [b] + rest)) == ReadLastImportDate(current, Some(line))
  {
    LineFromStopsAtBreak(line, b, rest);
    LineFromWholeLine(line);
  }

  /** An empty sentinel, or one whose first line is not in the format, leaves
      the watermark at MinValue whatever it was before. */
  lemma {:induction false} UnparsableSentinelMeansMinValue(current: DateTime, text: string)
    requires text == [] || Parse(FirstLine(text).value).None?
    ensures ReadLastImportDate(current, Some(text)) == MinValue
  {
  }

  /** The timestamp the corrected writer stores reads back as the write time to
      the second, whatever the watermark was before. */
  lemma {:induction false} WatermarkRoundTrip(current: DateTime, now: DateTime)
    requires Valid(now)
    ensures ReadLastImportDate(current, Some(WriteTimestamp(now))) == Truncate(now)
  {
    var s := WriteTimestamp(now);
    ParseFormatRoundTrip(now);
    InvariantHasNoLineBreak(now.month);
    FormatNoLineBreak(now, Invariant);
    LineFromWholeLine(s);
    assert FirstLine(s) == Some(s);
  }

  lemma InvariantHasNoLineBreak(m: int)
    requires 1 <= m <= 12
    ensures NoLineBreak(Invariant.monthAbbreviations[m - 1]) && NoLineBreak(Invariant.timeSeparator)
  {
    var name := Invariant.monthAbbreviations[m - 1];
    assert |name| == 3;
    assert !IsLineBreak(name[0]) && !IsLineBreak(name[1]) && !IsLineBreak(name[2]);
  }

  lemma NoLineBreakConcat(a: string, b: string)
    requires NoLineBreak(a) && NoLineBreak(b)
    ensures NoLineBreak(a + b)
  {
    forall i | 0 <= i < |a + b| ensures !IsLineBreak((a + b)[i]) {
      if i >= |a| {
        assert (a + b)[i] == b[i - |a|];
      }
    }
  }

  lemma FormatNoLineBreak(t: DateTime, c: Culture)
    requires Valid(t) && WellFormedCulture(c)
    requires NoLineBreak(c.monthAbbreviations[t.month - 1]) && NoLineBreak(c.timeSeparator)
    ensures NoLineBreak(Format(t, c))
  {
    var sep := c.timeSeparator;
    var s := Pad2(t.day);
    assert NoLineBreak(s) && NoLineBreak("-") && NoLineBreak(" ");
    assert NoLineBreak(Pad4(t.year)) && NoLineBreak(Pad2(t.hour));
    assert NoLineBreak(Pad2(t.minute)) && NoLineBreak(Pad2(t.second));
    NoLineBreakConcat(s, "-");
    s := s + "-";
    NoLineBreakConcat(s, c.monthAbbreviations[t.month - 1]);
    s := s + c.monthAbbreviations[t.month - 1];
    NoLineBreakConcat(s, "-");
    s := s + "-";
    NoLineBreakConcat(s, Pad4(t.year));
    s := s + Pad4(t.year);
    NoLineBreakConcat(s, " ");
    s := s + " ";
    NoLineBreakConcat(s, Pad2(t.hour));
    s := s + Pad2(t.hour);
    NoLineBreakConcat(s, sep);
    s := s + sep;
    NoLineBreakConcat(s, Pad2(t.minute));
    s := s + Pad2(t.minute);
    NoLineBreakConcat(s, sep);
    s := s + sep;
    NoLineBreakConcat(s, Pad2(t.second));
    s := s + Pad2(t.second);
    assert s == Format(t, c);
  }

  /** The text Program.cs:159 writes, as intended: the write time in the
      invariant culture, which is what the reader parses. */
  function WriteTimestamp(now: DateTime): (text: string)
    requires Valid(now)
    ensures |text| == 20
  {
    Format(now, Invariant)
  }

  // ---------------------------------------------------------------------
  // The timestamp as Program.cs:159 writes it

  /** An interpolated string formats with the process's current culture, so
      the month name and the time separator come from whatever culture the
      process runs under. */
  function WriteTimestampAsWritten(now: DateTime, current: Culture): (text: string)
    requires Valid(now) && WellFormedCulture(current)
    ensures AgreesWithInvariant(current, now) ==> text == WriteTimestamp(now)
    ensures |current.timeSeparator| == 1 && |current.monthAbbreviations[now.month - 1]| != 3 ==>
              text != WriteTimestamp(now)
  {
    Format(now, current)
  }

  /** Culture `c` writes the month of `t` and the time separator as the
      invariant culture does, so the text written under it is the text the
      reader expects. */
  predicate AgreesWithInvariant(c: Culture, t: DateTime)
    requires Valid(t) && WellFormedCulture(c)
  {
    c.monthAbbreviations[t.month - 1] == Invariant.monthAbbreviations[t.month - 1] &&
    c.timeSeparator == Invariant.timeSeparator
  }

  /** The abbreviated month names of fr-FR, with ":" as time separator. */
  const French: Culture :=
    Culture(["janv.", "févr.", "mars", "avr.", "mai", "juin",
             "juil.", "août", "sept.", "oct.", "nov.", "déc."], ":")

  /** Under a culture whose month abbreviation is longer than three letters,
      the written timestamp does not parse back: the next run starts again
      from MinValue. */
  lemma {:induction false} AsWrittenTimestampLost(current: DateTime, now: DateTime, c: Culture)
    requires Valid(now) && WellFormedCulture(c)
    requires |c.monthAbbreviations[now.month - 1]| > 3 && |c.timeSeparator| == 1
    requires NoLineBreak(c.monthAbbreviations[now.month - 1]) && NoLineBreak(c.timeSeparator)
    ensures ReadLastImportDate(current, Some(WriteTimestampAsWritten(now, c))) == MinValue
  {
    var s := WriteTimestampAsWritten(now, c);
    assert |s| > 20;
    FormatNoLineBreak(now, c);
    LineFromWholeLine(s);
  }

  /** A January run under fr-FR writes "05-janv.-2024 13:45:02", which the
      next run cannot parse. */
  lemma FrenchJanuaryTimestampLost(current: DateTime)
    ensures ReadLastImportDate(current, Some(WriteTimestampAsWritten(DateTime(2024, 1, 5, 13, 45, 2, 0), French)))
            == MinValue
  {
    AsWrittenTimestampLost(current, DateTime(2024, 1, 5, 13, 45, 2, 0), French);
  }
}
