/**
 * The two textual forms of a timestamp in this program: the layout
 * "2006-01-02 15:04:05" in which time.Now() is written into the blocks table,
 * and the RFC 3339 section 5.6 `date-time` form with a `Z` offset in which
 * FormatTimeToISO hands it back. Parsing follows Go's time.Parse for that layout.
 */
module Timestamps {
  import opened Wrappers
  import opened Strings

  datatype DateTime = DateTime(year: int, month: int, day: int, hour: int, minute: int, second: int)

  predicate IsLeap(year: int) {
    year % 4 == 0 && (year % 100 != 0 || year % 400 == 0)
  }

  function DaysIn(month: int, year: int): int {
    if month == 2 then (if IsLeap(year) then 29 else 28)
    else if month == 4 || month == 6 || month == 9 || month == 11 then 30
    else 31
  }

  /** Every field fits the width the layout gives it. */
  predicate Fits(dt: DateTime) {
    0 <= dt.year <= 9999 && 0 <= dt.month < 100 && 0 <= dt.day < 100
    && 0 <= dt.hour < 100 && 0 <= dt.minute < 100 && 0 <= dt.second < 100
  }

  /** A calendar date and wall-clock time with a four-digit year, as time.Parse accepts. */
  predicate Valid(dt: DateTime) {
    0 <= dt.year <= 9999 && 1 <= dt.month <= 12 && 1 <= dt.day <= DaysIn(dt.month, dt.year)
    && 0 <= dt.hour < 24 && 0 <= dt.minute < 60 && 0 <= dt.second < 60
  }

  // --------------------------------------------------------------- formatting

  /** n written with exactly two decimal digits. */
  function Two(n: nat): (s: string)
    requires n < 100
    ensures |s| == 2 && IsDigit(s[0]) && IsDigit(s[1])
    ensures DigitValue(s[0]) * 10 + DigitValue(s[1]) == n
  {
    DigitCharValue(n / 10, 10);
    DigitCharValue(n % 10, 10);
    [DigitChar(n / 10), DigitChar(n % 10)]
  }

  /** n written with exactly four decimal digits. */
  function Four(n: nat): (s: string)
    requires n < 10000
    ensures |s| == 4 && AllDigits(s)
    ensures IsDigit(s[0]) && FourValue(s) == n
  {
    Two(n / 100) + Two(n % 100)
  }

  function FourValue(s: string): nat
    requires |s| >= 4 && forall i :: 0 <= i < 4 ==> IsDigit(s[i])
  {
    DigitValue(s[0]) * 1000 + DigitValue(s[1]) * 100 + DigitValue(s[2]) * 10 + DigitValue(s[3])
  }

  /** `YYYY-MM-DD`, the date part of both layouts. */
  function DateText(dt: DateTime): (s: string)
    requires Fits(dt)
    ensures |s| == 10 && s[4] == '-' && s[7] == '-'
  {
    Four(dt.year) + "-" + Two(dt.month) + "-" + Two(dt.day)
  }

  /** `HH:MM:SS`, the clock part of both layouts. */
  function ClockText(dt: DateTime): (s: string)
    requires Fits(dt)
    ensures |s| == 8 && s[2] == ':' && s[5] == ':'
  {
    Two(dt.hour) + ":" + Two(dt.minute) + ":" + Two(dt.second)
  }

  /** Go's Format("2006-01-02 15:04:05"): what AddBlock writes into created_at and modified_at. */
  function FormatStorage(dt: DateTime): (s: string)
    requires Fits(dt)
    ensures |s| == 19 && s[10] == ' '
  {
    DateText(dt) + " " + ClockText(dt)
  }

  /** Go's Format(time.RFC3339) of a UTC time: `YYYY-MM-DDTHH:MM:SSZ`. */
  function FormatRFC3339(dt: DateTime): (s: string)
    requires Valid(dt)
    ensures |s| == 20 && s[10] == 'T' && s[19] == 'Z'
  {
    DateText(dt) + "T" + ClockText(dt) + "Z"
  }

  // ------------------------------------------------------------------ parsing

  /** A literal layout character must be the next input character. */
  function Literal(s: string, c: char): (r: Option<string>)
    ensures r.Some? <==> s != [] && s[0] == c
    ensures r.Some? ==> r.value == s[1..]
  {
    if s != [] && s[0] == c then Some(s[1..]) else None
  }

  /**
   * A space in the layout: the input must not continue with anything but spaces,
   * and every leading space of the input is skipped.
   */
  function Spaces(s: string): (r: Option<string>)
    ensures r.Some? <==> s == [] || s[0] == ' '
    ensures r.Some? ==> |r.value| <= |s| && r.value == s[|s| - |r.value|..]
    ensures r.Some? ==> r.value == [] || r.value[0] != ' '
    decreases |s|
  {
    if s == [] then Some([])
    else if s[0] != ' ' then None
    else if |s| > 1 && s[1] == ' ' then Spaces(s[1..])
    else Some(s[1..])
  }

  /**
   * A numeric layout element: two digits, or, when not fixed, one digit not
   * followed by a second one.
   */
  function GetNum(s: string, fixed: bool): (r: Option<(int, string)>)
    ensures r.Some? ==> 0 <= r.value.0 < 100
    ensures r.Some? ==> |r.value.1| < |s| && r.value.1 == s[|s| - |r.value.1|..]
  {
    if s == [] || !IsDigit(s[0]) then None
    else if |s| < 2 || !IsDigit(s[1]) then
      if fixed then None else Some((DigitValue(s[0]), s[1..]))
    else Some((DigitValue(s[0]) * 10 + DigitValue(s[1]), s[2..]))
  }

  /** The number of leading decimal digits of s. */
  function DigitRun(s: string): (n: nat)
    ensures n <= |s| && (n == |s| || !IsDigit(s[n]))
    ensures forall i :: 0 <= i < n ==> IsDigit(s[i])
  {
    if s == [] || !IsDigit(s[0]) then 0 else 1 + DigitRun(s[1..])
  }

  /**
   * After the seconds, a fraction (a period or a comma, then digits) that the
   * layout does not mention is consumed and discarded.
   */
  function SkipFraction(s: string): (r: string)
    ensures |r| <= |s| && r == s[|s| - |r|..]
  {
    if |s| >= 2 && (s[0] == '.' || s[0] == ',') && IsDigit(s[1]) then
      var n := 1 + DigitRun(s[1..]);
      s[n..]
    else s
  }

  /** The `2006-01-02` part of the layout: year, month, day and the rest of the input. */
  function ParseDate(s: string): (r: Option<(int, int, int, string)>)
    ensures r.Some? ==> 0 <= r.value.0 < 10000 && 0 <= r.value.1 < 100 && 0 <= r.value.2 < 100
  {
    if |s| < 4 || !(forall i :: 0 <= i < 4 ==> IsDigit(s[i])) then None
    else
      var s1 :- Literal(s[4..], '-');
      var (month, s2) :- GetNum(s1, true);
      var s3 :- Literal(s2, '-');
      var (day, s4) :- GetNum(s3, true);
      Some((FourValue(s), month, day, s4))
  }

  /** The `15:04:05` part of the layout: hour, minute, second and the rest of the input. */
  function ParseClock(s: string): (r: Option<(int, int, int, string)>)
    ensures r.Some? ==> 0 <= r.value.0 < 100 && 0 <= r.value.1 < 100 && 0 <= r.value.2 < 100
  {
    var (hour, s1) :- GetNum(s, false);
    var s2 :- Literal(s1, ':');
    var (minute, s3) :- GetNum(s2, true);
    var s4 :- Literal(s3, ':');
    var (second, s5) :- GetNum(s4, true);
    Some((hour, minute, second, s5))
  }

  /**
   * Go's time.Parse("2006-01-02 15:04:05", s); None for any parse error, for a
   * field out of range (including a day past the end of its month) and for
   * text left over after the seconds.
   */
  function ParseStorage(s: string): (r: Option<DateTime>)
    ensures r.Some? ==> Valid(r.value)
  {
    var (year, month, day, s1) :- ParseDate(s);
    var s2 :- Spaces(s1);
    var (hour, minute, second, s3) :- ParseClock(s2);
    var dt := DateTime(year, month, day, hour, minute, second);
    if SkipFraction(s3) == [] && Valid(dt) then Some(dt) else None
  }

  /**
   * FormatTimeToISO: a time in the storage layout rewritten as RFC 3339 in UTC,
   * or "" when the layout does not parse it. The parsed time carries no zone,
   * which time.Parse takes as UTC, so the conversion changes no field.
   */
  function FormatTimeToISO(s: string): (r: string)
    ensures r == "" <==> ParseStorage(s).None?
    ensures r != "" ==> r == FormatRFC3339(ParseStorage(s).value)
  {
    match ParseStorage(s)
    case None => ""
    case Some(dt) => FormatRFC3339(dt)
  }

  // ------------------------------------------------------------------- lemmas

  lemma GetNumTwo(n: nat, rest: string, fixed: bool)
    requires n < 100
    ensures GetNum(Two(n) + rest, fixed) == Some((n, rest))
  {
    var t := Two(n) + rest;
    assert t[0] == Two(n)[0] && t[1] == Two(n)[1] && t[2..] == rest;
  }

  lemma ParseDateText(dt: DateTime, rest: string)
    requires Fits(dt)
    ensures ParseDate(DateText(dt) + rest) == Some((dt.year, dt.month, dt.day, rest))
  {
    var t := DateText(dt) + rest;
    var y := Four(dt.year);
    assert t[..4] == y;
    var s2 := Two(dt.day) + rest;
    var s1 := Two(dt.month) + "-" + s2;
    assert t[4..] == "-" + s1;
    GetNumTwo(dt.month, "-" + s2, true);
    GetNumTwo(dt.day, rest, true);
  }

  lemma ParseClockText(dt: DateTime, rest: string)
    requires Fits(dt)
    ensures ParseClock(ClockText(dt) + rest) == Some((dt.hour, dt.minute, dt.second, rest))
  {
    var s3 := Two(dt.second) + rest;
    var s2 := Two(dt.minute) + ":" + s3;
    assert ClockText(dt) + rest == Two(dt.hour) + ":" + s2;
    GetNumTwo(dt.hour, ":" + s2, false);
    GetNumTwo(dt.minute, ":" + s3, true);
    GetNumTwo(dt.second, rest, true);
  }

  /** What AddBlock writes, time.Parse reads back unchanged. */
  lemma ParseFormat(dt: DateTime)
    requires Valid(dt)
    ensures ParseStorage(FormatStorage(dt)) == Some(dt)
  {
    ParseFormatExactly(dt);
  }

  /**
   * A stored timestamp comes back in RFC 3339 form: the same characters, with the
   * separating space replaced by `T` and a `Z` appended.
   */
  lemma ISOOfStorage(dt: DateTime)
    requires Valid(dt)
    ensures var t := FormatStorage(dt); FormatTimeToISO(t) == t[..10] + "T" + t[11..] + "Z"
  {
    var t := FormatStorage(dt);
    ParseFormat(dt);
    assert t[..10] == DateText(dt) && t[11..] == ClockText(dt);
  }

  /**
   * Written with the layout's field widths, a date and time parses exactly
   * when it is a real one: a 29 February outside a leap year, a month 13 or an
   * hour 24 is a range error, so FormatTimeToISO gives "".
   */
  lemma ParseFormatExactly(dt: DateTime)
    requires Fits(dt)
    ensures ParseStorage(FormatStorage(dt)) == if Valid(dt) then Some(dt) else None
  {
    var c := ClockText(dt);
    ParseDateText(dt, " " + c);
    assert FormatStorage(dt) == DateText(dt) + (" " + c);
    assert Spaces(" " + c) == Some(c);
    ParseClockText(dt, []);
    assert c + [] == c;
  }

  /** The hour of the layout also takes a single digit, and any run of spaces before it. */
  lemma AcceptsShortHour(dt: DateTime, spaces: nat)
    requires Valid(dt) && dt.hour < 10 && spaces >= 1
    ensures ParseStorage(DateText(dt) + Repeat(' ', spaces) + ShortClockText(dt)) == Some(dt)
  {
    var c := ShortClockText(dt);
    var t := DateText(dt) + Repeat(' ', spaces) + c;
    assert t == DateText(dt) + (Repeat(' ', spaces) + c);
    ParseDateText(dt, Repeat(' ', spaces) + c);
    SpacesRun(spaces, c);
    ParseShortClock(dt);
  }

  /** `H:MM:SS`, the clock with a one-digit hour. */
  function ShortClockText(dt: DateTime): (s: string)
    requires Fits(dt) && dt.hour < 10
    ensures |s| == 7 && s[0] != ' '
  {
    [DigitChar(dt.hour)] + ":" + Two(dt.minute) + ":" + Two(dt.second)
  }

  lemma ParseShortClock(dt: DateTime)
    requires Fits(dt) && dt.hour < 10
    ensures ParseClock(ShortClockText(dt)) == Some((dt.hour, dt.minute, dt.second, []))
  {
    var s3 := Two(dt.second);
    var s2 := Two(dt.minute) + ":" + s3;
    var c := ShortClockText(dt);
    assert c == [DigitChar(dt.hour)] + (":" + s2);
    DigitCharValue(dt.hour, 10);
    assert c[1..] == ":" + s2;
    assert GetNum(c, false) == Some((dt.hour, ":" + s2));
    GetNumTwo(dt.minute, ":" + s3, true);
    GetNumTwo(dt.second, [], true);
    assert s3 + [] == s3;
  }

  lemma {:induction false} SpacesRun(n: nat, rest: string)
    requires n >= 1 && rest != [] && rest[0] != ' '
    ensures Spaces(Repeat(' ', n) + rest) == Some(rest)
    decreases n
  {
    var t := Repeat(' ', n) + rest;
    if n > 1 {
      assert t[1..] == Repeat(' ', n - 1) + rest;
      SpacesRun(n - 1, rest);
    } else {
      assert t[1..] == rest;
    }
  }
}
