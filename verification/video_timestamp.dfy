/** `Video.get_video_timestamp`: the recording instant encoded in a video's
    file name as `YYYY-MM-DDTHHMMSSZ`, moved forward by a number of skipped
    seconds.  Instants are whole seconds counted from 0001-01-01T00:00:00,
    the first instant Python's `datetime` can hold.
 */
module VideoTimestamp {
  import opened Wrappers
  import Numeric

  /** Length of a stamp such as `2021-01-05T123456Z`. */
  const StampLength := 18

  predicate IsDigit(c: char)
  {
    '0' <= c <= '9'
  }

  function DigitValue(c: char): int
  {
    c as int - '0' as int
  }

  /** The number a run of decimal digits spells. */
  function Number(s: string): int
  {
    if |s| == 0 then 0 else 10 * Number(s[..|s| - 1]) + DigitValue(s[|s| - 1])
  }

  /** The offsets within a stamp that hold a separator, not a digit. */
  predicate IsSeparatorOffset(k: int)
  {
    k in {4, 7, 10, 17}
  }

  /** Whether the stamp pattern `\d{4}-\d{2}-\d{2}T\d{6}Z` matches at `i`. */
  predicate MatchesAt(s: string, i: nat)
  {
    && i + StampLength <= |s|
    && (forall j :: i <= j < i + StampLength && !IsSeparatorOffset(j - i) ==> IsDigit(s[j]))
    && s[i + 4] == '-' && s[i + 7] == '-' && s[i + 10] == 'T' && s[i + 17] == 'Z'
  }

  /** `re.search`: the leftmost position at or after `from` where the stamp
      pattern matches. */
  function Search(s: string, from: nat): (r: Option<nat>)
    ensures r.Some? ==> from <= r.value && MatchesAt(s, r.value)
    ensures r.Some? ==> forall j :: from <= j < r.value ==> !MatchesAt(s, j)
    ensures r.None? ==> forall j :: from <= j ==> !MatchesAt(s, j)
    decreases |s| - from
  {
    if from + StampLength > |s| then None
    else if MatchesAt(s, from) then Some(from)
    else Search(s, from + 1)
  }

  /** The broken-down date and time `strptime` reads from a stamp. */
  datatype DateTime = DateTime(year: int, month: int, day: int, hour: int, minute: int, second: int)

  predicate IsLeap(y: int)
  {
    y % 4 == 0 && (y % 100 != 0 || y % 400 == 0)
  }

  function DaysInMonth(y: int, m: int): int
    requires 1 <= m <= 12
  {
    if m == 2 then (if IsLeap(y) then 29 else 28)
    else if m in {4, 6, 9, 11} then 30
    else 31
  }

  /** The fields `datetime` accepts: year 1..9999, a real calendar day and a
      time of day without leap seconds. */
  predicate Valid(t: DateTime)
  {
    && 1 <= t.year <= 9999
    && 1 <= t.month <= 12
    && 1 <= t.day <= DaysInMonth(t.year, t.month)
    && 0 <= t.hour <= 23
    && 0 <= t.minute <= 59
    && 0 <= t.second <= 59
  }

  function DaysBeforeYear(y: int): int
    requires y >= 1
  {
    var p := y - 1;
    365 * p + p / 4 - p / 100 + p / 400
  }

  function DaysBeforeMonth(y: int, m: int): (d: int)
    requires 1 <= m <= 12
    ensures d >= 0
    decreases m
  {
    if m == 1 then 0 else DaysBeforeMonth(y, m - 1) + DaysInMonth(y, m - 1)
  }

  /** Seconds from 0001-01-01T00:00:00 to `t`. */
  function Instant(t: DateTime): int
    requires Valid(t)
  {
    var days := DaysBeforeYear(t.year) + DaysBeforeMonth(t.year, t.month) + t.day - 1;
    days * 86400 + t.hour * 3600 + t.minute * 60 + t.second
  }

  /** The last instant `datetime` can hold, 9999-12-31T23:59:59. */
  const MaxInstant := 315537897599

  /** `strptime(stamp, "%Y-%m-%dT%H%M%SZ")` on the 18 characters the search
      found: fields read at fixed widths, and a `ValueError` for digits that
      do not name a valid date and time (month 13, 30 February, second 60). */
  function ParseStamp(stamp: string): (r: Result<DateTime>)
    requires |stamp| == StampLength
    ensures r.Ok? ==> Valid(r.value)
    ensures r.Err? ==> r.error == ValueError
  {
    var t := DateTime(Number(stamp[0..4]), Number(stamp[5..7]), Number(stamp[8..10]),
                      Number(stamp[11..13]), Number(stamp[13..15]), Number(stamp[15..17]));
    if Valid(t) then Ok(t) else Err(ValueError)
  }

  /** `get_video_timestamp(skipped_seconds)`: `Ok(None)` when the file name
      holds no stamp, the stamp's instant plus the skipped seconds otherwise;
      an invalid stamp raises `ValueError` and a sum outside the range of
      `datetime` raises `OverflowError`. */
  function VideoInstant(filename: string, skippedSeconds: int): (r: Result<Option<int>>)
    ensures r == Ok(None) <==> Search(filename, 0).None?
    ensures r.Ok? && r.value.Some? ==> 0 <= r.value.value <= MaxInstant
  {
    match Search(filename, 0)
    case None => Ok(None)
    case Some(i) =>
      match ParseStamp(filename[i..i + StampLength])
      case Err(e) => Err(e)
      case Ok(t) =>
        var moved := Instant(t) + skippedSeconds;
        if 0 <= moved <= MaxInstant then Ok(Some(moved)) else Err(OverflowError)
  }

  // ---------------------------------------------------------------------
  // Formatting, the partner of parsing

  /** `n` written with exactly `width` decimal digits, zero-padded. */
  function Pad(n: nat, width: nat): (s: string)
    ensures |s| == width
    ensures forall k :: 0 <= k < width ==> IsDigit(s[k])
  {
    if width == 0 then "" else Pad(n / 10, width - 1) + [('0' as int + n % 10) as char]
  }

  lemma {:induction false} NumberPad(n: nat, width: nat)
    requires n < Numeric.Pow10(width)
    ensures Number(Pad(n, width)) == n
  {
    if width > 0 {
      NumberPad(n / 10, width - 1);
      var s := Pad(n, width);
      assert s[..|s| - 1] == Pad(n / 10, width - 1);
    }
  }

  /** The stamp `strftime("%Y-%m-%dT%H%M%SZ")` writes for a valid instant. */
  function Format(t: DateTime): (s: string)
    requires Valid(t)
    ensures |s| == StampLength
  {
    Pad(t.year, 4) + "-" + Pad(t.month, 2) + "-" + Pad(t.day, 2) + "T"
      + Pad(t.hour, 2) + Pad(t.minute, 2) + Pad(t.second, 2) + "Z"
  }

  lemma FormatMatches(t: DateTime)
    requires Valid(t)
    ensures MatchesAt(Format(t), 0)
  {
    var s := Format(t);
    forall k | 0 <= k < StampLength && !IsSeparatorOffset(k)
      ensures IsDigit(s[k])
    {
      if k < 4 { assert s[k] == Pad(t.year, 4)[k]; }
      else if k < 7 { assert s[k] == Pad(t.month, 2)[k - 5]; }
      else if k < 10 { assert s[k] == Pad(t.day, 2)[k - 8]; }
      else if k < 13 { assert s[k] == Pad(t.hour, 2)[k - 11]; }
      else if k < 15 { assert s[k] == Pad(t.minute, 2)[k - 13]; }
      else { assert s[k] == Pad(t.second, 2)[k - 15]; }
    }
  }

  /** Parsing a formatted stamp gives back the date and time it was made
      from. */
  lemma ParseFormat(t: DateTime)
    requires Valid(t)
    ensures ParseStamp(Format(t)) == Ok(t)
  {
    var s := Format(t);
    assert s[0..4] == Pad(t.year, 4);
    assert s[5..7] == Pad(t.month, 2);
    assert s[8..10] == Pad(t.day, 2);
    assert s[11..13] == Pad(t.hour, 2);
    assert s[13..15] == Pad(t.minute, 2);
    assert s[15..17] == Pad(t.second, 2);
    NumberPad(t.year, 4);
    NumberPad(t.month, 2);
    NumberPad(t.day, 2);
    NumberPad(t.hour, 2);
    NumberPad(t.minute, 2);
    NumberPad(t.second, 2);
  }

  /** A file name made of a one-character prefix, a stamp and a suffix yields
      the stamp's instant, moved by the skipped seconds. */
  lemma VideoInstantOfFormatted(prefix: char, t: DateTime, suffix: string, skippedSeconds: int)
    requires Valid(t)
    requires prefix != '-' && !IsDigit(prefix)
    requires 0 <= Instant(t) + skippedSeconds <= MaxInstant
    ensures VideoInstant([prefix] + Format(t) + suffix, skippedSeconds)
            == Ok(Some(Instant(t) + skippedSeconds))
  {
    var name := [prefix] + Format(t) + suffix;
    SearchFormatted(prefix, t, suffix);
    assert name[1..1 + StampLength] == Format(t);
    ParseFormat(t);
  }

  lemma SearchFormatted(prefix: char, t: DateTime, suffix: string)
    requires Valid(t)
    requires prefix != '-' && !IsDigit(prefix)
    ensures Search([prefix] + Format(t) + suffix, 0) == Some(1)
  {
    var name := [prefix] + Format(t) + suffix;
    var stamp := Format(t);
    FormatMatches(t);
    assert name[0] == prefix;
    assert !MatchesAt(name, 0) by {
      assert !IsSeparatorOffset(0);
    }
    forall j | 1 <= j < 1 + StampLength
      ensures name[j] == stamp[j - 1]
    {
    }
    assert MatchesAt(name, 1);
  }

  /** Month 13 is not a date: the stamp is found, and parsing it raises. */
  lemma MonthThirteenRaises()
    ensures VideoInstant("2021-13-05T120000Z", 0) == Err(ValueError)
  {
    var s := "2021-13-05T120000Z";
    assert MatchesAt(s, 0);
    assert s[5..7] == ['1', '3'];
    assert Number(['1']) == 1;
    assert Number(s[5..7]) == 13;
    assert Search(s, 0) == Some(0);
    assert s[0..StampLength] == s;
    assert ParseStamp(s) == Err(ValueError);
  }

  /** Skipping more seconds never moves the instant back, and skipping none
      gives the stamp's own instant. */
  lemma VideoInstantMonotone(filename: string, a: int, b: int)
    requires a <= b
    requires VideoInstant(filename, a).Ok? && VideoInstant(filename, a).value.Some?
    requires VideoInstant(filename, b).Ok? && VideoInstant(filename, b).value.Some?
    ensures VideoInstant(filename, a).value.value <= VideoInstant(filename, b).value.value
    ensures VideoInstant(filename, b).value.value - VideoInstant(filename, a).value.value == b - a
  {
  }

  lemma VideoInstantNoSkip(filename: string)
    requires Search(filename, 0).Some?
    requires ParseStamp(filename[Search(filename, 0).value..Search(filename, 0).value + StampLength]).Ok?
    ensures var i := Search(filename, 0).value;
            var t := ParseStamp(filename[i..i + StampLength]).value;
            VideoInstant(filename, 0) == Ok(Some(Instant(t)))
  {
    var i := Search(filename, 0).value;
    var t := ParseStamp(filename[i..i + StampLength]).value;
    InstantInRange(t);
  }

  /** Every valid date and time lies within the range `datetime` holds. */
  lemma InstantInRange(t: DateTime)
    requires Valid(t)
    ensures 0 <= Instant(t) <= MaxInstant
  {
    DaysBeforeMonthBound(t.year, t.month);
    if t.year < 9999 {
      DaysBeforeNextYear(t.year);
      DaysBeforeYearMonotone(t.year + 1, 9999);
    }
  }

  /** A year contributes 365 days, or 366 when it is a leap year. */
  lemma DaysBeforeNextYear(y: int)
    requires y >= 1
    ensures DaysBeforeYear(y + 1) == DaysBeforeYear(y) + (if IsLeap(y) then 366 else 365)
  {
    var p := y - 1;
    assert y / 4 == p / 4 + (if y % 4 == 0 then 1 else 0);
    assert y / 100 == p / 100 + (if y % 100 == 0 then 1 else 0);
    assert y / 400 == p / 400 + (if y % 400 == 0 then 1 else 0);
  }

  lemma {:induction false} DaysBeforeYearMonotone(x: int, y: int)
    requires 1 <= x <= y
    ensures DaysBeforeYear(x) <= DaysBeforeYear(y)
    decreases y - x
  {
    if x < y {
      DaysBeforeNextYear(x);
      DaysBeforeYearMonotone(x + 1, y);
    }
  }

  lemma DaysBeforeMonthBound(y: int, m: int)
    requires 1 <= m <= 12
    ensures DaysBeforeMonth(y, m) + DaysInMonth(y, m) <= (if IsLeap(y) then 366 else 365)
  {
  }
}
