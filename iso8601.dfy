/** `parse_iso8601str` and the integer branch of `to_iso8601str` (pandasutils/timeutil.py).

    The parser is a regular-expression search for
      `([0-9]{4})-?([0-9]{2})-?([0-9]{2})(?:T|[\s])?([0-9]{2}):?([0-9]{2}):?([0-9]{2})`
      `(\.[0-9]{1,3})?(?:(\+|\-)([0-9]{2})\:?([0-9]{2})|Z)?`
    with IGNORECASE, followed by `datetime.strptime`, the addition of the UTC offset and
    `calendar.timegm`; every failure yields the sentinel -1.

    Backtracking never changes a match: each optional separator (`-`, `T`, whitespace, `:`)
    is a non-digit that is followed by a mandatory digit, so leaving it unconsumed always
    fails, and everything after the seconds is optional, so the greedy choices stand.
    Matching at one position is therefore a deterministic scan, written here over the
    suffix of the text that starts at that position. */
module Iso8601 {
  import opened Common
  import opened Text
  import opened Calendar

  /** What `parse_iso8601str` can be called with: `None`, a `str`, or any other object. */
  datatype Arg = NoneArg | StrArg(s: string) | OtherArg

  /** The three zone groups of a match; all three are `None` for `Z` or no zone at all. */
  datatype Zone = Zone(sign: char, hours: string, minutes: string)

  /** The groups of a match: six numeric fields, the fraction group (dot included) and the zone. */
  datatype Match = Match(
    year: string, month: string, day: string,
    hour: string, minute: string, second: string,
    fraction: Option<string>, zone: Option<Zone>)

  predicate WellFormed(m: Match)
  {
    && |m.year| == 4 && AllDigits(m.year)
    && |m.month| == 2 && AllDigits(m.month)
    && |m.day| == 2 && AllDigits(m.day)
    && |m.hour| == 2 && AllDigits(m.hour)
    && |m.minute| == 2 && AllDigits(m.minute)
    && |m.second| == 2 && AllDigits(m.second)
    && (m.fraction.Some? ==>
          2 <= |m.fraction.value| <= 4 && m.fraction.value[0] == '.'
          && AllDigits(m.fraction.value[1..]))
    && (m.zone.Some? ==> ZoneWellFormed(m.zone.value))
  }

  predicate ZoneWellFormed(z: Zone)
  {
    && (z.sign == '+' || z.sign == '-')
    && |z.hours| == 2 && AllDigits(z.hours)
    && |z.minutes| == 2 && AllDigits(z.minutes)
  }

  predicate StartsWithTwoDigits(t: string)
    ensures StartsWithTwoDigits(t) ==> |t| >= 2 && AllDigits(t[..2])
  {
    |t| >= 2 && IsDigit(t[0]) && IsDigit(t[1])
  }

  /** An optional literal character (`-?`, `:?`): drop it when it is there. */
  function SkipChar(t: string, c: char): (u: string)
    ensures u == t || (t != [] && t[0] == c && u == t[1..])
  {
    if t != [] && t[0] == c then t[1..] else t
  }

  /** `(?:T|[\s])?` under IGNORECASE. */
  predicate IsTimeSeparator(c: char) { c == 'T' || c == 't' || IsSpace(c) }

  function SkipTimeSeparator(t: string): (u: string)
    ensures u == t || (t != [] && IsTimeSeparator(t[0]) && u == t[1..])
  {
    if t != [] && IsTimeSeparator(t[0]) then t[1..] else t
  }

  /** `(\.[0-9]{1,3})?`, greedy: the group and the text after it. */
  function FractionGroup(t: string): (r: (Option<string>, string))
    ensures r.0.None? ==> r.1 == t
    ensures r.0.Some? ==> 2 <= |r.0.value| <= 4 && t == r.0.value + r.1
                          && r.0.value[0] == '.' && AllDigits(r.0.value[1..])
    ensures r.0.Some? && |r.0.value| < 4 ==> r.1 == [] || !IsDigit(r.1[0])
  {
    if |t| >= 2 && t[0] == '.' && IsDigit(t[1]) then
      var n := if |t| >= 3 && IsDigit(t[2]) then (if |t| >= 4 && IsDigit(t[3]) then 3 else 2) else 1;
      assert t == t[..n + 1] + t[n + 1..];
      (Some(t[..n + 1]), t[n + 1..])
    else
      (None, t)
  }

  /** `(?:(\+|\-)([0-9]{2})\:?([0-9]{2})|Z)?`: the zone groups, present only for the first alternative. */
  function ZoneGroups(t: string): (z: Option<Zone>)
    ensures z.Some? ==> ZoneWellFormed(z.value)
  {
    if |t| >= 3 && (t[0] == '+' || t[0] == '-') && IsDigit(t[1]) && IsDigit(t[2]) then
      var u := SkipChar(t[3..], ':');
      if StartsWithTwoDigits(u) then
        assert AllDigits(t[1..3]);
        Some(Zone(t[0], t[1..3], u[..2]))
      else None
    else
      None
  }

  /** The match of the pattern at the start of `t`, if any. */
  function MatchStart(t: string): (r: Option<Match>)
    ensures r.Some? ==> WellFormed(r.value)
  {
    if !(|t| >= 4 && AllDigits(t[..4])) then None else
    var t1 := SkipChar(t[4..], '-');
    if !StartsWithTwoDigits(t1) then None else
    var t2 := SkipChar(t1[2..], '-');
    if !StartsWithTwoDigits(t2) then None else
    var t3 := SkipTimeSeparator(t2[2..]);
    if !StartsWithTwoDigits(t3) then None else
    var t4 := SkipChar(t3[2..], ':');
    if !StartsWithTwoDigits(t4) then None else
    var t5 := SkipChar(t4[2..], ':');
    if !StartsWithTwoDigits(t5) then None else
    var (fraction, t6) := FractionGroup(t5[2..]);
    Some(Match(t[..4], t1[..2], t2[..2], t3[..2], t4[..2], t5[..2], fraction, ZoneGroups(t6)))
  }

  /** `re.search`: the match at the leftmost position where the pattern matches. */
  function Search(s: string): (r: Option<Match>)
    ensures r.None? ==> forall k :: 0 <= k <= |s| ==> MatchStart(s[k..]).None?
    ensures r.Some? ==> exists k :: 0 <= k <= |s| && MatchStart(s[k..]) == r
                          && forall j :: 0 <= j < k ==> MatchStart(s[j..]).None?
    decreases |s|
  {
    if MatchStart(s).Some? then
      assert s[0..] == s;
      MatchStart(s)
    else if s == [] then
      None
    else
      var r := Search(s[1..]);
      assert forall k :: 1 <= k <= |s| ==> s[1..][k - 1..] == s[k..];
      assert s[0..] == s;
      r
  }

  /** `ms = ms or ".000"; ms = (ms + "00")[0:4]; int(ms[1:])`: the fraction as milliseconds. */
  function FractionMillis(fraction: Option<string>): (ms: nat)
    requires fraction.Some? ==> 2 <= |fraction.value| <= 4 && AllDigits(fraction.value[1..])
    ensures ms < 1000
  {
    var text := if fraction.None? then ".000" else fraction.value;
    var padded := (text + "00")[..4];
    assert AllDigits(padded[1..]) && |padded[1..]| == 3;
    assert Pow10(3) == 1000;
    ValueOf(padded[1..])
  }

  /** The offset that is added to the local time, in minutes: `int(sign + "1") * -1`
      applied to both zone fields, so `+HH:MM` is subtracted and `-HH:MM` added. */
  function ShiftMinutes(zone: Option<Zone>): int
    requires zone.Some? ==> AllDigits(zone.value.hours) && AllDigits(zone.value.minutes)
  {
    match zone
    case None => 0
    case Some(z) =>
      var sign := if z.sign == '-' then 1 else -1;
      ValueOf(z.hours) * sign * 60 + ValueOf(z.minutes) * sign
  }

  /** Fields `datetime.strptime(..., "%Y%m%d%H%M%S.%fZ")` and `datetime(...)` accept:
      ten fixed two-digit fields leave strptime no other split, `%S` admits 60 and 61 but
      `datetime` rejects them, and year 0000 is below `MINYEAR`. */
  predicate StrptimeAccepts(y: int, mo: int, d: int, h: int, mi: int, sec: int)
  {
    1 <= y && 1 <= mo <= 12 && 1 <= d <= DaysInMonth(y, mo) && 0 <= h <= 23 && 0 <= mi <= 59 && 0 <= sec <= 59
  }

  /** Day counts of 0001-01-01 and 9999-12-31, the range of `datetime`. */
  const MinDay: int := -719162
  const MaxDay: int := 2932896

  /** The groups turned into epoch milliseconds, or `None` where Python raises
      (`ValueError` from strptime, `OverflowError` from adding the offset). */
  function Convert(m: Match): Option<int>
    requires WellFormed(m)
  {
    var y, mo, d := ValueOf(m.year), ValueOf(m.month), ValueOf(m.day);
    var h, mi, sec := ValueOf(m.hour), ValueOf(m.minute), ValueOf(m.second);
    if !StrptimeAccepts(y, mo, d, h, mi, sec) then None else
    var seconds := DaysFromCivil(Date(y, mo, d)) * 86400 + h * 3600 + mi * 60 + sec
                   + ShiftMinutes(m.zone) * 60;
    if !(MinDay <= seconds / 86400 <= MaxDay) then None else
    Some(seconds * 1000 + FractionMillis(m.fraction))
  }

  /** `parse_iso8601str`: epoch milliseconds, or -1 for every failure. */
  function ParseIso8601(arg: Arg): (r: int)
    ensures !arg.StrArg? ==> r == -1
  {
    match arg
    case NoneArg => -1
    case OtherArg => -1
    case StrArg(s) =>
      match Search(s)
      case None => -1
      case Some(m) =>
        match Convert(m)
        case None => -1
        case Some(v) => v
  }

  // ---------------------------------------------------------------------------
  // to_iso8601str, integer branch

  /** A date and a time with the separators the pattern makes optional, then any text. */
  function Layout(y: string, mo: string, d: string, dateSep: string, timeSep: string,
                  h: string, mi: string, sec: string, clockSep: string, rest: string): string
  {
    y + (dateSep + (mo + (dateSep + (d + (timeSep + (h + (clockSep + (mi + (clockSep + (sec + rest))))))))))
  }

  /** Milliseconds covered by `datetime`'s years 1 through 9999. */
  predicate InDatetimeRange(ms: int)
  {
    MinDay * 86400000 <= ms < (MaxDay + 1) * 86400000
  }

  /** `datetime.fromtimestamp(ms / 1000.0, tz=timezone.utc).isoformat()`: the UTC date and time,
      a six-digit fraction only when the microseconds are non-zero, and the suffix `+00:00`.
      Outside years 1..9999 Python raises. */
  function FormatIso8601(ms: int): (r: Result<string>)
    ensures r.Ok? <==> InDatetimeRange(ms)
  {
    if !InDatetimeRange(ms) then Err(ValueError) else
    var seconds, millis := ms / 1000, ms % 1000;
    var days, secondOfDay := seconds / 86400, seconds % 86400;
    var date := CivilFromDays(days);
    CivilFromDaysRoundTrip(days);
    YearOfDayInRange(days);
    var micros := millis * 1000;
    var fraction := if micros != 0 then "." + PadDigits(micros, 6) else "";
    Ok(Layout(PadDigits(date.year, 4), PadDigits(date.month, 2), PadDigits(date.day, 2), "-", "T",
              PadDigits(secondOfDay / 3600, 2), PadDigits(secondOfDay % 3600 / 60, 2),
              PadDigits(secondOfDay % 60, 2), ":", fraction + "+00:00"))
  }

  /** Day counts inside the `datetime` range have years 1 through 9999. */
  lemma YearOfDayInRange(days: int)
    requires MinDay <= days <= MaxDay
    ensures 1 <= CivilFromDays(days).year <= 9999
  {
    var d := CivilFromDays(days);
    CivilFromDaysRoundTrip(days);
    if d.year < 1 {
      DaysFromCivilYearBelow(d, Date(1, 1, 1));
    } else if d.year > 9999 {
      DaysFromCivilYearBelow(Date(9999, 12, 31), d);
    }
  }

  /** A valid date in an earlier year has a smaller day count. */
  lemma DaysFromCivilYearBelow(a: Date, b: Date)
    requires ValidDate(a) && ValidDate(b) && a.year < b.year
    ensures DaysFromCivil(a) < DaysFromCivil(b)
    decreases b.year - a.year
  {
    var dec := Date(a.year, 12, 31);
    DaysBeforeMonthMonotone(a.year, a.month, 12);
    DaysBeforeDecember(a.year);
    DaysFromCivilNextDay(dec);
    var jan := Date(a.year + 1, 1, 1);
    if jan.year < b.year {
      DaysFromCivilYearBelow(jan, b);
    } else {
      DaysBeforeMonthMonotone(b.year, 1, b.month);
    }
  }

  // ---------------------------------------------------------------------------
  // What the parser accepts, stated over the layouts the pattern admits

  predicate IsDateSeparator(sep: string) { sep == "" || sep == "-" }

  predicate IsClockSeparator(sep: string) { sep == "" || sep == ":" }

  predicate IsDateTimeSeparator(sep: string) { sep == "" || (|sep| == 1 && IsTimeSeparator(sep[0])) }

  lemma SkipCharBefore(sep: string, c: char, u: string)
    requires sep == "" || sep == [c]
    requires StartsWithTwoDigits(u) && c != u[0]
    ensures SkipChar(sep + u, c) == u
  {
    if sep == [c] {
      assert (sep + u)[1..] == u;
    }
  }

  lemma SkipTimeSeparatorBefore(sep: string, u: string)
    requires IsDateTimeSeparator(sep) && StartsWithTwoDigits(u)
    ensures SkipTimeSeparator(sep + u) == u
  {
    if sep != "" {
      assert (sep + u)[1..] == u;
    }
  }

  lemma TwoDigitsAhead(a: string, b: string)
    requires |a| == 2 && AllDigits(a)
    ensures StartsWithTwoDigits(a + b) && (a + b)[..2] == a && (a + b)[2..] == b
  {
  }

  /** Every layout matches at its start, with the six fields as written and the
      fraction and zone read from the text that follows the seconds. */
  lemma MatchStartLayout(y: string, mo: string, d: string, dateSep: string, timeSep: string,
                         h: string, mi: string, sec: string, clockSep: string, rest: string)
    requires |y| == 4 && AllDigits(y)
    requires |mo| == 2 && AllDigits(mo) && |d| == 2 && AllDigits(d)
    requires |h| == 2 && AllDigits(h) && |mi| == 2 && AllDigits(mi) && |sec| == 2 && AllDigits(sec)
    requires IsDateSeparator(dateSep) && IsDateTimeSeparator(timeSep) && IsClockSeparator(clockSep)
    ensures MatchStart(Layout(y, mo, d, dateSep, timeSep, h, mi, sec, clockSep, rest))
            == Some(Match(y, mo, d, h, mi, sec, FractionGroup(rest).0,
                          ZoneGroups(FractionGroup(rest).1)))
  {
    var u5 := sec + rest;
    var u4 := mi + (clockSep + u5);
    var u3 := h + (clockSep + u4);
    var u2 := d + (timeSep + u3);
    var u1 := mo + (dateSep + u2);
    var t := y + (dateSep + u1);
    assert t == Layout(y, mo, d, dateSep, timeSep, h, mi, sec, clockSep, rest);
    assert t[..4] == y && t[4..] == dateSep + u1;
    TwoDigitsAhead(mo, dateSep + u2);
    SkipCharBefore(dateSep, '-', u1);
    TwoDigitsAhead(d, timeSep + u3);
    SkipCharBefore(dateSep, '-', u2);
    TwoDigitsAhead(h, clockSep + u4);
    SkipTimeSeparatorBefore(timeSep, u3);
    TwoDigitsAhead(mi, clockSep + u5);
    SkipCharBefore(clockSep, ':', u4);
    TwoDigitsAhead(sec, rest);
    SkipCharBefore(clockSep, ':', u5);
  }

  /** A text that matches at its start is what the search returns. */
  lemma SearchAtStart(s: string)
    requires MatchStart(s).Some?
    ensures Search(s) == MatchStart(s)
  {
  }

  /** How a zone suffix is written. */
  datatype ZoneText = NoZone | Zulu(upper: bool) | Offset(plus: bool, hours: nat, minutes: nat, colon: bool)

  predicate ZoneTextValid(z: ZoneText) { z.Offset? ==> z.hours < 100 && z.minutes < 100 }

  function ZoneString(z: ZoneText): string
    requires ZoneTextValid(z)
  {
    match z
    case NoZone => ""
    case Zulu(upper) => if upper then "Z" else "z"
    case Offset(plus, hh, mm, colon) =>
      [if plus then '+' else '-'] + (PadDigits(hh, 2) + ((if colon then ":" else "") + PadDigits(mm, 2)))
  }

  /** The offset as written, in minutes east of UTC; `Z` and no zone both mean zero. */
  function OffsetMinutes(z: ZoneText): int
  {
    if z.Offset? then (if z.plus then 1 else -1) * (z.hours * 60 + z.minutes) else 0
  }

  /** A fraction of 1-3 digits read as milliseconds: the digits right-padded to three. */
  function FractionValue(digits: string): nat
    requires |digits| <= 3 && AllDigits(digits)
  {
    ValueOf(digits) * Pow10(3 - |digits|)
  }

  function FractionString(digits: string): string
  {
    if digits == [] then "" else "." + digits
  }

  /** The fraction group the pattern captures for `digits`. */
  function FractionOption(digits: string): Option<string>
  {
    if digits == [] then None else Some("." + digits)
  }

  /** The zone groups the pattern captures for a zone suffix. */
  function ZoneOption(z: ZoneText): Option<Zone>
    requires ZoneTextValid(z)
  {
    if z.Offset? then Some(Zone(if z.plus then '+' else '-', PadDigits(z.hours, 2), PadDigits(z.minutes, 2)))
    else None
  }

  lemma FractionGroupOf(digits: string, z: ZoneText)
    requires |digits| <= 3 && AllDigits(digits) && ZoneTextValid(z)
    ensures FractionGroup(FractionString(digits) + ZoneString(z)) == (FractionOption(digits), ZoneString(z))
  {
    var zs := ZoneString(z);
    assert zs == [] || (!IsDigit(zs[0]) && zs[0] != '.');
    if digits != [] {
      var t := FractionString(digits) + zs;
      assert t == "." + digits + zs;
      assert t[1] == digits[0];
      if |digits| >= 2 { assert t[2] == digits[1]; } else { assert |t| >= 3 ==> t[2] == zs[0]; }
      if |digits| == 3 { assert t[3] == digits[2]; } else if |digits| == 2 { assert |t| >= 4 ==> t[3] == zs[0]; }
      assert t[..|digits| + 1] == "." + digits;
      assert t[|digits| + 1..] == zs;
      assert FractionGroup(t).0 == Some("." + digits);
      assert FractionGroup(t).1 == zs;
      assert FractionGroup(t) == (FractionOption(digits), zs);
    } else {
      assert FractionString(digits) + zs == zs;
    }
  }

  lemma ZoneGroupsOf(z: ZoneText)
    requires ZoneTextValid(z)
    ensures ZoneGroups(ZoneString(z)) == ZoneOption(z)
  {
    if z.Offset? {
      var t := ZoneString(z);
      var hh, mm := PadDigits(z.hours, 2), PadDigits(z.minutes, 2);
      var sep := if z.colon then ":" else "";
      assert t[1..3] == hh;
      assert t[3..] == sep + mm;
      SkipCharBefore(sep, ':', mm);
      assert mm[..2] == mm;
    }
  }

  lemma ValueOfAppendZero(s: string)
    requires AllDigits(s)
    ensures AllDigits(s + "0") && ValueOf(s + "0") == ValueOf(s) * 10
  {
    assert (s + "0")[..|s|] == s;
  }

  lemma FractionMillisOf(digits: string)
    requires 1 <= |digits| <= 3 && AllDigits(digits)
    ensures FractionMillis(Some("." + digits)) == FractionValue(digits)
  {
    var padded := (("." + digits) + "00")[..4];
    if |digits| == 3 {
      assert padded[1..] == digits;
    } else if |digits| == 2 {
      assert padded[1..] == digits + "0";
      ValueOfAppendZero(digits);
    } else {
      assert padded[1..] == (digits + "0") + "0";
      ValueOfAppendZero(digits);
      ValueOfAppendZero(digits + "0");
    }
  }

  /** The value `parse_iso8601str` is meant to compute for a valid stamp. */
  function EpochFormula(y: int, mo: int, d: int, h: int, mi: int, sec: int, millis: int, offset: int): int
    requires 1 <= mo <= 12
  {
    DaysFromCivil(Date(y, mo, d)) * 86400000 + h * 3600000 + mi * 60000 + sec * 1000 + millis
    - offset * 60000
  }

  /** Whole seconds of the stamp shifted to UTC, whose day must lie in `datetime`'s range. */
  function ShiftedSeconds(y: int, mo: int, d: int, h: int, mi: int, sec: int, offset: int): int
    requires 1 <= mo <= 12
  {
    DaysFromCivil(Date(y, mo, d)) * 86400 + h * 3600 + mi * 60 + sec - offset * 60
  }

  /** The text of a stamp with numeric fields, chosen separators, fraction digits and zone. */
  function StampText(y: nat, mo: nat, d: nat, h: nat, mi: nat, sec: nat,
                     dateSep: string, timeSep: string, clockSep: string, digits: string, z: ZoneText): string
    requires ZoneTextValid(z)
  {
    Layout(PadDigits(y, 4), PadDigits(mo, 2), PadDigits(d, 2), dateSep, timeSep,
           PadDigits(h, 2), PadDigits(mi, 2), PadDigits(sec, 2), clockSep,
           FractionString(digits) + ZoneString(z))
  }

  lemma SearchStampText(y: nat, mo: nat, d: nat, h: nat, mi: nat, sec: nat,
                        dateSep: string, timeSep: string, clockSep: string, digits: string, z: ZoneText)
    requires IsDateSeparator(dateSep) && IsDateTimeSeparator(timeSep) && IsClockSeparator(clockSep)
    requires |digits| <= 3 && AllDigits(digits) && ZoneTextValid(z)
    ensures Search(StampText(y, mo, d, h, mi, sec, dateSep, timeSep, clockSep, digits, z))
            == Some(Match(PadDigits(y, 4), PadDigits(mo, 2), PadDigits(d, 2), PadDigits(h, 2),
                          PadDigits(mi, 2), PadDigits(sec, 2), FractionOption(digits), ZoneOption(z)))
  {
    var rest := FractionString(digits) + ZoneString(z);
    MatchStartLayout(PadDigits(y, 4), PadDigits(mo, 2), PadDigits(d, 2), dateSep, timeSep,
                     PadDigits(h, 2), PadDigits(mi, 2), PadDigits(sec, 2), clockSep, rest);
    SearchAtStart(StampText(y, mo, d, h, mi, sec, dateSep, timeSep, clockSep, digits, z));
    FractionGroupOf(digits, z);
    ZoneGroupsOf(z);
  }

  lemma ShiftMinutesOf(z: ZoneText)
    requires ZoneTextValid(z)
    ensures ShiftMinutes(ZoneOption(z)) == -OffsetMinutes(z)
  {
    if z.Offset? {
      assert Pow10(2) == 100;
      ValueOfPadDigits(z.hours, 2);
      ValueOfPadDigits(z.minutes, 2);
    }
  }

  lemma FractionMillisOption(digits: string)
    requires |digits| <= 3 && AllDigits(digits)
    ensures FractionMillis(FractionOption(digits)) == FractionValue(digits)
  {
    if digits == [] {
      var zeros := ((".000" + "00")[..4])[1..];
      assert zeros == "000" && zeros[..2] == "00" && zeros[..2][..1] == "0" && zeros[..2][..1][..0] == [];
      assert ValueOf(zeros[..2][..1]) == 0;
      assert ValueOf(zeros[..2]) == 0;
      assert ValueOf(zeros) == 0;
      assert FractionMillis(None) == ValueOf(zeros);
    } else {
      FractionMillisOf(digits);
    }
  }

  /** `Convert` in terms of the numbers its groups denote. */
  lemma ConvertValues(m: Match, y: nat, mo: nat, d: nat, h: nat, mi: nat, sec: nat, millis: nat, offset: int)
    requires WellFormed(m)
    requires ValueOf(m.year) == y && ValueOf(m.month) == mo && ValueOf(m.day) == d
    requires ValueOf(m.hour) == h && ValueOf(m.minute) == mi && ValueOf(m.second) == sec
    requires FractionMillis(m.fraction) == millis && ShiftMinutes(m.zone) == -offset
    ensures Convert(m) == if StrptimeAccepts(y, mo, d, h, mi, sec)
                             && MinDay <= ShiftedSeconds(y, mo, d, h, mi, sec, offset) / 86400 <= MaxDay
                          then Some(EpochFormula(y, mo, d, h, mi, sec, millis, offset))
                          else None
  {
  }

  lemma ConvertStamp(y: nat, mo: nat, d: nat, h: nat, mi: nat, sec: nat, digits: string, z: ZoneText)
    requires y < 10000 && mo < 100 && d < 100 && h < 100 && mi < 100 && sec < 100
    requires |digits| <= 3 && AllDigits(digits) && ZoneTextValid(z)
    ensures WellFormed(Match(PadDigits(y, 4), PadDigits(mo, 2), PadDigits(d, 2), PadDigits(h, 2),
                             PadDigits(mi, 2), PadDigits(sec, 2), FractionOption(digits), ZoneOption(z)))
    ensures Convert(Match(PadDigits(y, 4), PadDigits(mo, 2), PadDigits(d, 2), PadDigits(h, 2),
                          PadDigits(mi, 2), PadDigits(sec, 2), FractionOption(digits), ZoneOption(z)))
            == if StrptimeAccepts(y, mo, d, h, mi, sec)
                  && MinDay <= ShiftedSeconds(y, mo, d, h, mi, sec, OffsetMinutes(z)) / 86400 <= MaxDay
               then Some(EpochFormula(y, mo, d, h, mi, sec, FractionValue(digits), OffsetMinutes(z)))
               else None
  {
    var m := Match(PadDigits(y, 4), PadDigits(mo, 2), PadDigits(d, 2), PadDigits(h, 2),
                   PadDigits(mi, 2), PadDigits(sec, 2), FractionOption(digits), ZoneOption(z));
    assert WellFormed(m);
    assert Pow10(2) == 100 && Pow10(4) == 10000;
    ValueOfPadDigits(y, 4);
    ValueOfPadDigits(mo, 2);
    ValueOfPadDigits(d, 2);
    ValueOfPadDigits(h, 2);
    ValueOfPadDigits(mi, 2);
    ValueOfPadDigits(sec, 2);
    ShiftMinutesOf(z);
    FractionMillisOption(digits);
    ConvertValues(m, y, mo, d, h, mi, sec, FractionValue(digits), OffsetMinutes(z));
  }

  /** The value a stamp denotes: the formula when strptime accepts the fields and the shifted
      time stays in years 1..9999, the sentinel -1 otherwise. */
  function StampValue(y: nat, mo: nat, d: nat, h: nat, mi: nat, sec: nat, digits: string, z: ZoneText): int
    requires |digits| <= 3 && AllDigits(digits)
  {
    if StrptimeAccepts(y, mo, d, h, mi, sec)
       && MinDay <= ShiftedSeconds(y, mo, d, h, mi, sec, OffsetMinutes(z)) / 86400 <= MaxDay
    then EpochFormula(y, mo, d, h, mi, sec, FractionValue(digits), OffsetMinutes(z))
    else -1
  }

  /** The parser on every layout of a stamp: separators optional, `T`/`t`/whitespace/nothing
      before the time, a 0-3 digit fraction right-padded to milliseconds, `Z`, `z`, no zone and
      `+00:00` all UTC, any two offset digits accepted and the offset subtracted; -1 when
      strptime rejects a field or the shifted time leaves years 1..9999. */
  lemma ParseLayout(y: nat, mo: nat, d: nat, h: nat, mi: nat, sec: nat,
                    dateSep: string, timeSep: string, clockSep: string, digits: string, z: ZoneText)
    requires y < 10000 && mo < 100 && d < 100 && h < 100 && mi < 100 && sec < 100
    requires IsDateSeparator(dateSep) && IsDateTimeSeparator(timeSep) && IsClockSeparator(clockSep)
    requires |digits| <= 3 && AllDigits(digits) && ZoneTextValid(z)
    ensures ParseIso8601(StrArg(StampText(y, mo, d, h, mi, sec, dateSep, timeSep, clockSep, digits, z)))
            == StampValue(y, mo, d, h, mi, sec, digits, z)
  {
    SearchStampText(y, mo, d, h, mi, sec, dateSep, timeSep, clockSep, digits, z);
    ConvertStamp(y, mo, d, h, mi, sec, digits, z);
  }

  // ---------------------------------------------------------------------------
  // Consequences for the spellings the docstring promises

  /** Basic and extended layouts, and every date-time separator, give the same value. */
  lemma SeparatorsDoNotMatter(y: nat, mo: nat, d: nat, h: nat, mi: nat, sec: nat,
                              dateSep: string, timeSep: string, clockSep: string, digits: string, z: ZoneText)
    requires y < 10000 && mo < 100 && d < 100 && h < 100 && mi < 100 && sec < 100
    requires IsDateSeparator(dateSep) && IsDateTimeSeparator(timeSep) && IsClockSeparator(clockSep)
    requires |digits| <= 3 && AllDigits(digits) && ZoneTextValid(z)
    ensures ParseIso8601(StrArg(StampText(y, mo, d, h, mi, sec, dateSep, timeSep, clockSep, digits, z)))
            == ParseIso8601(StrArg(StampText(y, mo, d, h, mi, sec, "-", "T", ":", digits, z)))
  {
    ParseLayout(y, mo, d, h, mi, sec, dateSep, timeSep, clockSep, digits, z);
    ParseLayout(y, mo, d, h, mi, sec, "-", "T", ":", digits, z);
  }

  /** `Z`, `z`, `+00:00`, `-0000` and no zone at all are the same instant. */
  lemma UtcSpellings(y: nat, mo: nat, d: nat, h: nat, mi: nat, sec: nat, digits: string)
    requires y < 10000 && mo < 100 && d < 100 && h < 100 && mi < 100 && sec < 100
    requires |digits| <= 3 && AllDigits(digits)
    ensures var v := ParseIso8601(StrArg(StampText(y, mo, d, h, mi, sec, "-", "T", ":", digits, NoZone)));
            && ParseIso8601(StrArg(StampText(y, mo, d, h, mi, sec, "-", "T", ":", digits, Zulu(true)))) == v
            && ParseIso8601(StrArg(StampText(y, mo, d, h, mi, sec, "-", "T", ":", digits, Zulu(false)))) == v
            && ParseIso8601(StrArg(StampText(y, mo, d, h, mi, sec, "-", "T", ":", digits, Offset(true, 0, 0, true)))) == v
            && ParseIso8601(StrArg(StampText(y, mo, d, h, mi, sec, "-", "T", ":", digits, Offset(false, 0, 0, false)))) == v
  {
    ParseLayout(y, mo, d, h, mi, sec, "-", "T", ":", digits, NoZone);
    ParseLayout(y, mo, d, h, mi, sec, "-", "T", ":", digits, Zulu(true));
    ParseLayout(y, mo, d, h, mi, sec, "-", "T", ":", digits, Zulu(false));
    ParseLayout(y, mo, d, h, mi, sec, "-", "T", ":", digits, Offset(true, 0, 0, true));
    ParseLayout(y, mo, d, h, mi, sec, "-", "T", ":", digits, Offset(false, 0, 0, false));
  }

  /** The formula is whole shifted seconds in milliseconds plus the fraction. */
  lemma EpochFormulaSeconds(y: int, mo: int, d: int, h: int, mi: int, sec: int, millis: int, offset: int)
    requires 1 <= mo <= 12
    ensures EpochFormula(y, mo, d, h, mi, sec, millis, offset)
            == ShiftedSeconds(y, mo, d, h, mi, sec, offset) * 1000 + millis
  {
  }

  /** A fraction of one to three digits adds its right-padded value in milliseconds
      (`.5` is 500, `.12` is 120) to the whole-second value, and fails exactly when that fails. */
  lemma FractionAddsMilliseconds(y: nat, mo: nat, d: nat, h: nat, mi: nat, sec: nat,
                                 digits: string, z: ZoneText)
    requires y < 10000 && mo < 100 && d < 100 && h < 100 && mi < 100 && sec < 100
    requires |digits| <= 3 && AllDigits(digits) && ZoneTextValid(z)
    ensures var whole := ParseIso8601(StrArg(StampText(y, mo, d, h, mi, sec, "-", "T", ":", "", z)));
            ParseIso8601(StrArg(StampText(y, mo, d, h, mi, sec, "-", "T", ":", digits, z)))
            == if whole == -1 then -1 else whole + FractionValue(digits)
  {
    ParseLayout(y, mo, d, h, mi, sec, "-", "T", ":", "", z);
    ParseLayout(y, mo, d, h, mi, sec, "-", "T", ":", digits, z);
    StampValueFraction(y, mo, d, h, mi, sec, digits, z);
  }

  lemma StampValueFraction(y: nat, mo: nat, d: nat, h: nat, mi: nat, sec: nat, digits: string, z: ZoneText)
    requires |digits| <= 3 && AllDigits(digits)
    ensures var whole := StampValue(y, mo, d, h, mi, sec, "", z);
            StampValue(y, mo, d, h, mi, sec, digits, z) == if whole == -1 then -1 else whole + FractionValue(digits)
  {
    assert FractionValue("") == 0;
    if StrptimeAccepts(y, mo, d, h, mi, sec) {
      EpochFormulaSeconds(y, mo, d, h, mi, sec, 0, OffsetMinutes(z));
      EpochFormulaSeconds(y, mo, d, h, mi, sec, FractionValue(digits), OffsetMinutes(z));
    }
  }

  /** `.5` is 500 ms, `.12` is 120 ms, `.123` is 123 ms. */
  lemma FractionPadding()
    ensures FractionValue("5") == 500 && FractionValue("12") == 120 && FractionValue("123") == 123
  {
    assert "12"[..1] == "1";
    assert "123"[..2] == "12" && "123"[..2][..1] == "1";
  }

  /** Two extended-layout stamps with the same value parse to the same result. */
  lemma SameValueSameParse(y: nat, mo: nat, d: nat, h: nat, mi: nat, sec: nat, digits: string, z: ZoneText,
                           y': nat, mo': nat, d': nat, h': nat, mi': nat, sec': nat, digits': string, z': ZoneText)
    requires y < 10000 && mo < 100 && d < 100 && h < 100 && mi < 100 && sec < 100
    requires y' < 10000 && mo' < 100 && d' < 100 && h' < 100 && mi' < 100 && sec' < 100
    requires |digits| <= 3 && AllDigits(digits) && ZoneTextValid(z)
    requires |digits'| <= 3 && AllDigits(digits') && ZoneTextValid(z')
    requires StampValue(y, mo, d, h, mi, sec, digits, z) == StampValue(y', mo', d', h', mi', sec', digits', z')
    ensures ParseIso8601(StrArg(StampText(y, mo, d, h, mi, sec, "-", "T", ":", digits, z)))
            == ParseIso8601(StrArg(StampText(y', mo', d', h', mi', sec', "-", "T", ":", digits', z')))
  {
    ParseLayout(y, mo, d, h, mi, sec, "-", "T", ":", digits, z);
    ParseLayout(y', mo', d', h', mi', sec', "-", "T", ":", digits', z');
  }

  /** The offset is applied to the local time: a `+HH:MM` offset is subtracted and a `-HH:MM`
      offset added (12:00+02:00 is 10:00Z, 12:00-05:30 is 17:30Z), whenever the UTC time falls
      on the same day. */
  lemma OffsetIsApplied(y: nat, mo: nat, d: nat, h: nat, mi: nat, sec: nat, digits: string, z: ZoneText,
                        utcHour: nat, utcMinute: nat)
    requires y < 10000 && StrptimeAccepts(y, mo, d, h, mi, sec) && ZoneTextValid(z)
    requires |digits| <= 3 && AllDigits(digits)
    requires utcHour <= 23 && utcMinute <= 59 && utcHour * 60 + utcMinute == h * 60 + mi - OffsetMinutes(z)
    ensures ParseIso8601(StrArg(StampText(y, mo, d, h, mi, sec, "-", "T", ":", digits, z)))
            == ParseIso8601(StrArg(StampText(y, mo, d, utcHour, utcMinute, sec, "-", "T", ":", digits, Zulu(true))))
  {
    StampValueOffset(y, mo, d, h, mi, sec, digits, z, utcHour, utcMinute);
    StampValueUtc(y, mo, d, utcHour, utcMinute, sec, digits, Zulu(true));
    SameValueSameParse(y, mo, d, h, mi, sec, digits, z, y, mo, d, utcHour, utcMinute, sec, digits, Zulu(true));
  }

  /** Moving the clock by the offset and dropping the offset keeps the value. */
  lemma StampValueOffset(y: nat, mo: nat, d: nat, h: nat, mi: nat, sec: nat, digits: string, z: ZoneText,
                         utcHour: nat, utcMinute: nat)
    requires StrptimeAccepts(y, mo, d, h, mi, sec) && |digits| <= 3 && AllDigits(digits)
    requires utcHour <= 23 && utcMinute <= 59
    requires utcHour * 60 + utcMinute == h * 60 + mi - OffsetMinutes(z)
    ensures StampValue(y, mo, d, h, mi, sec, digits, z) == StampValue(y, mo, d, utcHour, utcMinute, sec, digits, NoZone)
  {
    EpochFormulaSeconds(y, mo, d, h, mi, sec, FractionValue(digits), OffsetMinutes(z));
    EpochFormulaSeconds(y, mo, d, utcHour, utcMinute, sec, FractionValue(digits), 0);
  }

  /** Fields strptime rejects (month 13, 30 February, hour 24, second 60) give -1. */
  lemma RejectedFields(y: nat, mo: nat, d: nat, h: nat, mi: nat, sec: nat,
                       dateSep: string, timeSep: string, clockSep: string, digits: string, z: ZoneText)
    requires y < 10000 && mo < 100 && d < 100 && h < 100 && mi < 100 && sec < 100
    requires IsDateSeparator(dateSep) && IsDateTimeSeparator(timeSep) && IsClockSeparator(clockSep)
    requires |digits| <= 3 && AllDigits(digits) && ZoneTextValid(z)
    requires y == 0 || mo == 0 || mo > 12 || d == 0 || d > DaysInMonth(y, mo) || h > 23 || mi > 59 || sec > 59
    ensures ParseIso8601(StrArg(StampText(y, mo, d, h, mi, sec, dateSep, timeSep, clockSep, digits, z))) == -1
  {
    ParseLayout(y, mo, d, h, mi, sec, dateSep, timeSep, clockSep, digits, z);
  }

  /** On 9999-12-31 a negative offset that carries past midnight overflows `datetime`: -1. */
  lemma LastDayOverflow(h: nat, mi: nat, sec: nat, digits: string, hh: nat, mm: nat, colon: bool)
    requires h <= 23 && mi <= 59 && sec <= 59 && hh < 100 && mm < 100
    requires |digits| <= 3 && AllDigits(digits)
    requires h * 60 + mi + hh * 60 + mm >= 1440
    ensures ParseIso8601(StrArg(StampText(9999, 12, 31, h, mi, sec, "-", "T", ":", digits, Offset(false, hh, mm, colon)))) == -1
  {
    CalendarAnchors();
    ParseLayout(9999, 12, 31, h, mi, sec, "-", "T", ":", digits, Offset(false, hh, mm, colon));
  }

  /** On 0001-01-01 a positive offset that reaches back before midnight underflows: -1. */
  lemma FirstDayUnderflow(h: nat, mi: nat, sec: nat, digits: string, hh: nat, mm: nat, colon: bool)
    requires h <= 23 && mi <= 59 && sec <= 59 && hh < 100 && mm < 100
    requires |digits| <= 3 && AllDigits(digits)
    requires h * 60 + mi < hh * 60 + mm
    ensures ParseIso8601(StrArg(StampText(1, 1, 1, h, mi, sec, "-", "T", ":", digits, Offset(true, hh, mm, colon)))) == -1
  {
    CalendarAnchors();
    ParseLayout(1, 1, 1, h, mi, sec, "-", "T", ":", digits, Offset(true, hh, mm, colon));
  }

  /** The sentinel is ambiguous: one millisecond before the epoch also parses to -1. */
  lemma SentinelAmbiguity(upper: bool)
    ensures ParseIso8601(StrArg(StampText(1969, 12, 31, 23, 59, 59, "-", "T", ":", "999", Zulu(upper)))) == -1
  {
    ParseLayout(1969, 12, 31, 23, 59, 59, "-", "T", ":", "999", Zulu(upper));
    BeforeEpochValue();
    StampValueUtc(1969, 12, 31, 23, 59, 59, "999", Zulu(upper));
  }

  lemma BeforeEpochValue()
    ensures StampValue(1969, 12, 31, 23, 59, 59, "999", NoZone) == -1
  {
    LastSecondBeforeEpoch();
    NinesFraction();
    EpochFormulaSeconds(1969, 12, 31, 23, 59, 59, 999, 0);
  }

  lemma LastSecondBeforeEpoch()
    ensures ShiftedSeconds(1969, 12, 31, 23, 59, 59, 0) == -1
  {
    assert DaysFromCivil(Date(1969, 12, 31)) == -1;
  }

  lemma NinesFraction()
    ensures FractionValue("999") == 999
  {
    assert "999"[..2] == "99" && "999"[..2][..1] == "9";
  }

  /** `Z`, `z` and no zone denote the same value. */
  lemma StampValueUtc(y: nat, mo: nat, d: nat, h: nat, mi: nat, sec: nat, digits: string, z: ZoneText)
    requires |digits| <= 3 && AllDigits(digits) && OffsetMinutes(z) == 0
    ensures StampValue(y, mo, d, h, mi, sec, digits, z) == StampValue(y, mo, d, h, mi, sec, digits, NoZone)
  {
  }

  lemma LongFractionGroups(digits: string, more: string)
    requires |digits| == 3 && AllDigits(digits) && more != [] && IsDigit(more[0])
    ensures FractionGroup("." + digits + more) == (FractionOption(digits), more)
    ensures ZoneGroups(more).None?
  {
    var rest := "." + digits + more;
    assert rest[..4] == "." + digits && rest[4..] == more;
  }

  lemma SameSearchSameParse(s: string, t: string)
    requires Search(s) == Search(t)
    ensures ParseIso8601(StrArg(s)) == ParseIso8601(StrArg(t))
  {
  }

  /** More than three fraction digits end the fraction group after three and leave no
      room for the zone, so the zone is ignored. */
  lemma LongFractionDropsZone(y: nat, mo: nat, d: nat, h: nat, mi: nat, sec: nat,
                              dateSep: string, timeSep: string, clockSep: string, digits: string, more: string)
    requires IsDateSeparator(dateSep) && IsDateTimeSeparator(timeSep) && IsClockSeparator(clockSep)
    requires |digits| == 3 && AllDigits(digits) && more != [] && IsDigit(more[0])
    ensures ParseIso8601(StrArg(Layout(PadDigits(y, 4), PadDigits(mo, 2), PadDigits(d, 2), dateSep, timeSep,
                                       PadDigits(h, 2), PadDigits(mi, 2), PadDigits(sec, 2), clockSep,
                                       "." + digits + more)))
            == ParseIso8601(StrArg(StampText(y, mo, d, h, mi, sec, dateSep, timeSep, clockSep, digits, NoZone)))
  {
    var s := Layout(PadDigits(y, 4), PadDigits(mo, 2), PadDigits(d, 2), dateSep, timeSep,
                    PadDigits(h, 2), PadDigits(mi, 2), PadDigits(sec, 2), clockSep, "." + digits + more);
    LongFractionGroups(digits, more);
    MatchStartLayout(PadDigits(y, 4), PadDigits(mo, 2), PadDigits(d, 2), dateSep, timeSep,
                     PadDigits(h, 2), PadDigits(mi, 2), PadDigits(sec, 2), clockSep, "." + digits + more);
    SearchAtStart(s);
    SearchStampText(y, mo, d, h, mi, sec, dateSep, timeSep, clockSep, digits, NoZone);
    SameSearchSameParse(s, StampText(y, mo, d, h, mi, sec, dateSep, timeSep, clockSep, digits, NoZone));
  }

  lemma NoMatchAtNonDigit(t: string)
    requires t != [] && !IsDigit(t[0])
    ensures MatchStart(t).None?
  {
    if |t| >= 4 {
      assert t[..4][0] == t[0];
    }
  }

  lemma {:induction false} SearchDigitFreePrefix(prefix: string, s: string)
    requires forall i :: 0 <= i < |prefix| ==> !IsDigit(prefix[i])
    ensures Search(prefix + s) == Search(s)
  {
    if prefix != [] {
      var t := prefix + s;
      NoMatchAtNonDigit(t);
      assert t[1..] == prefix[1..] + s;
      SearchDigitFreePrefix(prefix[1..], s);
    } else {
      assert prefix + s == s;
    }
  }

  /** The search is not anchored: text without digits in front of a stamp changes nothing. */
  lemma DigitFreePrefix(prefix: string, s: string)
    requires forall i :: 0 <= i < |prefix| ==> !IsDigit(prefix[i])
    ensures ParseIso8601(StrArg(prefix + s)) == ParseIso8601(StrArg(s))
  {
    SearchDigitFreePrefix(prefix, s);
    SameSearchSameParse(prefix + s, s);
  }

  lemma MatchStartLength(t: string)
    requires MatchStart(t).Some?
    ensures |t| >= 14
  {
    var t1 := SkipChar(t[4..], '-');
    var t2 := SkipChar(t1[2..], '-');
    var t3 := SkipTimeSeparator(t2[2..]);
    var t4 := SkipChar(t3[2..], ':');
    var t5 := SkipChar(t4[2..], ':');
    assert |t5| >= 2 && |t4| >= |t5| + 2 && |t3| >= |t4| + 2 && |t2| >= |t3| + 2 && |t1| >= |t2| + 2;
  }

  /** A stamp needs fourteen digits, so shorter text such as `"not-a-date"` or a bare date
      `"2021-06-15"` gives -1. */
  lemma ShortTextRejected(s: string)
    requires |s| < 14
    ensures ParseIso8601(StrArg(s)) == -1
  {
    if Search(s).Some? {
      var k :| 0 <= k <= |s| && MatchStart(s[k..]) == Search(s);
      MatchStartLength(s[k..]);
    }
  }

  /** The text `to_iso8601str` renders, read as a layout. */
  lemma FormattedLayout(ms: int)
    requires InDatetimeRange(ms)
    ensures var seconds := ms / 1000;
            var date := CivilFromDays(seconds / 86400);
            var secondOfDay := seconds % 86400;
            var millis := ms % 1000;
            FormatIso8601(ms).value
            == Layout(PadDigits(date.year, 4), PadDigits(date.month, 2), PadDigits(date.day, 2), "-", "T",
                      PadDigits(secondOfDay / 3600, 2), PadDigits(secondOfDay % 3600 / 60, 2),
                      PadDigits(secondOfDay % 60, 2), ":",
                      if millis == 0 then "+00:00" else "." + PadDigits(millis, 3) + "000+00:00")
  {
    FractionSuffix(ms % 1000);
  }

  /** Six-digit microseconds of a whole millisecond are its three digits and "000". */
  lemma FractionSuffix(millis: nat)
    ensures (if millis * 1000 != 0 then "." + PadDigits(millis * 1000, 6) else "") + "+00:00"
            == if millis == 0 then "+00:00" else "." + PadDigits(millis, 3) + "000+00:00"
  {
    PadDigitsThousands(millis);
    if millis != 0 {
      assert ("." + PadDigits(millis * 1000, 6)) + "+00:00" == "." + PadDigits(millis, 3) + "000+00:00";
    } else {
      assert "" + "+00:00" == "+00:00";
    }
  }

  /** The instant of a formatted text: its day count, clock and milliseconds add back up to `ms`. */
  lemma FormattedFields(ms: int)
    requires InDatetimeRange(ms)
    ensures var seconds := ms / 1000;
            var days := seconds / 86400;
            var date := CivilFromDays(days);
            var secondOfDay := seconds % 86400;
            && 1 <= date.year <= 9999
            && StrptimeAccepts(date.year, date.month, date.day, secondOfDay / 3600, secondOfDay % 3600 / 60, secondOfDay % 60)
            && ShiftedSeconds(date.year, date.month, date.day, secondOfDay / 3600, secondOfDay % 3600 / 60, secondOfDay % 60, 0) == seconds
            && MinDay <= days <= MaxDay
  {
    var seconds := ms / 1000;
    var days := seconds / 86400;
    CivilFromDaysRoundTrip(days);
    YearOfDayInRange(days);
    ClockDigits(seconds % 86400);
  }

  /** The value of the stamp a formatted text spells out is `ms` again. */
  lemma FormattedValue(ms: int)
    requires InDatetimeRange(ms)
    ensures var seconds, millis := ms / 1000, ms % 1000;
            var date := CivilFromDays(seconds / 86400);
            var secondOfDay := seconds % 86400;
            var h, mi, sec := secondOfDay / 3600, secondOfDay % 3600 / 60, secondOfDay % 60;
            && StampValue(date.year, date.month, date.day, h, mi, sec, "", Offset(true, 0, 0, true)) == ms - millis
            && StampValue(date.year, date.month, date.day, h, mi, sec, PadDigits(millis, 3), NoZone) == ms
  {
    var seconds, millis := ms / 1000, ms % 1000;
    var date := CivilFromDays(seconds / 86400);
    var secondOfDay := seconds % 86400;
    var h, mi, sec := secondOfDay / 3600, secondOfDay % 3600 / 60, secondOfDay % 60;
    FormattedFields(ms);
    assert FractionValue("") == 0;
    assert FractionValue(PadDigits(millis, 3)) == millis by {
      assert Pow10(3) == 1000;
      ValueOfPadDigits(millis, 3);
    }
    UtcStampValue(date.year, date.month, date.day, h, mi, sec, "", Offset(true, 0, 0, true), seconds);
    UtcStampValue(date.year, date.month, date.day, h, mi, sec, PadDigits(millis, 3), NoZone, seconds);
    DivModUnique(ms, 1000, seconds, millis);
  }

  /** The value of an accepted stamp in UTC whose whole seconds are `seconds`. */
  lemma UtcStampValue(y: nat, mo: nat, d: nat, h: nat, mi: nat, sec: nat, digits: string, z: ZoneText,
                      seconds: int)
    requires |digits| <= 3 && AllDigits(digits) && OffsetMinutes(z) == 0
    requires StrptimeAccepts(y, mo, d, h, mi, sec)
    requires ShiftedSeconds(y, mo, d, h, mi, sec, 0) == seconds && MinDay <= seconds / 86400 <= MaxDay
    ensures StampValue(y, mo, d, h, mi, sec, digits, z) == seconds * 1000 + FractionValue(digits)
  {
    EpochFormulaSeconds(y, mo, d, h, mi, sec, FractionValue(digits), 0);
  }

  /** `parse_iso8601str(to_iso8601str(ms)) == ms` for every instant `datetime` can render. */
  lemma FormatThenParse(ms: int)
    requires InDatetimeRange(ms)
    ensures ParseIso8601(StrArg(FormatIso8601(ms).value)) == ms
  {
    var seconds, millis := ms / 1000, ms % 1000;
    var date := CivilFromDays(seconds / 86400);
    var secondOfDay := seconds % 86400;
    var h, mi, sec := secondOfDay / 3600, secondOfDay % 3600 / 60, secondOfDay % 60;
    FormattedLayout(ms);
    FormattedValue(ms);
    FormattedFields(ms);
    if millis == 0 {
      ParseWholeSecondText(date.year, date.month, date.day, h, mi, sec);
    } else {
      ParseLongFraction(date.year, date.month, date.day, h, mi, sec, PadDigits(millis, 3), "000+00:00");
    }
  }

  /** The text `to_iso8601str` renders for a whole second. */
  lemma ParseWholeSecondText(y: nat, mo: nat, d: nat, h: nat, mi: nat, sec: nat)
    requires y < 10000 && mo < 100 && d < 100 && h < 100 && mi < 100 && sec < 100
    ensures ParseIso8601(StrArg(Layout(PadDigits(y, 4), PadDigits(mo, 2), PadDigits(d, 2), "-", "T",
                                       PadDigits(h, 2), PadDigits(mi, 2), PadDigits(sec, 2), ":", "+00:00")))
            == StampValue(y, mo, d, h, mi, sec, "", Offset(true, 0, 0, true))
  {
    var z := Offset(true, 0, 0, true);
    assert ZoneString(z) == "+00:00";
    assert FractionString("") + ZoneString(z) == "+00:00";
    ParseLayout(y, mo, d, h, mi, sec, "-", "T", ":", "", z);
  }

  /** Text with more than three fraction digits denotes the stamp of its first three
      digits, whatever follows them. */
  lemma ParseLongFraction(y: nat, mo: nat, d: nat, h: nat, mi: nat, sec: nat, digits: string, more: string)
    requires y < 10000 && mo < 100 && d < 100 && h < 100 && mi < 100 && sec < 100
    requires |digits| == 3 && AllDigits(digits) && more != [] && IsDigit(more[0])
    ensures ParseIso8601(StrArg(Layout(PadDigits(y, 4), PadDigits(mo, 2), PadDigits(d, 2), "-", "T",
                                       PadDigits(h, 2), PadDigits(mi, 2), PadDigits(sec, 2), ":",
                                       "." + digits + more)))
            == StampValue(y, mo, d, h, mi, sec, digits, NoZone)
  {
    LongFractionDropsZone(y, mo, d, h, mi, sec, "-", "T", ":", digits, more);
    ParseLayout(y, mo, d, h, mi, sec, "-", "T", ":", digits, NoZone);
  }

  /** A second of the day splits into hours, minutes and seconds that fit their fields. */
  lemma ClockDigits(secondOfDay: int)
    requires 0 <= secondOfDay < 86400
    ensures secondOfDay / 3600 <= 23 && secondOfDay % 3600 / 60 <= 59
    ensures secondOfDay == secondOfDay / 3600 * 3600 + secondOfDay % 3600 / 60 * 60 + secondOfDay % 60
  {
    var r := secondOfDay % 3600;
    assert secondOfDay == secondOfDay / 3600 * 3600 + r;
    assert r == r / 60 * 60 + r % 60;
    assert secondOfDay % 60 == r % 60;
  }
}
