/** The duration and index helpers of pandasutils/timeutil.py: total seconds of a duration, the
    greedy duration-to-label formatter `timedelta2freq`, the minute-label rewrite `replace_m2min`
    and the fixed-step completion of a time index `complete_timeindex`. */
module TimeUtil {
  import opened Common
  import opened Text
  import opened Frames

  /** The duration kinds `timedelta2s` accepts, each with its total number of seconds,
      and everything else. */
  datatype Duration =
    | PyTimedelta(seconds: int)
    | PandasTimedelta(seconds: int)
    | NumpyTimedelta64(seconds: int)
    | NotADuration

  /** `timedelta2s`: the total seconds of any of the three duration kinds; a `TypeError` otherwise. */
  function TimedeltaToSeconds(d: Duration): (r: Result<int>)
    ensures r.Err? <==> d.NotADuration?
    ensures r.Err? ==> r.error == TypeError
    ensures r.Ok? ==> r.value == d.seconds
  {
    if d.NotADuration? then Err(TypeError) else Ok(d.seconds)
  }

  /** A unit table: the items of a `dict[int, str]` from a number of seconds to a label, in order. */
  type UnitTable = seq<(int, string)>

  predicate NoZeroUnit(units: UnitTable)
  {
    forall j :: 0 <= j < |units| ==> units[j].0 != 0
  }

  predicate PositiveUnits(units: UnitTable)
  {
    forall j :: 0 <= j < |units| ==> units[j].0 > 0
  }

  /** The table a `TimeFrameStr` starts with: a year of 365 days, a week, a day, an hour,
      a minute and a second. */
  const YearSeconds := 365 * 24 * 60 * 60
  const WeekSeconds := 7 * 24 * 60 * 60
  const DaySeconds := 24 * 60 * 60
  const HourSeconds := 60 * 60
  const MinuteSeconds := 60
  const SecondSeconds := 1

  function DefaultUnits(): (units: UnitTable)
    ensures PositiveUnits(units)
  {
    [(YearSeconds, "Y"), (WeekSeconds, "W"), (DaySeconds, "d"),
     (HourSeconds, "h"), (MinuteSeconds, "m"), (SecondSeconds, "s")]
  }

  /** One emitted part of a label: `count` whole units of `unit` seconds, written `<count><label>`. */
  datatype Piece = Piece(count: nat, unit: int, name: string)

  /** The seconds the loop of `timedelta2freq` has left after walking `units` from `seconds`:
      a unit whose quotient is positive reduces the remainder modulo the unit. */
  function Leftover(seconds: int, units: UnitTable): int
    requires NoZeroUnit(units)
  {
    if units == [] then seconds
    else
      var before := Leftover(seconds, units[..|units| - 1]);
      var sec := units[|units| - 1].0;
      if FloorDiv(before, sec) > 0 then FloorMod(before, sec) else before
  }

  /** The parts the loop emits while walking `units` from `seconds`, in order. */
  function Pieces(seconds: int, units: UnitTable): (ps: seq<Piece>)
    requires NoZeroUnit(units)
    ensures |ps| <= |units|
    ensures forall k :: 0 <= k < |ps| ==> ps[k].count > 0
  {
    if units == [] then []
    else
      var init := units[..|units| - 1];
      var before := Leftover(seconds, init);
      var sec := units[|units| - 1].0;
      var q := FloorDiv(before, sec);
      Pieces(seconds, init) + (if q > 0 then [Piece(q, sec, units[|units| - 1].1)] else [])
  }

  /** The label the parts spell: each part's count in decimal followed by its unit label. */
  function Render(ps: seq<Piece>): string
  {
    if ps == [] then "" else Render(ps[..|ps| - 1]) + Decimal(ps[|ps| - 1].count) + ps[|ps| - 1].name
  }

  /** The seconds the parts account for. */
  function Total(ps: seq<Piece>): int
  {
    if ps == [] then 0 else Total(ps[..|ps| - 1]) + ps[|ps| - 1].count * ps[|ps| - 1].unit
  }

  /** The position of the first zero unit, where `seconds // 0` fails. */
  function FirstZero(units: UnitTable): (z: nat)
    requires !NoZeroUnit(units)
    ensures z < |units| && units[z].0 == 0 && NoZeroUnit(units[..z])
  {
    if units[0].0 == 0 then 0
    else
      var z := FirstZero(units[1..]);
      assert units[..z + 1] == [units[0]] + units[1..][..z];
      z + 1
  }

  /** The first zero unit is the one that follows a zero-free prefix. */
  lemma FirstZeroAt(units: UnitTable, i: nat)
    requires i < |units| && NoZeroUnit(units[..i]) && units[i].0 == 0
    ensures FirstZero(units) == i
  {
  }

  /** What dividing `remaining` by a zero unit raises. A Python float raises `ZeroDivisionError`;
      the `numpy.float64` that a `timedelta64` converts to yields an infinity (which `int` refuses
      with `OverflowError`) or, for zero, a NaN (which `int` refuses with `ValueError`). */
  function ZeroUnitError(delta: Duration, remaining: int): PyError
  {
    if !delta.NumpyTimedelta64? then ZeroDivisionError
    else if remaining == 0 then ValueError
    else OverflowError
  }

  /** `timedelta2freq(delta, units)` stated on the whole table at once. */
  function Freq(delta: Duration, units: UnitTable): Result<string>
  {
    match TimedeltaToSeconds(delta)
    case Err(e) => Err(e)
    case Ok(seconds) =>
      if NoZeroUnit(units) then Ok(Render(Pieces(seconds, units)))
      else
        var z := FirstZero(units);
        Err(ZeroUnitError(delta, Leftover(seconds, units[..z])))
  }

  /** `timedelta2freq`: walks the unit table in order, appending `<q><label>` for every unit whose
      quotient `q = remaining // sec` is positive and then keeping `remaining % sec`. */
  method TimedeltaToFreq(delta: Duration, secondsUnit: UnitTable) returns (r: Result<string>)
    ensures r == Freq(delta, secondsUnit)
  {
    var conv := TimedeltaToSeconds(delta);
    if conv.Err? {
      return Err(conv.error);
    }
    var total := conv.value;
    ghost var spec := Freq(delta, secondsUnit);
    assert NoZeroUnit(secondsUnit) ==> spec == Ok(Render(Pieces(total, secondsUnit)));
    assert !NoZeroUnit(secondsUnit) ==>
      spec == Err(ZeroUnitError(delta, Leftover(total, secondsUnit[..FirstZero(secondsUnit)])));
    var seconds := total;
    var result := "";
    var i: nat := 0;
    while i < |secondsUnit|
      invariant i <= |secondsUnit|
      invariant NoZeroUnit(secondsUnit[..i])
      invariant seconds == Leftover(total, secondsUnit[..i])
      invariant result == Render(Pieces(total, secondsUnit[..i]))
    {
      var sec, unit := secondsUnit[i].0, secondsUnit[i].1;
      if sec == 0 {
        FirstZeroAt(secondsUnit, i);
        return Err(ZeroUnitError(delta, seconds));
      }
      var value := FloorDiv(seconds, sec);
      UnitStep(total, secondsUnit, i, seconds, result);
      if value > 0 {
        result := result + (Decimal(value) + unit);
        seconds := FloorMod(seconds, sec);
      }
      i := i + 1;
    }
    assert secondsUnit[..i] == secondsUnit;
    return Ok(result);
  }

  /** The parts and the final remainder account for every second of the input. */
  lemma {:induction false} Conservation(seconds: int, units: UnitTable)
    requires NoZeroUnit(units)
    ensures Total(Pieces(seconds, units)) + Leftover(seconds, units) == seconds
  {
    if units != [] {
      var init := units[..|units| - 1];
      assert NoZeroUnit(init);
      Conservation(seconds, init);
      var ps := Pieces(seconds, init);
      var before := Leftover(seconds, init);
      var sec := units[|units| - 1].0;
      var q := FloorDiv(before, sec);
      if q > 0 {
        var p := Piece(q, sec, units[|units| - 1].1);
        assert (ps + [p])[..|ps|] == ps;
        assert Total(ps + [p]) == Total(ps) + q * sec;
      } else {
        assert ps + [] == ps;
      }
    }
  }

  /** With positive units, what remains is below every unit of the table, never more than the
      input, and not negative for a non-negative input. */
  lemma {:induction false} LeftoverBelowUnits(seconds: int, units: UnitTable)
    requires PositiveUnits(units)
    ensures Leftover(seconds, units) <= seconds
    ensures seconds >= 0 ==> Leftover(seconds, units) >= 0
    ensures forall j :: 0 <= j < |units| ==> Leftover(seconds, units) < units[j].0
  {
    if units != [] {
      var init := units[..|units| - 1];
      assert PositiveUnits(init);
      LeftoverBelowUnits(seconds, init);
      forall j | 0 <= j < |units| - 1
        ensures Leftover(seconds, units) < units[j].0
      {
        assert init[j] == units[j];
      }
    }
  }

  /** With positive units, a zero or negative duration emits nothing: the label is empty. */
  lemma {:induction false} NonPositiveEmitsNothing(seconds: int, units: UnitTable)
    requires PositiveUnits(units) && seconds <= 0
    ensures Pieces(seconds, units) == []
    ensures Leftover(seconds, units) == seconds
    ensures Render(Pieces(seconds, units)) == ""
  {
    if units != [] {
      var init := units[..|units| - 1];
      assert PositiveUnits(init);
      NonPositiveEmitsNothing(seconds, init);
    }
  }

  /** A zero or negative duration of any kind gives the empty label over a positive table. */
  lemma NonPositiveFreq(delta: Duration, units: UnitTable)
    requires !delta.NotADuration? && delta.seconds <= 0 && PositiveUnits(units)
    ensures Freq(delta, units) == Ok("")
  {
    NonPositiveEmitsNothing(delta.seconds, units);
  }

  /** Every emitted count is the quotient of what was left by its unit, so, over a positive
      table and a non-negative duration, the parts never exceed the input. */
  lemma TotalBounded(seconds: int, units: UnitTable)
    requires PositiveUnits(units) && seconds >= 0
    ensures 0 <= seconds - Total(Pieces(seconds, units)) < (if units == [] then seconds + 1 else units[|units| - 1].0)
  {
    Conservation(seconds, units);
    LeftoverBelowUnits(seconds, units);
    if units == [] {
      assert Leftover(seconds, units) == seconds;
    }
  }

  /** The text one unit contributes: `<q><label>` for a positive quotient, nothing otherwise. */
  function Emitted(q: int, name: string): string
  {
    if q > 0 then Decimal(q) + name else ""
  }

  /** Appending a unit to the table appends what that unit contributes to the label, and
      divides what is left by it when its quotient is positive. */
  lemma {:induction false} AppendUnit(seconds: int, init: UnitTable, sec: int, name: string)
    requires NoZeroUnit(init) && sec != 0
    ensures NoZeroUnit(init + [(sec, name)])
    ensures var before := Leftover(seconds, init);
      && Leftover(seconds, init + [(sec, name)]) == (if FloorDiv(before, sec) > 0 then FloorMod(before, sec) else before)
      && Render(Pieces(seconds, init + [(sec, name)])) == Render(Pieces(seconds, init)) + Emitted(FloorDiv(before, sec), name)
  {
    var units := init + [(sec, name)];
    assert units[..|units| - 1] == init;
    var ps := Pieces(seconds, init);
    var q := FloorDiv(Leftover(seconds, init), sec);
    if q > 0 {
      var p := Piece(q, sec, name);
      assert (ps + [p])[..|ps|] == ps;
    } else {
      assert ps + [] == ps;
    }
  }

  /** One more step of the loop of `timedelta2freq`: from the remainder and label after the first
      `i` units to those after `i + 1`. */
  lemma UnitStep(total: int, units: UnitTable, i: nat, seconds: int, result: string)
    requires i < |units| && NoZeroUnit(units[..i]) && units[i].0 != 0
    requires seconds == Leftover(total, units[..i]) && result == Render(Pieces(total, units[..i]))
    ensures NoZeroUnit(units[..i + 1])
    ensures var q := FloorDiv(seconds, units[i].0);
      && Leftover(total, units[..i + 1]) == (if q > 0 then FloorMod(seconds, units[i].0) else seconds)
      && Render(Pieces(total, units[..i + 1])) == (if q > 0 then result + (Decimal(q) + units[i].1) else result)
  {
    assert units[..i + 1] == units[..i] + [(units[i].0, units[i].1)];
    AppendUnit(total, units[..i], units[i].0, units[i].1);
    if FloorDiv(seconds, units[i].0) <= 0 {
      assert result + "" == result;
    }
  }

  /** `AppendUnit` for a positive unit when the quotient and remainder are known. */
  lemma AppendKnownUnit(seconds: int, init: UnitTable, sec: int, name: string, q: int, rest: int)
    requires NoZeroUnit(init) && sec > 0 && q >= 0 && 0 <= rest < sec
    requires Leftover(seconds, init) == sec * q + rest
    ensures NoZeroUnit(init + [(sec, name)])
    ensures Leftover(seconds, init + [(sec, name)]) == rest
    ensures Render(Pieces(seconds, init + [(sec, name)])) == Render(Pieces(seconds, init)) + Emitted(q, name)
  {
    FloorDivUnique(Leftover(seconds, init), sec, q, rest);
    AppendUnit(seconds, init, sec, name);
  }

  /** Over the default table, a duration of `y` years of 365 days, `w` weeks, `d` days, `h` hours,
      `mi` minutes and `s` seconds, each field below its next larger unit, is labelled by its
      non-zero fields from the largest unit to the smallest. `r1` … `r4` are what is left after
      taking out years, weeks, days and hours. */
  lemma DefaultLabel(units: UnitTable, seconds: int, y: nat, w: nat, d: nat, h: nat, mi: nat, s: nat,
                     r1: int, r2: int, r3: int, r4: int)
    requires units == DefaultUnits()
    requires seconds == YearSeconds * y + r1 && 0 <= r1 < YearSeconds
    requires r1 == WeekSeconds * w + r2 && 0 <= r2 < WeekSeconds
    requires r2 == DaySeconds * d + r3 && 0 <= r3 < DaySeconds
    requires r3 == HourSeconds * h + r4 && 0 <= r4 < HourSeconds
    requires r4 == MinuteSeconds * mi + s && 0 <= s < MinuteSeconds
    ensures Render(Pieces(seconds, units))
         == Emitted(y, "Y") + Emitted(w, "W") + Emitted(d, "d") + Emitted(h, "h") + Emitted(mi, "m") + Emitted(s, "s")
  {
    var u0: UnitTable := [];
    var u1 := u0 + [(YearSeconds, "Y")];
    var u2 := u1 + [(WeekSeconds, "W")];
    var u3 := u2 + [(DaySeconds, "d")];
    var u4 := u3 + [(HourSeconds, "h")];
    var u5 := u4 + [(MinuteSeconds, "m")];
    var u6 := u5 + [(SecondSeconds, "s")];
    assert u6 == units;
    var e1 := Emitted(y, "Y");
    assert NoZeroUnit(u1) && Leftover(seconds, u1) == r1 && Render(Pieces(seconds, u1)) == e1 by {
      assert Render(Pieces(seconds, u0)) == "";
      AppendKnownUnit(seconds, u0, YearSeconds, "Y", y, r1);
    }
    var e2 := e1 + Emitted(w, "W");
    assert NoZeroUnit(u2) && Leftover(seconds, u2) == r2 && Render(Pieces(seconds, u2)) == e2 by {
      AppendKnownUnit(seconds, u1, WeekSeconds, "W", w, r2);
    }
    var e3 := e2 + Emitted(d, "d");
    assert NoZeroUnit(u3) && Leftover(seconds, u3) == r3 && Render(Pieces(seconds, u3)) == e3 by {
      AppendKnownUnit(seconds, u2, DaySeconds, "d", d, r3);
    }
    var e4 := e3 + Emitted(h, "h");
    assert NoZeroUnit(u4) && Leftover(seconds, u4) == r4 && Render(Pieces(seconds, u4)) == e4 by {
      AppendKnownUnit(seconds, u3, HourSeconds, "h", h, r4);
    }
    var e5 := e4 + Emitted(mi, "m");
    assert NoZeroUnit(u5) && Leftover(seconds, u5) == s && Render(Pieces(seconds, u5)) == e5 by {
      AppendKnownUnit(seconds, u4, MinuteSeconds, "m", mi, s);
    }
    assert Render(Pieces(seconds, u6)) == e5 + Emitted(s, "s") by {
      AppendKnownUnit(seconds, u5, SecondSeconds, "s", s, 0);
    }
  }

  /** Over the default table zero is the empty label, not "0s". */
  lemma DefaultZero(units: UnitTable)
    requires units == DefaultUnits()
    ensures Render(Pieces(0, units)) == ""
  {
    DefaultLabel(units, 0, 0, 0, 0, 0, 0, 0, 0, 0, 0, 0);
  }

  /** Over the default table 3661 seconds are one hour, one minute and one second. */
  lemma DefaultHourMinuteSecond(units: UnitTable)
    requires units == DefaultUnits()
    ensures Render(Pieces(3661, units)) == "1h1m1s"
  {
    assert Emitted(0, "Y") + Emitted(0, "W") + Emitted(0, "d") + Emitted(1, "h") + Emitted(1, "m") + Emitted(1, "s")
        == "1h1m1s" by {
      assert Decimal(1) == "1";
    }
    DefaultLabel(units, 3661, 0, 0, 0, 1, 1, 1, 3661, 3661, 3661, 61);
  }

  /** Over the default table units whose quotient is zero are left out: 90000 seconds are "1d1h". */
  lemma DefaultSkipsZeroUnits(units: UnitTable)
    requires units == DefaultUnits()
    ensures Render(Pieces(90000, units)) == "1d1h"
  {
    assert Emitted(0, "Y") + Emitted(0, "W") + Emitted(1, "d") + Emitted(1, "h") + Emitted(0, "m") + Emitted(0, "s")
        == "1d1h" by {
      assert Decimal(1) == "1";
    }
    DefaultLabel(units, 90000, 0, 0, 1, 1, 0, 0, 90000, 90000, 3600, 0);
  }

  /** Over the default table a year is a fixed 365 days, so 366 days are "1Y1d". */
  lemma DefaultYearIs365Days(units: UnitTable)
    requires units == DefaultUnits()
    ensures Render(Pieces(366 * DaySeconds, units)) == "1Y1d"
  {
    assert Emitted(1, "Y") + Emitted(0, "W") + Emitted(1, "d") + Emitted(0, "h") + Emitted(0, "m") + Emitted(0, "s")
        == "1Y1d" by {
      assert Decimal(1) == "1";
    }
    DefaultLabel(units, 366 * DaySeconds, 1, 0, 1, 0, 0, 0, 86400, 86400, 0, 0);
  }

  // ---------------------------------------------------------------------------------------------
  // replace_m2min: `re.sub(r"(^|\d|\b)m(?![a-zA-Z])", lambda m: m.group().replace("m", "min"), text)`

  /** The look-ahead `(?![a-zA-Z])` at position `k` of `t`. */
  predicate NoLetterAt(t: string, k: nat)
  {
    k >= |t| || !IsAsciiLetter(t[k])
  }

  /** `\b` just before an `m` (a word character), given the character before it, if any. */
  predicate BoundaryBefore(before: Option<char>)
  {
    before.None? || !IsWordChar(before.value)
  }

  /** The substitution as the regular-expression engine performs it on `t`, where `before` is the
      character to the left of `t` (`None` at the start of the text). At each position the
      alternatives are tried in order `^`, `\d`, `\b`; a match has its `m` replaced by `min`,
      and the scan resumes after the match; elsewhere the character is copied. */
  function Scan(before: Option<char>, t: string): string
    decreases |t|
  {
    if t == [] then ""
    else if before.None? && t[0] == 'm' && NoLetterAt(t, 1) then "min" + Scan(Some('m'), t[1..])
    else if |t| >= 2 && IsDigit(t[0]) && t[1] == 'm' && NoLetterAt(t, 2) then [t[0]] + "min" + Scan(Some('m'), t[2..])
    else if t[0] == 'm' && BoundaryBefore(before) && NoLetterAt(t, 1) then "min" + Scan(Some('m'), t[1..])
    else [t[0]] + Scan(Some(t[0]), t[1..])
  }

  /** Whether the first character of `t` is an `m` that becomes `min`: it starts the text, follows
      a digit or follows a character that is not a letter, digit or underscore, and is not followed
      by an ASCII letter. */
  predicate Replaced(before: Option<char>, t: string)
    requires t != []
  {
    && t[0] == 'm'
    && (before.None? || IsDigit(before.value) || !IsWordChar(before.value))
    && NoLetterAt(t, 1)
  }

  /** The rewrite stated character by character: each character of `t` is kept, except an `m`
      that `Replaced` selects, which becomes `min`. */
  function Rewrite(before: Option<char>, t: string): string
    decreases |t|
  {
    if t == [] then ""
    else (if Replaced(before, t) then "min" else [t[0]]) + Rewrite(Some(t[0]), t[1..])
  }

  /** The scan agrees with the character-by-character rewrite, provided the scan was not entered
      just after a digit that the `\d` alternative would have joined to a following `m`. */
  lemma {:induction false} ScanIsRewrite(before: Option<char>, t: string)
    requires before.Some? && IsDigit(before.value) && t != [] ==> !(t[0] == 'm' && NoLetterAt(t, 1))
    ensures Scan(before, t) == Rewrite(before, t)
    decreases |t|
  {
    if t == [] {
    } else if before.None? && t[0] == 'm' && NoLetterAt(t, 1) {
      ScanIsRewrite(Some('m'), t[1..]);
    } else if |t| >= 2 && IsDigit(t[0]) && t[1] == 'm' && NoLetterAt(t, 2) {
      ScanIsRewrite(Some('m'), t[2..]);
      assert t[1..][1..] == t[2..];
      assert Replaced(Some(t[0]), t[1..]);
      assert Rewrite(Some(t[0]), t[1..]) == "min" + Rewrite(Some('m'), t[2..]);
    } else if t[0] == 'm' && BoundaryBefore(before) && NoLetterAt(t, 1) {
      ScanIsRewrite(Some('m'), t[1..]);
    } else {
      ScanIsRewrite(Some(t[0]), t[1..]);
    }
  }

  /** `replace_m2min`. */
  function ReplaceM2Min(text: string): (r: string)
    ensures r == Rewrite(None, text)
  {
    ScanIsRewrite(None, text);
    Scan(None, text)
  }

  /** Whether an `m` right after `c` is kept: after an ASCII letter or an underscore. */
  predicate Blocks(before: Option<char>)
  {
    before.Some? && (IsAsciiLetter(before.value) || before.value == '_')
  }

  /** Only whether the preceding character blocks matters to the rewrite. */
  lemma {:induction false} RewriteDependsOnBlocking(a: Option<char>, b: Option<char>, t: string)
    requires Blocks(a) == Blocks(b)
    ensures Rewrite(a, t) == Rewrite(b, t)
  {
    if t != [] {
      assert Replaced(a, t) == Replaced(b, t);
    }
  }

  /** The rewrite keeps the text empty or not, and its first character is an ASCII letter exactly
      when the text's first character is. */
  lemma RewriteFirst(before: Option<char>, t: string)
    ensures (Rewrite(before, t) == []) == (t == [])
    ensures t != [] ==> IsAsciiLetter(Rewrite(before, t)[0]) == IsAsciiLetter(t[0])
  {
  }

  /** Rewriting twice is rewriting once: every `min` produced is an `m` followed by a letter, and
      every kept `m` stays blocked by an ASCII letter or an underscore, or followed by a letter. */
  lemma {:induction false} RewriteIdempotent(before: Option<char>, t: string)
    ensures Rewrite(before, Rewrite(before, t)) == Rewrite(before, t)
    decreases |t|
  {
    if t != [] {
      var rest := Rewrite(Some(t[0]), t[1..]);
      RewriteFirst(Some(t[0]), t[1..]);
      if Replaced(before, t) {
        var out := "min" + rest;
        assert out[1..][1..] == "n" + rest && ("n" + rest)[1..] == rest;
        assert Rewrite(before, out) == "m" + Rewrite(Some('m'), out[1..]);
        assert Rewrite(Some('m'), out[1..]) == "i" + Rewrite(Some('i'), "n" + rest);
        assert Rewrite(Some('i'), "n" + rest) == "n" + Rewrite(Some('n'), rest);
        RewriteDependsOnBlocking(Some('n'), Some('m'), rest);
        RewriteIdempotent(Some('m'), t[1..]);
      } else {
        var out := [t[0]] + rest;
        assert out[1..] == rest;
        assert !Replaced(before, out);
        RewriteIdempotent(Some(t[0]), t[1..]);
      }
    }
  }

  /** `replace_m2min` is idempotent. */
  lemma ReplaceM2MinIdempotent(text: string)
    ensures ReplaceM2Min(ReplaceM2Min(text)) == ReplaceM2Min(text)
  {
    RewriteIdempotent(None, text);
  }

  /** A text without `m` is left as it is. */
  lemma {:induction false} RewriteWithoutM(before: Option<char>, t: string)
    requires forall k :: 0 <= k < |t| ==> t[k] != 'm'
    ensures Rewrite(before, t) == t
    decreases |t|
  {
    if t != [] {
      RewriteWithoutM(Some(t[0]), t[1..]);
    }
  }

  /** The minute label after a count, alone, or in a compound label becomes `min`. */
  lemma ReplaceM2MinExamples()
    ensures ReplaceM2Min("5m") == "5min"
    ensures ReplaceM2Min("m") == "min"
    ensures ReplaceM2Min("1h30m") == "1h30min"
  {
  }

  /** An existing `min`, a millisecond label `ms` and a month label `M` are left as they are. */
  lemma ReplaceM2MinKeeps()
    ensures ReplaceM2Min("min") == "min"
    ensures ReplaceM2Min("ms") == "ms"
    ensures ReplaceM2Min("1M") == "1M"
  {
  }

  // ---------------------------------------------------------------------------------------------
  // complete_timeindex with a positive fixed step

  /** `Index.min()`: the smallest present label; missing labels are skipped. */
  function MinLabel(labels: seq<Cell>): (m: Option<int>)
    ensures m.None? <==> forall k :: 0 <= k < |labels| ==> labels[k].None?
    ensures m.Some? ==> Some(m.value) in labels
    ensures m.Some? ==> forall k :: 0 <= k < |labels| && labels[k].Some? ==> m.value <= labels[k].value
  {
    if labels == [] then None
    else
      var rest := MinLabel(labels[1..]);
      assert forall k :: 1 <= k < |labels| ==> labels[k] == labels[1..][k - 1];
      if labels[0].None? then rest
      else if rest.None? || labels[0].value <= rest.value then labels[0]
      else rest
  }

  /** `Index.max()`: the largest present label; missing labels are skipped. */
  function MaxLabel(labels: seq<Cell>): (m: Option<int>)
    ensures m.None? <==> forall k :: 0 <= k < |labels| ==> labels[k].None?
    ensures m.Some? ==> Some(m.value) in labels
    ensures m.Some? ==> forall k :: 0 <= k < |labels| && labels[k].Some? ==> labels[k].value <= m.value
  {
    if labels == [] then None
    else
      var rest := MaxLabel(labels[1..]);
      assert forall k :: 1 <= k < |labels| ==> labels[k] == labels[1..][k - 1];
      if labels[0].None? then rest
      else if rest.None? || labels[0].value >= rest.value then labels[0]
      else rest
  }

  /** `pd.date_range(start, end, freq=step)` for a positive fixed step: `start`, `start + step`, …
      up to the last value not after `end`. */
  function StepRange(start: int, stop: int, step: int): (r: seq<int>)
    requires step > 0
    ensures |r| == (if start <= stop then (stop - start) / step + 1 else 0)
    ensures forall k :: 0 <= k < |r| ==> r[k] == start + k * step
  {
    if start > stop then [] else seq((stop - start) / step + 1, k => start + k * step)
  }

  /** The range starts at `start` and its last value is within one step below `stop`. */
  lemma StepRangeEnds(start: int, stop: int, step: int)
    requires step > 0 && start <= stop
    ensures var r := StepRange(start, stop, step);
      r[0] == start && r[|r| - 1] <= stop < r[|r| - 1] + step
  {
    var n := (stop - start) / step;
    DivModUnique(stop - start, step, n, (stop - start) % step);
  }

  /** The `k`-th value of a non-empty range lies between its ends on the grid of the step. */
  lemma GridPoint(start: int, stop: int, step: int, k: int)
    requires step > 0 && start <= stop && 0 <= k <= (stop - start) / step
    ensures start <= start + k * step <= stop && (k * step) % step == 0
  {
    var n := (stop - start) / step;
    DivModUnique(k * step, step, k, 0);
    assert step * n <= stop - start;
    assert step * (n - k) >= 0 by {
      if n - k >= 1 { MultipleBounds(step, n - k); }
    }
    assert step * (n - k) == step * n - step * k;
    assert k * step >= 0 by {
      if k >= 1 { MultipleBounds(step, k); }
    }
  }

  /** A value between the ends on the grid of the step is the `k`-th value of the range for the
      `k` that counts its steps from the start. */
  lemma OnGrid(start: int, stop: int, step: int, x: int) returns (k: int)
    requires step > 0 && start <= x <= stop && (x - start) % step == 0
    ensures 0 <= k <= (stop - start) / step && x == start + k * step
  {
    k := (x - start) / step;
    var n := (stop - start) / step;
    assert x - start == step * k;
    assert stop - start < step * n + step;
    if k > n {
      MultipleBounds(step, k - n);
    }
    if k < 0 {
      MultipleBounds(step, k);
    }
  }

  /** A value is in the range exactly when it lies between the ends on the grid of the step. */
  lemma StepRangeMembers(start: int, stop: int, step: int, x: int)
    requires step > 0
    ensures x in StepRange(start, stop, step) <==> start <= x <= stop && (x - start) % step == 0
  {
    var r := StepRange(start, stop, step);
    if x in r {
      var k :| 0 <= k < |r| && r[k] == x;
      GridPoint(start, stop, step, k);
    }
    if start <= x <= stop && (x - start) % step == 0 {
      var k := OnGrid(start, stop, step, x);
      assert r[k] == x;
    }
  }

  /** `_complete_datetimeindex`: the range from the smallest to the largest present label, in the
      index's time zone and without a name. With no present label, the NaT start makes
      `pd.date_range` raise `ValueError`. */
  function CompleteIndex(index: Index, step: int): (r: Result<Index>)
    requires step > 0
    ensures r.Err? <==> forall k :: 0 <= k < |index.labels| ==> index.labels[k].None?
    ensures r.Err? ==> r.error == ValueError
    ensures r.Ok? ==> r.value.name.None? && r.value.tz == index.tz && !r.value.isRange
    ensures r.Ok? ==> forall k :: 0 <= k < |r.value.labels| ==> r.value.labels[k].Some?
  {
    var lo, hi := MinLabel(index.labels), MaxLabel(index.labels);
    if lo.None? || hi.None? then Err(ValueError)
    else
      var grid := StepRange(lo.value, hi.value, step);
      Ok(Index(None, seq(|grid|, k requires 0 <= k < |grid| => Some(grid[k])), false, index.tz))
  }

  /** The cell a reindexed row takes from column `c`: that of the row with the same label, or
      missing when no row has it. */
  function CellFor(t: Table, c: nat, x: Cell): Cell
    requires t.Valid() && c < |t.columns|
  {
    match PositionOf(t.index.labels, x)
    case None => None
    case Some(p) => t.columns[c].cells[p]
  }

  /** `df.reindex(index=new_index)`: one row per new label, carrying the row of the same label
      and missing cells otherwise. An index with a repeated label cannot be reindexed. */
  function Reindex(t: Table, newIndex: Index): (r: Result<Table>)
    requires t.Valid()
    ensures r.Err? <==> !Unique(t.index.labels)
    ensures r.Err? ==> r.error == ValueError
    ensures r.Ok? ==> r.value.Valid() && r.value.index == newIndex && |r.value.columns| == |t.columns|
  {
    if !Unique(t.index.labels) then Err(ValueError)
    else
      var n := |newIndex.labels|;
      Ok(Table(newIndex, seq(|t.columns|, c requires 0 <= c < |t.columns| =>
        Column(t.columns[c].name, seq(n, i requires 0 <= i < n => CellFor(t, c, newIndex.labels[i]))))))
  }

  /** The argument of `complete_timeindex`. */
  datatype Indexed = FrameArg(table: Table) | IndexArg(index: Index) | SeriesArg | OtherArg

  datatype Completed = CompletedFrame(table: Table) | CompletedIndex(index: Index)

  /** `complete_timeindex(indexordataframe, freq)` for a positive fixed step `freq`. */
  function CompleteTimeIndex(arg: Indexed, step: int): (r: Result<Completed>)
    requires step > 0
    requires arg.FrameArg? ==> arg.table.Valid()
    ensures arg.SeriesArg? || arg.OtherArg? ==> r == Err(TypeError)
    ensures r.Ok? && arg.FrameArg? ==> r.value.CompletedFrame?
    ensures r.Ok? && arg.IndexArg? ==> r.value.CompletedIndex?
  {
    match arg
    case FrameArg(t) =>
      (match CompleteIndex(t.index, step)
       case Err(e) => Err(e)
       case Ok(grid) =>
         match Reindex(t, grid.(name := t.index.name))
         case Err(e) => Err(e)
         case Ok(u) => Ok(CompletedFrame(u)))
    case IndexArg(index) =>
      (match CompleteIndex(index, step)
       case Err(e) => Err(e)
       case Ok(grid) => Ok(CompletedIndex(grid)))
    case _ => Err(TypeError)
  }

  /** A completed index holds exactly the grid from the smallest to the largest present label:
      as many labels as `floor((max - min) / step) + 1`, starting at the minimum, one step apart,
      the last within one step of the maximum. */
  lemma CompletedIndexGrid(index: Index, step: int)
    requires step > 0
    requires CompleteIndex(index, step).Ok?
    ensures var lo := MinLabel(index.labels).value;
      var hi := MaxLabel(index.labels).value;
      var labels := CompleteIndex(index, step).value.labels;
      && lo <= hi
      && |labels| == (hi - lo) / step + 1
      && labels[0] == Some(lo)
      && (forall k :: 0 <= k < |labels| - 1 ==> labels[k + 1].value == labels[k].value + step)
      && labels[|labels| - 1].value <= hi < labels[|labels| - 1].value + step
  {
    var lo := MinLabel(index.labels).value;
    var hi := MaxLabel(index.labels).value;
    MinBelowMax(index.labels);
    StepRangeEnds(lo, hi, step);
    StepRangeConsecutive(lo, hi, step);
    var grid := StepRange(lo, hi, step);
    var labels := CompleteIndex(index, step).value.labels;
    assert |labels| == |grid| && forall k :: 0 <= k < |grid| ==> labels[k] == Some(grid[k]);
    assert labels[0] == Some(lo);
    assert labels[|labels| - 1].value == grid[|grid| - 1];
  }

  /** The smallest present label is at most the largest. */
  lemma MinBelowMax(labels: seq<Cell>)
    requires MinLabel(labels).Some?
    ensures MaxLabel(labels).Some? && MinLabel(labels).value <= MaxLabel(labels).value
  {
    var lo := MinLabel(labels).value;
    var p :| 0 <= p < |labels| && labels[p] == Some(lo);
  }

  /** Consecutive values of a range are one step apart. */
  lemma StepRangeConsecutive(start: int, stop: int, step: int)
    requires step > 0
    ensures var r := StepRange(start, stop, step);
      forall k :: 0 <= k < |r| - 1 ==> r[k + 1] == r[k] + step
  {
    var r := StepRange(start, stop, step);
    forall k | 0 <= k < |r| - 1
      ensures r[k + 1] == r[k] + step
    {
      assert (k + 1) * step == k * step + step;
    }
  }

  /** The completed table keeps the index name and time zone and the columns in order; its index
      is the completed index. A repeated timestamp raises `ValueError`. */
  lemma CompletedFrameShape(t: Table, step: int)
    requires step > 0 && t.Valid()
    requires CompleteIndex(t.index, step).Ok?
    ensures !Unique(t.index.labels) ==> CompleteTimeIndex(FrameArg(t), step) == Err(ValueError)
    ensures Unique(t.index.labels) ==>
      var r := CompleteTimeIndex(FrameArg(t), step);
      && r.Ok?
      && r.value.table.index.name == t.index.name
      && r.value.table.index.tz == t.index.tz
      && r.value.table.index.labels == CompleteIndex(t.index, step).value.labels
      && |r.value.table.columns| == |t.columns|
      && (forall c :: 0 <= c < |t.columns| ==> r.value.table.columns[c].name == t.columns[c].name)
  {
  }

  /** In the completed table, a row whose timestamp was in the original carries that row's cells,
      and a row for a new timestamp has every cell missing. */
  lemma CompletedFrameCell(t: Table, step: int, c: nat, i: nat)
    requires step > 0 && t.Valid() && Unique(t.index.labels)
    requires CompleteTimeIndex(FrameArg(t), step).Ok?
    requires c < |t.columns| && i < |CompleteIndex(t.index, step).value.labels|
    ensures var u := CompleteTimeIndex(FrameArg(t), step).value.table;
      var x := u.index.labels[i];
      && (forall p :: 0 <= p < |t.index.labels| && t.index.labels[p] == x ==> u.columns[c].cells[i] == t.columns[c].cells[p])
      && (x !in t.index.labels ==> u.columns[c].cells[i].None?)
  {
    var u := CompleteTimeIndex(FrameArg(t), step).value.table;
    var x := u.index.labels[i];
    assert u.columns[c].cells[i] == CellFor(t, c, x);
    forall p | 0 <= p < |t.index.labels| && t.index.labels[p] == x
      ensures u.columns[c].cells[i] == t.columns[c].cells[p]
    {
      PositionOfUnique(t.index.labels, p);
    }
  }

  /** A timestamped row of the original table survives completion exactly when its timestamp lies
      on the grid of the step counted from the smallest timestamp; rows off the grid are dropped. */
  lemma CompletionKeepsGridRows(t: Table, step: int, p: nat)
    requires step > 0 && t.Valid() && p < |t.index.labels| && t.index.labels[p].Some?
    ensures var lo := MinLabel(t.index.labels).value;
      CompleteIndex(t.index, step).Ok?
      && (t.index.labels[p] in CompleteIndex(t.index, step).value.labels
          <==> (t.index.labels[p].value - lo) % step == 0)
  {
    var lo := MinLabel(t.index.labels).value;
    var hi := MaxLabel(t.index.labels).value;
    var x := t.index.labels[p].value;
    StepRangeMembers(lo, hi, step, x);
    var labels := CompleteIndex(t.index, step).value.labels;
    var grid := StepRange(lo, hi, step);
    assert |labels| == |grid| && forall k :: 0 <= k < |grid| ==> labels[k] == Some(grid[k]);
    if Some(x) in labels {
      var k :| 0 <= k < |labels| && labels[k] == Some(x);
      assert grid[k] == x;
    }
    if x in grid {
      var k :| 0 <= k < |grid| && grid[k] == x;
      assert labels[k] == Some(x);
    }
  }

  /** A `Series` or any other argument raises `TypeError`. */
  lemma CompleteRejectsOtherTypes(step: int)
    requires step > 0
    ensures CompleteTimeIndex(SeriesArg, step) == Err(TypeError)
    ensures CompleteTimeIndex(OtherArg, step) == Err(TypeError)
  {
  }
}
