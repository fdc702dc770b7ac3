/** utils/timeformat.py: the `strftime` directives `TimeFormat` names, the patterns its class
    methods compose from them, and what formatting a timestamp with those patterns gives. */
module TimeFormats {
  import opened Text

  /** A `pd.Timestamp` by its calendar and clock fields. */
  datatype Stamp = Stamp(year: int, month: int, day: int, hour: int, minute: int, second: int)
  {
    /** The fields of a timestamp pandas can hold: its years run from 1677 to 2262, so a year
        always has four digits. */
    predicate Valid()
    {
      1677 <= year <= 2262 && 1 <= month <= 12 && 1 <= day <= 31
      && 0 <= hour < 24 && 0 <= minute < 60 && 0 <= second < 60
    }
  }

  /** What one directive `%c` gives for a timestamp: the zero-padded fields for the six numeric
      directives, `%` for `%%`, and the directive itself otherwise. */
  function Directive(c: char, t: Stamp): (r: string)
    requires t.Valid()
    ensures c in "YmdHMS" ==> AllDigits(r) && |r| == (if c == 'Y' then 4 else 2)
  {
    match c
    case 'Y' => PadDigits(t.year, 4)
    case 'm' => PadDigits(t.month, 2)
    case 'd' => PadDigits(t.day, 2)
    case 'H' => PadDigits(t.hour, 2)
    case 'M' => PadDigits(t.minute, 2)
    case 'S' => PadDigits(t.second, 2)
    case '%' => "%"
    case _ => ['%', c]
  }

  /** `Timestamp.strftime(pattern)`: directives expanded, every other character copied. */
  function Strftime(pattern: string, t: Stamp): string
    requires t.Valid()
  {
    if pattern == [] then []
    else if |pattern| >= 2 && pattern[0] == '%' then Directive(pattern[1], t) + Strftime(pattern[2..], t)
    else [pattern[0]] + Strftime(pattern[1..], t)
  }

  /** Text without `%` passes through and the rest is formatted on its own. */
  lemma {:induction false} StrftimeLiteral(text: string, rest: string, t: Stamp)
    requires t.Valid() && '%' !in text
    ensures Strftime(text + rest, t) == text + Strftime(rest, t)
  {
    if text != [] {
      var whole := text + rest;
      assert text[0] in text;
      assert whole[0] == text[0] != '%' && whole[1..] == text[1..] + rest;
      assert '%' !in text[1..] by {
        assert forall c :: c in text[1..] ==> c in text;
      }
      assert Strftime(whole, t) == [text[0]] + Strftime(text[1..] + rest, t);
      StrftimeLiteral(text[1..], rest, t);
      var tail := Strftime(rest, t);
      assert [text[0]] + (text[1..] + tail) == ([text[0]] + text[1..]) + tail;
      assert [text[0]] + text[1..] == text;
    } else {
      assert text + rest == rest;
    }
  }

  /** A directive at the front is expanded and the rest is formatted on its own. */
  lemma StrftimeDirective(c: char, rest: string, t: Stamp)
    requires t.Valid()
    ensures Strftime(['%', c] + rest, t) == Directive(c, t) + Strftime(rest, t)
  {
    assert (['%', c] + rest)[2..] == rest;
  }

  datatype TimeFormat = TimeFormat(time: Stamp)
  {
    // The directive constants.
    static const week := "%a"
    static const Week := "%A"
    static const week_6 := "%w"
    static const week_7 := "%u"
    static const Day := "%d"
    static const day := "%-d"
    static const month := "%b"
    static const Month := "%B"
    static const Month_31 := "%m"
    static const month_31 := "%-m"
    static const year := "%y"
    static const Year := "%Y"
    static const Hour24 := "%H"
    static const hour24 := "%-H"
    static const Hour12 := "%I"
    static const hour12 := "%-I"
    static const Min := "%M"
    static const min := "%-M"
    static const Sec := "%S"
    static const sec := "%-S"
    static const MicroSec := "%f"
    static const zone := "%z"
    static const Zone := "%Z"

    /** `TimeFormat.YYMMDD(join)`: year, month and day directives joined by `join`. */
    static function YYMMDD(join: string): string
    {
      Year + join + Month_31 + join + Day
    }

    /** `TimeFormat.HHMMSS(join)`: hour, minute and second directives joined by `join`. */
    static function HHMMSS(join: string): string
    {
      Hour24 + join + Min + join + Sec
    }

    /** `TimeFormat.DT(datej, join, timej)`: the date pattern, `join`, then the time pattern. */
    static function DT(dateJoin: string, join: string, timeJoin: string): string
    {
      YYMMDD(dateJoin) + join + HHMMSS(timeJoin)
    }

    /** `self.yymmdd(join)`. */
    function Yymmdd(join: string): (r: string)
      requires time.Valid()
      ensures '%' !in join ==> r == PadDigits(time.year, 4) + join + PadDigits(time.month, 2) + join + PadDigits(time.day, 2)
    {
      if '%' !in join then
        FormatThreeFields('Y', 'm', 'd', join, time);
        Strftime(YYMMDD(join), time)
      else Strftime(YYMMDD(join), time)
    }

    /** `self.hhmmss(join)`. */
    function Hhmmss(join: string): (r: string)
      requires time.Valid()
      ensures '%' !in join ==> r == PadDigits(time.hour, 2) + join + PadDigits(time.minute, 2) + join + PadDigits(time.second, 2)
    {
      if '%' !in join then
        FormatThreeFields('H', 'M', 'S', join, time);
        Strftime(HHMMSS(join), time)
      else Strftime(HHMMSS(join), time)
    }

    /** `self.dt(datej, join, timej)`: the date text, `join`, then the time text. */
    function Dt(dateJoin: string, join: string, timeJoin: string): (r: string)
      requires time.Valid()
      ensures '%' !in dateJoin && '%' !in join && '%' !in timeJoin ==> r == Yymmdd(dateJoin) + join + Hhmmss(timeJoin)
    {
      var t := time;
      var date := YYMMDD(dateJoin);
      var clock := HHMMSS(timeJoin);
      if '%' !in dateJoin && '%' !in join && '%' !in timeJoin then
        assert DT(dateJoin, join, timeJoin) == date + (join + clock);
        StrftimeAppendPattern(date, join + clock, t);
        StrftimeLiteral(join, clock, t);
        Strftime(DT(dateJoin, join, timeJoin), t)
      else Strftime(DT(dateJoin, join, timeJoin), t)
    }
  }

  /** Three directives joined by a `%`-free `join` format as their three texts joined alike. */
  lemma FormatThreeFields(x: char, y: char, z: char, join: string, t: Stamp)
    requires t.Valid() && '%' !in join
    ensures Strftime(['%', x] + join + ['%', y] + join + ['%', z], t)
         == Directive(x, t) + join + Directive(y, t) + join + Directive(z, t)
  {
    var dx, dy, dz := Directive(x, t), Directive(y, t), Directive(z, t);
    var tail1 := ['%', y] + (join + ['%', z]);
    Regroup(['%', x], join, ['%', y], ['%', z]);
    FormatTwoFields(y, z, join, t);
    StrftimeLiteral(join, tail1, t);
    StrftimeDirective(x, join + tail1, t);
    Regroup(dx, join, dy, dz);
  }

  /** Two directives joined by a `%`-free `join`. */
  lemma FormatTwoFields(y: char, z: char, join: string, t: Stamp)
    requires t.Valid() && '%' !in join
    ensures Strftime(['%', y] + (join + ['%', z]), t) == Directive(y, t) + (join + Directive(z, t))
  {
    assert ['%', z] == ['%', z] + [];
    StrftimeDirective(z, [], t);
    StrftimeLiteral(join, ['%', z], t);
    StrftimeDirective(y, join + ['%', z], t);
  }

  lemma Regroup(a: string, j: string, b: string, c: string)
    ensures a + j + b + j + c == a + (j + (b + (j + c)))
  {
  }

  /** A pattern that ends in a complete directive formats on its own before what follows it. */
  lemma {:induction false} StrftimeAppendPattern(pattern: string, rest: string, t: Stamp)
    requires t.Valid() && |pattern| >= 2 && pattern[|pattern| - 2] == '%' && pattern[|pattern| - 1] != '%'
    requires forall i :: 0 <= i < |pattern| - 2 && pattern[i] == '%' ==> pattern[i + 1] != '%'
    requires forall i :: 0 < i < |pattern| - 1 && pattern[i] == '%' ==> pattern[i - 1] != '%'
    ensures Strftime(pattern + rest, t) == Strftime(pattern, t) + Strftime(rest, t)
    decreases |pattern|
  {
    var whole := pattern + rest;
    if |pattern| == 2 {
      assert whole == ['%', pattern[1]] + rest;
      StrftimeDirective(pattern[1], rest, t);
      assert pattern == ['%', pattern[1]] + [];
      StrftimeDirective(pattern[1], [], t);
    } else if pattern[0] == '%' {
      assert whole[2..] == pattern[2..] + rest;
      StrftimeAppendPattern(pattern[2..], rest, t);
    } else {
      assert whole[1..] == pattern[1..] + rest;
      StrftimeAppendPattern(pattern[1..], rest, t);
    }
  }

  /** The defaults: `"%Y-%m-%d"`, `"%H:%M:%S"` and `"%Y-%m-%d %H:%M:%S"`. */
  lemma DefaultPatterns()
    ensures TimeFormat.YYMMDD("-") == "%Y-%m-%d"
    ensures TimeFormat.HHMMSS(":") == "%H:%M:%S"
    ensures TimeFormat.DT("-", " ", ":") == "%Y-%m-%d %H:%M:%S"
  {
  }

  /** A concatenation with a part of known length splits back into its parts. */
  lemma SplitAt(a1: string, r1: string, a2: string, r2: string)
    requires a1 + r1 == a2 + r2 && |a1| == |a2|
    ensures a1 == a2 && r1 == r2
  {
    assert a1 == (a1 + r1)[..|a1|];
    assert r1 == (a1 + r1)[|a1|..];
  }

  /** Equal zero-padded numerals of the same width stand for the same number. */
  lemma SamePadded(x: nat, y: nat, width: nat)
    requires PadDigits(x, width) == PadDigits(y, width) && x < Pow10(width) && y < Pow10(width)
    ensures x == y
  {
    ValueOfPadDigits(x, width);
    ValueOfPadDigits(y, width);
  }

  /** Three padded fields joined alike determine the fields. */
  lemma {:induction false} ThreeFieldsDetermine(x1: nat, y1: nat, z1: nat, x2: nat, y2: nat, z2: nat, w: nat, join: string)
    requires x1 < Pow10(w) && x2 < Pow10(w) && y1 < 100 && y2 < 100 && z1 < 100 && z2 < 100
    requires PadDigits(x1, w) + join + PadDigits(y1, 2) + join + PadDigits(z1, 2)
          == PadDigits(x2, w) + join + PadDigits(y2, 2) + join + PadDigits(z2, 2)
    ensures x1 == x2 && y1 == y2 && z1 == z2
  {
    var a3 := PadDigits(x1, w) + join + PadDigits(y1, 2) + join;
    var b3 := PadDigits(x2, w) + join + PadDigits(y2, 2) + join;
    SplitAt(a3, PadDigits(z1, 2), b3, PadDigits(z2, 2));
    SplitAt(PadDigits(x1, w) + join + PadDigits(y1, 2), join, PadDigits(x2, w) + join + PadDigits(y2, 2), join);
    SplitAt(PadDigits(x1, w) + join, PadDigits(y1, 2), PadDigits(x2, w) + join, PadDigits(y2, 2));
    SplitAt(PadDigits(x1, w), join, PadDigits(x2, w), join);
    assert Pow10(2) == 100;
    SamePadded(x1, x2, w);
    SamePadded(y1, y2, 2);
    SamePadded(z1, z2, 2);
  }

  /** A join of `%%` is itself a directive and puts a literal `%` between the fields. */
  lemma PercentPercentJoin(t: Stamp)
    requires t.Valid()
    ensures TimeFormat(t).Yymmdd("%%")
         == PadDigits(t.year, 4) + "%" + PadDigits(t.month, 2) + "%" + PadDigits(t.day, 2)
  {
    var y, m, d := PadDigits(t.year, 4), PadDigits(t.month, 2), PadDigits(t.day, 2);
    var p4 := ['%', 'd'] + [];
    var p3 := ['%', '%'] + p4;
    var p2 := ['%', 'm'] + p3;
    var p1 := ['%', '%'] + p2;
    assert TimeFormat.YYMMDD("%%") == ['%', 'Y'] + p1;
    StrftimeDirective('d', [], t);
    assert Strftime(p4, t) == d;
    StrftimeDirective('%', p4, t);
    assert Strftime(p3, t) == "%" + d;
    StrftimeDirective('m', p3, t);
    assert Strftime(p2, t) == m + ("%" + d);
    StrftimeDirective('%', p2, t);
    assert Strftime(p1, t) == "%" + (m + ("%" + d));
    StrftimeDirective('Y', p1, t);
    assert Strftime(['%', 'Y'] + p1, t) == y + ("%" + (m + ("%" + d)));
  }

  /** `yymmdd("%%")` of 2024-03-15 is `2024%03%15`. */
  lemma PercentJoinExample()
    ensures TimeFormat(Stamp(2024, 3, 15, 0, 0, 0)).Yymmdd("%%") == "2024%03%15"
  {
    ExampleFields();
    PercentPercentJoin(Stamp(2024, 3, 15, 0, 0, 0));
  }

  lemma ExampleFields()
    ensures PadDigits(2024, 4) == "2024" && PadDigits(3, 2) == "03" && PadDigits(15, 2) == "15"
  {
    assert PadDigits(0, 0) == [];
    assert PadDigits(2, 1) == "2" && PadDigits(20, 2) == "20" && PadDigits(202, 3) == "202";
    assert PadDigits(0, 1) == "0" && PadDigits(1, 1) == "1";
  }

  /** A lone `%` as join pairs with the next directive's own `%`: the month and day directives
      come out as the letters `m` and `d`, so only the year is shown. */
  lemma LonePercentJoin(t: Stamp)
    requires t.Valid()
    ensures TimeFormat(t).Yymmdd("%") == PadDigits(t.year, 4) + "%m%d"
  {
    assert TimeFormat.YYMMDD("%") == ['%', 'Y'] + (['%', '%'] + (['m'] + (['%', '%'] + ['d'])));
    StrftimeLiteral("d", [], t);
    assert ['d'] + [] == ['d'];
    StrftimeDirective('%', ['d'], t);
    StrftimeLiteral("m", ['%', '%'] + ['d'], t);
    StrftimeDirective('%', ['m'] + (['%', '%'] + ['d']), t);
    StrftimeDirective('Y', ['%', '%'] + (['m'] + (['%', '%'] + ['d'])), t);
  }

  /** For given joins the `dt` text determines the timestamp: two timestamps that format alike
      are the same. */
  lemma DtDetermines(a: Stamp, b: Stamp, dateJoin: string, join: string, timeJoin: string)
    requires a.Valid() && b.Valid() && '%' !in dateJoin && '%' !in join && '%' !in timeJoin
    requires TimeFormat(a).Dt(dateJoin, join, timeJoin) == TimeFormat(b).Dt(dateJoin, join, timeJoin)
    ensures a == b
  {
    var da, db := TimeFormat(a).Yymmdd(dateJoin), TimeFormat(b).Yymmdd(dateJoin);
    var ha, hb := TimeFormat(a).Hhmmss(timeJoin), TimeFormat(b).Hhmmss(timeJoin);
    SplitAt(da + join, ha, db + join, hb);
    SplitAt(da, join, db, join);
    assert Pow10(4) == 10000 by {
      assert Pow10(2) == 100;
    }
    ThreeFieldsDetermine(a.year, a.month, a.day, b.year, b.month, b.day, 4, dateJoin);
    ThreeFieldsDetermine(a.hour, a.minute, a.second, b.hour, b.minute, b.second, 2, timeJoin);
  }
}
