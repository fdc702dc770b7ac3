/** pandasutils/timeframestr.py: `TimeFrameStr`, a `dict` from a number of seconds to a unit
    label that also holds a duration, renders that duration with its own table, and has a
    getter and a setter for each of the six standard units. */
module TimeFrames {
  import opened Common
  import opened TimeUtil

  /** A `dict` never holds a key twice. */
  predicate DistinctKeys(units: UnitTable)
  {
    forall i, j :: 0 <= i < j < |units| ==> units[i].0 != units[j].0
  }

  predicate HasKey(units: UnitTable, key: int)
  {
    exists k :: 0 <= k < |units| && units[k].0 == key
  }

  /** `self[key]`: the label stored for `key`, or `KeyError`. */
  function LabelOf(units: UnitTable, key: int): (r: Result<string>)
    ensures r.Ok? <==> HasKey(units, key)
    ensures r.Ok? ==> exists k :: 0 <= k < |units| && units[k] == (key, r.value)
    ensures r.Err? ==> r.error == KeyError
  {
    if units == [] then Err(KeyError)
    else if units[0].0 == key then Ok(units[0].1)
    else
      var r := LabelOf(units[1..], key);
      assert forall k :: 1 <= k < |units| ==> units[k] == units[1..][k - 1];
      assert HasKey(units, key) ==> HasKey(units[1..], key) by {
        if HasKey(units, key) {
          var k :| 0 <= k < |units| && units[k].0 == key;
          assert units[1..][k - 1].0 == key;
        }
      }
      r
  }

  /** `self[key] = label`: a present key keeps its place and takes the new label; a new key is
      added at the end. */
  function Assign(units: UnitTable, key: int, text: string): (r: UnitTable)
  {
    if units == [] then [(key, text)]
    else if units[0].0 == key then [(key, text)] + units[1..]
    else [units[0]] + Assign(units[1..], key, text)
  }

  /** After an assignment the key reads back the new label. */
  lemma {:induction false} AssignThenRead(units: UnitTable, key: int, text: string)
    ensures LabelOf(Assign(units, key, text), key) == Ok(text)
  {
    if units != [] && units[0].0 != key {
      AssignThenRead(units[1..], key, text);
    }
  }

  /** An assignment leaves every other key's label as it was. */
  lemma {:induction false} AssignLeavesOthers(units: UnitTable, key: int, text: string, other: int)
    requires other != key
    ensures LabelOf(Assign(units, key, text), other) == LabelOf(units, other)
  {
    if units != [] && units[0].0 != key && units[0].0 != other {
      AssignLeavesOthers(units[1..], key, text, other);
    }
  }

  /** Assigning a new key appends it. */
  lemma {:induction false} AssignNew(units: UnitTable, key: int, text: string)
    requires !HasKey(units, key)
    ensures Assign(units, key, text) == units + [(key, text)]
  {
    if units != [] {
      var tail := units[1..];
      assert forall k :: 0 <= k < |tail| ==> tail[k] == units[k + 1];
      AssignNew(tail, key, text);
      assert units == [units[0]] + tail;
    }
  }

  /** Assigning a present key keeps the keys and their order and changes that key's entries only. */
  lemma {:induction false} AssignPresent(units: UnitTable, key: int, text: string)
    requires HasKey(units, key)
    ensures var r := Assign(units, key, text);
      && |r| == |units|
      && (forall k :: 0 <= k < |units| ==> r[k].0 == units[k].0)
      && (forall k :: 0 <= k < |units| && units[k].0 != key ==> r[k] == units[k])
  {
    var tail := units[1..];
    if units[0].0 != key {
      var k :| 0 <= k < |units| && units[k].0 == key;
      assert tail[k - 1].0 == key;
      AssignPresent(tail, key, text);
      var r := Assign(units, key, text);
      var rt := Assign(tail, key, text);
      assert r == [units[0]] + rt;
      assert forall k :: 1 <= k < |units| ==> r[k] == rt[k - 1] && units[k] == tail[k - 1];
    }
  }

  /** Assigning a present key keeps the keys and their order and changes that key's entry only;
      assigning a new key appends it. Either way no key is repeated. */
  lemma AssignShape(units: UnitTable, key: int, text: string)
    requires DistinctKeys(units)
    ensures var r := Assign(units, key, text);
      && DistinctKeys(r)
      && (HasKey(units, key) ==>
            |r| == |units|
            && (forall k :: 0 <= k < |units| ==> r[k].0 == units[k].0)
            && (forall k :: 0 <= k < |units| && units[k].0 != key ==> r[k] == units[k]))
      && (!HasKey(units, key) ==> r == units + [(key, text)])
  {
    var r := Assign(units, key, text);
    if HasKey(units, key) {
      AssignPresent(units, key, text);
      assert forall i :: 0 <= i < |r| ==> r[i].0 == units[i].0;
    } else {
      AssignNew(units, key, text);
      assert forall i :: 0 <= i < |units| ==> r[i] == units[i] && units[i].0 != key;
    }
  }

  /** A `TimeFrameStr`: the unit table it holds as a `dict`, in insertion order, and its duration. */
  class TimeFrameStr {
    var units: UnitTable
    var freq: Duration

    ghost predicate Valid()
      reads this
    {
      DistinctKeys(units)
    }

    /** `TimeFrameStr(freq, unit)`: copies the entries of `unit` into the new table. */
    constructor (freq: Duration, unit: UnitTable)
      requires DistinctKeys(unit)
      ensures Valid() && units == unit && this.freq == freq
    {
      units := unit;
      this.freq := freq;
    }

    /** `TimeFrameStr(freq)` with the default table. */
    constructor WithDefaultUnits(freq: Duration)
      ensures Valid() && units == DefaultUnits() && this.freq == freq
    {
      units := DefaultUnits();
      this.freq := freq;
    }

    /** The `year` property: the label of `YearSeconds`, or `KeyError` when the table lacks it. */
    function Year(): (r: Result<string>)
      reads this
      ensures r.Ok? <==> HasKey(units, YearSeconds)
      ensures r.Ok? ==> exists k :: 0 <= k < |units| && units[k] == (YearSeconds, r.value)
    {
      LabelOf(units, YearSeconds)
    }

    /** The `week` property: the label of `WeekSeconds`, or `KeyError` when the table lacks it. */
    function Week(): (r: Result<string>)
      reads this
      ensures r.Ok? <==> HasKey(units, WeekSeconds)
      ensures r.Ok? ==> exists k :: 0 <= k < |units| && units[k] == (WeekSeconds, r.value)
    {
      LabelOf(units, WeekSeconds)
    }

    /** The `day` property: the label of `DaySeconds`, or `KeyError` when the table lacks it. */
    function Day(): (r: Result<string>)
      reads this
      ensures r.Ok? <==> HasKey(units, DaySeconds)
      ensures r.Ok? ==> exists k :: 0 <= k < |units| && units[k] == (DaySeconds, r.value)
    {
      LabelOf(units, DaySeconds)
    }

    /** The `hour` property: the label of `HourSeconds`, or `KeyError` when the table lacks it. */
    function Hour(): (r: Result<string>)
      reads this
      ensures r.Ok? <==> HasKey(units, HourSeconds)
      ensures r.Ok? ==> exists k :: 0 <= k < |units| && units[k] == (HourSeconds, r.value)
    {
      LabelOf(units, HourSeconds)
    }

    /** The `min` property: the label of `MinuteSeconds`, or `KeyError` when the table lacks it. */
    function Min(): (r: Result<string>)
      reads this
      ensures r.Ok? <==> HasKey(units, MinuteSeconds)
      ensures r.Ok? ==> exists k :: 0 <= k < |units| && units[k] == (MinuteSeconds, r.value)
    {
      LabelOf(units, MinuteSeconds)
    }

    /** The `sec` property: the label of `SecondSeconds`, or `KeyError` when the table lacks it. */
    function Sec(): (r: Result<string>)
      reads this
      ensures r.Ok? <==> HasKey(units, SecondSeconds)
      ensures r.Ok? ==> exists k :: 0 <= k < |units| && units[k] == (SecondSeconds, r.value)
    {
      LabelOf(units, SecondSeconds)
    }

    /** `self[key] = label`. */
    method SetLabel(key: int, text: string)
      requires Valid()
      modifies this`units
      ensures Valid() && units == Assign(old(units), key, text)
    {
      AssignShape(units, key, text);
      units := Assign(units, key, text);
    }

    method SetYear(text: string)
      requires Valid()
      modifies this`units
      ensures Valid() && units == Assign(old(units), YearSeconds, text)
    {
      SetLabel(YearSeconds, text);
    }

    method SetWeek(text: string)
      requires Valid()
      modifies this`units
      ensures Valid() && units == Assign(old(units), WeekSeconds, text)
    {
      SetLabel(WeekSeconds, text);
    }

    method SetDay(text: string)
      requires Valid()
      modifies this`units
      ensures Valid() && units == Assign(old(units), DaySeconds, text)
    {
      SetLabel(DaySeconds, text);
    }

    method SetHour(text: string)
      requires Valid()
      modifies this`units
      ensures Valid() && units == Assign(old(units), HourSeconds, text)
    {
      SetLabel(HourSeconds, text);
    }

    method SetMin(text: string)
      requires Valid()
      modifies this`units
      ensures Valid() && units == Assign(old(units), MinuteSeconds, text)
    {
      SetLabel(MinuteSeconds, text);
    }

    method SetSec(text: string)
      requires Valid()
      modifies this`units
      ensures Valid() && units == Assign(old(units), SecondSeconds, text)
    {
      SetLabel(SecondSeconds, text);
    }

    /** `str(self)`: the greedy decomposition of its duration over its own table, the loop of
      `timedelta2freq`. */
    method ToString() returns (r: Result<string>)
      ensures r == Freq(freq, units)
    {
      r := TimedeltaToFreq(freq, units);
    }
  }

  /** Two frames built on the default table hold their own copies: setting a label on one leaves
      the other, and the default table, as they were. */
  method SettersLeaveDefault(freq: Duration, text: string) returns (first: TimeFrameStr, second: TimeFrameStr)
    ensures first != second
    ensures first.units == Assign(DefaultUnits(), YearSeconds, text)
    ensures second.units == DefaultUnits()
  {
    first := new TimeFrameStr.WithDefaultUnits(freq);
    second := new TimeFrameStr.WithDefaultUnits(freq);
    first.SetYear(text);
  }
}
