/** The table helpers of utils/dfutil.py on the `Frames` abstraction of a `DataFrame`:
    `search_timeidx`, `shift`, `is_default_index` and `sum_none`, which compute new values, and
    `rename` and `setindex`, which change a frame in place. */
module DfUtil {
  import opened Common
  import opened Frames

  // ---------------------------------------------------------------------------------------------
  // search_timeidx

  /** `a <= b` in the order `searchsorted` assumes: missing timestamps (NaT) sort last. */
  predicate KeyLe(a: Cell, b: Cell)
  {
    b.None? || (a.Some? && a.value <= b.value)
  }

  predicate Ascending(keys: seq<Cell>)
  {
    forall i, j :: 0 <= i < j < |keys| ==> KeyLe(keys[i], keys[j])
  }

  /** Whether a key sorts strictly before the timestamp `t`. */
  predicate Before(key: Cell, t: int)
  {
    key.Some? && key.value < t
  }

  /** `keys.searchsorted(t, side="left")`: the number of leading keys that sort before `t`. */
  function LowerBound(keys: seq<Cell>, t: int): (idx: nat)
    ensures idx <= |keys|
    ensures forall k :: 0 <= k < idx ==> Before(keys[k], t)
    ensures idx < |keys| ==> !Before(keys[idx], t)
  {
    if keys == [] || !Before(keys[0], t) then 0
    else
      var rest := LowerBound(keys[1..], t);
      assert forall k :: 1 <= k <= rest ==> keys[k] == keys[1..][k - 1];
      1 + rest
  }

  /** On ascending keys the lower bound is the leftmost insertion point: every key before it sorts
      before `t`, every key from it on is not before `t`, so a key equal to `t` comes after it. */
  lemma LowerBoundSplits(keys: seq<Cell>, t: int)
    requires Ascending(keys)
    ensures var idx := LowerBound(keys, t);
      && (forall k :: 0 <= k < idx ==> Before(keys[k], t))
      && (forall k :: idx <= k < |keys| ==> !Before(keys[k], t))
  {
    var idx := LowerBound(keys, t);
    forall k | idx <= k < |keys|
      ensures !Before(keys[k], t)
    {
      if k > idx {
        assert KeyLe(keys[idx], keys[k]);
      }
    }
  }

  /** The position of the first column called `name`. */
  function ColumnPosition(columns: seq<Column>, name: string): (p: Option<nat>)
    ensures p.Some? <==> exists c :: 0 <= c < |columns| && columns[c].name == name
    ensures p.Some? ==> p.value < |columns| && columns[p.value].name == name
    ensures p.Some? ==> forall c :: 0 <= c < p.value ==> columns[c].name != name
  {
    if columns == [] then None
    else if columns[0].name == name then Some(0)
    else
      match ColumnPosition(columns[1..], name)
      case None =>
        assert forall c :: 1 <= c < |columns| ==> columns[c] == columns[1..][c - 1];
        None
      case Some(k) =>
        assert forall c :: 1 <= c <= k + 1 ==> columns[c] == columns[1..][c - 1];
        Some(k + 1)
  }

  /** The keys `search_timeidx` searches: the index when it carries the name, else the column of
      that name. */
  function SearchKeys(df: Table, indexName: string): Option<seq<Cell>>
  {
    if df.index.name == Some(indexName) then Some(df.index.labels)
    else match ColumnPosition(df.columns, indexName)
      case Some(c) => Some(df.columns[c].cells)
      case None => None
  }

  /** `search_timeidx(time, df, indexname, isclamp)`: the insertion point of `time` among the keys,
      clamped to a row position when `isclamp` is set. */
  function SearchTimeIdx(time: int, df: Table, indexName: string, isClamp: bool): (r: Result<int>)
    ensures r.Err? <==> df.index.name != Some(indexName) && !df.HasColumn(indexName)
    ensures r.Err? ==> r.error == ValueError
    ensures r.Ok? && !isClamp ==> r.value == LowerBound(SearchKeys(df, indexName).value, time)
    ensures r.Ok? && isClamp && df.Rows() == 0 ==> r.value == -1
    ensures r.Ok? && isClamp && df.Rows() > 0 ==> 0 <= r.value < df.Rows()
  {
    match SearchKeys(df, indexName)
    case None => Err(ValueError)
    case Some(keys) =>
      var idx := LowerBound(keys, time);
      if isClamp then
        var lifted := if idx < 0 then 0 else idx;
        Ok(if lifted < df.Rows() - 1 then lifted else df.Rows() - 1)
      else Ok(idx)
  }

  /** The index name wins over a column of the same name. */
  lemma SearchPrefersIndex(time: int, df: Table, indexName: string, isClamp: bool)
    requires df.index.name == Some(indexName)
    ensures var r := SearchTimeIdx(time, df, indexName, isClamp);
      r.Ok? && (!isClamp ==> r.value == LowerBound(df.index.labels, time))
  {
  }

  /** With `isclamp` the result is the insertion point clamped into `[0, len(df) - 1]`, provided
      the searched keys have one entry per row. */
  lemma SearchClamped(time: int, df: Table, indexName: string)
    requires df.Valid() && SearchTimeIdx(time, df, indexName, false).Ok?
    ensures var idx := SearchTimeIdx(time, df, indexName, false).value;
      var n := df.Rows();
      && 0 <= idx <= n
      && SearchTimeIdx(time, df, indexName, true).value == (if idx < n - 1 then idx else n - 1)
  {
    var keys := SearchKeys(df, indexName).value;
    if df.index.name != Some(indexName) {
      var c := ColumnPosition(df.columns, indexName).value;
      assert |keys| == |df.columns[c].cells|;
    }
  }

  // ---------------------------------------------------------------------------------------------
  // shift

  /** `Series.shift(periods)` on one line of cells: every value moves `periods` places on (back for
      a negative count) and the vacated places are missing. */
  function Shifted(cells: seq<Cell>, periods: int): (r: seq<Cell>)
    ensures |r| == |cells|
  {
    seq(|cells|, i requires 0 <= i < |cells| => if 0 <= i - periods < |cells| then cells[i - periods] else None)
  }

  /** Shifting on and back restores every cell that did not fall off the end, and what fell off
      comes back missing. */
  lemma ShiftedBack(cells: seq<Cell>, periods: int)
    ensures var back := Shifted(Shifted(cells, periods), -periods);
      forall i :: 0 <= i < |cells| ==>
        back[i] == (if 0 <= i + periods < |cells| then cells[i] else None)
  {
  }

  /** A positive shift leaves the first `periods` cells missing and keeps the order of the rest. */
  lemma ShiftedDown(cells: seq<Cell>, periods: nat)
    requires periods <= |cells|
    ensures Shifted(cells, periods) == seq(periods, _ => None) + cells[..|cells| - periods]
  {
    var r := Shifted(cells, periods);
    var e := seq(periods, _ => None) + cells[..|cells| - periods];
    assert |r| == |e|;
    forall i | 0 <= i < |r|
      ensures r[i] == e[i]
    {
      if i >= periods {
        assert e[i] == cells[..|cells| - periods][i - periods];
      }
    }
  }

  /** `n in df.columns` for a name given to `shift`. */
  predicate InColumns(df: Table, n: Label)
  {
    n.ColumnName? && df.HasColumn(n.name)
  }

  /** `n in df.index` for a name given to `shift`. */
  predicate InIndex(df: Table, n: Label)
  {
    n.RowLabel? && n.row in df.index.labels
  }

  /** `[n for n in names if n in df.columns]` (or `df.index`). */
  function Included(df: Table, names: seq<Label>, onColumns: bool): (r: seq<Label>)
    ensures |r| <= |names|
    ensures forall k :: 0 <= k < |r| ==> r[k] in names
    ensures forall n :: n in r <==> n in names && (if onColumns then InColumns(df, n) else InIndex(df, n))
  {
    if names == [] then []
    else
      var rest := Included(df, names[..|names| - 1], onColumns);
      var n := names[|names| - 1];
      assert names == names[..|names| - 1] + [n];
      if (if onColumns then InColumns(df, n) else InIndex(df, n)) then rest + [n] else rest
  }

  /** Every name is included exactly when the filter drops none. */
  lemma {:induction false} IncludedAll(df: Table, names: seq<Label>, onColumns: bool)
    ensures |Included(df, names, onColumns)| == |names| <==>
      forall n :: n in names ==> (if onColumns then InColumns(df, n) else InIndex(df, n))
  {
    if names != [] {
      var init := names[..|names| - 1];
      var n := names[|names| - 1];
      assert names == init + [n];
      IncludedAll(df, init, onColumns);
      if |Included(df, names, onColumns)| == |names| {
        assert |Included(df, init, onColumns)| == |init|;
      }
    }
  }

  /** `df.loc[:, names] = df.loc[:, names].shift(periods, axis=0)` on a copy: every column named in
      `names` moves down by `periods` rows; the other columns are kept. */
  function ShiftColumns(df: Table, names: seq<Label>, periods: int): (r: Table)
    requires df.Valid()
    ensures r.Valid() && r.index == df.index && |r.columns| == |df.columns|
  {
    Table(df.index, seq(|df.columns|, c requires 0 <= c < |df.columns| =>
      if ColumnName(df.columns[c].name) in names
      then Column(df.columns[c].name, Shifted(df.columns[c].cells, periods))
      else df.columns[c]))
  }

  /** `df.loc[rows, :] = df.loc[rows, :].shift(periods, axis=1)` on a copy: in every row whose label
      is in `rows` the values move `periods` columns to the right; the other rows are kept. */
  function ShiftRows(df: Table, rows: seq<Label>, periods: int): (r: Table)
    requires df.Valid()
    ensures r.Valid() && r.index == df.index && |r.columns| == |df.columns|
  {
    var n := |df.index.labels|;
    var m := |df.columns|;
    Table(df.index, seq(m, c requires 0 <= c < m =>
      Column(df.columns[c].name, seq(n, i requires 0 <= i < n =>
        if RowLabel(df.index.labels[i]) in rows
        then (if 0 <= c - periods < m then df.columns[c - periods].cells[i] else None)
        else df.columns[c].cells[i]))))
  }

  /** `shift(df, names, periods, axis, must_include_names)` as written: with `must_include_names`
      off, the `columns` branch selects `names` rather than the names present, and `.loc` refuses a
      missing column with `KeyError`. */
  function ShiftAsWritten(df: Table, names: seq<Label>, periods: int, axis: string, mustIncludeNames: bool): (r: Result<Table>)
    requires df.Valid()
    ensures periods == 0 || names == [] ==> r == Ok(df)
    ensures (periods != 0 && names != [] && axis == "columns" && !mustIncludeNames
             && 0 < |Included(df, names, true)| < |names|) ==> r == Err(KeyError)
  {
    if periods == 0 || |names| == 0 then Ok(df)
    else if axis != "columns" && axis != "index" then Err(ValueError)
    else
      var onColumns := axis == "columns";
      var included := Included(df, names, onColumns);
      if mustIncludeNames && |names| > |included| then Err(ValueError)
      else if mustIncludeNames && |included| == 0 then Err(ValueError)
      else if !mustIncludeNames && |included| == 0 then Ok(df)
      else if onColumns then
        (if |included| < |names| then Err(KeyError) else Ok(ShiftColumns(df, names, periods)))
      else Ok(ShiftRows(df, included, periods))
  }

  /** `shift` with the selection it evidently intends: the `columns` branch shifts the names
      present, as the `index` branch does. */
  function Shift(df: Table, names: seq<Label>, periods: int, axis: string, mustIncludeNames: bool): (r: Result<Table>)
    requires df.Valid()
    ensures periods == 0 || names == [] ==> r == Ok(df)
    ensures r.Err? ==> r.error == ValueError
    ensures r.Ok? ==> r.value.Valid() && r.value.index == df.index && |r.value.columns| == |df.columns|
  {
    if periods == 0 || |names| == 0 then Ok(df)
    else if axis != "columns" && axis != "index" then Err(ValueError)
    else
      var onColumns := axis == "columns";
      var included := Included(df, names, onColumns);
      if mustIncludeNames && |names| > |included| then Err(ValueError)
      else if mustIncludeNames && |included| == 0 then Err(ValueError)
      else if !mustIncludeNames && |included| == 0 then Ok(df)
      else if onColumns then Ok(ShiftColumns(df, included, periods))
      else Ok(ShiftRows(df, included, periods))
  }

  /** The guards come first: nothing to do gives an unchanged copy even for an unknown axis, and
      only then does an unknown axis raise `ValueError`. */
  lemma ShiftGuards(df: Table, names: seq<Label>, periods: int, axis: string, mustIncludeNames: bool)
    requires df.Valid()
    ensures periods == 0 || names == [] ==> Shift(df, names, periods, axis, mustIncludeNames) == Ok(df)
    ensures periods != 0 && names != [] && axis != "columns" && axis != "index"
      ==> Shift(df, names, periods, axis, mustIncludeNames) == Err(ValueError)
  {
  }

  /** With `must_include_names`, a name missing from the chosen axis raises `ValueError`. */
  lemma ShiftMissingNameRejected(df: Table, names: seq<Label>, periods: int, axis: string, n: Label)
    requires df.Valid() && periods != 0 && n in names && (axis == "columns" || axis == "index")
    requires if axis == "columns" then !InColumns(df, n) else !InIndex(df, n)
    ensures Shift(df, names, periods, axis, true) == Err(ValueError)
  {
    IncludedAll(df, names, axis == "columns");
  }

  /** Shifting columns moves exactly the named columns present, each by `periods` rows, and keeps
      the index, the column names and every other column. */
  lemma ShiftColumnsEffect(df: Table, names: seq<Label>, periods: int, mustIncludeNames: bool)
    requires df.Valid() && periods != 0 && names != []
    requires Shift(df, names, periods, "columns", mustIncludeNames).Ok?
    ensures var u := Shift(df, names, periods, "columns", mustIncludeNames).value;
      && u.index == df.index
      && (forall c :: 0 <= c < |df.columns| ==> u.columns[c].name == df.columns[c].name)
      && (forall c :: 0 <= c < |df.columns| ==>
            u.columns[c].cells == (if ColumnName(df.columns[c].name) in names
                                   then Shifted(df.columns[c].cells, periods)
                                   else df.columns[c].cells))
  {
    var included := Included(df, names, true);
    forall c | 0 <= c < |df.columns|
      ensures ColumnName(df.columns[c].name) in included <==> ColumnName(df.columns[c].name) in names
    {
      assert InColumns(df, ColumnName(df.columns[c].name));
    }
  }

  /** Shifting rows moves the values of exactly the rows whose label is named, `periods` columns
      on, and keeps every other row. */
  lemma ShiftRowsEffect(df: Table, names: seq<Label>, periods: int, mustIncludeNames: bool, c: nat, i: nat)
    requires df.Valid() && periods != 0 && names != []
    requires Shift(df, names, periods, "index", mustIncludeNames).Ok?
    requires c < |df.columns| && i < df.Rows()
    ensures var u := Shift(df, names, periods, "index", mustIncludeNames).value;
      u.columns[c].cells[i] ==
        if RowLabel(df.index.labels[i]) in names
        then (if 0 <= c - periods < |df.columns| then df.columns[c - periods].cells[i] else None)
        else df.columns[c].cells[i]
  {
    var included := Included(df, names, false);
    assert RowLabel(df.index.labels[i]) in included <==> RowLabel(df.index.labels[i]) in names by {
      assert InIndex(df, RowLabel(df.index.labels[i]));
    }
  }

  /** The two readings agree except when `must_include_names` is off and only some of the names
      are columns. */
  lemma ShiftAsWrittenAgrees(df: Table, names: seq<Label>, periods: int, axis: string, mustIncludeNames: bool)
    requires df.Valid()
    requires !(axis == "columns" && !mustIncludeNames && 0 < |Included(df, names, true)| < |names|)
    ensures ShiftAsWritten(df, names, periods, axis, mustIncludeNames) == Shift(df, names, periods, axis, mustIncludeNames)
  {
    if periods != 0 && names != [] && axis == "columns" && |Included(df, names, true)| == |names| {
      IncludedAll(df, names, true);
      var included := Included(df, names, true);
      var a := ShiftColumns(df, names, periods);
      var b := ShiftColumns(df, included, periods);
      forall c | 0 <= c < |df.columns|
        ensures a.columns[c] == b.columns[c]
      {
        assert ColumnName(df.columns[c].name) in names ==> InColumns(df, ColumnName(df.columns[c].name));
      }
      assert a.columns == b.columns;
    }
  }

  /** A table with one column "A" of two rows; asking to shift "A" and a missing "B" with
      `must_include_names=False` fails as written and shifts "A" as intended. */
  lemma ShiftMissingColumnAsWritten(v: int, w: int)
    ensures var df := Table(Index(None, [Some(0), Some(1)], true, None), [Column("A", [Some(v), Some(w)])]);
      var names := [ColumnName("A"), ColumnName("B")];
      && ShiftAsWritten(df, names, 1, "columns", false) == Err(KeyError)
      && Shift(df, names, 1, "columns", false)
         == Ok(Table(df.index, [Column("A", [None, Some(v)])]))
  {
    var df := Table(Index(None, [Some(0), Some(1)], true, None), [Column("A", [Some(v), Some(w)])]);
    var names := [ColumnName("A"), ColumnName("B")];
    assert df.columns[0].name == "A";
    assert InColumns(df, ColumnName("A"));
    assert !InColumns(df, ColumnName("B"));
    var included := Included(df, names, true);
    assert included == [ColumnName("A")] by {
      assert names[..1] == [ColumnName("A")];
      assert Included(df, names[..1], true) == [ColumnName("A")] by {
        assert names[..1][..0] == [];
      }
    }
    var u := ShiftColumns(df, included, 1);
    assert Shifted([Some(v), Some(w)], 1) == [None, Some(v)];
    assert u.columns == [Column("A", [None, Some(v)])];
  }

  // ---------------------------------------------------------------------------------------------
  // is_default_index

  /** `is_default_index(df)`: the index is a `RangeIndex` equal to `0, 1, …, len(df) - 1`. */
  function IsDefaultIndex(df: Table): (r: bool)
    ensures r ==> Unique(df.index.labels) && Ascending(df.index.labels)
    ensures r <==> df.index.isRange && forall i :: 0 <= i < df.Rows() ==> df.index.labels[i] == Some(i)
  {
    df.index.isRange && forall i :: 0 <= i < df.Rows() ==> df.index.labels[i] == Some(i)
  }

  // ---------------------------------------------------------------------------------------------
  // sum_none

  /** The number of missing cells in a line. */
  function MissingCount(cells: seq<Cell>): (n: nat)
    ensures n <= |cells|
    ensures n == 0 <==> forall i :: 0 <= i < |cells| ==> cells[i].Some?
  {
    if cells == [] then 0
    else
      assert forall i :: 1 <= i < |cells| ==> cells[i] == cells[1..][i - 1];
      (if cells[0].None? then 1 else 0) + MissingCount(cells[1..])
  }

  /** A dict comprehension `{k: n for k, n in pairs if n > 0}`: a later pair with a repeated key
      replaces the earlier value. */
  function Collect(pairs: seq<(Label, nat)>): (m: map<Label, nat>)
    ensures forall k :: k in m ==> m[k] > 0
    ensures forall k :: k in m <==> exists i :: 0 <= i < |pairs| && pairs[i].0 == k && pairs[i].1 > 0
  {
    if pairs == [] then map[]
    else
      var init := pairs[..|pairs| - 1];
      var m := Collect(init);
      var last := pairs[|pairs| - 1];
      assert forall i :: 0 <= i < |init| ==> init[i] == pairs[i];
      if last.1 > 0 then m[last.0 := last.1] else m
  }

  /** With distinct keys each kept key maps to its own count. */
  lemma {:induction false} CollectDistinct(pairs: seq<(Label, nat)>, i: nat)
    requires forall a, b :: 0 <= a < b < |pairs| ==> pairs[a].0 != pairs[b].0
    requires i < |pairs| && pairs[i].1 > 0
    ensures pairs[i].0 in Collect(pairs) && Collect(pairs)[pairs[i].0] == pairs[i].1
  {
    if i < |pairs| - 1 {
      var init := pairs[..|pairs| - 1];
      CollectDistinct(init, i);
      assert init[i] == pairs[i];
    }
  }

  /** The missing count of each column, in column order. */
  function ColumnCounts(df: Table): (pairs: seq<(Label, nat)>)
    ensures |pairs| == |df.columns|
    ensures forall c :: 0 <= c < |pairs| ==>
      pairs[c] == (ColumnName(df.columns[c].name), MissingCount(df.columns[c].cells))
  {
    seq(|df.columns|, c requires 0 <= c < |df.columns| =>
      (ColumnName(df.columns[c].name), MissingCount(df.columns[c].cells)))
  }

  /** The cells of row `i`, across the columns. */
  function RowCells(df: Table, i: nat): (cells: seq<Cell>)
    requires df.Valid() && i < df.Rows()
    ensures |cells| == |df.columns|
    ensures forall c :: 0 <= c < |cells| ==> cells[c] == df.columns[c].cells[i]
  {
    seq(|df.columns|, c requires 0 <= c < |df.columns| => df.columns[c].cells[i])
  }

  /** The missing count of each row, in row order. */
  function RowCounts(df: Table): (pairs: seq<(Label, nat)>)
    requires df.Valid()
    ensures |pairs| == df.Rows()
    ensures forall i :: 0 <= i < |pairs| ==> pairs[i] == (RowLabel(df.index.labels[i]), MissingCount(RowCells(df, i)))
  {
    seq(df.Rows(), i requires 0 <= i < df.Rows() => (RowLabel(df.index.labels[i]), MissingCount(RowCells(df, i))))
  }

  /** `sum_none(df, axis)`: `{}` for an empty table; otherwise the missing count of every column
      (or every row) that has one. Any other axis leaves `result` unbound. */
  function SumNone(df: Table, axis: string): (r: Result<map<Label, nat>>)
    requires df.Valid()
    ensures df.Empty() ==> r == Ok(map[])
    ensures r.Err? <==> !df.Empty() && axis != "index" && axis != "columns"
    ensures r.Err? ==> r.error == UnboundLocalError
    ensures r.Ok? ==> forall k :: k in r.value ==> r.value[k] > 0
  {
    if df.Empty() then Ok(map[])
    else if axis == "index" then Ok(Collect(RowCounts(df)))
    else if axis == "columns" then Ok(Collect(ColumnCounts(df)))
    else Err(UnboundLocalError)
  }

  /** Per column: a column name is a key exactly when some column of that name has a missing
      cell, and with distinct names its value is that column's missing count. */
  lemma SumNoneColumns(df: Table, c: nat)
    requires df.Valid() && !df.Empty() && c < |df.columns|
    ensures var m := SumNone(df, "columns").value;
      var name := ColumnName(df.columns[c].name);
      && (MissingCount(df.columns[c].cells) > 0 ==> name in m)
      && (name in m ==> exists d :: 0 <= d < |df.columns| && df.columns[d].name == df.columns[c].name
                                     && MissingCount(df.columns[d].cells) > 0)
      && (((forall a, b :: 0 <= a < b < |df.columns| ==> df.columns[a].name != df.columns[b].name)
           && MissingCount(df.columns[c].cells) > 0)
          ==> m[name] == MissingCount(df.columns[c].cells))
  {
    var pairs := ColumnCounts(df);
    var m := SumNone(df, "columns").value;
    var name := ColumnName(df.columns[c].name);
    if name in m {
      var d :| 0 <= d < |pairs| && pairs[d].0 == name && pairs[d].1 > 0;
      assert df.columns[d].name == df.columns[c].name;
    }
    if (forall a, b :: 0 <= a < b < |df.columns| ==> df.columns[a].name != df.columns[b].name)
       && MissingCount(df.columns[c].cells) > 0 {
      CollectDistinct(pairs, c);
    }
  }

  /** Per row: with distinct row labels, a row with a missing cell is a key mapped to its missing
      count, and a row without one is absent. */
  lemma SumNoneRows(df: Table, i: nat)
    requires df.Valid() && !df.Empty() && i < df.Rows() && Unique(df.index.labels)
    ensures var m := SumNone(df, "index").value;
      var row := RowLabel(df.index.labels[i]);
      && (row in m <==> MissingCount(RowCells(df, i)) > 0)
      && (row in m ==> m[row] == MissingCount(RowCells(df, i)))
  {
    var pairs := RowCounts(df);
    var row := RowLabel(df.index.labels[i]);
    if MissingCount(RowCells(df, i)) > 0 {
      CollectDistinct(pairs, i);
    }
    if row in Collect(pairs) {
      var d :| 0 <= d < |pairs| && pairs[d].0 == row && pairs[d].1 > 0;
      assert d == i;
    }
  }

  // ---------------------------------------------------------------------------------------------
  // rename and setindex: in place

  /** A `DataFrame` that the helpers change in place. */
  class Frame {
    var index: Index
    var columns: seq<Column>

    function Value(): Table
      reads this
    {
      Table(index, columns)
    }

    ghost predicate Valid()
      reads this
    {
      Value().Valid()
    }

    constructor (t: Table)
      ensures Value() == t
    {
      index := t.index;
      columns := t.columns;
    }
  }

  /** The caller's `dict` from old to new names, which `rename` may change. */
  class NameMap {
    var entries: map<string, string>

    constructor (entries: map<string, string>)
      ensures this.entries == entries
    {
      this.entries := entries;
    }
  }

  /** `df.rename(columns=mapping)`: each column whose name is a key takes the mapped name. */
  function RenameColumns(columns: seq<Column>, mapping: map<string, string>): (r: seq<Column>)
    ensures |r| == |columns|
    ensures forall c :: 0 <= c < |r| ==> r[c].cells == columns[c].cells
  {
    seq(|columns|, c requires 0 <= c < |columns| =>
      Column(if columns[c].name in mapping then mapping[columns[c].name] else columns[c].name, columns[c].cells))
  }

  /** What `rename(df, columns)` leaves: the new table and the caller's mapping. When the index
      name is a key, the index takes the mapped name and the key is removed from the mapping
      before the columns are renamed with what is left. */
  function RenameSpec(t: Table, mapping: map<string, string>): (Table, map<string, string>)
  {
    if t.index.name.Some? && t.index.name.value in mapping then
      var key := t.index.name.value;
      var rest := mapping - {key};
      (Table(t.index.(name := Some(mapping[key])), RenameColumns(t.columns, rest)), rest)
    else
      (Table(t.index, RenameColumns(t.columns, mapping)), mapping)
  }

  /** `rename(df, columns)`. */
  method Rename(df: Frame, mapping: NameMap)
    requires df.Valid()
    modifies df, mapping
    ensures df.Valid()
    ensures (df.Value(), mapping.entries) == RenameSpec(old(df.Value()), old(mapping.entries))
  {
    if df.index.name.Some? && df.index.name.value in mapping.entries {
      var oldIndexName := df.index.name.value;
      df.index := df.index.(name := Some(mapping.entries[oldIndexName]));
      mapping.entries := mapping.entries - {oldIndexName};
    }
    df.columns := RenameColumns(df.columns, mapping.entries);
  }

  /** `rename` keeps every row, label and cell; it renames the index exactly when its name is a key,
      then pops that key; each column takes its mapped name from what is left, and a column not
      in it keeps its name, even one named like the index. */
  lemma RenameEffect(t: Table, mapping: map<string, string>)
    requires t.Valid()
    ensures var (u, rest) := RenameSpec(t, mapping);
      var keyed := t.index.name.Some? && t.index.name.value in mapping;
      && u.Valid()
      && u.index.labels == t.index.labels && u.index.isRange == t.index.isRange && u.index.tz == t.index.tz
      && |u.columns| == |t.columns|
      && (forall c :: 0 <= c < |t.columns| ==> u.columns[c].cells == t.columns[c].cells)
      && (keyed ==> u.index.name == Some(mapping[t.index.name.value])
                    && rest == mapping - {t.index.name.value})
      && (!keyed ==> u.index.name == t.index.name && rest == mapping)
      && (forall c :: 0 <= c < |t.columns| ==>
            u.columns[c].name == (if t.columns[c].name in rest then rest[t.columns[c].name] else t.columns[c].name))
      && (keyed ==> forall c :: 0 <= c < |t.columns| && t.columns[c].name == t.index.name.value
                                ==> u.columns[c].name == t.columns[c].name)
  {
  }

  /** What `setindex(df, key)` returns and leaves. A column called `key` becomes the index, named
      `key`, and leaves the columns; an index already named `key` stays as it is; otherwise nothing
      changes and the answer is `False`. */
  function SetIndexSpec(t: Table, key: string): (bool, Table)
  {
    match ColumnPosition(t.columns, key)
    case Some(c) =>
      (true, Table(Index(Some(key), t.columns[c].cells, false, None), t.columns[..c] + t.columns[c + 1..]))
    case None =>
      (t.index.name == Some(key), t)
  }

  /** `setindex(df, key)`. */
  method SetIndex(df: Frame, key: string) returns (ok: bool)
    requires df.Valid()
    modifies df
    ensures df.Valid()
    ensures (ok, df.Value()) == SetIndexSpec(old(df.Value()), key)
  {
    var c := ColumnPosition(df.columns, key);
    if c.Some? {
      var p := c.value;
      df.index := Index(Some(key), df.columns[p].cells, false, None);
      df.columns := df.columns[..p] + df.columns[p + 1..];
      assert forall d :: 0 <= d < |df.columns| ==> df.columns[d] == old(df.columns)[if d < p then d else d + 1];
      return true;
    } else if df.index.name == Some(key) {
      return true;
    } else {
      return false;
    }
  }

  /** Promoting a column keeps the number of rows, makes the column's cells the row labels, and
      keeps the other columns in order; when the key names no column the answer says whether it
      names the index, and the table is unchanged. */
  lemma SetIndexEffect(t: Table, key: string)
    requires t.Valid()
    ensures var (ok, u) := SetIndexSpec(t, key);
      && u.Valid() && u.Rows() == t.Rows()
      && (t.HasColumn(key) ==>
            var c := ColumnPosition(t.columns, key).value;
            && ok && u.index.name == Some(key)
            && |u.columns| == |t.columns| - 1
            && (forall d :: 0 <= d < |u.columns| ==> u.columns[d] == t.columns[if d < c then d else d + 1])
            && u.index.labels == t.columns[c].cells)
      && (!t.HasColumn(key) ==> ok == (t.index.name == Some(key)) && u == t)
  {
    if t.HasColumn(key) {
      var c := ColumnPosition(t.columns, key).value;
      var u := SetIndexSpec(t, key).1;
      assert forall d :: 0 <= d < |u.columns| ==> u.columns[d] == t.columns[if d < c then d else d + 1];
    }
  }
}
