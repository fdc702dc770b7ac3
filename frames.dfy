/** A pandas `DataFrame` reduced to what the table helpers look at: a named index of labels,
    and an ordered list of named columns of cells. Timestamps are whole numbers; a missing
    value (NaN, NaT) is `None`. */
module Frames {
  import opened Common

  /** A cell or an index label: a number, or missing. */
  type Cell = Option<int>

  /** Something a caller can name in a table: a column name or a row label. */
  datatype Label = ColumnName(name: string) | RowLabel(row: Cell)

  /** The row index: its name, its labels in row order, whether it is a `RangeIndex`, and the
      time zone of a `DatetimeIndex` (`None` when it is naive or not a time index). */
  datatype Index = Index(name: Option<string>, labels: seq<Cell>, isRange: bool, tz: Option<string>)

  datatype Column = Column(name: string, cells: seq<Cell>)

  datatype Table = Table(index: Index, columns: seq<Column>)
  {
    /** Every column has one cell per row. */
    predicate Valid()
    {
      forall c :: 0 <= c < |columns| ==> |columns[c].cells| == |index.labels|
    }

    /** `len(df)`. */
    function Rows(): nat
    {
      |index.labels|
    }

    /** `name in df.columns`. */
    predicate HasColumn(name: string)
    {
      exists c :: 0 <= c < |columns| && columns[c].name == name
    }

    /** `df.empty`: no rows or no columns. */
    predicate Empty()
    {
      |index.labels| == 0 || |columns| == 0
    }
  }

  /** No label occurs twice. */
  predicate Unique(labels: seq<Cell>)
  {
    forall i, j :: 0 <= i < j < |labels| ==> labels[i] != labels[j]
  }

  /** The first position of `x` in `labels`. */
  function PositionOf(labels: seq<Cell>, x: Cell): (p: Option<nat>)
    ensures p.Some? <==> x in labels
    ensures p.Some? ==> p.value < |labels| && labels[p.value] == x
    ensures p.Some? ==> forall k :: 0 <= k < p.value ==> labels[k] != x
  {
    if labels == [] then None
    else if labels[0] == x then Some(0)
    else match PositionOf(labels[1..], x)
      case None => None
      case Some(k) => Some(k + 1)
  }

  /** In a unique index, the position of a label is its only position. */
  lemma PositionOfUnique(labels: seq<Cell>, p: nat)
    requires Unique(labels) && p < |labels|
    ensures PositionOf(labels, labels[p]) == Some(p)
  {
  }
}
