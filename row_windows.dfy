/** The row side of `CartesianContigNeighbourhoodEnumerator` in src/cartesian.rs:
    skipping row windows without a focal row, and choosing which of the three rows
    drive the column synchroniser. */
module RowWindows {
  import opened Wrappers
  import opened Spans
  import opened Lanes
  import RunList
  import Synchroniser

  /** The rows around a row index as the row enumerator hands them out: the row
      below it (index `i - 1`), the focal row at `i` and the row above (`i + 1`),
      each possibly absent. A row is the run list it borrows. */
  datatype RowWindow<R> = RowWindow(below: Option<R>, at: Option<R>, above: Option<R>) {

    /** The three slots in order, as the source's `items` array. */
    function Items(): (r: seq<Option<R>>)
      ensures |r| == 3 && r[0] == below && r[1] == at && r[2] == above
    {
      [below, at, above]
    }
  }

  /** The driver rule: the focal row drives alone when present; otherwise whichever
      of the rows below and above are present drive. */
  function Drivers<R>(w: RowWindow<R>): (d: seq<bool>)
    ensures |d| == 3
    ensures d[1] <==> w.at.Some?
    ensures d[0] <==> w.at.None? && w.below.Some?
    ensures d[2] <==> w.at.None? && w.above.Some?
  {
    match (w.below, w.at, w.above)
    case (_, Some(_), _) => [false, true, false]
    case (Some(_), None, Some(_)) => [true, false, true]
    case (Some(_), None, None) => [true, false, false]
    case (None, None, Some(_)) => [false, false, true]
    case (None, None, None) => [false, false, false]
  }

  /** Some row drives exactly when some row of the window is present, and a driver
      is always a present row. */
  lemma DriversPresent<R>(w: RowWindow<R>)
    ensures (exists u :: 0 <= u < 3 && Drivers(w)[u]) <==> (exists u :: 0 <= u < 3 && w.Items()[u].Some?)
    ensures forall u :: 0 <= u < 3 && Drivers(w)[u] ==> w.Items()[u].Some?
  {
    var d, s := Drivers(w), w.Items();
    if exists u :: 0 <= u < 3 && s[u].Some? {
      if w.at.Some? { assert d[1]; }
      else if w.below.Some? { assert d[0]; }
      else { assert d[2]; }
    }
  }

  /** The column cursor of one row: its neighbourhood enumerator, at the start. */
  function ColumnLane<T>(row: Option<seq<Span<T>>>): (r: Option<Lane<Neighbourhood<T>>>)
    ensures r.Some? <==> row.Some?
    ensures r.Some? ==> r.value == Lane(RunList.Neighbourhoods(row.value), 0)
  {
    match row
    case None => None
    case Some(spans) => Some(Lane(RunList.Neighbourhoods(spans), 0))
  }

  /** The column cursors of the three rows of a window, in slot order. */
  function ColumnLanes<T>(w: RowWindow<seq<Span<T>>>): (r: seq<Option<Lane<Neighbourhood<T>>>>)
    ensures |r| == 3
    ensures forall u :: 0 <= u < 3 ==> r[u] == ColumnLane(w.Items()[u])
  {
    [ColumnLane(w.below), ColumnLane(w.at), ColumnLane(w.above)]
  }

  /** The position of the first window at or after `p` whose focal row is present,
      or the number of windows if there is none. */
  function FirstFocal<R>(e: seq<Indexed<RowWindow<R>>>, p: nat): (k: nat)
    requires p <= |e|
    ensures p <= k <= |e|
    ensures forall j :: p <= j < k ==> e[j].value.at.None?
    ensures k < |e| ==> e[k].value.at.Some?
    decreases |e| - p
  {
    if p == |e| || e[p].value.at.Some? then p else FirstFocal(e, p + 1)
  }

  /** The row-by-row walk of the grid's neighbourhood enumerator. */
  class CartesianNeighbourhoodEnumerator<T> {
    /** The row enumerator: the windows of the outer store, in ascending row order. */
    var rows: Lane<RowWindow<seq<Span<T>>>>
    /** The synchroniser over the columns of the current window, once there is one. */
    var columns: Option<Synchroniser.MultiIterator<Neighbourhood<T>>>

    ghost predicate Valid()
      reads this
    {
      rows.pos <= |rows.entries|
    }

    /** A walk over `rows`, advanced to the first window with a focal row. */
    constructor (rows: Lane<RowWindow<seq<Span<T>>>>)
      requires rows.pos <= |rows.entries|
      ensures Valid() && this.rows.entries == rows.entries
      ensures var k := FirstFocal(rows.entries, rows.pos);
        && this.rows.pos == (if k < |rows.entries| then k + 1 else k)
        && (k < |rows.entries| ==>
              && columns.Some? && fresh(columns.value)
              && columns.value.drivers == [false, true, false]
              && columns.value.lanes == ColumnLanes(rows.entries[k].value))
        && (k == |rows.entries| ==> columns.None?)
    {
      this.rows := rows;
      columns := None;
      new;
      AdvanceRow();
    }

    /** Consume windows up to and including the first whose focal row is present;
        if there is one, its rows become the column synchroniser's lanes, with the
        drivers the window calls for. At exhaustion the synchroniser is left as it was. */
    method AdvanceRow()
      requires Valid()
      modifies this
      ensures Valid() && rows.entries == old(rows.entries)
      ensures var k := FirstFocal(old(rows.entries), old(rows.pos));
        && rows.pos == (if k < |rows.entries| then k + 1 else k)
        && (k < |rows.entries| ==>
              && columns.Some? && fresh(columns.value)
              && columns.value.drivers == Drivers(rows.entries[k].value)
              && columns.value.drivers == [false, true, false]
              && columns.value.lanes == ColumnLanes(rows.entries[k].value))
        && (k == |rows.entries| ==> columns == old(columns))
    {
      ghost var e, p0 := rows.entries, rows.pos;
      var step := rows.Next();
      rows := step.1;
      while step.0.Some? && step.0.value.value.at.None?
        invariant rows.entries == e && p0 <= rows.pos <= |e| && columns == old(columns)
        invariant step.0.Some? ==>
                    p0 < rows.pos && step.0.value == e[rows.pos - 1] &&
                    FirstFocal(e, p0) == FirstFocal(e, rows.pos - 1)
        invariant step.0.None? ==> rows.pos == |e| && FirstFocal(e, p0) == |e|
        decreases |e| - rows.pos + (if step.0.Some? then 1 else 0)
      {
        step := rows.Next();
        rows := step.1;
      }
      if step.0.Some? {
        var w := step.0.value.value;
        var drivers := Drivers(w);
        var lanes := ColumnLanes(w);
        var sync := new Synchroniser.MultiIterator(lanes, drivers);
        columns := Some(sync);
      }
    }
  }
}
