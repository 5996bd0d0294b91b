/** `CartesianContig` of src/cartesian.rs: a non-empty grid kept as a run list of
    rows, each row a run list of cells. The row store it is written against is
    modelled by `Contigs.OrderedContigs`: `Contig::new(i, item)` is a store seeded
    with one item, and a row's origin is its lowest stored index. */
module Cartesian {
  import opened Wrappers
  import opened Spans
  import opened Rows
  import RunList
  import Contigs

  /** A grid position. */
  datatype Coordinate = Coordinate(x: int, y: int)

  class CartesianContig<T> {
    /** The rows. */
    const outer: Contigs.OrderedContigs<Contigs.OrderedContigs<T>>
    /** The row stored at each row index. */
    ghost var rowOf: map<int, Contigs.OrderedContigs<T>>
    /** The cells the grid holds, row index first. */
    ghost var cells: Cells<T>
    /** The outer store and every row object. */
    ghost var Repr: set<object>

    /** The rows are well formed and hold `cells`, which has a cell and no empty row. */
    ghost predicate Valid()
      reads this, Repr
    {
      this !in Repr && cells != map[] && GridValid(outer, rowOf, cells, Repr)
    }

    /** A grid holding the single cell `item` at column `x` of row `y`. */
    constructor (x: int, y: int, item: T)
      ensures Valid() && fresh(Repr)
      ensures cells == map[y := map[x := item]]
    {
      var row := new Contigs.OrderedContigs.Singleton(x, item);
      var rows := new Contigs.OrderedContigs.Singleton(y, row);
      ghost var cs := map[y := map[x := item]];
      assert x in cs[y] && y in cs;
      ghost var fp: set<object> := {rows, row};
      assert GridValid(rows, map[y := row], cs, fp);
      assert fresh(fp) by {
        assert forall o :: o in fp ==> o == rows || o == row;
      }
      outer, rowOf, cells, Repr := rows, map[y := row], cs, fp;
    }

    /** The cell at column `x` of row `y`: nothing when the row is absent. */
    function Get(x: int, y: int): (r: Option<T>)
      reads this, Repr
      requires Valid()
      ensures r == CellAt(cells, x, y)
      ensures y !in rowOf ==> r.None?
      ensures y in rowOf ==> r == rowOf[y].Get(x)
    {
      match outer.Get(y)
      case None => None
      case Some(row) => row.Get(x)
    }

    /** Write `item` at column `x` of row `y`: into the row if it exists, otherwise
        as a new one-cell row. */
    method Set(x: int, y: int, item: T)
      requires Valid()
      modifies this, Repr
      ensures Valid() && fresh(Repr - old(Repr))
      ensures cells == PutCell(old(cells), x, y, item)
    {
      ghost var ro, cs, repr := SetInRows(outer, rowOf, cells, Repr, x, y, item);
      forall o | o in repr && o !in old(Repr) ensures fresh(o) {
        assert o in repr - Repr;
      }
      PutKeepsRows(cells, x, y, item);
      Adopt(ro, cs, repr);
    }

    /** Take over the bookkeeping of rows that are already well formed. */
    ghost method Adopt(ro: map<int, Contigs.OrderedContigs<T>>, cs: Cells<T>, repr: set<object>)
      requires this !in repr && cs != map[] && GridValid(outer, ro, cs, repr)
      modifies this
      ensures Valid()
      ensures rowOf == ro && cells == cs && Repr == repr
    {
      rowOf, cells, Repr := ro, cs, repr;
      assert GridValid(outer, ro, cs, repr);
    }

    /** The lowest row index, and the lowest row origin taken over every row. */
    method Origin() returns (r: Coordinate)
      requires Valid()
      ensures r.y in cells && forall y :: y in cells ==> r.y <= y
      ensures exists y :: y in cells && r.x in cells[y]
      ensures forall y, x :: y in cells && x in cells[y] ==> r.x <= x
    {
      var rows := RunList.Neighbourhoods(outer.spans);
      RowEntries(outer, rowOf, cells, Repr, rows);
      assert |rows| > 0 by {
        var y :| y in cells;
        RunList.NeighbourhoodsComplete(outer.spans, y);
      }
      var best, b := LowestRow(rows);
      r := Coordinate(best.Origin(), outer.Origin());
      LowestRowIsLowestColumn(outer, rowOf, cells, Repr, rows, b);
    }
  }

  /** The rows are well formed and hold `cells`, and none of them is empty. */
  ghost predicate GridValid<T>(outer: Contigs.OrderedContigs<Contigs.OrderedContigs<T>>,
                               rowOf: map<int, Contigs.OrderedContigs<T>>, cells: Cells<T>,
                               repr: set<object>)
    reads repr
  {
    RowsValid(outer, rowOf, cells, repr) && NoEmptyRow(cells)
  }

  /** Each entry of the outer store's enumeration is a stored row, and a valid row
      with at least one cell. */
  lemma RowEntries<T>(outer: Contigs.OrderedContigs<Contigs.OrderedContigs<T>>,
                      rowOf: map<int, Contigs.OrderedContigs<T>>, cells: Cells<T>, repr: set<object>,
                      rows: seq<Indexed<Neighbourhood<Contigs.OrderedContigs<T>>>>)
    requires GridValid(outer, rowOf, cells, repr) && rows == RunList.Neighbourhoods(outer.spans)
    ensures forall k :: 0 <= k < |rows| ==> rows[k].index in rowOf && rows[k].value.item == rowOf[rows[k].index]
    ensures forall k :: 0 <= k < |rows| ==> rows[k].value.item.Valid() && |rows[k].value.item.spans| > 0
  {
    forall k | 0 <= k < |rows|
      ensures rows[k].index in rowOf && rows[k].value.item == rowOf[rows[k].index]
      ensures rows[k].value.item.Valid() && |rows[k].value.item.spans| > 0
    {
      RunList.NeighbourhoodsStored(outer.spans, k);
      assert cells[rows[k].index] != map[];
    }
  }

  /** The origin of a non-empty row: its first run's origin, which `Origin()` returns. */
  ghost function RowOrigin<T>(row: Contigs.OrderedContigs<T>): int
    reads row
    requires |row.spans| > 0
  {
    row.spans[0].origin
  }

  /** The entry whose row has the lowest origin (the first such, as `min_by` picks). */
  method LowestRow<T>(rows: seq<Indexed<Neighbourhood<Contigs.OrderedContigs<T>>>>)
      returns (best: Contigs.OrderedContigs<T>, ghost b: nat)
    requires |rows| > 0
    requires forall k :: 0 <= k < |rows| ==> rows[k].value.item.Valid() && |rows[k].value.item.spans| > 0
    ensures b < |rows| && best == rows[b].value.item
    ensures forall k :: 0 <= k < |rows| ==> RowOrigin(best) <= RowOrigin(rows[k].value.item)
    ensures forall k :: 0 <= k < b ==> RowOrigin(best) < RowOrigin(rows[k].value.item)
  {
    best, b := rows[0].value.item, 0;
    var lowest := best.Origin();
    var p := 1;
    while p < |rows|
      invariant 1 <= p <= |rows|
      invariant b < p && best == rows[b].value.item && lowest == RowOrigin(best)
      invariant forall k :: 0 <= k < p ==> lowest <= RowOrigin(rows[k].value.item)
      invariant forall k :: 0 <= k < b ==> lowest < RowOrigin(rows[k].value.item)
    {
      var o := rows[p].value.item.Origin();
      if o < lowest {
        best, b, lowest := rows[p].value.item, p, o;
      }
      p := p + 1;
    }
  }

  /** The row of lowest origin holds the lowest column of the grid. */
  lemma LowestRowIsLowestColumn<T>(outer: Contigs.OrderedContigs<Contigs.OrderedContigs<T>>,
                                   rowOf: map<int, Contigs.OrderedContigs<T>>, cells: Cells<T>,
                                   repr: set<object>, rows: seq<Indexed<Neighbourhood<Contigs.OrderedContigs<T>>>>,
                                   b: nat)
    requires GridValid(outer, rowOf, cells, repr) && rows == RunList.Neighbourhoods(outer.spans)
    requires cells != map[] && b < |rows|
    requires forall k :: 0 <= k < |rows| ==> rows[k].value.item.Valid() && |rows[k].value.item.spans| > 0
    requires forall k :: 0 <= k < |rows| ==> RowOrigin(rows[b].value.item) <= RowOrigin(rows[k].value.item)
    ensures exists y :: y in cells && rows[b].value.item.Origin() in cells[y]
    ensures forall y, x :: y in cells && x in cells[y] ==> rows[b].value.item.Origin() <= x
  {
    RowEntries(outer, rowOf, cells, repr, rows);
    var o := rows[b].value.item.Origin();
    assert rows[b].index in cells && o in cells[rows[b].index];
    forall y, x | y in cells && x in cells[y] ensures o <= x {
      RunList.NeighbourhoodsComplete(outer.spans, y);
      var k :| 0 <= k < |rows| && rows[k].index == y;
      var row := rows[k].value.item;
      assert row == rowOf[y] && x in row.Contents();
      assert o == RowOrigin(rows[b].value.item) <= RowOrigin(row) == row.Origin() <= x;
    }
  }

  /** The body of `set`: write into the row if it exists, otherwise insert a new row
      seeded with the cell. */
  method SetInRows<T>(outer: Contigs.OrderedContigs<Contigs.OrderedContigs<T>>,
                      ghost rowOf: map<int, Contigs.OrderedContigs<T>>, ghost cells: Cells<T>,
                      ghost repr: set<object>, x: int, y: int, item: T)
      returns (ghost rowOf': map<int, Contigs.OrderedContigs<T>>, ghost cells': Cells<T>,
               ghost repr': set<object>)
    requires RowsValid(outer, rowOf, cells, repr)
    modifies repr
    ensures RowsValid(outer, rowOf', cells', repr') && fresh(repr' - repr) && repr <= repr'
    ensures cells' == PutCell(cells, x, y, item)
  {
    rowOf', cells', repr' := rowOf, cells, repr;
    var found := outer.Get(y);
    if found.Some? {
      cells' := WriteRow(outer, rowOf, cells, repr, found.value, x, y, item);
    } else {
      var row := new Contigs.OrderedContigs.Singleton(x, item);
      rowOf', cells', repr' := AttachRow(outer, rowOf, cells, repr, y, row);
    }
  }
}
