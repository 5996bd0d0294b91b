/** `CartesianContigs` of the src/playfield.rs draft: a run list of rows, each row a
    run list of cells. Unlike src/contig.rs the outer store always exists, and a
    missing row is built with its one cell before it is inserted. */
module PlayfieldGrid {
  import opened Wrappers
  import opened Rows
  import Contigs

  class CartesianContigs<T> {
    /** The rows. */
    const outer: Contigs.OrderedContigs<Contigs.OrderedContigs<T>>
    /** The row stored at each row index. */
    ghost var rowOf: map<int, Contigs.OrderedContigs<T>>
    /** The cells the grid holds, row index first. */
    ghost var cells: Cells<T>
    /** The outer store and every row object. */
    ghost var Repr: set<object>

    /** The rows are well formed, hold `cells`, and none of them is empty. */
    ghost predicate Valid()
      reads this, Repr
    {
      this !in Repr && GridValid(outer, rowOf, cells, Repr)
    }

    /** An empty grid. */
    constructor ()
      ensures Valid() && fresh(Repr) && cells == map[]
    {
      outer := new Contigs.OrderedContigs();
      rowOf := map[];
      cells := map[];
      new;
      Repr := {outer};
    }

    /** The cell at column `x` of row `y`. */
    function Get(x: int, y: int): (r: Option<T>)
      reads this, Repr
      requires Valid()
      ensures r == CellAt(cells, x, y)
    {
      match outer.Get(y)
      case None => None
      case Some(row) => row.Get(x)
    }

    /** Write `item` at column `x` of row `y`: into the row if it exists, otherwise
        into a new row that is then inserted. */
    method Set(x: int, y: int, item: T)
      requires Valid()
      modifies this, Repr
      ensures Valid() && fresh(Repr - old(Repr))
      ensures cells == PutCell(old(cells), x, y, item)
    {
      ghost var ro, cs, repr := SetInRows(outer, rowOf, cells, Repr, x, y, item);
      forall o | o in repr && o !in old(Repr) ensures fresh(o) {
        assert o in repr - Repr;
      }
      PutKeepsRows(cells, x, y, item);
      Adopt(ro, cs, repr);
    }

    /** Take over the bookkeeping of rows that are already well formed. */
    ghost method Adopt(ro: map<int, Contigs.OrderedContigs<T>>, cs: Cells<T>, repr: set<object>)
      requires this !in repr && GridValid(outer, ro, cs, repr)
      modifies this
      ensures Valid()
      ensures rowOf == ro && cells == cs && Repr == repr
    {
      rowOf, cells, Repr := ro, cs, repr;
      assert GridValid(outer, ro, cs, repr);
    }
  }

  /** The rows are well formed and hold `cells`, and none of them is empty. */
  ghost predicate GridValid<T>(outer: Contigs.OrderedContigs<Contigs.OrderedContigs<T>>,
                               rowOf: map<int, Contigs.OrderedContigs<T>>, cells: Cells<T>,
                               repr: set<object>)
    reads repr
  {
    RowsValid(outer, rowOf, cells, repr) && NoEmptyRow(cells)
  }

  /** The body of `set`: write into the row if it exists, otherwise build a new row
      holding the cell and insert it. */
  method SetInRows<T>(outer: Contigs.OrderedContigs<Contigs.OrderedContigs<T>>,
                      ghost rowOf: map<int, Contigs.OrderedContigs<T>>, ghost cells: Cells<T>,
                      ghost repr: set<object>, x: int, y: int, item: T)
      returns (ghost rowOf': map<int, Contigs.OrderedContigs<T>>, ghost cells': Cells<T>,
               ghost repr': set<object>)
    requires RowsValid(outer, rowOf, cells, repr)
    modifies repr
    ensures RowsValid(outer, rowOf', cells', repr') && fresh(repr' - repr) && repr <= repr'
    ensures cells' == PutCell(cells, x, y, item)
  {
    rowOf', cells', repr' := rowOf, cells, repr;
    var found := outer.Get(y);
    if found.Some? {
      cells' := WriteRow(outer, rowOf, cells, repr, found.value, x, y, item);
    } else {
      var row := new Contigs.OrderedContigs();
      row.Set(x, item);
      rowOf', cells', repr' := AttachRow(outer, rowOf, cells, repr, y, row);
    }
  }
}
