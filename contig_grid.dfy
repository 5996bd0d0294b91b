/** `CartesianContigs` of src/contig.rs: an optional run list of rows, each row a
    run list of cells. */
module ContigGrid {
  import opened Wrappers
  import opened Rows
  import Contigs

  class CartesianContigs<T> {
    /** The rows, or `None` before the first write. */
    var rows: Option<Contigs.OrderedContigs<Contigs.OrderedContigs<T>>>
    /** The row stored at each row index. */
    ghost var rowOf: map<int, Contigs.OrderedContigs<T>>
    /** The cells the grid holds, row index first. */
    ghost var cells: Cells<T>
    /** The outer store and every row object. */
    ghost var Repr: set<object>

    /** The rows are well formed and hold `cells`. */
    ghost predicate Valid()
      reads this, Repr
    {
      this !in Repr && GridValid(rows, rowOf, cells, Repr)
    }

    /** An empty grid, with no outer store. */
    constructor ()
      ensures Valid() && fresh(Repr) && rows == None && cells == map[]
    {
      rows := None;
      rowOf := map[];
      cells := map[];
      Repr := {};
    }

    /** `is_empty` as written: it answers whether the outer store exists, which is
        whether the grid holds a cell — the opposite of its name. */
    function IsEmptyAsWritten(): (r: bool)
      reads this, Repr
      requires Valid()
      ensures r <==> cells != map[]
    {
      rows.Some?
    }

    /** `is_empty` corrected: whether the grid holds no cell. */
    function IsEmpty(): (r: bool)
      reads this, Repr
      requires Valid()
      ensures r <==> cells == map[]
    {
      rows.None?
    }

    /** The cell at column `x` of row `y`. */
    function Get(x: int, y: int): (r: Option<T>)
      reads this, Repr
      requires Valid()
      ensures r == CellAt(cells, x, y)
    {
      match rows
      case None => None
      case Some(outer) =>
        match outer.Get(y)
        case None => None
        case Some(row) => row.Get(x)
    }

    /** Write `item` at column `x` of row `y`, creating the outer store and the row
        as needed. */
    method Set(x: int, y: int, item: T)
      requires Valid()
      modifies this, Repr
      ensures Valid() && fresh(Repr - old(Repr))
      ensures cells == PutCell(old(cells), x, y, item)
    {
      ghost var repr: set<object> := Repr;
      if rows.None? {
        var outer := new Contigs.OrderedContigs();
        rows := Some(outer);
        repr := repr + {outer};
      }
      assert fresh(repr - old(Repr)) && this !in repr;
      ghost var ro, cs, repr' := SetInRows(rows.value, rowOf, cells, repr, x, y, item);
      forall o | o in repr' && o !in old(Repr) ensures fresh(o) {
        if o !in repr {
          assert o in repr' - repr;
        } else {
          assert o in repr - old(Repr);
        }
      }
      assert this !in repr' by {
        assert !fresh(this);
      }
      PutKeepsRows(cells, x, y, item);
      Adopt(ro, cs, repr');
    }

    /** Take over the bookkeeping of rows that are already well formed. */
    ghost method Adopt(ro: map<int, Contigs.OrderedContigs<T>>, cs: Cells<T>, repr: set<object>)
      requires this !in repr && GridValid(rows, ro, cs, repr)
      modifies this
      ensures Valid() && rows == old(rows)
      ensures rowOf == ro && cells == cs && Repr == repr
    {
      rowOf, cells, Repr := ro, cs, repr;
      assert GridValid(rows, ro, cs, repr);
    }
  }

  /** The outer store, when present, is in the footprint with well-formed rows, at
      least one of them and none empty; without it there are no rows. */
  ghost predicate GridValid<T>(rows: Option<Contigs.OrderedContigs<Contigs.OrderedContigs<T>>>,
                               rowOf: map<int, Contigs.OrderedContigs<T>>, cells: Cells<T>,
                               repr: set<object>)
    reads repr
  {
    && (rows.None? ==> rowOf == map[] && cells == map[])
    && (rows.Some? ==>
          && rows.value in repr
          && RowsValid(rows.value, rowOf, cells, repr)
          && cells != map[]
          && NoEmptyRow(cells))
  }

  /** The body of `set` once the outer store exists: find the row, inserting an empty
      one if there is none and querying it again, then write the cell into it. */
  method SetInRows<T>(outer: Contigs.OrderedContigs<Contigs.OrderedContigs<T>>,
                      ghost rowOf: map<int, Contigs.OrderedContigs<T>>, ghost cells: Cells<T>,
                      ghost repr: set<object>, x: int, y: int, item: T)
      returns (ghost rowOf': map<int, Contigs.OrderedContigs<T>>, ghost cells': Cells<T>,
               ghost repr': set<object>)
    requires RowsValid(outer, rowOf, cells, repr)
    modifies repr
    ensures RowsValid(outer, rowOf', cells', repr') && fresh(repr' - repr) && repr <= repr'
    ensures cells' == PutCell(cells, x, y, item)
  {
    rowOf', cells', repr' := rowOf, cells, repr;
    var found := outer.Get(y);
    if found.None? {
      var empty := new Contigs.OrderedContigs();
      PutIntoEmptyRow(cells, x, y, item);
      rowOf', cells', repr' := AttachRow(outer, rowOf', cells', repr', y, empty);
      found := outer.Get(y);
    }
    cells' := WriteRow(outer, rowOf', cells', repr', found.value, x, y, item);
  }
}
