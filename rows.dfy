/** Two-dimensional stores kept as a run list of rows, each row itself a run list:
    the cell view they share and the well-formedness of the rows. */
module Rows {
  import opened Wrappers
  import Contigs

  /** The cells of a grid, row index first. */
  type Cells<T> = map<int, map<int, T>>

  /** The cell at column `x` of row `y`. */
  function CellAt<T>(m: Cells<T>, x: int, y: int): (r: Option<T>)
    ensures r.Some? <==> y in m && x in m[y]
    ensures r.Some? ==> r.value == m[y][x]
  {
    if y in m && x in m[y] then Some(m[y][x]) else None
  }

  /** The grid with `item` written at column `x` of row `y`, creating the row if it
      is absent. */
  function PutCell<T>(m: Cells<T>, x: int, y: int, item: T): (r: Cells<T>)
    ensures r.Keys == m.Keys + {y}
    ensures y in m ==> r[y] == m[y][x := item]
    ensures y !in m ==> r[y] == map[x := item]
    ensures forall y' :: y' in m && y' != y ==> r[y'] == m[y']
  {
    m[y := (if y in m then m[y] else map[])[x := item]]
  }

  /** Writing a cell makes it hold the item and leaves every other cell as it was. */
  lemma PutThenCell<T>(m: Cells<T>, x: int, y: int, item: T, x': int, y': int)
    ensures CellAt(PutCell(m, x, y, item), x', y') ==
              if x' == x && y' == y then Some(item) else CellAt(m, x', y')
  {
  }

  /** No row of the grid is empty. */
  ghost predicate NoEmptyRow<T>(m: Cells<T>) {
    forall y :: y in m ==> m[y] != map[]
  }

  /** A write leaves the grid non-empty and creates no empty row. */
  lemma PutKeepsRows<T>(m: Cells<T>, x: int, y: int, item: T)
    requires NoEmptyRow(m)
    ensures PutCell(m, x, y, item) != map[] && NoEmptyRow(PutCell(m, x, y, item))
  {
    var p := PutCell(m, x, y, item);
    assert x in p[y];
    forall y' | y' in p ensures p[y'] != map[] {
      if y' != y {
        assert p[y'] == m[y'];
      } else {
        assert x in p[y'];
      }
    }
  }

  /** Writing into a row inserted empty is writing a new one-cell row. */
  lemma PutIntoEmptyRow<T>(m: Cells<T>, x: int, y: int, item: T)
    requires y !in m
    ensures PutCell(m[y := map[]], x, y, item) == PutCell(m, x, y, item)
  {
  }

  /** The outer store maps each row index to its row (`rowOf`, kept beside it), and
      each row holds the cells `cells` gives for its index; every row is a valid
      store of its own, held in the footprint, distinct from the outer store and
      from every other row. */
  ghost predicate RowsValid<T>(outer: Contigs.OrderedContigs<Contigs.OrderedContigs<T>>,
                               rowOf: map<int, Contigs.OrderedContigs<T>>, cells: Cells<T>,
                               repr: set<object>)
    reads repr
  {
    && outer in repr
    && outer.Valid()
    && outer.Contents() == rowOf
    && rowOf.Keys == cells.Keys
    && (forall y :: y in rowOf ==> rowOf[y] in repr && rowOf[y] != outer)
    && (forall y :: y in rowOf ==> rowOf[y].Valid() && rowOf[y].Contents() == cells[y])
    && (forall y, y' :: y in rowOf && y' in rowOf && y != y' ==> rowOf[y] != rowOf[y'])
  }

  /** Store the valid row `row`, not yet part of the grid, at the unused row index `y`. */
  method AttachRow<T>(outer: Contigs.OrderedContigs<Contigs.OrderedContigs<T>>,
                      ghost rowOf: map<int, Contigs.OrderedContigs<T>>, ghost cells: Cells<T>,
                      ghost repr: set<object>, y: int, row: Contigs.OrderedContigs<T>)
      returns (ghost rowOf': map<int, Contigs.OrderedContigs<T>>, ghost cells': Cells<T>,
               ghost repr': set<object>)
    requires RowsValid(outer, rowOf, cells, repr) && y !in rowOf
    requires row.Valid() && row !in repr
    modifies outer
    ensures rowOf' == rowOf[y := row] && repr' == repr + {row}
    ensures cells' == cells[y := row.Contents()]
    ensures RowsValid(outer, rowOf', cells', repr')
  {
    outer.Set(y, row);
    rowOf', cells', repr' := rowOf[y := row], cells[y := row.Contents()], repr + {row};
    forall y' | y' in rowOf'
      ensures rowOf'[y'] in repr' && rowOf'[y'] != outer
      ensures rowOf'[y'].Valid() && rowOf'[y'].Contents() == cells'[y']
    {
      if y' != y {
        assert rowOf'[y'] == rowOf[y'];
      }
    }
  }

  /** Write a cell into the row stored at `y`; no other row changes. */
  method WriteRow<T>(outer: Contigs.OrderedContigs<Contigs.OrderedContigs<T>>,
                     ghost rowOf: map<int, Contigs.OrderedContigs<T>>, ghost cells: Cells<T>,
                     ghost repr: set<object>, row: Contigs.OrderedContigs<T>, x: int, y: int, item: T)
      returns (ghost cells': Cells<T>)
    requires RowsValid(outer, rowOf, cells, repr) && y in rowOf && rowOf[y] == row
    modifies row
    ensures cells' == PutCell(cells, x, y, item)
    ensures RowsValid(outer, rowOf, cells', repr)
  {
    row.Set(x, item);
    cells' := PutCell(cells, x, y, item);
    forall y' | y' in rowOf ensures rowOf[y'].Valid() && rowOf[y'].Contents() == cells'[y'] {
      if y' != y {
        assert rowOf[y'] != row;
      }
    }
  }
}
