/** Concrete runs exhibiting the defects recorded in the README, each beside the
    corrected behaviour. */
module Findings {
  import opened Wrappers
  import opened Spans
  import RunList
  import Contigs
  import Rows
  import ContigGrid

  /** The store `{5: 50, 6: 60}`, a single run. */
  method TwoItemStore() returns (oc: Contigs.OrderedContigs<int>)
    ensures fresh(oc) && oc.Valid() && oc.spans == [Span(5, [50, 60])]
  {
    oc := new Contigs.OrderedContigs.Singleton(5, 50);
    oc.Set(6, 60);
    ghost var both := Span.New(5, 50).PushBack(60);
    assert both == Span(5, [50, 60]);
    RunList.ContentsSingle(both);
    assert RunList.Contents([both]) == oc.Contents();
    RunList.Canonical(oc.spans, [both]);
  }

  /** `get` as written: after a lookup past the last run, a lookup of the stored index
      6 answers `None`, because the cursor kept its stale `next_i` of 5. */
  method StaleCursorAsWritten() returns (stored: Option<int>, got: Option<Neighbourhood<int>>)
    ensures stored == Some(60) && got == None
  {
    var oc := TwoItemStore();
    stored := oc.Get(6);
    var e := oc.NeighbourhoodEnumerator();
    RunList.SeekGap(e.spans, 0, 1, 100);
    RunList.OffsetAll(e.spans);
    var _ := e.GetAsWritten(100);
    got := e.GetAsWritten(6);
  }

  /** The corrected `get` answers the same two lookups with `None` and then the
      neighbourhood of 6. */
  method StaleCursorCorrected() returns (stored: Option<int>, got: Option<Neighbourhood<int>>)
    ensures stored == Some(60) && got == Some(Neighbourhood(6, Some(50), 60, None))
  {
    var oc := TwoItemStore();
    stored := oc.Get(6);
    var e := oc.NeighbourhoodEnumerator();
    var _ := e.Get(100);
    got := e.Get(6);
  }

  /** `is_empty` as written answers `false` for a grid with no cell, and `true` once
      the grid holds one. */
  method EmptinessAsWritten() returns (onEmpty: bool, onFilled: bool, filledCell: Option<int>)
    ensures !onEmpty && onFilled && filledCell == Some(7)
  {
    var g := new ContigGrid.CartesianContigs<int>();
    onEmpty := g.IsEmptyAsWritten();
    g.Set(1, 2, 7);
    Rows.PutThenCell(map[], 1, 2, 7, 1, 2);
    onFilled := g.IsEmptyAsWritten();
    filledCell := g.Get(1, 2);
  }

  /** The corrected `is_empty` answers `true` and then `false` for the same grids. */
  method EmptinessCorrected() returns (onEmpty: bool, onFilled: bool, filledCell: Option<int>)
    ensures onEmpty && !onFilled && filledCell == Some(7)
  {
    var g := new ContigGrid.CartesianContigs<int>();
    onEmpty := g.IsEmpty();
    g.Set(1, 2, 7);
    Rows.PutThenCell(map[], 1, 2, 7, 1, 2);
    onFilled := g.IsEmpty();
    filledCell := g.Get(1, 2);
  }
}
