# Run-coalescing sparse arrays, in Dafny

This project models the core of a small Rust cellular-automaton playfield. That core is a
sparse one-dimensional array stored as a list of runs, plus two-dimensional grids built
from one such array per row:

- **A run (`Contig`).** An origin and the items stored at consecutive indices from it.
  It is modelled as the datatype `Spans.Span`.
- **A run list (`OrderedContigs`).** The runs are non-empty and ascending, and at least
  one unstored index separates any two of them.
  - It is modelled as the class `Contigs.OrderedContigs`, whose field `spans` the
    writes update in place.
  - The sparse array it stands for is the map `RunList.Contents(spans)`. Every lookup
    and every write is specified against that map.
  - The pure side lives in module `RunList`: the invariant, the binary search over
    runs, `find`, the five-way classification of a write, and the neighbourhoods an
    enumerator hands out.
- **The cursor (`OrderedContigsNeighbourhoodEnumerator`).** It hands out the
  neighbourhood (left, item, right) of each stored index, in ascending order, and can be
  repositioned, backwards too, by `get(i)`.
  - It is the class `Contigs.NeighbourhoodEnumerator`.
  - It is proved to behave as a seekable iterator over `RunList.Neighbourhoods(spans)`.
- **The seekable-iterator contract and `MultiIterator`.** The contract is modelled as
  the datatype `Lanes.Lane`: a cursor over ascending indexed entries, with `peek`,
  `next` and "seek to the first entry at or past `i`, consuming it only if it is
  exactly at `i`". The seek searches all the lane's entries, whatever its position, so
  it may move backwards, as the enumerator's `get` does. `MultiIterator` is the class `Synchroniser.MultiIterator`. It takes
  the least index peeked by a driver lane and seeks every present lane to it.
- **The grids.** Each keeps a run list of rows, where each row is itself a run list:
  - `CartesianContigs` of src/contig.rs, whose rows sit inside an `Option`:
    `ContigGrid.CartesianContigs`;
  - the same type in the draft src/playfield.rs: `PlayfieldGrid.CartesianContigs`;
  - `CartesianContig` of src/cartesian.rs: `Cartesian.CartesianContig`.

  Each grid keeps a ghost map of its cells (`cells`, row index first) and a footprint
  `Repr` of its row objects. Every operation is specified against `cells`.
- **The row walk of src/cartesian.rs.** The row enumerator's windows are a `Lanes.Lane`.
  `RowWindows.CartesianNeighbourhoodEnumerator.AdvanceRow` skips windows with no focal
  row and builds the column synchroniser with the drivers `RowWindows.Drivers` chooses.

The draft src/playfield.rs has the same `Contig`/`OrderedContigs` code as src/contig.rs,
so the same members model both. Its `neighbourhood_enumerator(from)` is
`Contigs.OrderedContigs.NeighbourhoodEnumeratorFrom`. Its `next`, which inlines
`advance`, is `Contigs.NeighbourhoodEnumerator.Next`.

src/cartesian.rs is written against a run API (`Contig::new(i, item)`, `origin()`,
`enumerator()`, `get_mut`, `set`) that is not part of this model. A row there is modelled
as an `OrderedContigs` seeded with one item (`Contigs.OrderedContigs.Singleton`). Its
origin is the lowest stored index (`Contigs.OrderedContigs.Origin`).

Indices are unbounded integers.

## Model

| member | source | states |
|---|---|---|
| Spans.Span.New | src/contig.rs:44-49 | the new run covers exactly index `i` and maps it to the item |
| Spans.Span.ContainsAgrees | src/contig.rs:51-53 | `contains(i)` holds exactly when `get(i)` is `Some`, exactly when `cmp` answers `Equal`, and exactly when `i` is in the run's map |
| Spans.Span.AtIsGet | src/contig.rs:129-131 | the item at a covered index is one of the run's items and is what `Get` returns there |
| Spans.Span.AdjoinsLeftIsBefore | src/contig.rs:75-77 | `i` adjoins on the left only when uncovered; for a non-empty run, exactly when `i` is uncovered and `i + 1` covered |
| Spans.Span.AdjoinsRightIsAfter | src/contig.rs:79-81 | `i` adjoins on the right only when uncovered; for a non-empty run, exactly when `i` is uncovered and `i - 1` covered |
| Spans.Span.Get | src/contig.rs:57-63 | `Some` exactly when the run covers `i`, holding the item at offset `i - origin` |
| Spans.Span.Put | src/contig.rs:145-147 | overwriting a covered index changes that index only and keeps the run's extent |
| Spans.Span.PushFront | src/contig.rs:83-86 | the origin moves down by one, the new item sits at the old origin minus one, every existing item keeps its index |
| Spans.Span.PushBack | src/contig.rs:88-90 | the new item sits at index `origin + len`, every existing item keeps its index |
| Spans.Span.Append | src/contig.rs:92-94 | a run starting where this one ends is appended: the result's map is the union of the two maps |
| Spans.Span.GetNeighbourhood | src/contig.rs:97-113 | the neighbourhood's item is the run's item at `i`, and `left`/`right` are the run's items at `i - 1`/`i + 1`, `None` past either end of the run |
| Spans.Span.Cmp | src/contig.rs:154-162 | `Greater` iff `i < origin`, `Equal` iff the run covers `i`, `Less` iff `i` is at or past its end; never `Equal` for an empty run |
| Lanes.Lane.Peek | src/multi_iterator.rs:13-16 | the next entry without moving: `Some` exactly when one remains |
| Lanes.Lane.Next | src/multi_iterator.rs:9 | hands out the peeked entry and moves one step, staying put at the end |
| Lanes.Lane.Seek | src/multi_iterator.rs:10-11 | moves to the first entry at or past `i`, consuming it only when it is at `i`; for ascending entries it lands on the split at `i`, and it returns `Some` exactly when an entry at `i` exists |
| Lanes.SplitUnique | src/multi_iterator.rs:10-11 | at most one position splits the entries at `i`, so a seek's landing position is determined |
| Lanes.SeekAtSplit | src/multi_iterator.rs:10-11 | on ascending entries a seek lands at the split position and consumes the entry before it exactly when that entry is at `i` |
| Lanes.SeekAtPeek | src/multi_iterator.rs:10-16 | seeking to the peeked index is the same as `next` |
| Synchroniser.PeekIndex | src/multi_iterator.rs:51-53 | a slot offers an index exactly when it holds a lane with a next entry, and that entry's index |
| Synchroniser.Pick | src/multi_iterator.rs:55-61 | a first offer is taken, a later one only if strictly smaller; the result is the smaller of the two and one of them |
| Synchroniser.Offer | src/multi_iterator.rs:50-53 | a lane offers to the minimum exactly when it is a driver with a peekable entry |
| Synchroniser.MinOfferedIsLeast | src/multi_iterator.rs:47-66 | the running minimum is `None` exactly when no driver offers, else an index some driver offers and no larger than any driver's offer |
| Synchroniser.NonDriversIgnored | src/multi_iterator.rs:49-63 | slots that agree on every driver give the same minimum: non-driver lanes never influence it |
| Synchroniser.SeekSlot | src/multi_iterator.rs:72 | an absent lane yields `None` and stays absent; a present lane is sought once |
| Synchroniser.MultiIterator.constructor | src/multi_iterator.rs:37-44 | the synchroniser holds exactly the given lanes and drivers |
| Synchroniser.MultiIterator.DetermineNext | src/multi_iterator.rs:47-66 | returns the least index peeked by a driver lane, `None` exactly when no driver lane offers one; it changes no lane |
| Synchroniser.MultiIterator.ConsumeNext | src/multi_iterator.rs:69-77 | returns `i` with one item per lane in lane order; every lane is replaced by itself sought once to `i`, and absent lanes give `None` |
| Synchroniser.MultiIterator.Next | src/multi_iterator.rs:88-93 | `None` exactly when no driver lane offers an index, lanes unchanged; otherwise the minimum offered index and every lane sought to it exactly once |
| Synchroniser.DriverConsumed | src/multi_iterator.rs:69-76 | a driver lane that supplied the minimum has its peeked entry consumed by the seek |
| RunList.ContentsKeys | src/contig.rs:173-180 | an index is stored exactly when some run covers it |
| RunList.ContentsValue | src/contig.rs:252-258 | in a valid run list the stored item at a covered index is the covering run's item |
| RunList.NotStoredBetween | src/contig.rs:255-257 | an index lying after run `u - 1` ends and before run `u` starts is not stored |
| RunList.SearchIn | src/contig.rs:223 | the halving search finds a run covering `i`, or an insertion point with every earlier run ending at or before `i` and every later one starting after it |
| RunList.BinarySearch | src/contig.rs:253 | the whole-list search has the same two outcomes |
| RunList.SearchUnique | src/contig.rs:223 | on a valid run list any search result meeting that contract equals `BinarySearch`, whatever the probe order |
| RunList.Find | src/contig.rs:304-315 | `(u, i)` with run `u` covering `i` when `i` is stored; else the first run after `i` and its origin, nothing stored in between; else one past the last run and `i`, nothing stored from `i` on |
| RunList.RunAt | src/contig.rs:227-232 | the run at position `u` exactly when there is one, as `VecDeque::get` |
| RunList.DetermineUpdate | src/contig.rs:220-249 | the chosen case fits the write: inside run `u`; one left of run `u` with a gap before; the one-index gap between runs `u - 1` and `u`; one right of run `u` with a gap after; or a wider gap |
| RunList.DetermineUpdateClassifies | src/contig.rs:220-249 | `Set` iff `i` is stored; `PushFrontAndCoelesce` iff both neighbours are stored; `PushFront`/`PushBack` iff only the right/left neighbour is; `Insert` iff neither is |
| RunList.SetPreserves | src/contig.rs:273 | overwriting inside run `u` keeps the invariant and the run count and writes `i` in the map |
| RunList.PushFrontPreserves | src/contig.rs:275 | extending run `u` to the left keeps the invariant and the run count and writes `i` in the map |
| RunList.PushBackPreserves | src/contig.rs:282 | extending run `u` to the right keeps the invariant and the run count and writes `i` in the map |
| RunList.InsertPreserves | src/contig.rs:284 | inserting a one-item run at `u` keeps the invariant, adds one run and writes `i` in the map |
| RunList.CoelescePreserves | src/contig.rs:277-280 | filling the gap merges runs `u - 1` and `u` into one run `left ++ [v] ++ right` with the left origin, keeps the invariant, removes one run and writes `i` in the map |
| RunList.Canonical | src/contig.rs:173-180 | two valid run lists standing for the same sparse array are identical: runs are always maximal, whatever order the writes came in |
| RunList.FoldSetLastWrite | src/contig.rs:209-218 | after a sequence of writes, the last write to an index decides its item |
| RunList.FoldSetUntouched | src/contig.rs:209-218 | an index no write touches keeps its item or stays unstored |
| RunList.NeighbourhoodsStored | src/contig.rs:97-113 | every neighbourhood handed out is at a stored index, and its left, item and right are the sparse array's entries at `i - 1`, `i`, `i + 1` |
| RunList.NeighbourhoodsComplete | src/contig.rs:358-366 | every stored index has a neighbourhood in the walk |
| RunList.NeighbourhoodsAscending | src/contig.rs:358-366 | the walk's indices are strictly ascending, so each stored index comes exactly once |
| RunList.CoveredEntry | src/contig.rs:414-418 | the walk's entry at the cursor is the covering run's neighbourhood of `next_i`, which is the sparse array's |
| RunList.FirstOriginLowest | src/cartesian.rs:73 | in a valid run list the first run's origin is stored and is the lowest stored index |
| RunList.SeekLands | src/contig.rs:370-396 | seeking `i` from any position lands on the split at `i` and returns the entry for `i` exactly when `i` is stored |
| RunList.SeekCovered | src/contig.rs:382-388 | seeking a covered index returns its run's neighbourhood and leaves the walk just past it |
| RunList.SeekGap | src/contig.rs:389-391 | seeking an index in the gap before run `u` returns nothing and leaves the walk at run `u`'s first entry |
| RunList.StartCovered | src/contig.rs:317-324 | starting at a stored index starts the walk at its entry |
| RunList.StartGap | src/contig.rs:317-324 | starting in a gap starts the walk at the next run's first entry, or exhausted |
| Contigs.OrderedContigs.constructor | src/contig.rs:203-207 | a valid store with no runs and an empty map |
| Contigs.OrderedContigs.Singleton | src/contig.rs:44-49 | a valid store with one run whose map holds just `i` |
| Contigs.OrderedContigs.From | src/contig.rs:209-218 | the store built from a list of writes is valid and holds the fold of those writes over the empty map |
| Contigs.OrderedContigs.Get | src/contig.rs:252-258 | the binary-search lookup returns exactly the map's entry at `i` |
| Contigs.OrderedContigs.Origin | src/cartesian.rs:73 | the lowest stored index of a valid, non-empty store |
| Contigs.OrderedContigs.Set | src/contig.rs:269-286 | keeps the invariant and writes `i` in the map, every other index unchanged; adds a run for `Insert`, removes one for `PushFrontAndCoelesce` and keeps the count otherwise; the merged run is `left ++ [item] ++ right` |
| Contigs.OrderedContigs.CoelesceLeft | src/contig.rs:288-292 | run `u`, if present, is removed and appended to run `u - 1`; nothing else changes |
| Contigs.OrderedContigs.NeighbourhoodEnumerator | src/contig.rs:294-302 | a fresh, valid cursor at the start of the walk |
| Contigs.OrderedContigs.NeighbourhoodEnumeratorFrom | src/contig.rs:317-324 | a fresh, valid cursor positioned where the entries at or after `i` begin: at `i` if stored, else at the next run's origin, else exhausted (also playfield.rs `neighbourhood_enumerator(from)`) |
| Contigs.NeighbourhoodEnumerator.constructor | src/contig.rs:349-355 | the cursor holds the given store, run and index |
| Contigs.NeighbourhoodEnumerator.Advance | src/contig.rs:358-366 | moves the cursor one entry along the walk and keeps the invariant `u_c < len ==> contigs[u_c].contains(next_i)` |
| Contigs.NeighbourhoodEnumerator.Next | src/contig.rs:414-422 | behaves as `next` of a lane over the walk, yielding each stored index once in ascending order with the sparse array's neighbourhood (also playfield.rs `next`) |
| Contigs.NeighbourhoodEnumerator.Get | src/contig.rs:370-396 | corrected `get`: behaves as `seek(i)` of a lane over the walk, from any position and backwards too; `Some` exactly when `i` is stored, with the sparse array's neighbourhood of `i` |
| Contigs.NeighbourhoodEnumerator.GetAsWritten | src/contig.rs:370-396 | `get` as written: a seek from a valid cursor or to an index behind it; from an exhausted cursor with a stale `next_i` at or before `i`, `None` with the cursor untouched |
| Contigs.NeighbourhoodEnumerator.Reposition | src/contig.rs:371-373 | a target behind the cursor restarts it at `find(i)`; otherwise the cursor is unchanged |
| Contigs.NeighbourhoodEnumerator.SkipRunsBefore | src/contig.rs:376-380 | moves past exactly the runs lying wholly before `i` |
| Contigs.NeighbourhoodEnumerator.Land | src/contig.rs:382-392 | on a run ending after `i`: the neighbourhood of `i` and the cursor just past it when covered, else `None` and the cursor at the run's origin |
| Rows.CellAt | src/contig.rs:451-459 | a cell is present exactly when its row and column are |
| Rows.PutCell | src/contig.rs:466-481 | writing a cell adds its row if absent, writes the column in it, and leaves every other row as it was |
| Rows.PutThenCell | src/contig.rs:466-481 | after a write the cell holds the item, and every other cell is unchanged |
| Rows.PutKeepsRows | src/contig.rs:425-428 | a write leaves the grid non-empty and with no empty row |
| Rows.AttachRow | src/contig.rs:473-478 | inserting a fresh row object at an absent row index adds just that row to the grid |
| Rows.WriteRow | src/contig.rs:480 | writing through a row object changes that row's cells only |
| ContigGrid.CartesianContigs.constructor | src/contig.rs:443-445 | an empty grid with no outer store |
| ContigGrid.CartesianContigs.IsEmptyAsWritten | src/contig.rs:447-449 | `is_empty` as written is `true` exactly when the grid holds a cell |
| ContigGrid.CartesianContigs.IsEmpty | src/contig.rs:447-449 | corrected: `true` exactly when the grid holds no cell |
| ContigGrid.CartesianContigs.Get | src/contig.rs:451-459 | the cell at `(x, y)`, `None` with no outer store or no row `y` |
| ContigGrid.CartesianContigs.Set | src/contig.rs:466-481 | creates the outer store and the row as needed; afterwards the cell holds the item and every other cell is unchanged |
| ContigGrid.SetInRows | src/contig.rs:471-480 | the row-level part of `set`: an absent row is inserted empty and re-queried, then written |
| PlayfieldGrid.CartesianContigs.constructor | src/playfield.rs:374-376 | an outer store with no rows: every cell is absent |
| PlayfieldGrid.CartesianContigs.Get | src/playfield.rs:378-380 | the cell at `(x, y)`, `None` with no row `y` |
| PlayfieldGrid.CartesianContigs.Set | src/playfield.rs:382-394 | writes into the existing row or inserts a new one-item row; afterwards the cell holds the item and every other cell is unchanged |
| PlayfieldGrid.SetInRows | src/playfield.rs:383-393 | the row-level part of `set`, by the two branches |
| Cartesian.CartesianContig.constructor | src/cartesian.rs:49-51 | the grid holds exactly one cell, `item` at `(x, y)` |
| Cartesian.CartesianContig.Get | src/cartesian.rs:53-55 | the cell at `(x, y)`; `None` whenever row `y` is absent, else the row's own lookup of `x` |
| Cartesian.CartesianContig.Set | src/cartesian.rs:57-62 | writes into the existing row or inserts a new one-cell row; afterwards the cell holds the item and every other cell is unchanged |
| Cartesian.SetInRows | src/cartesian.rs:58-61 | the row-level part of `set`, by the two branches |
| Cartesian.CartesianContig.Origin | src/cartesian.rs:64-75 | `y` is the lowest row index; `x` is the lowest column over all rows, stored in some row |
| Cartesian.LowestRow | src/cartesian.rs:66-70 | `min_by` over the rows by origin: a row of least origin, the first of them |
| Cartesian.LowestRowIsLowestColumn | src/cartesian.rs:64-72 | the least row origin is stored and is no larger than any stored column in any row |
| RowWindows.Drivers | src/cartesian.rs:162-168 | the focal row drives alone when present; otherwise exactly the present rows below and above drive |
| RowWindows.DriversPresent | src/cartesian.rs:162-168 | some row drives exactly when some row of the window is present, and only present rows drive |
| RowWindows.ColumnLane | src/cartesian.rs:172-176 | a present row gives a cursor at the start of its walk, an absent row none |
| RowWindows.ColumnLanes | src/cartesian.rs:172-176 | the three column cursors, in slot order |
| RowWindows.FirstFocal | src/cartesian.rs:147-157 | the first window at or after `p` with a focal row, every window before it having none |
| RowWindows.CartesianNeighbourhoodEnumerator.constructor | src/cartesian.rs:132-142 | the walk starts already advanced to the first window with a focal row |
| RowWindows.CartesianNeighbourhoodEnumerator.AdvanceRow | src/cartesian.rs:145-180 | consumes windows up to the first with a focal row; there the drivers are `[false, true, false]` and the lanes are the window's rows; at exhaustion no column synchroniser is built |
| Findings.StaleCursorAsWritten | src/contig.rs:370-396 | the as-written `get` misses the stored index 6 after a lookup past the last run |
| Findings.StaleCursorCorrected | src/contig.rs:370-396 | the corrected `get` finds it, with neighbourhood `(6, Some(50), 60, None)` |
| Findings.EmptinessAsWritten | src/contig.rs:447-449 | the as-written `is_empty` answers `false` for the empty grid and `true` once it holds a cell |
| Findings.EmptinessCorrected | src/contig.rs:447-449 | the corrected `is_empty` answers `true` and then `false` |

## Left out

- `get_mut` (src/contig.rs:65-73, 260-267) is not a separate member. A mutable borrow of a row is modelled as the row object that `Contigs.OrderedContigs.Get` returns, which `Rows.WriteRow` then writes through. A mutable borrow of an item is modelled as `Spans.Span.Put`.
- `push_front`, `push_back` and `append` update a `Contig` in place. Here they are value updates of the run (`Spans.Span.PushFront`, `PushBack`, `Append`), which the run list stores back into its `spans` field.
- `Idx` is an unbounded integer. The `from_usize`/`to_usize` conversions and any overflow or underflow of `Idx` are not modelled.
- `VecDeque` costs and the binary search's probe order are not modelled. `RunList.SearchUnique` shows that the result does not depend on the probe order.
- Rust lifetimes and borrowing are not modelled. An enumerator keeps a fixed copy of the run list it reads.
- `next_col` and the `Iterator::next` of src/cartesian.rs (lines 183-231) are left out: `next_col` always returns `None`, so no 3×3 window is ever produced. The `println!` at src/cartesian.rs:170 is debug output.
- `rows_enumerator` and `neighbourhood_enumerator` of src/cartesian.rs (lines 77-83) are not modelled. They use the same unmodelled run API. The row windows the row enumerator yields are taken as a given `Lanes.Lane` of `RowWindows.RowWindow`s.
- The newer run API of src/cartesian.rs is modelled by `Contigs.OrderedContigs`, as described above.
- src/neighbourhood.rs is an unfinished stub. src/seekable.rs and src/indexed.rs hold trait signatures only. src/main.rs is the program entry. None of these is part of this model.
- Several indexing panics of the source are preconditions here, each met by every caller in the source:
  - `Spans.Span.At` and `Spans.Span.GetNeighbourhood` require a covered index. The source indexes out of range otherwise, and the doc comment of `get_neighbourhood` demands a covered index.
  - `Contigs.NeighbourhoodEnumerator.Advance` requires a current run, because `contigs[u_c]` panics past the end.
  - `Contigs.OrderedContigs.CoelesceLeft` requires `0 < u` when run `u` exists, because `u - 1` underflows at `u == 0`.
  - `Synchroniser.MultiIterator.Valid` requires every driver flag to name a lane, because indexing past the lanes panics.
  The panics themselves are not modelled.
- The tests helper `VecSeekableIterator` (src/multi_iterator/tests.rs) is not used as the lane model, because its `seek` contradicts the contract at src/multi_iterator.rs:10. The tests that call methods absent from the shown sources are not modelled either.

## Findings

| source | as written | input that shows it | evidently intended | confidence | as-written member | corrected member |
|---|---|---|---|---|---|---|
| src/contig.rs:447-449 | `is_empty` returns `self.0.is_some()` | a new grid answers `false`; after `set(1, 2, 7)` it answers `true` | `true` exactly when the grid holds no cell (`is_none()`) | high; not executed | ContigGrid.CartesianContigs.IsEmptyAsWritten, Findings.EmptinessAsWritten | ContigGrid.CartesianContigs.IsEmpty, Findings.EmptinessCorrected |
| src/contig.rs:370-396 | when the run-skipping loop exhausts the cursor, `get` leaves `next_i` unchanged | store `{5: 50, 6: 60}`, fresh enumerator: `get(100)` gives `None` but leaves `next_i == 5`, so `get(6)` skips the reposition and answers `None` | `get` may move backwards, so `get(6)` returns the neighbourhood of 6; the exhausted cursor's `next_i` should become `i` | medium; not executed | Contigs.NeighbourhoodEnumerator.GetAsWritten, Findings.StaleCursorAsWritten | Contigs.NeighbourhoodEnumerator.Get, Findings.StaleCursorCorrected |
