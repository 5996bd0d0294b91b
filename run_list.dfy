/** The list of runs kept by `OrderedContigs` in src/contig.rs (and its draft in
    src/playfield.rs), as pure functions over a sequence of runs: the run-list
    invariant, the map the runs stand for, the binary search over runs and the
    lookups built on it, the classification of a single-point write, and the
    ascending sequence of neighbourhoods the enumerators walk. */
module RunList {
  import opened Wrappers
  import opened Spans
  import opened Lanes

  // ---------------------------------------------------------------------------
  // The invariant and the abstraction

  /** Runs in ascending order, none starting before the previous one ends. This is
      all the binary search needs. */
  ghost predicate Sorted<T>(spans: seq<Span<T>>) {
    forall u, v :: 0 <= u < v < |spans| ==> spans[u].End() <= spans[v].origin
  }

  /** The run-list invariant: every run is non-empty, and each run starts strictly
      after the previous one ends, so that at least one unstored index separates
      any two runs. */
  ghost predicate Valid<T>(spans: seq<Span<T>>) {
    && (forall u :: 0 <= u < |spans| ==> |spans[u].items| > 0)
    && (forall u, v :: 0 <= u < v < |spans| ==> spans[u].End() < spans[v].origin)
  }

  /** The sparse array the runs stand for: index to item. */
  ghost function Contents<T>(spans: seq<Span<T>>): map<int, T>
    decreases |spans|
  {
    if |spans| == 0 then map[] else spans[0].AsMap() + Contents(spans[1..])
  }

  /** The neighbourhood of a stored index, read off the sparse array itself. */
  ghost function NeighbourhoodOf<T>(m: map<int, T>, i: int): Neighbourhood<T>
    requires i in m
  {
    Neighbourhood(i, Lookup(m, i - 1), m[i], Lookup(m, i + 1))
  }

  /** A stored index is exactly one that some run covers. */
  lemma {:induction false} ContentsKeys<T>(spans: seq<Span<T>>, i: int)
    ensures i in Contents(spans) <==> exists u :: 0 <= u < |spans| && spans[u].Contains(i)
  {
    if |spans| > 0 {
      var tail := spans[1..];
      ContentsKeys(tail, i);
      if i in Contents(spans) && !spans[0].Contains(i) {
        var w :| 0 <= w < |tail| && tail[w].Contains(i);
        assert spans[w + 1].Contains(i);
      }
      if u :| 0 <= u < |spans| && spans[u].Contains(i) {
        if u > 0 {
          assert tail[u - 1].Contains(i);
        }
      }
    }
  }

  /** Every stored index lies between the first run's origin and the last run's end. */
  lemma StoredWithin<T>(spans: seq<Span<T>>, j: int)
    requires Valid(spans) && j in Contents(spans)
    ensures |spans| > 0
    ensures spans[0].origin <= j < spans[|spans| - 1].End()
  {
    ContentsKeys(spans, j);
    var u :| 0 <= u < |spans| && spans[u].Contains(j);
    if 0 < u {
      assert spans[0].End() < spans[u].origin;
    }
    if u < |spans| - 1 {
      assert spans[u].End() < spans[|spans| - 1].origin;
    }
  }

  /** The runs after the first cover no index of the first. */
  lemma TailAfterHead<T>(spans: seq<Span<T>>, j: int)
    requires Valid(spans) && |spans| > 0 && j < spans[0].End()
    ensures j !in Contents(spans[1..])
  {
    var tail := spans[1..];
    assert Valid(tail) by {
      forall u, v | 0 <= u < v < |tail| ensures tail[u].End() < tail[v].origin {
        assert tail[u] == spans[u + 1] && tail[v] == spans[v + 1];
      }
    }
    if |tail| > 0 {
      assert spans[0].End() < spans[1].origin;
      forall k | k in Contents(tail) ensures tail[0].origin <= k {
        StoredWithin(tail, k);
      }
    }
  }

  /** The item the sparse array holds at a covered index is the run's item there. */
  lemma {:induction false} ContentsValue<T>(spans: seq<Span<T>>, u: int, i: int)
    requires Valid(spans) && 0 <= u < |spans| && spans[u].Contains(i)
    ensures i in Contents(spans) && Contents(spans)[i] == spans[u].At(i)
  {
    var tail := spans[1..];
    if u == 0 {
      TailAfterHead(spans, i);
    } else {
      assert Valid(tail) by {
        forall v, w | 0 <= v < w < |tail| ensures tail[v].End() < tail[w].origin {
          assert tail[v] == spans[v + 1] && tail[w] == spans[w + 1];
        }
      }
      ContentsValue(tail, u - 1, i);
      assert spans[0].End() < spans[u].origin;
    }
  }

  /** An index lying between run `u - 1` and run `u` is not stored. */
  lemma NotStoredBetween<T>(spans: seq<Span<T>>, u: int, j: int)
    requires Valid(spans) && 0 <= u <= |spans|
    requires u > 0 ==> spans[u - 1].End() <= j
    requires u < |spans| ==> j < spans[u].origin
    ensures j !in Contents(spans)
  {
    ContentsKeys(spans, j);
    forall v | 0 <= v < |spans| ensures !spans[v].Contains(j) {
      if v < u - 1 {
        assert spans[v].End() < spans[u - 1].origin;
      } else if u < v {
        assert spans[u].End() < spans[v].origin;
      }
    }
  }

  /** The map of a concatenation of runs is the union of their maps. */
  lemma {:induction false} ContentsConcat<T>(a: seq<Span<T>>, b: seq<Span<T>>)
    ensures Contents(a + b) == Contents(a) + Contents(b)
  {
    if |a| == 0 {
      assert a + b == b;
    } else {
      assert (a + b)[1..] == a[1..] + b;
      ContentsConcat(a[1..], b);
      MapUnionAssoc(a[0].AsMap(), Contents(a[1..]), Contents(b));
    }
  }

  lemma MapUnionAssoc<K, V>(x: map<K, V>, y: map<K, V>, z: map<K, V>)
    ensures x + (y + z) == (x + y) + z
  {
  }

  /** The map of the runs, cut at run `u`. */
  lemma ContentsSplit<T>(spans: seq<Span<T>>, u: int)
    requires 0 <= u <= |spans|
    ensures Contents(spans) == Contents(spans[..u]) + Contents(spans[u..])
  {
    assert spans == spans[..u] + spans[u..];
    ContentsConcat(spans[..u], spans[u..]);
  }

  /** The map of a single run. */
  lemma ContentsSingle<T>(s: Span<T>)
    ensures Contents([s]) == s.AsMap()
  {
    assert [s][1..] == [];
  }

  /** Any slice of a valid run list is valid. */
  lemma ValidSlice<T>(spans: seq<Span<T>>, lo: int, hi: int)
    requires Valid(spans) && 0 <= lo <= hi <= |spans|
    ensures Valid(spans[lo..hi])
  {
    var t := spans[lo..hi];
    forall u, v | 0 <= u < v < |t| ensures t[u].End() < t[v].origin {
      assert t[u] == spans[lo + u] && t[v] == spans[lo + v];
    }
  }

  /** An index before the first run (or any index, with no runs) is not stored. */
  lemma NotStoredBefore<T>(spans: seq<Span<T>>, j: int)
    requires Valid(spans)
    requires |spans| > 0 ==> j < spans[0].origin
    ensures j !in Contents(spans)
  {
    NotStoredBetween(spans, 0, j);
  }

  /** An index at or after the last run's end is not stored. */
  lemma NotStoredAfter<T>(spans: seq<Span<T>>, j: int)
    requires Valid(spans)
    requires |spans| > 0 ==> spans[|spans| - 1].End() <= j
    ensures j !in Contents(spans)
  {
    NotStoredBetween(spans, |spans|, j);
  }

  /** The map of the runs, seen around run `u`. */
  lemma ContentsAround<T>(spans: seq<Span<T>>, u: int)
    requires 0 <= u < |spans|
    ensures Contents(spans) == Contents(spans[..u]) + spans[u].AsMap() + Contents(spans[u + 1..])
  {
    var rest := spans[u + 1..];
    ContentsSplit(spans, u);
    assert spans[u..] == [spans[u]] + rest;
    ContentsConcat([spans[u]], rest);
    ContentsSingle(spans[u]);
    MapUnionAssoc(Contents(spans[..u]), spans[u].AsMap(), Contents(rest));
  }

  // ---------------------------------------------------------------------------
  // Binary search with the membership comparator

  /** The outcome of `binary_search_by(|c| c.cmp(&i))`: `Found(u)` for `Ok(u)`,
      `NotFound(u)` for `Err(u)`, `u` being the insertion point. */
  datatype Search = Found(u: nat) | NotFound(u: nat)

  /** Halving search over runs `lo .. hi`, everything before `lo` lying wholly
      before `i` and everything from `hi` on lying wholly after it. */
  function SearchIn<T>(spans: seq<Span<T>>, i: int, lo: nat, hi: nat): (r: Search)
    requires Sorted(spans) && lo <= hi <= |spans|
    requires forall v :: 0 <= v < lo ==> spans[v].End() <= i
    requires forall v :: hi <= v < |spans| ==> i < spans[v].origin
    ensures r.Found? ==> r.u < |spans| && spans[r.u].Contains(i)
    ensures r.NotFound? ==>
              && r.u <= |spans|
              && (forall v :: 0 <= v < r.u ==> spans[v].End() <= i)
              && (forall v :: r.u <= v < |spans| ==> i < spans[v].origin)
    decreases hi - lo
  {
    if lo == hi then
      NotFound(lo)
    else
      var mid := lo + (hi - lo) / 2;
      match spans[mid].Cmp(i)
      case Equal => Found(mid)
      case Less =>
        assert forall v :: 0 <= v < mid ==> spans[v].End() <= spans[mid].origin;
        SearchIn(spans, i, mid + 1, hi)
      case Greater =>
        assert forall v :: mid < v < |spans| ==> spans[mid].End() <= spans[v].origin;
        SearchIn(spans, i, lo, mid)
  }

  /** Search the whole run list for the run covering `i`. */
  function BinarySearch<T>(spans: seq<Span<T>>, i: int): (r: Search)
    requires Sorted(spans)
    ensures r.Found? ==> r.u < |spans| && spans[r.u].Contains(i)
    ensures r.NotFound? ==>
              && r.u <= |spans|
              && (forall v :: 0 <= v < r.u ==> spans[v].End() <= i)
              && (forall v :: r.u <= v < |spans| ==> i < spans[v].origin)
  {
    SearchIn(spans, i, 0, |spans|)
  }

  lemma ValidSorted<T>(spans: seq<Span<T>>)
    requires Valid(spans)
    ensures Sorted(spans)
  {
  }

  /** On a valid run list the search outcome is unique: at most one run covers an
      index, and an index no run covers has exactly one insertion point. So any
      correct binary search, whichever order it probes the runs in, gives the
      answer `BinarySearch` gives. */
  lemma SearchUnique<T>(spans: seq<Span<T>>, i: int, r: Search)
    requires Valid(spans)
    requires r.Found? ==> r.u < |spans| && spans[r.u].Contains(i)
    requires r.NotFound? ==>
              && r.u <= |spans|
              && (forall v :: 0 <= v < r.u ==> spans[v].End() <= i)
              && (forall v :: r.u <= v < |spans| ==> i < spans[v].origin)
    ensures r == BinarySearch(spans, i)
  {
    var b := BinarySearch(spans, i);
    if b.Found? {
      var x := spans[b.u];
    }
    if r.Found? {
      var x := spans[r.u];
    }
    if b.NotFound? && r.NotFound? {
      if b.u < |spans| { var x := spans[b.u]; }
      if r.u < |spans| { var x := spans[r.u]; }
      if 0 < b.u { var x := spans[b.u - 1]; }
      if 0 < r.u { var x := spans[r.u - 1]; }
    }
  }

  // ---------------------------------------------------------------------------
  // Lookups

  /** Where an enumerator starting at `i` begins: the run covering `i` and `i`
      itself; else the first run after `i` and its origin; else one past the last
      run and `i`. */
  function Find<T>(spans: seq<Span<T>>, i: int): (r: (nat, int))
    requires Valid(spans)
    ensures r.0 <= |spans|
    ensures forall v :: 0 <= v < r.0 ==> spans[v].End() <= i
    ensures i in Contents(spans) ==> r.0 < |spans| && spans[r.0].Contains(i) && r.1 == i
    ensures i !in Contents(spans) && r.0 < |spans| ==>
              && r.1 == spans[r.0].origin && i < r.1
              && (forall j :: i <= j < r.1 ==> j !in Contents(spans))
    ensures r.0 == |spans| ==> r.1 == i && forall j :: i <= j ==> j !in Contents(spans)
  {
    match BinarySearch(spans, i)
    case Found(u) =>
      ContentsValue(spans, u, i);
      assert forall v :: 0 <= v < u ==> spans[v].End() < spans[u].origin;
      (u, i)
    case NotFound(u) =>
      NotStoredBetween(spans, u, i);
      if u < |spans| then
        assert forall j :: i <= j < spans[u].origin ==> j !in Contents(spans) by {
          forall j | i <= j < spans[u].origin { NotStoredBetween(spans, u, j); }
        }
        (u, spans[u].origin)
      else
        assert forall j :: i <= j ==> j !in Contents(spans) by {
          forall j | i <= j { NotStoredBetween(spans, u, j); }
        }
        (u, i)
  }

  // ---------------------------------------------------------------------------
  // Classifying a single-point write

  /** How `set(i, item)` changes the run list. */
  datatype Update =
    | Set(u: nat)                   // overwrite inside run `u`
    | PushFront(u: nat)             // extend run `u` one to the left
    | PushFrontAndCoelesce(u: nat)  // fill the gap between runs `u - 1` and `u`
    | PushBack(u: nat)              // extend run `u` one to the right
    | Insert(u: nat)                // a new one-item run at position `u`

  /** The run at position `u`, if there is one. This is the definition `DetermineUpdate`
      reads its neighbours through; what the chosen update means is
      `DetermineUpdateClassifies`. */
  function RunAt<T>(spans: seq<Span<T>>, u: nat): (r: Option<Span<T>>)
    ensures r.Some? <==> u < |spans|
    ensures r.Some? ==> r.value == spans[u]
  {
    if u < |spans| then Some(spans[u]) else None
  }

  /** Where a write at `i` lands, by case: inside run `u`; one left of run `u`
      with a gap before it; in the one-index gap between runs `u - 1` and `u`;
      one right of run `u` with a gap after it; or in a wider gap before run `u`. */
  ghost predicate Fits<T>(spans: seq<Span<T>>, i: int, r: Update) {
    match r
    case Set(u) => u < |spans| && spans[u].Contains(i)
    case PushFront(u) =>
      && u < |spans| && spans[u].origin == i + 1
      && (u > 0 ==> spans[u - 1].End() < i)
    case PushFrontAndCoelesce(u) =>
      && 0 < u < |spans|
      && spans[u - 1].End() == i && spans[u].origin == i + 1
    case PushBack(u) =>
      && u < |spans| && spans[u].End() == i
      && (u + 1 < |spans| ==> i + 1 < spans[u + 1].origin)
    case Insert(u) =>
      && u <= |spans|
      && (u > 0 ==> spans[u - 1].End() < i)
      && (u < |spans| ==> i + 1 < spans[u].origin)
  }

  /** The classification of a write at `i`, as `determine_update` computes it: after
      a failed search the "left" candidate is run `u - 1`, or run `u` itself when
      `u == 0`. */
  function DetermineUpdate<T>(spans: seq<Span<T>>, i: int): (r: Update)
    requires Valid(spans)
    ensures Fits(spans, i, r)
  {
    match BinarySearch(spans, i)
    case Found(u) => Set(u)
    case NotFound(u) =>
      var left := if u > 0 then RunAt(spans, u - 1) else RunAt(spans, u);
      match (left, RunAt(spans, u))
      case (Some(cLeft), Some(cHere)) =>
        if cHere.AdjoinsLeft(i) then
          (if cLeft.AdjoinsRight(i) then PushFrontAndCoelesce(u) else PushFront(u))
        else if cLeft.AdjoinsRight(i) then PushBack(u - 1)
        else Insert(u)
      case (None, Some(cHere)) =>
        if cHere.AdjoinsLeft(i) then PushFront(u) else Insert(u)
      case (Some(cLeft), None) =>
        if cLeft.AdjoinsRight(i) then PushBack(u - 1) else Insert(u)
      case (None, None) => Insert(u)
  }

  /** What each case says about whether `i`, `i - 1` and `i + 1` are stored. */
  ghost predicate StoredPattern<T>(spans: seq<Span<T>>, i: int, r: Update) {
    var c := Contents(spans);
    match r
    case Set(_) => i in c
    case PushFrontAndCoelesce(_) => i !in c && i - 1 in c && i + 1 in c
    case PushFront(_) => i !in c && i - 1 !in c && i + 1 in c
    case PushBack(_) => i !in c && i - 1 in c && i + 1 !in c
    case Insert(_) => i !in c && i - 1 !in c && i + 1 !in c
  }

  lemma FitsStored<T>(spans: seq<Span<T>>, i: int, r: Update)
    requires Valid(spans) && Fits(spans, i, r)
    ensures StoredPattern(spans, i, r)
  {
    match r
    case Set(u) => ContentsValue(spans, u, i);
    case PushFront(u) => PushFrontStored(spans, i, u);
    case PushFrontAndCoelesce(u) => CoelesceStored(spans, i, u);
    case PushBack(u) => PushBackStored(spans, i, u);
    case Insert(u) => InsertStored(spans, i, u);
  }

  lemma PushFrontStored<T>(spans: seq<Span<T>>, i: int, u: nat)
    requires Valid(spans) && Fits(spans, i, PushFront(u))
    ensures i !in Contents(spans) && i - 1 !in Contents(spans) && i + 1 in Contents(spans)
  {
    ContentsValue(spans, u, i + 1);
    NotStoredBetween(spans, u, i);
    NotStoredBetween(spans, u, i - 1);
  }

  lemma CoelesceStored<T>(spans: seq<Span<T>>, i: int, u: nat)
    requires Valid(spans) && Fits(spans, i, PushFrontAndCoelesce(u))
    ensures i !in Contents(spans) && i - 1 in Contents(spans) && i + 1 in Contents(spans)
  {
    ContentsValue(spans, u, i + 1);
    ContentsValue(spans, u - 1, i - 1);
    NotStoredBetween(spans, u, i);
  }

  lemma PushBackStored<T>(spans: seq<Span<T>>, i: int, u: nat)
    requires Valid(spans) && Fits(spans, i, PushBack(u))
    ensures i !in Contents(spans) && i - 1 in Contents(spans) && i + 1 !in Contents(spans)
  {
    ContentsValue(spans, u, i - 1);
    NotStoredBetween(spans, u + 1, i);
    NotStoredBetween(spans, u + 1, i + 1);
  }

  lemma InsertStored<T>(spans: seq<Span<T>>, i: int, u: nat)
    requires Valid(spans) && Fits(spans, i, Insert(u))
    ensures i !in Contents(spans) && i - 1 !in Contents(spans) && i + 1 !in Contents(spans)
  {
    NotStoredBetween(spans, u, i);
    NotStoredBetween(spans, u, i - 1);
    NotStoredBetween(spans, u, i + 1);
  }

  /** Which case a write falls into depends only on whether `i`, `i - 1` and `i + 1`
      are stored: overwrite when `i` is stored, merge when both neighbours are,
      extend a run when exactly one is, and a new run when neither is. */
  lemma DetermineUpdateClassifies<T>(spans: seq<Span<T>>, i: int)
    requires Valid(spans)
    ensures var c := Contents(spans); var r := DetermineUpdate(spans, i);
      && (r.Set? <==> i in c)
      && (r.PushFrontAndCoelesce? <==> i !in c && i - 1 in c && i + 1 in c)
      && (r.PushFront? <==> i !in c && i - 1 !in c && i + 1 in c)
      && (r.PushBack? <==> i !in c && i - 1 in c && i + 1 !in c)
      && (r.Insert? <==> i !in c && i - 1 !in c && i + 1 !in c)
  {
    FitsStored(spans, i, DetermineUpdate(spans, i));
  }

  // ---------------------------------------------------------------------------
  // The run list after each kind of write

  /** The invariant stated between neighbours only: non-empty runs, each starting
      strictly after its predecessor ends. */
  ghost predicate Chain<T>(spans: seq<Span<T>>) {
    && (forall u :: 0 <= u < |spans| ==> |spans[u].items| > 0)
    && (forall u :: 0 < u < |spans| ==> spans[u - 1].End() < spans[u].origin)
  }

  lemma {:induction false} ChainStep<T>(spans: seq<Span<T>>, u: int, v: int)
    requires Chain(spans) && 0 <= u < v < |spans|
    ensures spans[u].End() < spans[v].origin
    decreases v - u
  {
    if u + 1 < v {
      ChainStep(spans, u + 1, v);
      assert spans[u + 1].origin < spans[u + 1].End();
    }
  }

  lemma ChainValid<T>(spans: seq<Span<T>>)
    requires Chain(spans)
    ensures Valid(spans)
  {
    forall u, v | 0 <= u < v < |spans| ensures spans[u].End() < spans[v].origin {
      ChainStep(spans, u, v);
    }
  }

  lemma MapUpdateMiddle<K, V>(a: map<K, V>, b: map<K, V>, c: map<K, V>, k: K, v: V)
    requires k !in c
    ensures a + b[k := v] + c == (a + b + c)[k := v]
  {
  }

  lemma MapInsertMiddle<K, V>(a: map<K, V>, c: map<K, V>, k: K, v: V)
    requires k !in c
    ensures a + map[k := v] + c == (a + c)[k := v]
  {
  }

  lemma MapMergeMiddle<K, V>(a: map<K, V>, b1: map<K, V>, b2: map<K, V>, c: map<K, V>, k: K, v: V)
    requires k !in c
    ensures a + (b1 + b2[k := v]) + c == (a + b1 + (b2 + c))[k := v]
  {
  }

  /** The map of the runs after replacing run `u` by `r`, where `r` covers only
      what run `u` covered and index `i`, and `i` lies before run `u + 1`. */
  lemma ReplaceRun<T>(spans: seq<Span<T>>, u: int, r: Span<T>, i: int, v: T)
    requires Valid(spans) && 0 <= u < |spans|
    requires r.AsMap() == spans[u].AsMap()[i := v]
    requires u + 1 < |spans| ==> i < spans[u + 1].origin
    ensures Contents(spans[u := r]) == Contents(spans)[i := v]
  {
    var t := spans[u := r];
    ContentsAround(spans, u);
    ContentsAround(t, u);
    assert t[..u] == spans[..u] && t[u + 1..] == spans[u + 1..];
    ValidSlice(spans, u + 1, |spans|);
    NotStoredBefore(spans[u + 1..], i);
    MapUpdateMiddle(Contents(spans[..u]), spans[u].AsMap(), Contents(spans[u + 1..]), i, v);
  }

  /** `Set(u)`: overwriting inside run `u` keeps the runs' extents. */
  lemma SetPreserves<T>(spans: seq<Span<T>>, i: int, v: T, u: nat)
    requires Valid(spans) && Fits(spans, i, Set(u))
    ensures var t := spans[u := spans[u].Put(i, v)];
      && |t| == |spans| && Valid(t) && Contents(t) == Contents(spans)[i := v]
  {
    var t := spans[u := spans[u].Put(i, v)];
    assert forall w :: 0 <= w < |t| ==> t[w].origin == spans[w].origin && t[w].End() == spans[w].End();
    if u + 1 < |spans| {
      assert spans[u].End() < spans[u + 1].origin;
    }
    ReplaceRun(spans, u, spans[u].Put(i, v), i, v);
  }

  /** `PushFront(u)`: extending run `u` to the left keeps the invariant. */
  lemma PushFrontPreserves<T>(spans: seq<Span<T>>, i: int, v: T, u: nat)
    requires Valid(spans) && Fits(spans, i, PushFront(u))
    ensures var t := spans[u := spans[u].PushFront(v)];
      && |t| == |spans| && Valid(t) && Contents(t) == Contents(spans)[i := v]
  {
    var t := spans[u := spans[u].PushFront(v)];
    assert Chain(t) by {
      forall w | 0 < w < |t| ensures t[w - 1].End() < t[w].origin {
        assert spans[w - 1].End() < spans[w].origin;
      }
    }
    ChainValid(t);
    if u + 1 < |spans| {
      assert spans[u].End() < spans[u + 1].origin;
    }
    ReplaceRun(spans, u, spans[u].PushFront(v), i, v);
  }

  /** `PushBack(u)`: extending run `u` to the right keeps the invariant. */
  lemma PushBackPreserves<T>(spans: seq<Span<T>>, i: int, v: T, u: nat)
    requires Valid(spans) && Fits(spans, i, PushBack(u))
    ensures var t := spans[u := spans[u].PushBack(v)];
      && |t| == |spans| && Valid(t) && Contents(t) == Contents(spans)[i := v]
  {
    var t := spans[u := spans[u].PushBack(v)];
    assert Chain(t) by {
      forall w | 0 < w < |t| ensures t[w - 1].End() < t[w].origin {
        assert spans[w - 1].End() < spans[w].origin;
      }
    }
    ChainValid(t);
    ReplaceRun(spans, u, spans[u].PushBack(v), i, v);
  }

  /** `Insert(u)`: a new one-item run at position `u` keeps the invariant and adds
      one run. */
  lemma InsertPreserves<T>(spans: seq<Span<T>>, i: int, v: T, u: nat)
    requires Valid(spans) && Fits(spans, i, Insert(u))
    ensures var t := spans[..u] + [Span.New(i, v)] + spans[u..];
      && |t| == |spans| + 1 && Valid(t) && Contents(t) == Contents(spans)[i := v]
  {
    InsertChain(spans, i, v, u);
    ChainValid(spans[..u] + [Span.New(i, v)] + spans[u..]);
    InsertContents(spans, i, v, u);
  }

  lemma InsertChain<T>(spans: seq<Span<T>>, i: int, v: T, u: nat)
    requires Valid(spans) && Fits(spans, i, Insert(u))
    ensures Chain(spans[..u] + [Span.New(i, v)] + spans[u..])
  {
    var n := Span.New(i, v);
    var t := spans[..u] + [n] + spans[u..];
    assert n.origin == i && n.End() == i + 1;
    assert forall w :: 0 <= w < u ==> t[w] == spans[w];
    assert t[u] == n;
    assert forall w :: u < w < |t| ==> t[w] == spans[w - 1];
    forall w | 0 < w < |t| ensures t[w - 1].End() < t[w].origin {
      if w < u {
        assert spans[w - 1].End() < spans[w].origin;
      } else if w > u + 1 {
        assert spans[w - 2].End() < spans[w - 1].origin;
      }
    }
  }

  lemma InsertContents<T>(spans: seq<Span<T>>, i: int, v: T, u: nat)
    requires Valid(spans) && Fits(spans, i, Insert(u))
    ensures Contents(spans[..u] + [Span.New(i, v)] + spans[u..]) == Contents(spans)[i := v]
  {
    var n := Span.New(i, v);
    ContentsConcat(spans[..u] + [n], spans[u..]);
    ContentsConcat(spans[..u], [n]);
    ContentsSingle(n);
    ContentsSplit(spans, u);
    ValidSlice(spans, u, |spans|);
    NotStoredBefore(spans[u..], i);
    MapInsertMiddle(Contents(spans[..u]), Contents(spans[u..]), i, v);
  }

  /** The run that filling the gap at run `u` produces. */
  function Merged<T>(spans: seq<Span<T>>, u: nat, v: T): Span<T>
    requires 0 < u < |spans|
  {
    spans[u - 1].Append(spans[u].PushFront(v))
  }

  /** `PushFrontAndCoelesce(u)`: filling the one-index gap merges runs `u - 1` and
      `u` into one run with the left run's origin and the items
      `left ++ [v] ++ right`; the invariant holds and one run goes. */
  lemma CoelescePreserves<T>(spans: seq<Span<T>>, i: int, v: T, u: nat)
    requires Valid(spans) && Fits(spans, i, PushFrontAndCoelesce(u))
    ensures var t := spans[..u - 1] + [spans[u - 1].Append(spans[u].PushFront(v))] + spans[u + 1..];
      && |t| == |spans| - 1 && Valid(t) && Contents(t) == Contents(spans)[i := v]
      && t[u - 1] == Span(spans[u - 1].origin, spans[u - 1].items + [v] + spans[u].items)
  {
    var t := spans[..u - 1] + [Merged(spans, u, v)] + spans[u + 1..];
    CoelesceChain(spans, i, v, u);
    ChainValid(t);
    CoelesceContents(spans, i, v, u);
    assert t[u - 1] == Merged(spans, u, v);
  }

  lemma CoelesceChain<T>(spans: seq<Span<T>>, i: int, v: T, u: nat)
    requires Valid(spans) && Fits(spans, i, PushFrontAndCoelesce(u))
    ensures Chain(spans[..u - 1] + [Merged(spans, u, v)] + spans[u + 1..])
  {
    var m := Merged(spans, u, v);
    var t := spans[..u - 1] + [m] + spans[u + 1..];
    assert m.origin == spans[u - 1].origin && m.End() == spans[u].End();
    forall w | 0 < w < |t| ensures t[w - 1].End() < t[w].origin {
      if w < u - 1 {
        assert t[w - 1] == spans[w - 1] && t[w] == spans[w];
        assert spans[w - 1].End() < spans[w].origin;
      } else if w == u - 1 {
        assert t[w - 1] == spans[u - 2] && t[w] == m;
        assert spans[u - 2].End() < spans[u - 1].origin;
      } else if w == u {
        assert t[w - 1] == m && t[w] == spans[u + 1];
        assert spans[u].End() < spans[u + 1].origin;
      } else {
        assert t[w - 1] == spans[w] && t[w] == spans[w + 1];
        assert spans[w].End() < spans[w + 1].origin;
      }
    }
    forall w | 0 <= w < |t| ensures |t[w].items| > 0 {
      if w < u - 1 { assert t[w] == spans[w]; }
      else if u - 1 < w { assert t[w] == spans[w + 1]; }
    }
  }

  lemma CoelesceContents<T>(spans: seq<Span<T>>, i: int, v: T, u: nat)
    requires Valid(spans) && Fits(spans, i, PushFrontAndCoelesce(u))
    ensures Contents(spans[..u - 1] + [Merged(spans, u, v)] + spans[u + 1..]) == Contents(spans)[i := v]
  {
    var m := Merged(spans, u, v);
    var a := spans[..u - 1];
    var c := spans[u + 1..];
    assert m.AsMap() == spans[u - 1].AsMap() + spans[u].AsMap()[i := v];
    ContentsThree(a, m, c);
    ContentsAroundPair(spans, u);
    ValidSlice(spans, u + 1, |spans|);
    if u + 1 < |spans| {
      assert spans[u].End() < spans[u + 1].origin;
    }
    NotStoredBefore(c, i);
    MapMergeMiddle(Contents(a), spans[u - 1].AsMap(), spans[u].AsMap(), Contents(c), i, v);
  }

  /** The map of runs `a`, then `m`, then `c`. */
  lemma ContentsThree<T>(a: seq<Span<T>>, m: Span<T>, c: seq<Span<T>>)
    ensures Contents(a + [m] + c) == Contents(a) + m.AsMap() + Contents(c)
  {
    ContentsConcat(a + [m], c);
    ContentsConcat(a, [m]);
    ContentsSingle(m);
  }

  /** The map of the runs, seen around the pair of runs `u - 1` and `u`. */
  lemma ContentsAroundPair<T>(spans: seq<Span<T>>, u: int)
    requires 0 < u < |spans|
    ensures Contents(spans) ==
              Contents(spans[..u - 1]) + spans[u - 1].AsMap() + (spans[u].AsMap() + Contents(spans[u + 1..]))
  {
    var rest := spans[u + 1..];
    ContentsAround(spans, u - 1);
    assert spans[u - 1 + 1..] == [spans[u]] + rest;
    ContentsConcat([spans[u]], rest);
    ContentsSingle(spans[u]);
    assert Contents(spans[u - 1 + 1..]) == spans[u].AsMap() + Contents(rest);
  }

  // ---------------------------------------------------------------------------
  // The neighbourhoods an enumerator walks

  /** The neighbourhood of every stored index, run after run. */
  function Neighbourhoods<T>(spans: seq<Span<T>>): (r: seq<Indexed<Neighbourhood<T>>>)
    decreases |spans|
  {
    if |spans| == 0 then [] else spans[0].Neighbourhoods() + Neighbourhoods(spans[1..])
  }

  /** The position in `Neighbourhoods(spans)` where run `u` starts. */
  function Offset<T>(spans: seq<Span<T>>, u: nat): nat
    requires u <= |spans|
  {
    |Neighbourhoods(spans[..u])|
  }

  lemma {:induction false} NeighbourhoodsConcat<T>(a: seq<Span<T>>, b: seq<Span<T>>)
    ensures Neighbourhoods(a + b) == Neighbourhoods(a) + Neighbourhoods(b)
  {
    if |a| > 0 {
      assert (a + b)[1..] == a[1..] + b;
      NeighbourhoodsConcat(a[1..], b);
    } else {
      assert a + b == b;
    }
  }

  /** Run `u`'s neighbourhoods sit at positions `Offset(spans, u)` onwards, and run
      `u + 1` starts right after them. */
  lemma NeighbourhoodsAround<T>(spans: seq<Span<T>>, u: nat)
    requires u < |spans|
    ensures Offset(spans, u + 1) == Offset(spans, u) + |spans[u].items|
    ensures Offset(spans, u + 1) <= |Neighbourhoods(spans)|
    ensures Neighbourhoods(spans)[Offset(spans, u)..Offset(spans, u + 1)] == spans[u].Neighbourhoods()
  {
    assert spans[..u + 1] == spans[..u] + [spans[u]];
    NeighbourhoodsConcat(spans[..u], [spans[u]]);
    assert [spans[u]][1..] == [];
    assert spans == spans[..u + 1] + spans[u + 1..];
    NeighbourhoodsConcat(spans[..u + 1], spans[u + 1..]);
  }

  /** The entry for index `origin + k` of run `u`. */
  lemma NeighbourhoodAt<T>(spans: seq<Span<T>>, u: nat, k: nat)
    requires u < |spans| && k < |spans[u].items|
    ensures Offset(spans, u) + k < |Neighbourhoods(spans)|
    ensures Neighbourhoods(spans)[Offset(spans, u) + k] ==
              Indexed(spans[u].origin + k, spans[u].GetNeighbourhood(spans[u].origin + k))
  {
    NeighbourhoodsAround(spans, u);
    var o := Offset(spans, u);
    assert Neighbourhoods(spans)[o + k] == Neighbourhoods(spans)[o..Offset(spans, u + 1)][k];
  }

  /** All runs together yield as many neighbourhoods as they hold items. */
  lemma OffsetAll<T>(spans: seq<Span<T>>)
    ensures Offset(spans, |spans|) == |Neighbourhoods(spans)|
  {
    assert spans[..|spans|] == spans;
  }

  /** Every entry is the neighbourhood of a stored index, read off the sparse array:
      its left and right items are `None` exactly where the array stores nothing. */
  lemma {:induction false} NeighbourhoodsStored<T>(spans: seq<Span<T>>, p: nat)
    requires Valid(spans) && p < |Neighbourhoods(spans)|
    ensures Neighbourhoods(spans)[p].index in Contents(spans)
    ensures Neighbourhoods(spans)[p].value ==
              NeighbourhoodOf(Contents(spans), Neighbourhoods(spans)[p].index)
    decreases |spans|
  {
    var s0 := spans[0];
    var tail := spans[1..];
    if p < |s0.items| {
      var j := s0.origin + p;
      assert Neighbourhoods(spans)[p] == Indexed(j, s0.GetNeighbourhood(j));
      HeadNeighbourhood(spans, j);
    } else {
      var q := p - |s0.items|;
      assert Neighbourhoods(spans)[p] == Neighbourhoods(tail)[q];
      ValidSlice(spans, 1, |spans|);
      NeighbourhoodsStored(tail, q);
      TailNeighbourhood(spans, Neighbourhoods(tail)[q].index);
    }
  }

  /** The first run's neighbourhood of an index it covers is the sparse array's. */
  lemma HeadNeighbourhood<T>(spans: seq<Span<T>>, j: int)
    requires Valid(spans) && |spans| > 0 && spans[0].Contains(j)
    ensures j in Contents(spans)
    ensures spans[0].GetNeighbourhood(j) == NeighbourhoodOf(Contents(spans), j)
  {
    var s0 := spans[0];
    ContentsValue(spans, 0, j);
    if s0.Contains(j - 1) { ContentsValue(spans, 0, j - 1); } else { NotStoredBefore(spans, j - 1); }
    if s0.Contains(j + 1) { ContentsValue(spans, 0, j + 1); } else { NotStoredBetween(spans, 1, j + 1); }
  }

  /** The later runs' neighbourhood of an index they store is the whole array's. */
  lemma TailNeighbourhood<T>(spans: seq<Span<T>>, j: int)
    requires Valid(spans) && |spans| > 0 && j in Contents(spans[1..])
    ensures j in Contents(spans)
    ensures NeighbourhoodOf(Contents(spans[1..]), j) == NeighbourhoodOf(Contents(spans), j)
  {
    var tail := spans[1..];
    ValidSlice(spans, 1, |spans|);
    StoredWithin(tail, j);
    assert spans[0].End() < tail[0].origin;
    AgreesWithTail(spans, j - 1);
    AgreesWithTail(spans, j);
    AgreesWithTail(spans, j + 1);
  }

  /** The entry of a covered index is the run's neighbourhood of it, which is the
      sparse array's. */
  lemma CoveredEntry<T>(spans: seq<Span<T>>, u: nat, i: int)
    requires Valid(spans) && u < |spans| && spans[u].Contains(i)
    ensures Offset(spans, u) + (i - spans[u].origin) < |Neighbourhoods(spans)|
    ensures Neighbourhoods(spans)[Offset(spans, u) + (i - spans[u].origin)] ==
              Indexed(i, spans[u].GetNeighbourhood(i))
    ensures i in Contents(spans)
    ensures spans[u].GetNeighbourhood(i) == NeighbourhoodOf(Contents(spans), i)
  {
    var p := Offset(spans, u) + (i - spans[u].origin);
    NeighbourhoodAt(spans, u, i - spans[u].origin);
    var n := Neighbourhoods(spans);
    assert n[p].index == i && n[p].value == spans[u].GetNeighbourhood(i);
    NeighbourhoodsStored(spans, p);
  }

  /** In a well-formed run list the first run's origin is the lowest stored index. */
  lemma FirstOriginLowest<T>(spans: seq<Span<T>>)
    requires Valid(spans) && |spans| > 0
    ensures spans[0].origin in Contents(spans)
    ensures forall j :: j in Contents(spans) ==> spans[0].origin <= j
  {
    ContentsValue(spans, 0, spans[0].origin);
    forall j | j in Contents(spans) ensures spans[0].origin <= j {
      StoredWithin(spans, j);
    }
  }

  /** No index of the first run is stored by the later runs. */
  lemma TailAfterHeadAll<T>(spans: seq<Span<T>>)
    requires Valid(spans) && |spans| > 0
    ensures forall j :: j < spans[0].End() ==> j !in Contents(spans[1..])
  {
    forall j | j < spans[0].End() { TailAfterHead(spans, j); }
  }

  /** At and after the first run's end, the sparse array is the later runs' array. */
  lemma AgreesWithTail<T>(spans: seq<Span<T>>, j: int)
    requires Valid(spans) && |spans| > 0 && spans[0].End() <= j
    ensures Lookup(Contents(spans), j) == Lookup(Contents(spans[1..]), j)
  {
  }

  /** Every stored index has an entry. */
  lemma {:induction false} NeighbourhoodsComplete<T>(spans: seq<Span<T>>, j: int)
    requires Valid(spans) && j in Contents(spans)
    ensures exists p :: 0 <= p < |Neighbourhoods(spans)| && Neighbourhoods(spans)[p].index == j
  {
    ContentsKeys(spans, j);
    var u :| 0 <= u < |spans| && spans[u].Contains(j);
    NeighbourhoodAt(spans, u, j - spans[u].origin);
  }

  /** The entries are strictly ascending by index. */
  lemma NeighbourhoodsAscending<T>(spans: seq<Span<T>>)
    requires Valid(spans)
    ensures Ascending(Neighbourhoods(spans))
  {
    var n := Neighbourhoods(spans);
    forall a, b | 0 <= a < b < |n| ensures n[a].index < n[b].index {
      var ua, ka := RunOf(spans, a);
      var ub, kb := RunOf(spans, b);
      NeighbourhoodsAround(spans, ub);
      OffsetMonotone(spans, ub + 1, ua);
      if ua < ub {
        assert spans[ua].End() < spans[ub].origin;
      }
    }
  }

  /** Offsets grow with the run position. */
  lemma OffsetMonotone<T>(spans: seq<Span<T>>, u: nat, v: nat)
    requires u <= |spans| && v <= |spans|
    ensures u <= v ==> Offset(spans, u) <= Offset(spans, v)
  {
    if u <= v {
      assert spans[..v] == spans[..u] + spans[u..v];
      NeighbourhoodsConcat(spans[..u], spans[u..v]);
    }
  }

  /** The run and the offset within it of entry `p`. */
  lemma {:induction false} RunOf<T>(spans: seq<Span<T>>, p: nat) returns (u: nat, k: nat)
    requires p < |Neighbourhoods(spans)|
    ensures u < |spans| && k < |spans[u].items| && p == Offset(spans, u) + k
    ensures Neighbourhoods(spans)[p] ==
              Indexed(spans[u].origin + k, spans[u].GetNeighbourhood(spans[u].origin + k))
  {
    u := 0;
    OffsetAll(spans);
    assert Offset(spans, 0) == 0 by { assert spans[..0] == []; }
    while Offset(spans, u + 1) <= p
      invariant u < |spans| && Offset(spans, u) <= p
      decreases |spans| - u
    {
      NeighbourhoodsAround(spans, u);
      u := u + 1;
      if u == |spans| {
        OffsetAll(spans);
      }
    }
    NeighbourhoodsAround(spans, u);
    k := p - Offset(spans, u);
    NeighbourhoodAt(spans, u, k);
  }

  // ---------------------------------------------------------------------------
  // The run list is determined by the sparse array it stands for

  /** Indices stored without a break from the first run's origin lie in the first run. */
  lemma FirstRunEnd<T>(spans: seq<Span<T>>, j: int)
    requires Valid(spans) && |spans| > 0
    requires forall k :: spans[0].origin <= k <= j ==> k in Contents(spans)
    ensures j < spans[0].End()
  {
    NotStoredBetween(spans, 1, spans[0].End());
  }

  /** The later runs' array is the whole array without the first run's indices. */
  lemma TailContents<T>(spans: seq<Span<T>>)
    requires Valid(spans) && |spans| > 0
    ensures Contents(spans[1..]) == Contents(spans) - spans[0].AsMap().Keys
  {
    TailAfterHeadAll(spans);
  }

  /** Two valid run lists standing for the same sparse array are the same list: runs
      are always maximal, so writes that leave the same array leave the same runs,
      whatever order they came in. */
  lemma {:induction false} Canonical<T>(a: seq<Span<T>>, b: seq<Span<T>>)
    requires Valid(a) && Valid(b) && Contents(a) == Contents(b)
    ensures a == b
    decreases |a|
  {
    if |a| > 0 { ContentsValue(a, 0, a[0].origin); }
    if |b| > 0 { ContentsValue(b, 0, b[0].origin); }
    if |a| > 0 && |b| > 0 {
      SameFirstRun(a, b);
      TailContents(a);
      TailContents(b);
      ValidSlice(a, 1, |a|);
      ValidSlice(b, 1, |b|);
      Canonical(a[1..], b[1..]);
      assert a == [a[0]] + a[1..] && b == [b[0]] + b[1..];
    }
  }

  /** Two valid run lists standing for the same non-empty array start with the same run. */
  lemma SameFirstRun<T>(a: seq<Span<T>>, b: seq<Span<T>>)
    requires Valid(a) && Valid(b) && Contents(a) == Contents(b) && |a| > 0 && |b| > 0
    ensures a[0] == b[0]
  {
    SameFirstOrigin(a, b);
    SameFirstEnd(a, b);
    SameFirstEnd(b, a);
    var o := a[0].origin;
    assert |a[0].items| == |b[0].items|;
    forall k | 0 <= k < |a[0].items| ensures a[0].items[k] == b[0].items[k] {
      ContentsValue(a, 0, o + k);
      ContentsValue(b, 0, o + k);
    }
    assert a[0].items == b[0].items;
  }

  lemma SameFirstOrigin<T>(a: seq<Span<T>>, b: seq<Span<T>>)
    requires Valid(a) && Valid(b) && Contents(a) == Contents(b) && |a| > 0 && |b| > 0
    ensures a[0].origin == b[0].origin
  {
    ContentsValue(a, 0, a[0].origin);
    ContentsValue(b, 0, b[0].origin);
    StoredWithin(b, a[0].origin);
    StoredWithin(a, b[0].origin);
  }

  lemma SameFirstEnd<T>(a: seq<Span<T>>, b: seq<Span<T>>)
    requires Valid(a) && Valid(b) && Contents(a) == Contents(b) && |a| > 0 && |b| > 0
    requires a[0].origin == b[0].origin
    ensures b[0].End() <= a[0].End()
  {
    forall k | a[0].origin <= k <= b[0].End() - 1 ensures k in Contents(a) {
      ContentsValue(b, 0, k);
    }
    FirstRunEnd(a, b[0].End() - 1);
  }

  // ---------------------------------------------------------------------------
  // A sequence of writes

  /** The sparse array after the writes `writes`, in order, starting from `m`. */
  ghost function FoldSet<T>(m: map<int, T>, writes: seq<(int, T)>): map<int, T>
    decreases |writes|
  {
    if |writes| == 0 then m else FoldSet(m[writes[0].0 := writes[0].1], writes[1..])
  }

  /** The last write to an index decides its item. */
  lemma {:induction false} FoldSetLastWrite<T>(m: map<int, T>, writes: seq<(int, T)>, k: nat)
    requires k < |writes|
    requires forall k' :: k < k' < |writes| ==> writes[k'].0 != writes[k].0
    ensures writes[k].0 in FoldSet(m, writes) && FoldSet(m, writes)[writes[k].0] == writes[k].1
    decreases |writes|
  {
    var m' := m[writes[0].0 := writes[0].1];
    if k == 0 {
      FoldSetUntouched(m', writes[1..], writes[0].0);
    } else {
      FoldSetLastWrite(m', writes[1..], k - 1);
    }
  }

  /** An index no write touches keeps what it had. */
  lemma {:induction false} FoldSetUntouched<T>(m: map<int, T>, writes: seq<(int, T)>, j: int)
    requires forall k :: 0 <= k < |writes| ==> writes[k].0 != j
    ensures Lookup(FoldSet(m, writes), j) == Lookup(m, j)
    decreases |writes|
  {
    if |writes| > 0 {
      FoldSetUntouched(m[writes[0].0 := writes[0].1], writes[1..], j);
    }
  }

  // ---------------------------------------------------------------------------
  // Seeking in the neighbourhoods

  /** Seeking index `i` in the neighbourhoods lands on the one position that splits
      them at `i`, consuming the entry for `i` exactly when `i` is stored. */
  lemma SeekLands<T>(spans: seq<Span<T>>, q: nat, i: int, p: int)
    requires Valid(spans) && IsSplit(Neighbourhoods(spans), p, i)
    ensures Lane(Neighbourhoods(spans), q).Seek(i).1 == Lane(Neighbourhoods(spans), p)
    ensures i in Contents(spans) ==> 0 < p
    ensures Lane(Neighbourhoods(spans), q).Seek(i).0 ==
              if i in Contents(spans) then Some(Neighbourhoods(spans)[p - 1]) else None
  {
    var n := Neighbourhoods(spans);
    var r := Lane(n, q).Seek(i);
    NeighbourhoodsAscending(spans);
    SplitUnique(n, r.1.pos, p, i);
    if i in Contents(spans) {
      NeighbourhoodsComplete(spans, i);
    }
    forall k | 0 <= k < |n| ensures n[k].index in Contents(spans) {
      NeighbourhoodsStored(spans, k);
    }
  }

  /** The position just after the entry of a covered index splits at that index. */
  lemma SplitAfterCovered<T>(spans: seq<Span<T>>, u: nat, i: int)
    requires Valid(spans) && u < |spans| && spans[u].Contains(i)
    ensures var p := Offset(spans, u) + (i - spans[u].origin) + 1;
      && 0 < p <= |Neighbourhoods(spans)|
      && IsSplit(Neighbourhoods(spans), p, i)
      && Neighbourhoods(spans)[p - 1] == Indexed(i, spans[u].GetNeighbourhood(i))
  {
    var n := Neighbourhoods(spans);
    var k := i - spans[u].origin;
    var p := Offset(spans, u) + k + 1;
    NeighbourhoodAt(spans, u, k);
    NeighbourhoodsAround(spans, u);
    NeighbourhoodsAscending(spans);
    if p < |n| {
      if k + 1 < |spans[u].items| {
        IndexAt(spans, u, k + 1);
      } else {
        OffsetAll(spans);
        assert u + 1 < |spans|;
        IndexAt(spans, u + 1, 0);
        assert spans[u].End() < spans[u + 1].origin;
      }
    }
    SplitFromEnds(n, p, i);
  }

  /** The start of run `u` splits at an index lying after run `u - 1` and before
      run `u`. */
  lemma SplitAtGap<T>(spans: seq<Span<T>>, u: nat, i: int)
    requires Valid(spans) && u <= |spans|
    requires u > 0 ==> spans[u - 1].End() <= i
    requires u < |spans| ==> i < spans[u].origin
    ensures IsSplit(Neighbourhoods(spans), Offset(spans, u), i)
  {
    NeighbourhoodsAscending(spans);
    GapSplit(spans, u, i);
  }

  /** The split at a gap, from the entries being ascending. */
  lemma GapSplit<T>(spans: seq<Span<T>>, u: nat, i: int)
    requires Ascending(Neighbourhoods(spans)) && u <= |spans|
    requires u > 0 ==> |spans[u - 1].items| > 0 && spans[u - 1].End() <= i
    requires u < |spans| ==> |spans[u].items| > 0 && i < spans[u].origin
    ensures IsSplit(Neighbourhoods(spans), Offset(spans, u), i)
  {
    var n := Neighbourhoods(spans);
    var p := Offset(spans, u);
    OffsetAll(spans);
    OffsetMonotone(spans, u, |spans|);
    if u > 0 {
      NeighbourhoodsAround(spans, u - 1);
      IndexAt(spans, u - 1, |spans[u - 1].items| - 1);
    }
    if u < |spans| {
      IndexAt(spans, u, 0);
    }
    SplitFromEnds(n, p, i);
  }

  /** The index of the entry for position `k` of run `u`. */
  lemma IndexAt<T>(spans: seq<Span<T>>, u: nat, k: nat)
    requires u < |spans| && k < |spans[u].items|
    ensures Offset(spans, u) + k < |Neighbourhoods(spans)|
    ensures Neighbourhoods(spans)[Offset(spans, u) + k].index == spans[u].origin + k
  {
    NeighbourhoodAt(spans, u, k);
  }

  /** Seeking a covered index consumes its entry and leaves the lane just past it. */
  lemma {:induction false} SeekCovered<T>(spans: seq<Span<T>>, q: nat, u: nat, i: int)
    requires Valid(spans) && u < |spans| && spans[u].Contains(i)
    ensures Lane(Neighbourhoods(spans), q).Seek(i) ==
              (Some(Indexed(i, spans[u].GetNeighbourhood(i))),
               Lane(Neighbourhoods(spans), Offset(spans, u) + (i - spans[u].origin) + 1))
    ensures i in Contents(spans)
  {
    var n := Neighbourhoods(spans);
    var p := Offset(spans, u) + (i - spans[u].origin) + 1;
    SplitAfterCovered(spans, u, i);
    ContentsValue(spans, u, i);
    NeighbourhoodsAscending(spans);
    SeekAtSplit(Lane(n, q), i, p);
  }

  /** Seeking an index in the gap before run `u` consumes nothing and leaves the
      lane at run `u`'s first entry. */
  lemma {:induction false} SeekGap<T>(spans: seq<Span<T>>, q: nat, u: nat, i: int)
    requires Valid(spans) && u <= |spans|
    requires u > 0 ==> spans[u - 1].End() <= i
    requires u < |spans| ==> i < spans[u].origin
    ensures Lane(Neighbourhoods(spans), q).Seek(i) == (None, Lane(Neighbourhoods(spans), Offset(spans, u)))
    ensures i !in Contents(spans)
  {
    SplitAtGap(spans, u, i);
    NotStoredBetween(spans, u, i);
    SeekLands(spans, q, i, Offset(spans, u));
  }

  /** The entries from a stored index on begin at that index's entry. */
  lemma {:induction false} StartCovered<T>(spans: seq<Span<T>>, u: nat, i: int)
    requires Valid(spans) && u < |spans| && spans[u].Contains(i)
    ensures IsStart(Neighbourhoods(spans), Offset(spans, u) + (i - spans[u].origin), i)
  {
    var n := Neighbourhoods(spans);
    var k := i - spans[u].origin;
    var p := Offset(spans, u) + k;
    NeighbourhoodAt(spans, u, k);
    NeighbourhoodsAscending(spans);
    if 0 < k {
      NeighbourhoodAt(spans, u, k - 1);
    } else if 0 < u {
      NeighbourhoodsAround(spans, u - 1);
      NeighbourhoodAt(spans, u - 1, |spans[u - 1].items| - 1);
    } else {
      assert spans[..0] == [];
    }
    StartFromEnds(n, p, i);
  }

  /** The entries from an index in the gap before run `u` on begin at run `u`. */
  lemma StartGap<T>(spans: seq<Span<T>>, u: nat, i: int)
    requires Valid(spans) && u <= |spans|
    requires u > 0 ==> spans[u - 1].End() <= i
    requires u < |spans| ==> i < spans[u].origin
    ensures IsStart(Neighbourhoods(spans), Offset(spans, u), i)
  {
    var n := Neighbourhoods(spans);
    SplitAtGap(spans, u, i);
    NotStoredBetween(spans, u, i);
    forall k | 0 <= k < |n| ensures n[k].index in Contents(spans) {
      NeighbourhoodsStored(spans, k);
    }
  }
}
