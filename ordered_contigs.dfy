/** The run-coalescing sparse array of src/contig.rs (`OrderedContigs`) and its
    cursor (`OrderedContigsNeighbourhoodEnumerator`). The draft in src/playfield.rs
    has the same run list, lookups and writes. */
module Contigs {
  import opened Wrappers
  import opened Spans
  import opened Lanes
  import RunList

  /** A neighbourhood tagged with its index, as the cursor's lane view holds it. */
  function Tagged<T>(r: Option<Neighbourhood<T>>): (t: Option<Indexed<Neighbourhood<T>>>)
    ensures t.Some? <==> r.Some?
    ensures t.Some? ==> t.value.index == r.value.i && t.value.value == r.value
  {
    match r
    case None => None
    case Some(n) => Some(Indexed(n.i, n))
  }

  /** A sparse array kept as a list of runs: non-empty, ascending, and separated by
      at least one unstored index. */
  class OrderedContigs<T> {
    var spans: seq<Span<T>>

    ghost predicate Valid()
      reads this
    {
      RunList.Valid(spans)
    }

    /** The sparse array the runs stand for. */
    ghost function Contents(): map<int, T>
      reads this
    {
      RunList.Contents(spans)
    }

    /** An empty store. */
    constructor ()
      ensures Valid() && spans == [] && Contents() == map[]
    {
      spans := [];
    }

    /** A store holding the single item `item` at `i`. */
    constructor Singleton(i: int, item: T)
      ensures Valid() && |spans| == 1 && Contents() == map[i := item]
    {
      spans := [Span.New(i, item)];
      RunList.ContentsSingle(Span.New(i, item));
    }

    /** A store built by writing each pair of `writes` in order into an empty store. */
    static method From(writes: seq<(int, T)>) returns (oc: OrderedContigs<T>)
      ensures fresh(oc) && oc.Valid()
      ensures oc.Contents() == RunList.FoldSet(map[], writes)
    {
      oc := new OrderedContigs();
      for k := 0 to |writes|
        invariant fresh(oc) && oc.Valid()
        invariant RunList.FoldSet(oc.Contents(), writes[k..]) == RunList.FoldSet(map[], writes)
      {
        assert writes[k..][1..] == writes[k + 1..];
        oc.Set(writes[k].0, writes[k].1);
      }
    }

    /** The item stored at `i`, found by binary search over the runs. */
    function Get(i: int): (r: Option<T>)
      reads this
      requires Valid()
      ensures r == Lookup(Contents(), i)
    {
      match RunList.BinarySearch(spans, i)
      case Found(u) =>
        RunList.ContentsValue(spans, u, i);
        spans[u].Get(i)
      case NotFound(u) =>
        RunList.NotStoredBetween(spans, u, i);
        None
    }

    /** The lowest stored index. */
    function Origin(): (r: int)
      reads this
      requires Valid() && |spans| > 0
      ensures r in Contents()
      ensures forall j :: j in Contents() ==> r <= j
    {
      RunList.FirstOriginLowest(spans);
      spans[0].origin
    }

    /** Write `item` at `i`, in the place `determine_update` chooses. */
    method Set(i: int, item: T)
      requires Valid()
      modifies this
      ensures Valid()
      ensures Contents() == old(Contents())[i := item]
      ensures |spans| == match RunList.DetermineUpdate(old(spans), i)
                         case Insert(_) => |old(spans)| + 1
                         case PushFrontAndCoelesce(_) => |old(spans)| - 1
                         case _ => |old(spans)|
      ensures RunList.DetermineUpdate(old(spans), i).PushFrontAndCoelesce? ==>
                var u := RunList.DetermineUpdate(old(spans), i).u;
                spans[u - 1] == Span(old(spans)[u - 1].origin,
                                     old(spans)[u - 1].items + [item] + old(spans)[u].items)
    {
      match RunList.DetermineUpdate(spans, i)
      case Set(u) =>
        RunList.SetPreserves(spans, i, item, u);
        spans := spans[u := spans[u].Put(i, item)];
      case PushFront(u) =>
        RunList.PushFrontPreserves(spans, i, item, u);
        spans := spans[u := spans[u].PushFront(item)];
      case PushFrontAndCoelesce(u) =>
        RunList.CoelescePreserves(spans, i, item, u);
        ghost var s0 := spans;
        spans := spans[u := spans[u].PushFront(item)];
        CoelesceLeft(u);
        assert spans == s0[..u - 1] + [s0[u - 1].Append(s0[u].PushFront(item))] + s0[u + 1..];
      case PushBack(u) =>
        RunList.PushBackPreserves(spans, i, item, u);
        spans := spans[u := spans[u].PushBack(item)];
      case Insert(u) =>
        RunList.InsertPreserves(spans, i, item, u);
        spans := spans[..u] + [Span.New(i, item)] + spans[u..];
    }

    /** Remove run `u`, if there is one, and append its items to run `u - 1`. */
    method CoelesceLeft(u: nat)
      requires u < |spans| ==> 0 < u
      modifies this
      ensures spans == if u < |old(spans)|
                       then old(spans)[..u - 1] + [old(spans)[u - 1].Append(old(spans)[u])] + old(spans)[u + 1..]
                       else old(spans)
    {
      if u < |spans| {
        var removed := spans[u];
        spans := spans[..u] + spans[u + 1..];
        spans := spans[u - 1 := spans[u - 1].Append(removed)];
      }
    }

    /** A cursor positioned at the first stored index. */
    method NeighbourhoodEnumerator() returns (e: NeighbourhoodEnumerator<T>)
      requires Valid()
      ensures fresh(e) && e.Valid() && e.spans == spans
      ensures e.Position() == 0
    {
      var next := if |spans| > 0 then spans[0].origin else 0;
      e := new NeighbourhoodEnumerator(spans, 0, next);
      assert spans[..0] == [];
    }

    /** A cursor positioned at `i` if it is stored, else at the origin of the first
        run after `i`, else exhausted. */
    method NeighbourhoodEnumeratorFrom(i: int) returns (e: NeighbourhoodEnumerator<T>)
      requires Valid()
      ensures fresh(e) && e.Valid() && e.spans == spans
      ensures IsStart(RunList.Neighbourhoods(spans), e.Position(), i)
    {
      var f := RunList.Find(spans, i);
      e := new NeighbourhoodEnumerator(spans, f.0, f.1);
      if i in Contents() {
        RunList.StartCovered(spans, f.0, i);
      } else {
        RunList.StartGap(spans, f.0, i);
      }
    }
  }

  /** A cursor over the stored indices of a run list, handing out neighbourhoods.
      It reads a fixed run list, as the Rust enumerator borrows its store. */
  class NeighbourhoodEnumerator<T> {
    const spans: seq<Span<T>>
    /** The run the cursor is in (`u_c`), or the number of runs when exhausted. */
    var u: nat
    /** The next index to hand out (`next_i`). */
    var next: int

    constructor (spans: seq<Span<T>>, u: nat, next: int)
      ensures this.spans == spans && this.u == u && this.next == next
    {
      this.spans := spans;
      this.u := u;
      this.next := next;
    }

    /** The cursor is inside the run list and, when not exhausted, on a stored index. */
    ghost predicate Consistent()
      reads this
    {
      && RunList.Valid(spans)
      && u <= |spans|
      && (u < |spans| ==> spans[u].Contains(next))
    }

    /** In addition, an exhausted cursor's `next` lies past every run. */
    ghost predicate Valid()
      reads this
    {
      && Consistent()
      && (u == |spans| ==> forall v :: 0 <= v < |spans| ==> spans[v].End() <= next)
    }

    /** How many neighbourhoods lie before the cursor. */
    ghost function Position(): nat
      reads this
      requires Consistent()
    {
      RunList.Offset(spans, u) + (if u < |spans| then next - spans[u].origin else 0)
    }

    /** The cursor seen as a seekable iterator over all neighbourhoods. */
    ghost function AsLane(): Lane<Neighbourhood<T>>
      reads this
      requires Consistent()
    {
      Lane(RunList.Neighbourhoods(spans), Position())
    }

    /** Step past `next`, to the next index of the same run or to the next run's origin. */
    method Advance()
      requires Consistent() && u < |spans|
      modifies this
      ensures Valid()
      ensures Position() == old(Position()) + 1
    {
      RunList.NeighbourhoodsAround(spans, u);
      next := next + 1;
      if !spans[u].Contains(next) {
        u := u + 1;
        if u < |spans| {
          next := spans[u].origin;
        } else {
          assert forall v :: 0 <= v < |spans| - 1 ==> spans[v].End() < spans[|spans| - 1].origin;
        }
      }
    }

    /** Hand out the neighbourhood at the cursor and step past it. */
    method Next() returns (r: Option<Neighbourhood<T>>)
      requires Consistent()
      modifies this
      ensures Consistent() && (old(Valid()) ==> Valid())
      ensures Tagged(r) == old(AsLane()).Next().0
      ensures AsLane() == old(AsLane()).Next().1
      ensures r.Some? ==> (r.value.i in RunList.Contents(spans) &&
                           r.value == RunList.NeighbourhoodOf(RunList.Contents(spans), r.value.i))
    {
      RunList.OffsetAll(spans);
      if u < |spans| {
        RunList.CoveredEntry(spans, u, next);
        r := Some(spans[u].GetNeighbourhood(next));
        Advance();
      } else {
        r := None;
      }
    }

    /** The neighbourhood of `i` if it is stored, leaving the cursor just past `i`;
        otherwise `None`, leaving the cursor at the first stored index after `i`.
        The cursor may move backwards. */
    method Get(i: int) returns (r: Option<Neighbourhood<T>>)
      requires Valid()
      modifies this
      ensures Valid()
      ensures Tagged(r) == old(AsLane()).Seek(i).0
      ensures AsLane() == old(AsLane()).Seek(i).1
      ensures r.Some? <==> i in RunList.Contents(spans)
      ensures r.Some? ==> r.value == RunList.NeighbourhoodOf(RunList.Contents(spans), i)
    {
      ghost var q := Position();
      Reposition(i);
      SkipRunsBefore(i);
      if u < |spans| {
        r := Land(i, q);
      } else {
        RunList.SeekGap(spans, q, u, i);
        next := i;
        r := None;
      }
    }

    /** `get` as written: the same, except that when the run skipping exhausts the
        cursor, `next` is left where it was. */
    method GetAsWritten(i: int) returns (r: Option<Neighbourhood<T>>)
      requires Consistent()
      modifies this
      ensures Consistent()
      ensures old(Valid()) || old(i < next) ==>
                Tagged(r) == old(AsLane()).Seek(i).0 && AsLane() == old(AsLane()).Seek(i).1
      ensures !old(Valid()) && !old(i < next) ==> r == None && u == old(u) && next == old(next)
      ensures r.None? && u == |spans| && !old(i < next) ==> next == old(next)
    {
      ghost var q := Position();
      ghost var wasValid := Valid();
      assert !wasValid ==> u == |spans|;
      Reposition(i);
      SkipRunsBefore(i);
      if u < |spans| {
        r := Land(i, q);
      } else {
        if wasValid || old(i < next) {
          RunList.SeekGap(spans, q, u, i);
        }
        r := None;
      }
    }

    /** The first step of `get`: a target behind the cursor restarts it from `find`. */
    method Reposition(i: int)
      requires Consistent()
      modifies this
      ensures RunList.Valid(spans) && u <= |spans|
      ensures old(i < next) ==> (u, next) == RunList.Find(spans, i)
      ensures !old(i < next) ==> u == old(u) && next == old(next)
      ensures old(Valid()) || old(i < next) || u < |spans| ==>
                forall v :: 0 <= v < u ==> spans[v].End() <= i
    {
      if i < next {
        var f := RunList.Find(spans, i);
        u, next := f.0, f.1;
      } else if u < |spans| {
        assert forall v :: 0 <= v < u ==> spans[v].End() < spans[u].origin;
      }
    }

    /** The run-skipping loop of `get`: move past every run lying wholly before `i`. */
    method SkipRunsBefore(i: int)
      requires RunList.Valid(spans) && u <= |spans|
      requires u < |spans| ==> forall v :: 0 <= v < u ==> spans[v].End() <= i
      modifies this
      ensures old(u) <= u <= |spans| && next == old(next)
      ensures old(u) < |spans| ==> forall v :: 0 <= v < u ==> spans[v].End() <= i
      ensures u < |spans| ==> i < spans[u].End()
      ensures old(u) == |spans| ==> u == old(u)
    {
      while u < |spans| && spans[u].Cmp(i) == Less
        invariant old(u) <= u <= |spans| && next == old(next)
        invariant old(u) < |spans| ==> forall v :: 0 <= v < u ==> spans[v].End() <= i
      {
        u := u + 1;
      }
    }

    /** The last step of `get` on a run `u` that ends after `i`, every run before it
        ending at or before `i`: hand out `i` and step past it, or move to the run's
        origin. Either way the cursor lands where seeking `i` from any position does. */
    method Land(i: int, ghost q: nat) returns (r: Option<Neighbourhood<T>>)
      requires RunList.Valid(spans) && u < |spans|
      requires forall v :: 0 <= v < u ==> spans[v].End() <= i
      requires i < spans[u].End()
      modifies this
      ensures Valid()
      ensures Tagged(r) == Lane(RunList.Neighbourhoods(spans), q).Seek(i).0
      ensures AsLane() == Lane(RunList.Neighbourhoods(spans), q).Seek(i).1
      ensures r.Some? <==> i in RunList.Contents(spans)
      ensures r.Some? ==> r.value == RunList.NeighbourhoodOf(RunList.Contents(spans), i)
      ensures r.None? ==> u == old(u)
    {
      if spans[u].Contains(i) {
        RunList.SeekCovered(spans, q, u, i);
        r := Some(spans[u].GetNeighbourhood(i));
        RunList.CoveredEntry(spans, u, i);
        next := i;
        Advance();
      } else {
        RunList.SeekGap(spans, q, u, i);
        next := spans[u].origin;
        r := None;
      }
    }
  }
}
