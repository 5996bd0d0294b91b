/** One run of items stored at consecutive indices (the `Contig` struct of src/contig.rs),
    and the values the enumerators hand out. */
module Spans {
  import opened Wrappers

  /** The result of comparing a run with an index, as the binary search over runs sees it. */
  datatype Ordering = Less | Equal | Greater

  /** A value tagged with the index it belongs to. */
  datatype Indexed<T> = Indexed(index: int, value: T)

  /** A stored index with the items at its predecessor, at itself and at its successor. */
  datatype Neighbourhood<T> = Neighbourhood(i: int, left: Option<T>, item: T, right: Option<T>)

  /** The items stored at `origin`, `origin + 1`, ..., `origin + |items| - 1`. */
  datatype Span<T> = Span(origin: int, items: seq<T>) {

    /** One past the last index of the run. */
    function End(): int { origin + |items| }

    /** Whether the run covers `i`. */
    predicate Contains(i: int) { origin <= i < End() }

    /** The run as a map from index to item. */
    ghost function AsMap(): (m: map<int, T>)
      ensures forall i :: i in m <==> Contains(i)
      ensures forall i :: i in m ==> m[i] == At(i)
    {
      map i | origin <= i < End() :: At(i)
    }

    /** The item at a covered index (indexing a run by position). */
    function At(i: int): T
      requires Contains(i)
    {
      items[i - origin]
    }

    /** A run holding a single item. */
    static function New(i: int, item: T): (r: Span<T>)
      ensures forall j :: r.Contains(j) <==> j == i
      ensures r.Get(i) == Some(item)
      ensures r.AsMap() == map[i := item]
    {
      Span(i, [item])
    }

    /** The item at index `i`, if the run covers it. */
    function Get(i: int): (r: Option<T>)
      ensures r.Some? <==> Contains(i)
      ensures r.Some? ==> r.value == items[i - origin]
    {
      if i >= origin then
        (if i - origin < |items| then Some(items[i - origin]) else None)
      else
        None
    }

    /** Overwrite the item at a covered index. */
    function Put(i: int, item: T): (r: Span<T>)
      requires Contains(i)
      ensures r.origin == origin && r.End() == End()
      ensures r.Get(i) == Some(item)
      ensures forall j :: j != i ==> r.Get(j) == Get(j)
      ensures r.AsMap() == AsMap()[i := item]
    {
      Span(origin, items[i - origin := item])
    }

    /** `contains`, `get`, the run's map and the search comparator all agree on which
        indices the run covers. */
    lemma ContainsAgrees(i: int)
      ensures Contains(i) <==> Get(i).Some?
      ensures Contains(i) <==> Cmp(i) == Equal
      ensures Contains(i) <==> i in AsMap()
    {
    }

    /** Indexing a covered position gives one of the run's items, the one `Get` returns. */
    lemma AtIsGet(i: int)
      requires Contains(i)
      ensures Get(i) == Some(At(i))
      ensures At(i) in items
    {
    }

    /** Whether `i` is the index just before the run, where `PushFront` puts an item:
        never covered, and for a non-empty run the uncovered index whose successor is. */
    predicate AdjoinsLeft(i: int)
    {
      i == origin - 1
    }

    /** Whether `i` is the index just past the run, where `PushBack` puts an item:
        never covered, and for a non-empty run the uncovered index whose predecessor is. */
    predicate AdjoinsRight(i: int)
    {
      i == End()
    }

    /** The index a run adjoins on the left is never covered; for a non-empty run it is
        exactly the uncovered index whose successor is covered. */
    lemma AdjoinsLeftIsBefore(i: int)
      ensures AdjoinsLeft(i) ==> !Contains(i)
      ensures |items| > 0 ==> (AdjoinsLeft(i) <==> !Contains(i) && Contains(i + 1))
    {
    }

    /** The index a run adjoins on the right is never covered; for a non-empty run it is
        exactly the uncovered index whose predecessor is covered. */
    lemma AdjoinsRightIsAfter(i: int)
      ensures AdjoinsRight(i) ==> !Contains(i)
      ensures |items| > 0 ==> (AdjoinsRight(i) <==> !Contains(i) && Contains(i - 1))
    {
    }

    /** Extend the run by one item on the left: the origin moves down by one. */
    function PushFront(item: T): (r: Span<T>)
      ensures r.origin == origin - 1 && r.End() == End()
      ensures r.Get(origin - 1) == Some(item)
      ensures forall j :: Contains(j) ==> r.Get(j) == Get(j)
      ensures r.AsMap() == AsMap()[origin - 1 := item]
    {
      Span(origin - 1, [item] + items)
    }

    /** Extend the run by one item on the right, at index `End()`. */
    function PushBack(item: T): (r: Span<T>)
      ensures r.origin == origin && r.End() == End() + 1
      ensures r.Get(End()) == Some(item)
      ensures forall j :: Contains(j) ==> r.Get(j) == Get(j)
      ensures r.AsMap() == AsMap()[End() := item]
    {
      Span(origin, items + [item])
    }

    /** Concatenate the items of `other` after this run's items. */
    function Append(other: Span<T>): (r: Span<T>)
      ensures r.origin == origin && |r.items| == |items| + |other.items|
      ensures other.origin == End() ==>
                forall j :: r.Get(j) == if Contains(j) then Get(j) else other.Get(j)
      ensures other.origin == End() ==> r.AsMap() == AsMap() + other.AsMap()
    {
      Span(origin, items + other.items)
    }

    /** The neighbourhood of a covered index: the items at `i - 1`, `i` and `i + 1`
        as far as this run holds them. */
    function GetNeighbourhood(i: int): (r: Neighbourhood<T>)
      requires Contains(i)
      ensures r.i == i && Some(r.item) == Get(i)
      ensures r.left == Get(i - 1) && r.right == Get(i + 1)
    {
      var u := i - origin;
      var left := if u > 0 then Some(items[u - 1]) else None;
      var right := if u + 1 < |items| then Some(items[u + 1]) else None;
      Neighbourhood(i, left, items[u], right)
    }

    /** The neighbourhood of every covered index, in ascending order. */
    function Neighbourhoods(): (r: seq<Indexed<Neighbourhood<T>>>)
      ensures |r| == |items|
      ensures forall k :: 0 <= k < |items| ==>
                r[k] == Indexed(origin + k, GetNeighbourhood(origin + k))
    {
      seq(|items|, k requires 0 <= k < |items| => Indexed(origin + k, GetNeighbourhood(origin + k)))
    }

    /** How this run compares with index `i` in the binary search: `Greater` when the
        run lies wholly after `i`, `Equal` when it covers `i`, `Less` when it lies
        wholly before `i`. */
    function Cmp(i: int): (r: Ordering)
      ensures r == Greater <==> i < origin
      ensures r == Equal <==> Contains(i)
      ensures r == Less <==> origin <= i && End() <= i
      ensures |items| == 0 ==> r != Equal
    {
      if i < origin then Greater
      else if i < origin + |items| then Equal
      else Less
    }
  }
}
