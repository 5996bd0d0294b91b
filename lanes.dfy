/** The `SeekableIterator` contract of src/multi_iterator.rs, modelled as a cursor over
    entries that are tagged with their index. */
module Lanes {
  import opened Wrappers
  import opened Spans

  /** Entries strictly ascending by index. */
  ghost predicate Ascending<T>(e: seq<Indexed<T>>) {
    forall a, b :: 0 <= a < b < |e| ==> e[a].index < e[b].index
  }

  /** `p` splits the entries at `i`: the first `p` lie at or before `i`, the rest after it. */
  ghost predicate IsSplit<T>(e: seq<Indexed<T>>, p: int, i: int) {
    && 0 <= p <= |e|
    && (forall k :: 0 <= k < p ==> e[k].index <= i)
    && (forall k :: p <= k < |e| ==> e[k].index > i)
  }

  /** The position of the first entry at or past `i`, scanning from the front. */
  function FirstAtOrAfter<T>(e: seq<Indexed<T>>, i: int): (p: nat)
    ensures p <= |e|
    ensures forall k :: 0 <= k < p ==> e[k].index < i
    ensures p < |e| ==> e[p].index >= i
  {
    if |e| == 0 || e[0].index >= i then 0 else 1 + FirstAtOrAfter(e[1..], i)
  }

  /** A seekable iterator: its entries and the position of the next one. */
  datatype Lane<T> = Lane(entries: seq<Indexed<T>>, pos: nat) {

    /** Inspect the next entry without consuming it. */
    function Peek(): (r: Option<Indexed<T>>)
      ensures r.Some? <==> pos < |entries|
      ensures r.Some? ==> r.value == entries[pos]
    {
      if pos < |entries| then Some(entries[pos]) else None
    }

    /** Consume the next entry. */
    function Next(): (r: (Option<Indexed<T>>, Lane<T>))
      ensures r.0 == Peek()
      ensures r.1.entries == entries
      ensures r.1.pos == if pos < |entries| then pos + 1 else pos
    {
      if pos < |entries| then (Some(entries[pos]), Lane(entries, pos + 1)) else (None, this)
    }

    /** Move to the first entry at or past `i`, consuming and returning it only when
        it is exactly at `i`. */
    function Seek(i: int): (r: (Option<Indexed<T>>, Lane<T>))
      ensures r.1.entries == entries
      ensures r.0.Some? ==> r.0.value.index == i && 0 < r.1.pos <= |entries| && entries[r.1.pos - 1] == r.0.value
      ensures Ascending(entries) ==> IsSplit(entries, r.1.pos, i)
      ensures Ascending(entries) ==>
                (r.0.Some? <==> exists k :: 0 <= k < |entries| && entries[k].index == i)
    {
      var p := FirstAtOrAfter(entries, i);
      if p < |entries| && entries[p].index == i then
        (Some(entries[p]), Lane(entries, p + 1))
      else
        (None, Lane(entries, p))
    }
  }

  /** At most one position splits the entries at a given index. */
  lemma SplitUnique<T>(e: seq<Indexed<T>>, p: int, q: int, i: int)
    requires IsSplit(e, p, i) && IsSplit(e, q, i)
    ensures p == q
  {
    var m := if p < q then p else q;
    if m < |e| {
      var x := e[m].index;
    }
  }

  /** For ascending entries, a position whose two neighbours lie on either side of `i` splits them. */
  lemma SplitFromEnds<T>(e: seq<Indexed<T>>, p: int, i: int)
    requires Ascending(e) && 0 <= p <= |e|
    requires p > 0 ==> e[p - 1].index <= i
    requires p < |e| ==> e[p].index > i
    ensures IsSplit(e, p, i)
  {
    forall k | 0 <= k < p ensures e[k].index <= i {
      if k < p - 1 { assert e[k].index < e[p - 1].index; }
    }
    forall k | p <= k < |e| ensures e[k].index > i {
      if p < k { assert e[p].index < e[k].index; }
    }
  }

  /** For ascending entries, seeking `i` moves to the position that splits them at
      `i`, consuming the entry before it exactly when that entry is at `i`. */
  lemma SeekAtSplit<T>(l: Lane<T>, i: int, p: int)
    requires Ascending(l.entries) && IsSplit(l.entries, p, i)
    ensures l.Seek(i).1 == Lane(l.entries, p)
    ensures l.Seek(i).0 == if 0 < p && l.entries[p - 1].index == i then Some(l.entries[p - 1]) else None
  {
    var r := l.Seek(i);
    SplitUnique(l.entries, r.1.pos, p, i);
    if 0 < p && l.entries[p - 1].index == i {
      assert r.0.Some?;
    }
  }

  /** Seeking a lane to the index it is positioned at consumes exactly its next entry. */
  lemma SeekAtPeek<T>(l: Lane<T>, i: int)
    requires Ascending(l.entries)
    requires l.Peek().Some? && l.Peek().value.index == i
    ensures l.Seek(i) == l.Next()
  {
  }

  /** Position `p` is where the entries at or after index `i` begin. */
  ghost predicate IsStart<T>(e: seq<Indexed<T>>, p: int, i: int) {
    0 <= p <= |e| && forall k :: 0 <= k < |e| ==> (k < p <==> e[k].index < i)
  }

  /** For ascending entries, a position whose two neighbours lie on either side of
      `i` is where the entries at or after `i` begin. */
  lemma StartFromEnds<T>(e: seq<Indexed<T>>, p: int, i: int)
    requires Ascending(e) && 0 <= p <= |e|
    requires p > 0 ==> e[p - 1].index < i
    requires p < |e| ==> e[p].index >= i
    ensures IsStart(e, p, i)
  {
    forall k | 0 <= k < |e| ensures k < p <==> e[k].index < i {
      if k < p - 1 { assert e[k].index < e[p - 1].index; }
      if p < k { assert e[p].index < e[k].index; }
    }
  }
}
