/** The k-way lane synchroniser `MultiIterator` of src/multi_iterator.rs. Each lane
    is an optional seekable iterator; the driver lanes choose the next index, and
    every present lane is then sought to it. */
module Synchroniser {
  import opened Wrappers
  import opened Spans
  import opened Lanes

  /** The index a lane slot offers next: that of its peeked entry, if the slot holds
      a lane and the lane has one. This is the definition `DetermineNext` is stated
      through; what the minimum over the offers means is `MinOfferedIsLeast`. */
  function PeekIndex<T>(slot: Option<Lane<T>>): (r: Option<int>)
    ensures r.Some? <==> slot.Some? && slot.value.Peek().Some?
    ensures r.Some? ==> r.value == slot.value.Peek().value.index
  {
    match slot
    case None => None
    case Some(l) => match l.Peek() { case None => None case Some(e) => Some(e.index) }
  }

  /** One step of the running minimum: a first offer is taken as it is, a later offer
      only when it is strictly smaller. */
  function Pick(min: Option<int>, next: Option<int>): (r: Option<int>)
    ensures min.None? ==> r == next
    ensures min.Some? && next.None? ==> r == min
    ensures min.Some? && next.Some? ==>
              (r.Some? && r.value <= min.value && r.value <= next.value && (r == min || r == next))
  {
    match (min, next)
    case (None, _) => next
    case (Some(m), Some(n)) => if n < m then next else min
    case _ => min
  }

  /** Lane `u` is a driver that offers an index. */
  ghost predicate Offers<T>(slots: seq<Option<Lane<T>>>, drivers: seq<bool>, u: int) {
    0 <= u < |drivers| && u < |slots| && drivers[u] && PeekIndex(slots[u]).Some?
  }

  /** Every driver names a lane slot. */
  ghost predicate DriversInRange<T>(slots: seq<Option<Lane<T>>>, drivers: seq<bool>) {
    forall u :: 0 <= u < |drivers| && drivers[u] ==> u < |slots|
  }

  /** The running minimum after the first `k` drivers, as the loop of
      `determine_next` builds it. */
  function MinOffered<T>(slots: seq<Option<Lane<T>>>, drivers: seq<bool>, k: nat): Option<int>
    requires DriversInRange(slots, drivers) && k <= |drivers|
  {
    if k == 0 then None
    else Pick(MinOffered(slots, drivers, k - 1), Offer(slots, drivers, k - 1))
  }

  /** What lane `u` offers to the minimum: its peeked index if it is a driver. */
  function Offer<T>(slots: seq<Option<Lane<T>>>, drivers: seq<bool>, u: nat): (r: Option<int>)
    requires DriversInRange(slots, drivers) && u < |drivers|
    ensures r.Some? <==> Offers(slots, drivers, u)
    ensures r.Some? ==> r == PeekIndex(slots[u])
  {
    if drivers[u] then PeekIndex(slots[u]) else None
  }

  /** Some driver among the first `k` offers index `i`. */
  ghost predicate OfferedBelow<T>(slots: seq<Option<Lane<T>>>, drivers: seq<bool>, k: int, i: int) {
    exists u :: 0 <= u < k && Offers(slots, drivers, u) && PeekIndex(slots[u]) == Some(i)
  }

  /** The running minimum is the least index offered by a driver among the first `k`,
      and `None` exactly when none of them offers one. */
  lemma {:induction false} MinOfferedIsLeast<T>(slots: seq<Option<Lane<T>>>, drivers: seq<bool>, k: nat)
    requires DriversInRange(slots, drivers) && k <= |drivers|
    ensures var r := MinOffered(slots, drivers, k);
      && (r.None? <==> forall u :: 0 <= u < k ==> !Offers(slots, drivers, u))
      && (r.Some? ==> OfferedBelow(slots, drivers, k, r.value))
      && (r.Some? ==> forall u :: 0 <= u < k && Offers(slots, drivers, u) ==> r.value <= PeekIndex(slots[u]).value)
  {
    if k > 0 {
      MinOfferedIsLeast(slots, drivers, k - 1);
      var before := MinOffered(slots, drivers, k - 1);
      var offer := Offer(slots, drivers, k - 1);
      if before.Some? {
        var w :| 0 <= w < k - 1 && Offers(slots, drivers, w) && PeekIndex(slots[w]) == before;
      }
    }
  }

  /** Only the driver lanes decide the chosen index: slots that agree at every driver
      give the same minimum, whatever the other lanes hold. */
  lemma {:induction false} NonDriversIgnored<T>(a: seq<Option<Lane<T>>>, b: seq<Option<Lane<T>>>,
                                               drivers: seq<bool>, k: nat)
    requires DriversInRange(a, drivers) && DriversInRange(b, drivers) && k <= |drivers|
    requires forall u :: 0 <= u < |drivers| && drivers[u] ==> a[u] == b[u]
    ensures MinOffered(a, drivers, k) == MinOffered(b, drivers, k)
  {
    if k > 0 {
      NonDriversIgnored(a, b, drivers, k - 1);
      assert Offer(a, drivers, k - 1) == Offer(b, drivers, k - 1);
    }
  }

  /** What seeking one slot to `i` yields: a present lane is sought once, an absent
      one yields `None` and stays absent. This is the definition `ConsumeNext` is
      stated through; what a seek does is proved about `Lane.Seek` and in
      `DriverConsumed`. */
  function SeekSlot<T>(slot: Option<Lane<T>>, i: int): (r: (Option<Indexed<T>>, Option<Lane<T>>))
    ensures slot.None? ==> r == (None, None)
    ensures slot.Some? ==> r == (slot.value.Seek(i).0, Some(slot.value.Seek(i).1))
  {
    match slot
    case None => (None, None)
    case Some(l) => (l.Seek(i).0, Some(l.Seek(i).1))
  }

  class MultiIterator<T> {
    var lanes: seq<Option<Lane<T>>>
    const drivers: seq<bool>

    /** Each driver flag names a lane; an out-of-range driver would panic in the
        source's indexing. */
    ghost predicate Valid()
      reads this
    {
      DriversInRange(lanes, drivers)
    }

    constructor (lanes: seq<Option<Lane<T>>>, drivers: seq<bool>)
      ensures this.lanes == lanes && this.drivers == drivers
    {
      this.lanes := lanes;
      this.drivers := drivers;
    }

    /** The least index offered by a driver lane, peeking only. */
    method DetermineNext() returns (r: Option<int>)
      requires Valid()
      ensures r == MinOffered(lanes, drivers, |drivers|)
      ensures r.None? <==> forall u :: 0 <= u < |drivers| ==> !Offers(lanes, drivers, u)
      ensures r.Some? ==> OfferedBelow(lanes, drivers, |drivers|, r.value)
      ensures r.Some? ==> forall u :: 0 <= u < |drivers| && Offers(lanes, drivers, u) ==> r.value <= PeekIndex(lanes[u]).value
    {
      MinOfferedIsLeast(lanes, drivers, |drivers|);
      r := None;
      for u := 0 to |drivers|
        invariant r == MinOffered(lanes, drivers, u)
      {
        if drivers[u] {
          var next := PeekIndex(lanes[u]);
          r := Pick(r, next);
        } else {
          assert Offer(lanes, drivers, u) == None;
        }
      }
    }

    /** Seek every present lane to `i`, collecting one item per lane in lane order. */
    method ConsumeNext(i: int) returns (r: Option<(int, seq<Option<Indexed<T>>>)>)
      modifies this
      ensures r.Some? && r.value.0 == i
      ensures |r.value.1| == |lanes| == |old(lanes)|
      ensures forall u :: 0 <= u < |old(lanes)| ==> (r.value.1[u], lanes[u]) == SeekSlot(old(lanes)[u], i)
    {
      var items: seq<Option<Indexed<T>>> := [];
      var sought: seq<Option<Lane<T>>> := [];
      for u := 0 to |lanes|
        invariant lanes == old(lanes)
        invariant |items| == |sought| == u
        invariant forall v :: 0 <= v < u ==> (items[v], sought[v]) == SeekSlot(lanes[v], i)
      {
        var s := SeekSlot(lanes[u], i);
        items := items + [s.0];
        sought := sought + [s.1];
      }
      lanes := sought;
      r := Some((i, items));
    }

    /** The next synchronised step: `None` when no driver lane offers an index, else
        the least offered index together with every lane's item at it. */
    method Next() returns (r: Option<(int, seq<Option<Indexed<T>>>)>)
      requires Valid()
      modifies this
      ensures Valid()
      ensures r.None? <==> forall u :: 0 <= u < |drivers| ==> !Offers(old(lanes), drivers, u)
      ensures r.None? ==> lanes == old(lanes)
      ensures r.Some? ==>
                && Some(r.value.0) == MinOffered(old(lanes), drivers, |drivers|)
                && |r.value.1| == |lanes| == |old(lanes)|
                && forall u :: 0 <= u < |old(lanes)| ==> (r.value.1[u], lanes[u]) == SeekSlot(old(lanes)[u], r.value.0)
    {
      var i := DetermineNext();
      match i
      case Some(i) =>
        r := ConsumeNext(i);
      case None =>
        r := None;
    }
  }

  /** A driver lane offering the chosen index has its peeked entry consumed by the
      seek, provided its entries ascend as the contract demands. */
  lemma DriverConsumed<T>(slots: seq<Option<Lane<T>>>, drivers: seq<bool>, u: nat)
    requires DriversInRange(slots, drivers) && Offers(slots, drivers, u)
    requires Ascending(slots[u].value.entries)
    requires MinOffered(slots, drivers, |drivers|) == PeekIndex(slots[u])
    ensures SeekSlot(slots[u], PeekIndex(slots[u]).value).0 == slots[u].value.Peek()
    ensures SeekSlot(slots[u], PeekIndex(slots[u]).value).1 == Some(slots[u].value.Next().1)
  {
    SeekAtPeek(slots[u].value, PeekIndex(slots[u]).value);
  }
}
