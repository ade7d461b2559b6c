/** The ranking page: the event list sorted in place, best average first,
    more ratings first among equal averages. */
module RankingPage {

  import opened Wrappers
  import opened Sorting

  /** The fields of the event shape the page reads; both are optional. */
  datatype RankedEvent = RankedEvent(id: string, restaurant: string, averageRating: Option<real>, totalRatings: Option<nat>)

  function Average(e: RankedEvent): real { e.averageRating.GetOr(0.0) }
  function Total(e: RankedEvent): int { e.totalRatings.GetOr(0) }

  /** The comparator: negative when `a` goes first. */
  function Compare(a: RankedEvent, b: RankedEvent): real {
    if Average(b) != Average(a) then Average(b) - Average(a)
    else (Total(b) - Total(a)) as real
  }

  /** `a` may stand before `b` in the sorted list. */
  predicate RanksNoLater(a: RankedEvent, b: RankedEvent) {
    Compare(a, b) <= 0.0
  }

  /** The comparator is the descending order on the pair (average, total),
      each missing value read as 0. */
  lemma RanksNoLaterMeans(a: RankedEvent, b: RankedEvent)
    ensures RanksNoLater(a, b) <==>
      Average(a) > Average(b) || (Average(a) == Average(b) && Total(a) >= Total(b))
  {
  }

  /** A higher average goes first; at equal averages more ratings go first. */
  lemma HigherRanksFirst(a: RankedEvent, b: RankedEvent)
    ensures Average(a) > Average(b) ==> RanksNoLater(a, b) && !RanksNoLater(b, a)
    ensures Average(a) == Average(b) && Total(a) > Total(b) ==> RanksNoLater(a, b) && !RanksNoLater(b, a)
    ensures a.averageRating.None? && b.averageRating == Some(0.0) ==> Compare(a, b) == (Total(b) - Total(a)) as real
  {
  }

  lemma RanksNoLaterTransitive(a: RankedEvent, b: RankedEvent, c: RankedEvent)
    requires RanksNoLater(a, b) && RanksNoLater(b, c)
    ensures RanksNoLater(a, c)
  {
    RanksNoLaterMeans(a, b);
    RanksNoLaterMeans(b, c);
    RanksNoLaterMeans(a, c);
  }

  lemma RanksNoLaterTotal(a: RankedEvent, b: RankedEvent)
    ensures RanksNoLater(a, b) || RanksNoLater(b, a)
  {
  }

  /** The comparator is consistent, so sorting under it is well defined. */
  lemma RankingIsTotalPreorder()
    ensures TotalPreorder((a: RankedEvent, b: RankedEvent) => RanksNoLater(a, b))
  {
    forall a: RankedEvent, b: RankedEvent, c: RankedEvent | RanksNoLater(a, b) && RanksNoLater(b, c)
      ensures RanksNoLater(a, c)
    {
      RanksNoLaterTransitive(a, b, c);
    }
  }

  ghost predicate Ranked(s: seq<RankedEvent>) {
    forall i, j :: 0 <= i < j < |s| ==> RanksNoLater(s[i], s[j])
  }

  /** `events.sort(compare)`: reorders the array itself (the page's
      `sortedEvents` is the same array) into ranking order, keeping the
      same events. Insertion by adjacent swaps. */
  method SortRanking(events: array<RankedEvent>) returns (sortedEvents: array<RankedEvent>)
    modifies events
    ensures sortedEvents == events
    ensures Ranked(events[..])
    ensures multiset(events[..]) == multiset(old(events[..]))
  {
    var n := events.Length;
    var i := 0;
    while i < n
      invariant 0 <= i <= n
      invariant forall p, q :: 0 <= p < q < i ==> RanksNoLater(events[p], events[q])
      invariant multiset(events[..]) == multiset(old(events[..]))
    {
      SinkInto(events, i);
      i := i + 1;
    }
    sortedEvents := events;
  }

  /** One pass of the sort: moves `events[i]` down past every earlier event
      that ranks after it, so the first `i + 1` events are ranked. */
  method SinkInto(events: array<RankedEvent>, i: nat)
    requires i < events.Length
    requires forall p, q :: 0 <= p < q < i ==> RanksNoLater(events[p], events[q])
    modifies events
    ensures forall p, q :: 0 <= p < q <= i ==> RanksNoLater(events[p], events[q])
    ensures multiset(events[..]) == multiset(old(events[..]))
  {
    var j := i;
    while 0 < j && !RanksNoLater(events[j - 1], events[j])
      invariant 0 <= j <= i
      invariant forall p, q :: 0 <= p < q <= i && p != j && q != j ==> RanksNoLater(events[p], events[q])
      invariant forall q :: j < q <= i ==> RanksNoLater(events[j], events[q])
      invariant multiset(events[..]) == multiset(old(events[..]))
    {
      RanksNoLaterTotal(events[j - 1], events[j]);
      events[j - 1], events[j] := events[j], events[j - 1];
      j := j - 1;
    }
    forall p | 0 <= p < j ensures RanksNoLater(events[p], events[j]) {
      if p < j - 1 {
        RanksNoLaterTransitive(events[p], events[j - 1], events[j]);
      }
    }
  }
}
