/** The rating service: insert-once ratings, the ranking of 2025's events and
    the cost-per-person report. */
module RatingService {

  import opened Wrappers
  import opened Seqs
  import opened Sorting
  import opened Records
  import opened Database
  import Assignments

  const AlreadyRatedMessage := "Du hast dieses Event bereits bewertet und kannst deine Bewertung nicht mehr ändern"

  function ByUserAndEvent(userId: string, eventId: string): Rating -> bool {
    (r: Rating) => r.userId == userId && r.eventId == eventId
  }

  /** The ratings a user gave one event. */
  function RatingsBy(ratings: seq<Rating>, userId: string, eventId: string): seq<Rating> {
    Filter(ratings, ByUserAndEvent(userId, eventId))
  }

  /** The lookup in `saveRating`: does the user already have a rating for the event? */
  function HasRated(ratings: seq<Rating>, userId: string, eventId: string): (r: bool)
    ensures r <==> exists x :: x in ratings && x.userId == userId && x.eventId == eventId
  {
    var found := RatingsBy(ratings, userId, eventId);
    assert found != [] ==> found[0] in found;
    found != []
  }

  /** Under the unique constraint a user has at most one rating per event. */
  lemma {:induction false} AtMostOneRatingPerUserAndEvent(ratings: seq<Rating>, userId: string, eventId: string)
    requires OneRatingPerUserAndEvent(ratings)
    ensures |RatingsBy(ratings, userId, eventId)| <= 1
    decreases |ratings|
  {
    if ratings != [] {
      var rest, last := ratings[..|ratings| - 1], ratings[|ratings| - 1];
      assert OneRatingPerUserAndEvent(rest);
      AtMostOneRatingPerUserAndEvent(rest, userId, eventId);
      if last.userId == userId && last.eventId == eventId {
        FilterNone(rest, ByUserAndEvent(userId, eventId));
      }
    }
  }

  /** The row `saveRating` inserts: the three category scores, no legacy score. */
  function NewRating(id: string, userId: string, data: CreateRatingData): Rating {
    Rating(id, userId, data.eventId, None, Some(data.foodScore), Some(data.ambienceScore), Some(data.pricePerformanceScore))
  }

  lemma RatingIdsConcat(a: seq<Rating>, b: seq<Rating>)
    ensures RatingIds(a + b) == RatingIds(a) + RatingIds(b)
  {
  }

  /** `saveRating`: refuses a second rating of the same event by the same
      user and leaves the table alone; otherwise inserts exactly one row. */
  method SaveRating(db: Db, userId: string, data: CreateRatingData) returns (result: Outcome<Rating>)
    requires db.Valid()
    modifies db
    ensures db.Valid()
    ensures db.users == old(db.users) && db.events == old(db.events) && db.assignments == old(db.assignments)
    ensures HasRated(old(db.ratings), userId, data.eventId) ==>
      result == Thrown(AlreadyRatedMessage) && db.ratings == old(db.ratings)
    ensures !HasRated(old(db.ratings), userId, data.eventId) ==>
      && result == Done(NewRating(FreshIds(RatingIds(old(db.ratings)), 1)[0], userId, data))
      && db.ratings == old(db.ratings) + [result.value]
    ensures |RatingsBy(db.ratings, userId, data.eventId)| == 1
  {
    if HasRated(db.ratings, userId, data.eventId) {
      RatedOnce(db.ratings, userId, data.eventId);
      return Thrown(AlreadyRatedMessage);
    }
    var ratingId := FreshIds(RatingIds(db.ratings), 1)[0];
    var newRating := NewRating(ratingId, userId, data);
    RatingIdsConcat(db.ratings, [newRating]);
    DistinctConcat(RatingIds(db.ratings), [ratingId]);
    AppendKeepsOneRating(db.ratings, newRating);
    db.ratings := db.ratings + [newRating];
    RatedOnce(db.ratings, userId, data.eventId);
    result := Done(newRating);
  }

  /** Under the unique constraint a user who rated an event has exactly one
      rating of it. */
  lemma RatedOnce(ratings: seq<Rating>, userId: string, eventId: string)
    requires OneRatingPerUserAndEvent(ratings)
    requires HasRated(ratings, userId, eventId)
    ensures |RatingsBy(ratings, userId, eventId)| == 1
  {
    AtMostOneRatingPerUserAndEvent(ratings, userId, eventId);
    var x :| x in ratings && x.userId == userId && x.eventId == eventId;
    assert x in RatingsBy(ratings, userId, eventId);
  }

  /** A rating of a pair that has none yet keeps the unique constraint. */
  lemma AppendKeepsOneRating(ratings: seq<Rating>, r: Rating)
    requires OneRatingPerUserAndEvent(ratings)
    requires !HasRated(ratings, r.userId, r.eventId)
    ensures OneRatingPerUserAndEvent(ratings + [r])
  {
    var after := ratings + [r];
    forall i, j | 0 <= i < j < |after|
      ensures (after[i].userId, after[i].eventId) != (after[j].userId, after[j].eventId)
    {
      if j == |ratings| {
        assert after[i] in ratings;
      }
    }
  }

  // ---- ORDER BY helpers ----

  /** `a` may precede `b` under `ORDER BY key DESC` with PostgreSQL's default
      NULLS FIRST. */
  predicate DescNullsFirst(a: Option<real>, b: Option<real>) {
    a.None? || (b.Some? && a.value >= b.value)
  }

  // ---- get2025Ratings ----

  datatype Event2025Ranking = Event2025Ranking(id: string, restaurant: string, averageLegacyRating: Option<real>, totalRatings: nat)

  function RatingOfEvent(eventId: string): Rating -> bool {
    (r: Rating) => r.eventId == eventId
  }

  /** The ratings of one event (the left join on `rating.eventId`). */
  function RatingsOfEvent(ratings: seq<Rating>, eventId: string): (r: seq<Rating>)
    ensures forall x :: x in r <==> x in ratings && x.eventId == eventId
  {
    Filter(ratings, RatingOfEvent(eventId))
  }

  /** One grouped row: SQL `avg` over the legacy scores, missing when none is
      set, and the count of the event's ratings, 0 when it has none. */
  function RankingRow(ratings: seq<Rating>, e: Event): (row: Event2025Ranking)
    ensures row.id == e.id && row.restaurant == e.restaurant
    ensures row.totalRatings == |RatingsOfEvent(ratings, e.id)|
    ensures row.averageLegacyRating.None? <==> Scores(RatingsOfEvent(ratings, e.id), LegacyScore) == []
    ensures row.averageLegacyRating.Some? ==>
      row.averageLegacyRating.value * |Scores(RatingsOfEvent(ratings, e.id), LegacyScore)| as real
        == Sum(Scores(RatingsOfEvent(ratings, e.id), LegacyScore))
  {
    var own := RatingsOfEvent(ratings, e.id);
    var average := Mean(Scores(own, LegacyScore));
    Event2025Ranking(e.id, e.restaurant, average, |own|)
  }

  function RankingRowOf(ratings: seq<Rating>): Event -> Event2025Ranking {
    (e: Event) => RankingRow(ratings, e)
  }

  /** The `where` of `get2025Ratings`: dated within `[start, end]`. */
  function DatedWithin(start: Timestamp, end: Timestamp): Event -> bool {
    (e: Event) => start <= e.date <= end
  }

  /** The ranking order: average descending, then rating count descending. */
  function RankingOrder(): (Event2025Ranking, Event2025Ranking) -> bool {
    (a: Event2025Ranking, b: Event2025Ranking) =>
      (DescNullsFirst(a.averageLegacyRating, b.averageLegacyRating)
        && !DescNullsFirst(b.averageLegacyRating, a.averageLegacyRating))
      || (a.averageLegacyRating == b.averageLegacyRating && a.totalRatings >= b.totalRatings)
  }

  lemma RankingOrderIsTotalPreorder()
    ensures TotalPreorder(RankingOrder())
  {
  }

  /** `get2025Ratings`: one row per event dated within the year's bounds
      (`startOf2025` and `endOf2025`, given as timestamps), ordered. */
  function Get2025Ratings(events: seq<Event>, ratings: seq<Rating>, startOf2025: Timestamp, endOf2025: Timestamp)
    : (rows: seq<Event2025Ranking>)
    ensures SortedBy(rows, RankingOrder())
    ensures |rows| == |Filter(events, DatedWithin(startOf2025, endOf2025))|
  {
    var unordered := Map(Filter(events, DatedWithin(startOf2025, endOf2025)), RankingRowOf(ratings));
    RankingOrderIsTotalPreorder();
    SortBySorted(unordered, RankingOrder());
    SortBy(unordered, RankingOrder())
  }

  /** The ranking holds exactly the grouped rows of the year's events. */
  lemma Get2025RatingsRows(events: seq<Event>, ratings: seq<Rating>, startOf2025: Timestamp, endOf2025: Timestamp)
    ensures forall row :: row in Get2025Ratings(events, ratings, startOf2025, endOf2025) ==>
      exists e :: e in events && startOf2025 <= e.date <= endOf2025 && row == RankingRow(ratings, e)
    ensures forall e :: e in events && startOf2025 <= e.date <= endOf2025 ==>
      RankingRow(ratings, e) in Get2025Ratings(events, ratings, startOf2025, endOf2025)
  {
    MapFilterMembers(events, DatedWithin(startOf2025, endOf2025), RankingRowOf(ratings),
      Get2025Ratings(events, ratings, startOf2025, endOf2025));
  }

  /** Better-rated events rank first; equal averages go by rating count. */
  lemma Get2025RatingsOrder(events: seq<Event>, ratings: seq<Rating>, startOf2025: Timestamp, endOf2025: Timestamp)
    ensures var rows := Get2025Ratings(events, ratings, startOf2025, endOf2025);
      forall i, j :: 0 <= i < j < |rows| ==>
        && DescNullsFirst(rows[i].averageLegacyRating, rows[j].averageLegacyRating)
        && (rows[i].averageLegacyRating == rows[j].averageLegacyRating ==> rows[i].totalRatings >= rows[j].totalRatings)
  {
    var rows := Get2025Ratings(events, ratings, startOf2025, endOf2025);
    forall i, j | 0 <= i < j < |rows|
      ensures DescNullsFirst(rows[i].averageLegacyRating, rows[j].averageLegacyRating)
      ensures rows[i].averageLegacyRating == rows[j].averageLegacyRating ==> rows[i].totalRatings >= rows[j].totalRatings
    {
      assert RankingOrder()(rows[i], rows[j]);
    }
  }

  // ---- getAllEventCosts ----

  datatype EventCost = EventCost(id: string, restaurant: string, totalCost: Option<real>, attendeeCount: nat, costPerPerson: Option<real>)

  /** One grouped row: the event's assignment count (0 without any, by the
      left join), and the cost per person only when the total cost is set
      and non-zero and somebody attended. */
  function CostRow(assignments: seq<Assignment>, e: Event): (row: EventCost)
    ensures row.id == e.id && row.restaurant == e.restaurant && row.totalCost == e.totalCost
    ensures row.attendeeCount == |Assignments.RowsOf(assignments, e.id)|
    ensures row.costPerPerson.Some? <==> e.totalCost.Some? && e.totalCost.value != 0.0 && row.attendeeCount > 0
    ensures row.costPerPerson.Some? ==> row.costPerPerson.value * row.attendeeCount as real == e.totalCost.value
  {
    var attendeeCount := |Assignments.RowsOf(assignments, e.id)|;
    var costPerPerson :=
      if e.totalCost.Some? && e.totalCost.value != 0.0 && attendeeCount > 0
      then Some(e.totalCost.value / attendeeCount as real) else None;
    EventCost(e.id, e.restaurant, e.totalCost, attendeeCount, costPerPerson)
  }

  function CostRowOf(assignments: seq<Assignment>): Event -> EventCost {
    (e: Event) => CostRow(assignments, e)
  }

  /** The second sort key, `totalCost / NULLIF(count, 0)`. */
  function CostSortKey(row: EventCost): Option<real> {
    if row.totalCost.Some? && row.attendeeCount > 0 then Some(row.totalCost.value / row.attendeeCount as real) else None
  }

  /** Rows with a total cost first; among them the sort key descending. */
  function CostOrder(): (EventCost, EventCost) -> bool {
    (a: EventCost, b: EventCost) =>
      (a.totalCost.Some? && b.totalCost.None?)
      || (a.totalCost.None? && b.totalCost.None?)
      || (a.totalCost.Some? && b.totalCost.Some? && DescNullsFirst(CostSortKey(a), CostSortKey(b)))
  }

  lemma CostOrderIsTotalPreorder()
    ensures TotalPreorder(CostOrder())
  {
    forall a: EventCost, b: EventCost ensures CostOrder()(a, b) || CostOrder()(b, a) {
      var ka, kb := CostSortKey(a), CostSortKey(b);
      assert DescNullsFirst(ka, kb) || DescNullsFirst(kb, ka);
    }
  }

  /** The `where` of `getAllEventCosts`: dated on or before `t`. */
  function DatedUpTo(t: Timestamp): Event -> bool {
    (e: Event) => e.date <= t
  }

  /** `getAllEventCosts`: one row per event dated on or before the start of
      today (given as a timestamp), ordered. */
  function GetAllEventCosts(events: seq<Event>, assignments: seq<Assignment>, startOfToday: Timestamp)
    : (rows: seq<EventCost>)
    ensures SortedBy(rows, CostOrder())
    ensures |rows| == |Filter(events, DatedUpTo(startOfToday))|
  {
    var unordered := Map(Filter(events, DatedUpTo(startOfToday)), CostRowOf(assignments));
    CostOrderIsTotalPreorder();
    SortBySorted(unordered, CostOrder());
    SortBy(unordered, CostOrder())
  }

  /** The report holds exactly the grouped rows of the past events. */
  lemma GetAllEventCostsRows(events: seq<Event>, assignments: seq<Assignment>, startOfToday: Timestamp)
    ensures forall row :: row in GetAllEventCosts(events, assignments, startOfToday) ==>
      exists e :: e in events && e.date <= startOfToday && row == CostRow(assignments, e)
    ensures forall e :: e in events && e.date <= startOfToday ==>
      CostRow(assignments, e) in GetAllEventCosts(events, assignments, startOfToday)
  {
    MapFilterMembers(events, DatedUpTo(startOfToday), CostRowOf(assignments),
      GetAllEventCosts(events, assignments, startOfToday));
  }

  /** Where a cost per person is shown it is the sort key. */
  lemma CostPerPersonIsSortKey(assignments: seq<Assignment>, e: Event)
    ensures CostRow(assignments, e).costPerPerson.Some? ==>
      CostSortKey(CostRow(assignments, e)) == CostRow(assignments, e).costPerPerson
  {
  }

  /** Events without a total cost come last; a higher cost per person comes
      before a lower one. */
  lemma GetAllEventCostsOrder(events: seq<Event>, assignments: seq<Assignment>, startOfToday: Timestamp)
    ensures var rows := GetAllEventCosts(events, assignments, startOfToday);
      forall i, j :: 0 <= i < j < |rows| && rows[j].totalCost.Some? ==> rows[i].totalCost.Some?
    ensures var rows := GetAllEventCosts(events, assignments, startOfToday);
      forall i, j :: 0 <= i < j < |rows| && rows[i].costPerPerson.Some? && rows[j].costPerPerson.Some? ==>
        rows[i].costPerPerson.value >= rows[j].costPerPerson.value
  {
    var rows := GetAllEventCosts(events, assignments, startOfToday);
    GetAllEventCostsRows(events, assignments, startOfToday);
    forall i, j | 0 <= i < j < |rows|
      ensures rows[j].totalCost.Some? ==> rows[i].totalCost.Some?
      ensures rows[i].costPerPerson.Some? && rows[j].costPerPerson.Some? ==>
        rows[i].costPerPerson.value >= rows[j].costPerPerson.value
    {
      assert CostOrder()(rows[i], rows[j]);
      assert rows[i] in rows && rows[j] in rows;
      var ei :| ei in events && ei.date <= startOfToday && rows[i] == CostRow(assignments, ei);
      var ej :| ej in events && ej.date <= startOfToday && rows[j] == CostRow(assignments, ej);
      CostRowsInOrder(assignments, ei, ej);
    }
  }

  /** Of two grouped rows in cost order, the first has a total cost if the
      second has, and the higher cost per person where both have one. */
  lemma CostRowsInOrder(assignments: seq<Assignment>, ei: Event, ej: Event)
    requires CostOrder()(CostRow(assignments, ei), CostRow(assignments, ej))
    ensures CostRow(assignments, ej).totalCost.Some? ==> CostRow(assignments, ei).totalCost.Some?
    ensures CostRow(assignments, ei).costPerPerson.Some? && CostRow(assignments, ej).costPerPerson.Some? ==>
      CostRow(assignments, ei).costPerPerson.value >= CostRow(assignments, ej).costPerPerson.value
  {
    CostPerPersonIsSortKey(assignments, ei);
    CostPerPersonIsSortKey(assignments, ej);
  }
}
