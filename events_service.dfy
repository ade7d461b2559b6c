/** The event service: the event list with each event's ratings, assigned
    users and averages, and the insert and patch of an event row. */
module EventService {

  import opened Wrappers
  import opened Seqs
  import opened Sorting
  import opened Text
  import opened Records
  import opened Database
  import Assignments
  import RatingService

  /** `calculateAverage`: the mean of the field's non-null values, missing
      when every rating leaves the field null. */
  function CalculateAverage(ratings: seq<Rating>, field: ScoreField): (avg: Option<real>)
    ensures avg.None? <==> forall r :: r in ratings ==> ScoreOf(r, field).None?
    ensures avg.Some? ==> avg.value * |Scores(ratings, field)| as real == Sum(Scores(ratings, field))
  {
    ScoresMembers(ratings, field);
    Mean(Scores(ratings, field))
  }

  /** An average never leaves the range of the values it averages. */
  lemma CalculateAverageBounds(ratings: seq<Rating>, field: ScoreField, lo: real, hi: real)
    requires forall r :: r in ratings && ScoreOf(r, field).Some? ==> lo <= ScoreOf(r, field).value <= hi
    ensures CalculateAverage(ratings, field).Some? ==> lo <= CalculateAverage(ratings, field).value <= hi
  {
    var xs := Scores(ratings, field);
    if xs != [] {
      ScoresMembers(ratings, field);
      forall k | 0 <= k < |xs| ensures lo <= xs[k] <= hi {
        assert xs[k] in xs;
      }
      MeanBounds(xs, lo, hi);
    }
  }

  /** A rating that leaves the field null does not move the average. */
  lemma NullScoreDoesNotCount(ratings: seq<Rating>, r: Rating, field: ScoreField)
    requires ScoreOf(r, field).None?
    ensures CalculateAverage(ratings + [r], field) == CalculateAverage(ratings, field)
  {
    assert (ratings + [r])[..|ratings|] == ratings;
    assert Scores(ratings + [r], field) == Scores(ratings, field);
  }

  /** Every assignment's user is a registered user (the foreign key). */
  ghost predicate AssignmentsReferenceUsers(users: seq<User>, rows: seq<Assignment>) {
    forall a :: a in rows ==> exists u :: u in users && u.id == a.userId
  }

  function HasId(id: string): User -> bool {
    (u: User) => u.id == id
  }

  /** The user a row's foreign key points to. */
  function UserById(users: seq<User>, id: string): (u: User)
    requires exists u :: u in users && u.id == id
    ensures u in users && u.id == id
  {
    var found := Filter(users, HasId(id));
    var v :| v in users && v.id == id;
    assert v in found;
    found[0]
  }

  /** The assignment's user, one per row (`assignments.map(a => a.user)`). */
  function AssignedUsers(users: seq<User>, rows: seq<Assignment>): (r: seq<User>)
    requires AssignmentsReferenceUsers(users, rows)
    ensures |r| == |rows|
    ensures forall k :: 0 <= k < |r| ==> r[k] in users && r[k].id == rows[k].userId
    decreases |rows|
  {
    if rows == [] then []
    else
      assert rows[0] in rows;
      [UserById(users, rows[0].userId)] + AssignedUsers(users, rows[1..])
  }

  /** The order of `assignedUsers`: by name, a missing name sorting as ''. */
  function NameOrder(): (User, User) -> bool {
    (a: User, b: User) => LexLeq(a.name.GetOr(""), b.name.GetOr(""))
  }

  lemma NameOrderIsTotalPreorder()
    ensures TotalPreorder(NameOrder())
  {
    forall a: User, b: User ensures NameOrder()(a, b) || NameOrder()(b, a) {
      LexLeqTotal(a.name.GetOr(""), b.name.GetOr(""));
    }
    forall a: User, b: User, c: User | NameOrder()(a, b) && NameOrder()(b, c) ensures NameOrder()(a, c) {
      LexLeqTransitive(a.name.GetOr(""), b.name.GetOr(""), c.name.GetOr(""));
    }
  }

  datatype EventWithDetails = EventWithDetails(
    event: Event,
    ratings: seq<Rating>,
    assignments: seq<Assignment>,
    assignedUsers: seq<User>,
    averageLegacyRating: Option<real>,
    averageFoodRating: Option<real>,
    averageAmbienceRating: Option<real>,
    averagePricePerformanceRating: Option<real>,
    totalRatings: nat)

  /** `assignedUsers`: the user of each of the rows, sorted by name. */
  function SortedAssignedUsers(users: seq<User>, rows: seq<Assignment>): (r: seq<User>)
    requires AssignmentsReferenceUsers(users, rows)
    ensures |r| == |rows|
    ensures SortedBy(r, NameOrder())
  {
    NameOrderIsTotalPreorder();
    SortBySorted(AssignedUsers(users, rows), NameOrder());
    SortBy(AssignedUsers(users, rows), NameOrder())
  }

  /** Each assigned user is the user of one of the rows. */
  lemma SortedAssignedUsersAreAssigned(users: seq<User>, rows: seq<Assignment>)
    requires AssignmentsReferenceUsers(users, rows)
    ensures forall u :: u in SortedAssignedUsers(users, rows) ==> u in users && exists a :: a in rows && a.userId == u.id
  {
    var unsorted := AssignedUsers(users, rows);
    SortByMembers(unsorted, NameOrder());
    forall u | u in SortedAssignedUsers(users, rows) ensures u in users && exists a :: a in rows && a.userId == u.id {
      var k :| 0 <= k < |unsorted| && unsorted[k] == u;
      assert rows[k] in rows;
    }
  }

  /** Each row's user is among the assigned users. */
  lemma SortedAssignedUsersCoverRows(users: seq<User>, rows: seq<Assignment>)
    requires AssignmentsReferenceUsers(users, rows)
    ensures forall a :: a in rows ==> exists u :: u in SortedAssignedUsers(users, rows) && u.id == a.userId
  {
    var unsorted := AssignedUsers(users, rows);
    SortByMembers(unsorted, NameOrder());
    forall a | a in rows ensures exists u :: u in SortedAssignedUsers(users, rows) && u.id == a.userId {
      var k :| 0 <= k < |rows| && rows[k] == a;
      assert unsorted[k] in SortedAssignedUsers(users, rows);
    }
  }

  /** One element of `getEvents`: the event with its own ratings and
      assignments, its assigned users sorted by name, the four averages of its
      ratings, and the number of its ratings, null scores or not. */
  function EventDetails(users: seq<User>, ratings: seq<Rating>, assignments: seq<Assignment>, e: Event)
    : (d: EventWithDetails)
    requires AssignmentsReferenceUsers(users, assignments)
    ensures d.event == e
  {
    var own := RatingService.RatingsOfEvent(ratings, e.id);
    var rows := Assignments.RowsOf(assignments, e.id);
    EventWithDetails(
      e, own, rows, SortedAssignedUsers(users, rows),
      CalculateAverage(own, LegacyScore),
      CalculateAverage(own, FoodScore),
      CalculateAverage(own, AmbienceScore),
      CalculateAverage(own, PricePerformanceScore),
      |own|)
  }

  /** What an event's details hold: exactly its ratings and its assignment
      rows, its assigned users sorted by name and covering the rows, the
      number of its ratings and the four averages over its ratings. */
  lemma EventDetailsContents(users: seq<User>, ratings: seq<Rating>, assignments: seq<Assignment>, e: Event)
    requires AssignmentsReferenceUsers(users, assignments)
    ensures var d := EventDetails(users, ratings, assignments, e);
      && (forall r :: r in d.ratings <==> r in ratings && r.eventId == e.id)
      && (forall a :: a in d.assignments <==> a in assignments && a.eventId == e.id)
      && d.totalRatings == |d.ratings|
      && |d.assignedUsers| == |d.assignments|
      && SortedBy(d.assignedUsers, NameOrder())
    ensures var d := EventDetails(users, ratings, assignments, e);
      && (forall u :: u in d.assignedUsers ==>
            u in users && Assignments.IsUserAssignedToEvent(assignments, u.id, e.id))
      && (forall a :: a in d.assignments ==> exists u :: u in d.assignedUsers && u.id == a.userId)
    ensures var d := EventDetails(users, ratings, assignments, e);
      && d.averageLegacyRating == CalculateAverage(d.ratings, LegacyScore)
      && d.averageFoodRating == CalculateAverage(d.ratings, FoodScore)
      && d.averageAmbienceRating == CalculateAverage(d.ratings, AmbienceScore)
      && d.averagePricePerformanceRating == CalculateAverage(d.ratings, PricePerformanceScore)
  {
    var rows := Assignments.RowsOf(assignments, e.id);
    SortedAssignedUsersAreAssigned(users, rows);
    SortedAssignedUsersCoverRows(users, rows);
  }

  /** The details of each event, in the given order. */
  function AllDetails(users: seq<User>, ratings: seq<Rating>, assignments: seq<Assignment>, events: seq<Event>)
    : (r: seq<EventWithDetails>)
    requires AssignmentsReferenceUsers(users, assignments)
    ensures |r| == |events|
    ensures forall k :: 0 <= k < |r| ==> r[k] == EventDetails(users, ratings, assignments, events[k])
    ensures forall k :: 0 <= k < |r| ==> r[k].event == events[k]
    decreases |events|
  {
    if events == [] then []
    else [EventDetails(users, ratings, assignments, events[0])] + AllDetails(users, ratings, assignments, events[1..])
  }

  /** `orderBy: [desc(event.date)]`. */
  function DateDesc(): (Event, Event) -> bool {
    (a: Event, b: Event) => a.date >= b.date
  }

  /** `getEvents`: every event, with its details, latest first. */
  function GetEvents(users: seq<User>, events: seq<Event>, ratings: seq<Rating>, assignments: seq<Assignment>)
    : (r: seq<EventWithDetails>)
    requires AssignmentsReferenceUsers(users, assignments)
    ensures |r| == |events|
    ensures forall k :: 0 <= k < |r| ==> r[k] == EventDetails(users, ratings, assignments, r[k].event)
  {
    AllDetails(users, ratings, assignments, SortBy(events, DateDesc()))
  }

  /** The list is ordered by date, latest first. */
  lemma GetEventsLatestFirst(users: seq<User>, events: seq<Event>, ratings: seq<Rating>, assignments: seq<Assignment>)
    requires AssignmentsReferenceUsers(users, assignments)
    ensures var r := GetEvents(users, events, ratings, assignments);
      forall i, j :: 0 <= i < j < |r| ==> r[i].event.date >= r[j].event.date
  {
    var sorted := SortBy(events, DateDesc());
    SortBySorted(events, DateDesc());
    var r := GetEvents(users, events, ratings, assignments);
    forall i, j | 0 <= i < j < |r| ensures r[i].event.date >= r[j].event.date {
      assert DateDesc()(sorted[i], sorted[j]);
    }
  }

  /** Every listed event is an event of the table. */
  lemma GetEventsListsTableEvents(users: seq<User>, events: seq<Event>, ratings: seq<Rating>, assignments: seq<Assignment>)
    requires AssignmentsReferenceUsers(users, assignments)
    ensures var r := GetEvents(users, events, ratings, assignments);
      forall k :: 0 <= k < |r| ==> r[k].event in events
  {
    var sorted := SortBy(events, DateDesc());
    var r := AllDetails(users, ratings, assignments, sorted);
    SortByMembers(events, DateDesc());
    forall k | 0 <= k < |r| ensures r[k].event in events {
      assert r[k].event == sorted[k];
    }
  }

  /** Every event of the table is listed. */
  lemma GetEventsListsEveryEvent(users: seq<User>, events: seq<Event>, ratings: seq<Rating>, assignments: seq<Assignment>)
    requires AssignmentsReferenceUsers(users, assignments)
    ensures var r := GetEvents(users, events, ratings, assignments);
      forall e :: e in events ==> exists k :: 0 <= k < |r| && r[k].event == e
  {
    var sorted := SortBy(events, DateDesc());
    var r := GetEvents(users, events, ratings, assignments);
    assert r == AllDetails(users, ratings, assignments, sorted);
    forall e | e in events ensures exists k :: 0 <= k < |r| && r[k].event == e {
      assert e in multiset(sorted);
      var k :| 0 <= k < |sorted| && sorted[k] == e;
      assert 0 <= k < |r| && r[k].event == e;
    }
  }

  // ---- createEvent / updateEvent ----

  /** The fields of a new event. */
  datatype CreateEventData = CreateEventData(restaurant: string, date: Timestamp, totalCost: Option<real>)

  lemma EventIdsConcat(a: seq<Event>, b: seq<Event>)
    ensures EventIds(a + b) == EventIds(a) + EventIds(b)
  {
  }

  /** `createEvent`: appends a row with a fresh id and the given fields. */
  method CreateEvent(db: Db, data: CreateEventData) returns (newEvent: Event)
    requires db.Valid()
    modifies db
    ensures db.Valid()
    ensures db.users == old(db.users) && db.assignments == old(db.assignments) && db.ratings == old(db.ratings)
    ensures newEvent == Event(FreshIds(EventIds(old(db.events)), 1)[0], data.date, data.restaurant, data.totalCost)
    ensures newEvent.id !in EventIds(old(db.events))
    ensures db.events == old(db.events) + [newEvent]
  {
    var eventId := FreshIds(EventIds(db.events), 1)[0];
    newEvent := Event(eventId, data.date, data.restaurant, data.totalCost);
    EventIdsConcat(db.events, [newEvent]);
    DistinctConcat(EventIds(db.events), [eventId]);
    db.events := db.events + [newEvent];
  }

  /** A partial update: a missing field is left as it is. */
  datatype UpdateEventData = UpdateEventData(restaurant: Option<string>, date: Option<Timestamp>, totalCost: Option<Option<real>>)

  /** `set(data)` on one row. */
  function Patched(e: Event, data: UpdateEventData): (r: Event)
    ensures r.id == e.id
  {
    Event(
      e.id,
      if data.date.Some? then data.date.value else e.date,
      if data.restaurant.Some? then data.restaurant.value else e.restaurant,
      if data.totalCost.Some? then data.totalCost.value else e.totalCost)
  }

  /** Only supplied fields change: a patch with nothing set leaves the row
      alone, and applying the same patch again changes nothing more. */
  lemma PatchSetsOnlySupplied(e: Event, data: UpdateEventData)
    ensures data.restaurant.None? ==> Patched(e, data).restaurant == e.restaurant
    ensures data.date.None? ==> Patched(e, data).date == e.date
    ensures data.totalCost.None? ==> Patched(e, data).totalCost == e.totalCost
    ensures Patched(e, UpdateEventData(None, None, None)) == e
    ensures Patched(Patched(e, data), data) == Patched(e, data)
  {
  }

  /** `update(event).set(data).where(eq(event.id, eventId))` on the table. */
  function PatchEvents(events: seq<Event>, eventId: string, data: UpdateEventData): (r: seq<Event>)
    ensures |r| == |events|
    ensures EventIds(r) == EventIds(events)
    ensures forall k :: 0 <= k < |r| ==> r[k] == if events[k].id == eventId then Patched(events[k], data) else events[k]
  {
    seq(|events|, (k: int) requires 0 <= k < |events| =>
      if events[k].id == eventId then Patched(events[k], data) else events[k])
  }

  /** A table without the id is left as it is. */
  lemma PatchMissingIsNoOp(events: seq<Event>, eventId: string, data: UpdateEventData)
    requires eventId !in EventIds(events)
    ensures PatchEvents(events, eventId, data) == events
  {
    forall k | 0 <= k < |events| ensures events[k].id != eventId {
      assert EventIds(events)[k] == events[k].id;
    }
  }

  function EventHasId(id: string): Event -> bool {
    (e: Event) => e.id == id
  }

  /** The row with the id, if any (the first of `returning()`). */
  function FindEvent(events: seq<Event>, id: string): (r: Option<Event>)
    ensures r.None? <==> id !in EventIds(events)
    ensures r.Some? ==> r.value in events && r.value.id == id
  {
    var found := Filter(events, EventHasId(id));
    if found == [] then
      assert forall k :: 0 <= k < |events| ==> EventIds(events)[k] != id by {
        forall k | 0 <= k < |events| ensures EventIds(events)[k] != id {
          assert events[k] !in found;
        }
      }
      None
    else
      assert found[0] in found;
      var k :| 0 <= k < |events| && events[k] == found[0];
      assert EventIds(events)[k] == id;
      Some(found[0])
  }

  /** `updateEvent`: patches the row with the id and returns it, or returns
      null when there is none. */
  method UpdateEvent(db: Db, eventId: string, data: UpdateEventData) returns (updated: Option<Event>)
    requires db.Valid()
    modifies db
    ensures db.Valid()
    ensures db.users == old(db.users) && db.assignments == old(db.assignments) && db.ratings == old(db.ratings)
    ensures db.events == PatchEvents(old(db.events), eventId, data)
    ensures updated.None? <==> eventId !in EventIds(old(db.events))
    ensures updated.None? ==> db.events == old(db.events)
    ensures updated.Some? ==> updated == Some(Patched(FindEvent(old(db.events), eventId).value, data))
    ensures updated.Some? ==> updated.value in db.events
  {
    var before := FindEvent(db.events, eventId);
    if before.None? {
      PatchMissingIsNoOp(db.events, eventId, data);
    }
    db.events := PatchEvents(db.events, eventId, data);
    if before.None? {
      updated := None;
    } else {
      updated := Some(Patched(before.value, data));
      ghost var k :| 0 <= k < |old(db.events)| && old(db.events)[k] == before.value;
      assert db.events[k] == updated.value;
    }
  }
}
