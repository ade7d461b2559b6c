/** The admin actions behind the event dialogs: create an event with its
    first assignments, and update an event and resynchronise its assignments. */
module EventActions {

  import opened Wrappers
  import opened Records
  import opened Database
  import Schemas
  import Assignments
  import EventService

  const OnlyAdminsUpdateMessage := "Only admins can update events"
  const OnlyAdminsCreateMessage := "Only admins can create events"
  const RestaurantRequiredMessage := "Restaurant name is required"
  const FailedToUpdateMessage := "Failed to update event"

  /** What the edit dialog submits: a partial event plus, optionally, the
      complete desired list of assigned users. */
  datatype UpdateEventRequest = UpdateEventRequest(
    restaurant: Option<string>,
    date: Option<Timestamp>,
    totalCost: Option<Option<real>>,
    assignedUserIds: Option<seq<string>>)

  datatype UpdatedEvent = UpdatedEvent(event: Event, assignmentChanges: nat)

  /** `updateEventSchema`: a supplied restaurant must not be empty. */
  function UpdateEventIssues(req: UpdateEventRequest): (issues: seq<Issue>)
    ensures issues == [] <==> req.restaurant != Some("")
    ensures issues != [] ==> issues == [Issue("restaurant", RestaurantRequiredMessage)]
  {
    if req.restaurant.Some? then Schemas.NonEmptyIssues("restaurant", req.restaurant.value, RestaurantRequiredMessage)
    else []
  }

  /** The parsed data: zod drops every key the schema does not name, so
      only restaurant and date reach `updateEvent`. */
  function Stripped(req: UpdateEventRequest): (data: EventService.UpdateEventData)
    ensures data.totalCost.None?
  {
    EventService.UpdateEventData(req.restaurant, req.date, None)
  }

  /** The update action can never change an event's total cost. */
  lemma UpdateKeepsTotalCost(e: Event, req: UpdateEventRequest)
    ensures EventService.Patched(e, Stripped(req)).totalCost == e.totalCost
    ensures EventService.Patched(e, Stripped(req)).id == e.id
  {
    EventService.PatchSetsOnlySupplied(e, Stripped(req));
  }

  predicate IsAdmin(session: Option<SessionUser>) {
    session.Some? && session.value.isAdmin
  }

  /** `updateEventWithAssignmentsAction`. Without a session it redirects,
      a non-admin gets an error, invalid data is rejected, all before any
      write. A missing event surfaces as "Failed to update event" with
      the assignments untouched. The sync runs only when a list was sent. */
  method UpdateEventWithAssignmentsAction(db: Db, session: Option<SessionUser>, eventId: string, req: UpdateEventRequest)
    returns (result: Outcome<UpdatedEvent>)
    requires db.Valid()
    modifies db
    ensures db.Valid()
    ensures db.users == old(db.users) && db.ratings == old(db.ratings)
    ensures session.None? ==> result == Redirect(LoginPath)
    ensures session.Some? && !session.value.isAdmin ==> result == Thrown(OnlyAdminsUpdateMessage)
    ensures IsAdmin(session) && UpdateEventIssues(req) != [] ==> result == Rejected(UpdateEventIssues(req))
    ensures IsAdmin(session) && UpdateEventIssues(req) == [] && eventId !in EventIds(old(db.events)) ==>
      result == Thrown(FailedToUpdateMessage)
    ensures !result.Done? ==> db.events == old(db.events) && db.assignments == old(db.assignments)
    ensures result.Done? <==> IsAdmin(session) && UpdateEventIssues(req) == [] && eventId in EventIds(old(db.events))
    ensures result.Done? ==>
      && db.events == EventService.PatchEvents(old(db.events), eventId, Stripped(req))
      && result.value.event == EventService.Patched(EventService.FindEvent(old(db.events), eventId).value, Stripped(req))
    ensures result.Done? && req.assignedUserIds.None? ==>
      db.assignments == old(db.assignments) && result.value.assignmentChanges == 0
    ensures result.Done? && req.assignedUserIds.Some? ==>
      && db.assignments == Assignments.SyncedTable(old(db.assignments), eventId, session.value.id, req.assignedUserIds.value)
      && result.value.assignmentChanges
         == |Assignments.UsersToRemove(old(db.assignments), eventId, req.assignedUserIds.value)|
          + |Assignments.UsersToAdd(old(db.assignments), eventId, req.assignedUserIds.value)|
      && forall u :: Assignments.IsUserAssignedToEvent(db.assignments, u, eventId) <==> u in req.assignedUserIds.value
  {
    if session.None? {
      return Redirect(LoginPath);
    }
    var user := session.value;
    if !user.isAdmin {
      return Thrown(OnlyAdminsUpdateMessage);
    }
    var issues := UpdateEventIssues(req);
    if issues != [] {
      return Rejected(issues);
    }
    var updated := EventService.UpdateEvent(db, eventId, Stripped(req));
    if updated.None? {
      return Thrown(FailedToUpdateMessage);
    }
    var assignmentChanges := 0;
    if req.assignedUserIds.Some? {
      assignmentChanges := Assignments.UpdateEventAssignments(db, user.id, eventId, req.assignedUserIds.value);
    }
    result := Done(UpdatedEvent(updated.value, assignmentChanges));
  }

  /** What the create dialog submits. */
  datatype CreateEventRequest = CreateEventRequest(
    restaurant: string,
    date: Timestamp,
    totalCost: Option<real>,
    assignedUserIds: Option<seq<string>>)

  datatype CreatedEvent = CreatedEvent(event: Event, assignments: seq<Assignment>, assignedCount: nat)

  /** `createEventWithAssignmentsSchema`: the restaurant must not be empty. */
  function CreateEventIssues(req: CreateEventRequest): (issues: seq<Issue>)
    ensures issues == [] <==> req.restaurant != ""
    ensures issues != [] ==> issues == [Issue("restaurant", RestaurantRequiredMessage)]
  {
    Schemas.NonEmptyIssues("restaurant", req.restaurant, RestaurantRequiredMessage)
  }

  /** Whether the action assigns anybody: a list was sent and it is not empty. */
  predicate AssignsUsers(req: CreateEventRequest) {
    req.assignedUserIds.Some? && |req.assignedUserIds.value| > 0
  }

  /** `createEventWithAssignmentsAction`. The same gate as the update; then
      the event is created from restaurant and date alone, and a non-empty
      list is assigned to it, one row per id, with the caller as `assignedBy`. */
  method CreateEventWithAssignmentsAction(db: Db, session: Option<SessionUser>, req: CreateEventRequest)
    returns (result: Outcome<CreatedEvent>)
    requires db.Valid()
    modifies db
    ensures db.Valid()
    ensures db.users == old(db.users) && db.ratings == old(db.ratings)
    ensures session.None? ==> result == Redirect(LoginPath)
    ensures session.Some? && !session.value.isAdmin ==> result == Thrown(OnlyAdminsCreateMessage)
    ensures IsAdmin(session) && CreateEventIssues(req) != [] ==> result == Rejected(CreateEventIssues(req))
    ensures !result.Done? ==> db.events == old(db.events) && db.assignments == old(db.assignments)
    ensures result.Done? <==> IsAdmin(session) && CreateEventIssues(req) == []
    ensures result.Done? ==>
      && result.value.event == Event(FreshIds(EventIds(old(db.events)), 1)[0], req.date, req.restaurant, None)
      && result.value.event.id !in EventIds(old(db.events))
      && db.events == old(db.events) + [result.value.event]
      && db.assignments == old(db.assignments) + result.value.assignments
      && result.value.assignedCount == |result.value.assignments|
      && result.value.assignedCount == (if AssignsUsers(req) then |req.assignedUserIds.value| else 0)
    ensures result.Done? && AssignsUsers(req) ==>
      result.value.assignments == Assignments.NewAssignments(
        FreshIds(AssignmentIds(old(db.assignments)), |req.assignedUserIds.value|),
        req.assignedUserIds.value, result.value.event.id, session.value.id)
  {
    if session.None? {
      return Redirect(LoginPath);
    }
    var user := session.value;
    if !user.isAdmin {
      return Thrown(OnlyAdminsCreateMessage);
    }
    var issues := CreateEventIssues(req);
    if issues != [] {
      return Rejected(issues);
    }
    var newEvent := EventService.CreateEvent(db, EventService.CreateEventData(req.restaurant, req.date, None));
    var assignments: seq<Assignment> := [];
    if AssignsUsers(req) {
      assignments := Assignments.AssignMultipleUsers(db, user.id, newEvent.id, req.assignedUserIds.value);
    }
    result := Done(CreatedEvent(newEvent, assignments, |assignments|));
  }
}
