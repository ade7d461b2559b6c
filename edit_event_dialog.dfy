/** The edit-event dialog: it loads the confirmed users and the event's
    current assignments when opened, lets an admin change the selection,
    previews the changes and submits restaurant, date and the selection. */
module EditEventDialog {

  import opened Wrappers
  import opened Seqs
  import opened Text
  import opened Records
  import opened Database
  import opened Selection
  import Assignments
  import AssignmentActions
  import EventActions
  import EventService

  const UpdatedMessage := "Event updated successfully!"
  const LoadFailedMessage := "Failed to load event data"

  /** The success toast: the number of assignment changes is reported
      exactly when there were any. */
  function UpdateSuccessMessage(assignmentChanges: nat): (m: string)
    ensures m == UpdatedMessage <==> assignmentChanges == 0
    ensures assignmentChanges > 0 ==>
      m == UpdatedMessage + " " + NatToString(assignmentChanges) + " assignment changes made."
  {
    if assignmentChanges > 0 then
      UpdatedMessage + " " + NatToString(assignmentChanges) + " assignment changes made."
    else UpdatedMessage
  }

  /** What `onSubmit` sends: the form's restaurant and date and, always, the
      current selection, so the server resynchronises on every save. */
  function UpdateRequest(form: EventForm, selected: seq<string>): (req: EventActions.UpdateEventRequest)
    requires form.date.Some?
    ensures req.assignedUserIds == Some(selected)
    ensures req.restaurant == Some(form.restaurant) && req.date == form.date
    ensures req.totalCost.None?
  {
    EventActions.UpdateEventRequest(Some(form.restaurant), form.date, None, Some(selected))
  }

  /** The row patch a valid form amounts to once the request is stripped:
      restaurant and date, the cost left alone. */
  function FormPatch(form: EventForm): (data: EventService.UpdateEventData)
    ensures data.restaurant == Some(form.restaurant) && data.date == form.date && data.totalCost.None?
  {
    EventService.UpdateEventData(Some(form.restaurant), form.date, None)
  }

  class Dialog {
    const event: Event
    var users: seq<User>
    var selectedUserIds: seq<string>
    var initialAssignments: seq<string>

    /** A closed dialog for `event`, nothing loaded yet. */
    constructor (event: Event)
      ensures this.event == event
      ensures users == [] && selectedUserIds == [] && initialAssignments == []
    {
      this.event := event;
      users, selectedUserIds, initialAssignments := [], [], [];
    }

    /** `loadData`: both actions are awaited together; when both answer, the
        users are taken and the selection and the initial list both become
        the current assignments. When either fails nothing is taken and the
        load error is reported. */
    method LoadData(db: Db, session: Option<SessionUser>) returns (toast: Option<string>)
      modifies this
      ensures IsAdminSession(session) ==>
        && users == Assignments.GetAllConfirmedUsers(db.users)
        && selectedUserIds == Assignments.GetCurrentAssignments(db.assignments, event.id)
        && initialAssignments == selectedUserIds
        && toast.None?
      ensures !IsAdminSession(session) ==>
        && users == old(users)
        && selectedUserIds == old(selectedUserIds)
        && initialAssignments == old(initialAssignments)
        && toast == Some(LoadFailedMessage)
    {
      var usersResult := AssignmentActions.GetAllConfirmedUsersAction(db.users, session);
      var assignmentsResult := AssignmentActions.GetCurrentAssignmentsAction(db.assignments, session, event.id);
      if usersResult.Done? && assignmentsResult.Done? {
        users := usersResult.value;
        selectedUserIds := assignmentsResult.value;
        initialAssignments := assignmentsResult.value;
        toast := None;
      } else {
        toast := Some(LoadFailedMessage);
      }
    }

    /** `handleUserToggle`. */
    method HandleUserToggle(userId: string)
      modifies this
      ensures selectedUserIds == Toggled(old(selectedUserIds), userId)
      ensures users == old(users) && initialAssignments == old(initialAssignments)
      ensures Distinct(old(selectedUserIds)) ==> Distinct(selectedUserIds)
    {
      if Distinct(selectedUserIds) {
        ToggleKeepsDistinct(selectedUserIds, userId);
      }
      selectedUserIds := Toggled(selectedUserIds, userId);
    }

    /** `handleSelectAll`. */
    method HandleSelectAll()
      modifies this
      ensures selectedUserIds == SelectAll(users)
      ensures users == old(users) && initialAssignments == old(initialAssignments)
    {
      selectedUserIds := SelectAll(users);
    }

    /** `handleDeselectAll`. */
    method HandleDeselectAll()
      modifies this
      ensures selectedUserIds == []
      ensures users == old(users) && initialAssignments == old(initialAssignments)
    {
      selectedUserIds := [];
    }

    /** The badges of one user row. */
    function RowBadges(userId: string): (b: UserBadges)
      reads this
      ensures b.change == Some(WillBeAdded) <==> userId in selectedUserIds && userId !in initialAssignments
      ensures b.change == Some(WillBeRemoved) <==> userId !in selectedUserIds && userId in initialAssignments
      ensures b.currentlyAssigned <==> userId in selectedUserIds && userId in initialAssignments
    {
      Badges(selectedUserIds, initialAssignments, userId)
    }

    /** Whether "Assignment changes will be applied" is shown. */
    predicate ShowsPendingChanges()
      reads this
    {
      PendingChanges(selectedUserIds, initialAssignments)
    }

    /** `onSubmit`: the form is checked on the client first; a valid form is
        sent with the selection, and the outcome becomes the toast. */
    method OnSubmit(db: Db, session: Option<SessionUser>, form: EventForm) returns (feedback: Feedback)
      requires db.Valid()
      modifies db
      ensures db.Valid()
      ensures db.users == old(db.users) && db.ratings == old(db.ratings)
      ensures FormIssues(form) != [] ==>
        feedback == FieldErrors(FormIssues(form)) && unchanged(db)
      ensures FormIssues(form) == [] && !UpdateGoesThrough(session, old(db.events), event.id) ==>
        && !feedback.SuccessToast?
        && db.events == old(db.events) && db.assignments == old(db.assignments)
      ensures FormIssues(form) == [] && UpdateGoesThrough(session, old(db.events), event.id) ==>
        && feedback == SuccessToast(UpdateSuccessMessage(Assignments.ChangeCount(old(db.assignments), event.id, old(selectedUserIds))))
        && (forall u :: Assignments.IsUserAssignedToEvent(db.assignments, u, event.id) <==> u in old(selectedUserIds))
        && db.events == EventService.PatchEvents(old(db.events), event.id, FormPatch(form))
        && SyncedWithSelection(old(db.assignments), db.assignments, event.id, session, old(selectedUserIds))
    {
      feedback := Submit(db, session, form, event.id, selectedUserIds);
    }
  }

  /** `onSubmit` on the dialog's event and selection: the client check,
      then the request. */
  method Submit(db: Db, session: Option<SessionUser>, form: EventForm, eventId: string, selected: seq<string>)
    returns (feedback: Feedback)
    requires db.Valid()
    modifies db
    ensures db.Valid()
    ensures db.users == old(db.users) && db.ratings == old(db.ratings)
    ensures FormIssues(form) != [] ==>
      feedback == FieldErrors(FormIssues(form)) && unchanged(db)
    ensures FormIssues(form) == [] && !UpdateGoesThrough(session, old(db.events), eventId) ==>
      && !feedback.SuccessToast?
      && db.events == old(db.events) && db.assignments == old(db.assignments)
    ensures FormIssues(form) == [] && UpdateGoesThrough(session, old(db.events), eventId) ==>
      && feedback == SuccessToast(UpdateSuccessMessage(Assignments.ChangeCount(old(db.assignments), eventId, selected)))
      && (forall u :: Assignments.IsUserAssignedToEvent(db.assignments, u, eventId) <==> u in selected)
      && db.events == EventService.PatchEvents(old(db.events), eventId, FormPatch(form))
      && SyncedWithSelection(old(db.assignments), db.assignments, eventId, session, selected)
  {
    var issues := FormIssues(form);
    if issues != [] {
      return FieldErrors(issues);
    }
    feedback := SubmitValidForm(db, session, form, eventId, selected);
  }

  /** The part of `onSubmit` after the client check: the request goes out
      and its outcome becomes the toast. */
  method SubmitValidForm(db: Db, session: Option<SessionUser>, form: EventForm, eventId: string, selected: seq<string>)
    returns (feedback: Feedback)
    requires db.Valid()
    requires FormIssues(form) == []
    modifies db
    ensures db.Valid()
    ensures db.users == old(db.users) && db.ratings == old(db.ratings)
    ensures !UpdateGoesThrough(session, old(db.events), eventId) ==>
      && !feedback.SuccessToast?
      && db.events == old(db.events) && db.assignments == old(db.assignments)
    ensures UpdateGoesThrough(session, old(db.events), eventId) ==>
      && feedback == SuccessToast(UpdateSuccessMessage(Assignments.ChangeCount(old(db.assignments), eventId, selected)))
      && (forall u :: Assignments.IsUserAssignedToEvent(db.assignments, u, eventId) <==> u in selected)
      && db.events == EventService.PatchEvents(old(db.events), eventId, FormPatch(form))
      && SyncedWithSelection(old(db.assignments), db.assignments, eventId, session, selected)
  {
    var result := SendUpdate(db, session, form, eventId, selected);
    feedback := UpdateFeedback(result);
  }

  /** The toast an update's outcome becomes: the success message with the
      reported change count, or the failure feedback. */
  function UpdateFeedback(result: Outcome<EventActions.UpdatedEvent>): (f: Feedback)
    ensures f.SuccessToast? <==> result.Done?
    ensures result.Done? ==> f == SuccessToast(UpdateSuccessMessage(result.value.assignmentChanges))
  {
    if result.Done? then SuccessToast(UpdateSuccessMessage(result.value.assignmentChanges))
    else FailureFeedback(result)
  }

  /** The server call of `onSubmit`: the form's values and the selection go
      to the update action, which for an admin and an existing event patches
      the event and syncs its assignments with the selection. */
  method SendUpdate(db: Db, session: Option<SessionUser>, form: EventForm, eventId: string, selected: seq<string>)
    returns (result: Outcome<EventActions.UpdatedEvent>)
    requires db.Valid()
    requires FormIssues(form) == []
    modifies db
    ensures db.Valid()
    ensures db.users == old(db.users) && db.ratings == old(db.ratings)
    ensures result.Done? <==> UpdateGoesThrough(session, old(db.events), eventId)
    ensures !UpdateGoesThrough(session, old(db.events), eventId) ==>
      db.events == old(db.events) && db.assignments == old(db.assignments)
    ensures UpdateGoesThrough(session, old(db.events), eventId) ==>
      && result.Done?
      && result.value.assignmentChanges == Assignments.ChangeCount(old(db.assignments), eventId, selected)
      && (forall u :: Assignments.IsUserAssignedToEvent(db.assignments, u, eventId) <==> u in selected)
      && db.events == EventService.PatchEvents(old(db.events), eventId, FormPatch(form))
      && SyncedWithSelection(old(db.assignments), db.assignments, eventId, session, selected)
  {
    ghost var before := db.assignments;
    var req := UpdateRequest(form, selected);
    assert EventActions.UpdateEventIssues(req) == [];
    assert req.assignedUserIds == Some(selected);
    assert EventActions.Stripped(req) == FormPatch(form);
    result := EventActions.UpdateEventWithAssignmentsAction(db, session, eventId, req);
    if result.Done? {
      Assignments.SyncedTableFacts(before, eventId, session.value.id, selected);
    }
  }

  /** Whether the update action gets through to the database: the session
      is an admin's and the event exists. */
  predicate UpdateGoesThrough(session: Option<SessionUser>, events: seq<Event>, eventId: string) {
    IsAdminSession(session) && eventId in EventIds(events)
  }

  /** The assignment table a successful update leaves: the sync of `before`
      with the selection, done by the signed-in admin, where every other
      event keeps its rows as they were. */
  ghost predicate SyncedWithSelection(before: seq<Assignment>, after: seq<Assignment>, eventId: string,
                                      session: Option<SessionUser>, selected: seq<string>)
  {
    && session.Some?
    && after == Assignments.SyncedTable(before, eventId, session.value.id, selected)
    && forall other :: other != eventId ==> Assignments.RowsOf(after, other) == Assignments.RowsOf(before, other)
  }

  /** The session of a signed-in admin. */
  predicate IsAdminSession(session: Option<SessionUser>) {
    session.Some? && session.value.isAdmin
  }

  /** Right after opening, nothing is pending and no badge announces a
      change; every assigned user shows "Currently assigned". */
  lemma OpenedDialogHasNoPendingChanges(rows: seq<Assignment>, eventId: string, userId: string)
    ensures var current := Assignments.GetCurrentAssignments(rows, eventId);
      && !PendingChanges(current, current)
      && Badges(current, current, userId).change.None?
      && (Badges(current, current, userId).currentlyAssigned
          <==> Assignments.IsUserAssignedToEvent(rows, userId, eventId))
  {
  }
}
