/** The create-event dialog: it loads the confirmed users when opened, lets
    an admin pick who to assign, and submits the new event with the
    selection, an empty selection as no list at all. */
module CreateEventDialog {

  import opened Wrappers
  import opened Text
  import opened Records
  import opened Database
  import opened Selection
  import Assignments
  import AssignmentActions
  import EventActions

  const CreatedMessage := "Event created successfully!"
  const LoadUsersFailedMessage := "Failed to load users"

  /** The success toast: the number of assigned users is reported exactly
      when somebody was assigned. */
  function CreateSuccessMessage(assignedCount: nat): (m: string)
    ensures assignedCount > 0 ==>
      m == CreatedMessage + " " + NatToString(assignedCount) + " users assigned."
    ensures assignedCount == 0 <==> m == CreatedMessage + " No users assigned yet."
  {
    if assignedCount > 0 then
      var m := CreatedMessage + " " + NatToString(assignedCount) + " users assigned.";
      assert m[|CreatedMessage| + 1] != (CreatedMessage + " No users assigned yet.")[|CreatedMessage| + 1];
      m
    else CreatedMessage + " No users assigned yet."
  }

  /** What `onSubmit` sends: restaurant and date, no cost, and the selection
      only when it is not empty. */
  function CreateRequest(form: EventForm, selected: seq<string>): (req: EventActions.CreateEventRequest)
    requires form.date.Some?
    ensures req.restaurant == form.restaurant && req.date == form.date.value && req.totalCost.None?
    ensures req.assignedUserIds.None? <==> selected == []
    ensures req.assignedUserIds.Some? ==> req.assignedUserIds.value == selected
    ensures EventActions.AssignsUsers(req) <==> selected != []
  {
    EventActions.CreateEventRequest(form.restaurant, form.date.value, None,
      if |selected| > 0 then Some(selected) else None)
  }

  class Dialog {
    /** The date the form's defaults were taken on, when the dialog was mounted. */
    const defaultDate: Timestamp
    var users: seq<User>
    var selectedUserIds: seq<string>
    /** What the form's inputs hold. */
    var form: EventForm

    /** A closed dialog whose form defaults to an empty restaurant and `today`. */
    constructor (today: Timestamp)
      ensures defaultDate == today
      ensures users == [] && selectedUserIds == []
      ensures form == EventForm("", Some(today))
    {
      defaultDate := today;
      users, selectedUserIds := [], [];
      form := EventForm("", Some(today));
    }

    /** `loadUsers`: the confirmed users when the action answers, otherwise
        the load error. */
    method LoadUsers(db: Db, session: Option<SessionUser>) returns (toast: Option<string>)
      modifies this
      ensures selectedUserIds == old(selectedUserIds) && form == old(form)
      ensures IsAdminSession(session) ==>
        users == Assignments.GetAllConfirmedUsers(db.users) && toast.None?
      ensures !IsAdminSession(session) ==>
        users == old(users) && toast == Some(LoadUsersFailedMessage)
    {
      var result := AssignmentActions.GetAllConfirmedUsersAction(db.users, session);
      if result.Done? {
        users := result.value;
        toast := None;
      } else {
        toast := Some(LoadUsersFailedMessage);
      }
    }

    /** The user typing into the form's inputs. */
    method EnterValues(values: EventForm)
      modifies this
      ensures form == values
      ensures users == old(users) && selectedUserIds == old(selectedUserIds)
    {
      form := values;
    }

    /** `handleUserToggle`, as in the edit dialog. */
    method HandleUserToggle(userId: string)
      modifies this
      ensures selectedUserIds == Toggled(old(selectedUserIds), userId)
      ensures users == old(users) && form == old(form)
    {
      selectedUserIds := Toggled(selectedUserIds, userId);
    }

    /** `handleSelectAll`. */
    method HandleSelectAll()
      modifies this
      ensures selectedUserIds == SelectAll(users)
      ensures users == old(users) && form == old(form)
    {
      selectedUserIds := SelectAll(users);
    }

    /** `handleDeselectAll`. */
    method HandleDeselectAll()
      modifies this
      ensures selectedUserIds == []
      ensures users == old(users) && form == old(form)
    {
      selectedUserIds := [];
    }

    /** `onSubmit`: the form is checked on the client first; a valid form is
        sent with the selection. After a success the form returns to the
        defaults taken when the dialog was mounted and the selection is
        emptied; after a failure both stay. */
    method OnSubmit(db: Db, session: Option<SessionUser>) returns (feedback: Feedback)
      requires db.Valid()
      modifies db, this
      ensures db.Valid()
      ensures db.users == old(db.users) && db.ratings == old(db.ratings)
      ensures users == old(users)
      ensures FormIssues(old(form)) != [] ==>
        feedback == FieldErrors(FormIssues(old(form))) && unchanged(db)
      ensures !feedback.SuccessToast? ==>
        && db.events == old(db.events) && db.assignments == old(db.assignments)
        && selectedUserIds == old(selectedUserIds) && form == old(form)
      ensures (FormIssues(old(form)) == [] && IsAdminSession(session)) ==> feedback.SuccessToast?
      ensures feedback.SuccessToast? ==>
        && feedback.message == CreateSuccessMessage(|old(selectedUserIds)|)
        && selectedUserIds == [] && form == EventForm("", Some(defaultDate))
        && |db.events| == |old(db.events)| + 1 && db.events[..|old(db.events)|] == old(db.events)
        && db.events[|old(db.events)|].restaurant == old(form).restaurant
        && db.events[|old(db.events)|].date == old(form).date.value
        && db.events[|old(db.events)|].totalCost.None?
        && |db.assignments| == |old(db.assignments)| + |old(selectedUserIds)|
        && db.assignments[..|old(db.assignments)|] == old(db.assignments)
        && forall u :: u in old(selectedUserIds) ==>
             Assignments.IsUserAssignedToEvent(db.assignments, u, db.events[|old(db.events)|].id)
    {
      var issues := FormIssues(form);
      if issues != [] {
        return FieldErrors(issues);
      }
      var selected := selectedUserIds;
      var req := CreateRequest(form, selected);
      assert EventActions.CreateEventIssues(req) == [];
      var result := EventActions.CreateEventWithAssignmentsAction(db, session, req);
      if !result.Done? {
        return FailureFeedback(result);
      }
      forall u | u in selected
        ensures Assignments.IsUserAssignedToEvent(db.assignments, u, result.value.event.id)
      {
        var k :| 0 <= k < |selected| && selected[k] == u;
        assert result.value.assignments[k] in db.assignments;
      }
      feedback := SuccessToast(CreateSuccessMessage(result.value.assignedCount));
      form := EventForm("", Some(defaultDate));
      selectedUserIds := [];
    }
  }

  /** The session of a signed-in admin. */
  predicate IsAdminSession(session: Option<SessionUser>) {
    session.Some? && session.value.isAdmin
  }
}
