/** The read-only assignment actions the event dialogs call when they open:
    the signed-in check, then the admin check, then the service query. */
module AssignmentActions {

  import opened Wrappers
  import opened Records
  import Assignments

  const OnlyAdminsSeeUsersMessage := "Nur Administratoren können alle Benutzer einsehen"
  const OnlyAdminsSeeAssignmentsMessage := "Nur Administratoren können Zuweisungen einsehen"

  /** `checkUserAssignmentAction`: any signed-in user may ask whether they
      are assigned to an event. */
  function CheckUserAssignmentAction(assignments: seq<Assignment>, session: Option<SessionUser>, eventId: string)
    : (result: Outcome<bool>)
    ensures session.None? <==> result == Redirect(LoginPath)
    ensures session.Some? ==> result.Done?
    ensures session.Some? ==>
      (result.value <==> exists a :: a in assignments && a.userId == session.value.id && a.eventId == eventId)
  {
    if session.None? then Redirect(LoginPath)
    else Done(Assignments.IsUserAssignedToEvent(assignments, session.value.id, eventId))
  }

  /** `getAllConfirmedUsersAction`: the confirmed users, for admins only. */
  function GetAllConfirmedUsersAction(users: seq<User>, session: Option<SessionUser>): (result: Outcome<seq<User>>)
    ensures session.None? <==> result == Redirect(LoginPath)
    ensures session.Some? && !session.value.isAdmin <==> result == Thrown(OnlyAdminsSeeUsersMessage)
    ensures result.Done? <==> session.Some? && session.value.isAdmin
    ensures result.Done? ==> forall u :: u in result.value ==> u.isConfirmed
    ensures result.Done? ==> |result.value| <= |users|
    ensures result.Done? ==> result.value == Assignments.GetAllConfirmedUsers(users)
    ensures result.Done? ==>
      forall u :: u in users && u.isConfirmed ==> Assignments.SelectedColumns(u) in result.value
  {
    if session.None? then Redirect(LoginPath)
    else if !session.value.isAdmin then Thrown(OnlyAdminsSeeUsersMessage)
    else
      var confirmed := Assignments.GetAllConfirmedUsers(users);
      assert forall u :: u in confirmed ==> u.isConfirmed;
      Done(confirmed)
  }

  /** `getCurrentAssignmentsAction`: the ids assigned to an event, for admins only. */
  function GetCurrentAssignmentsAction(assignments: seq<Assignment>, session: Option<SessionUser>, eventId: string)
    : (result: Outcome<seq<string>>)
    ensures session.None? <==> result == Redirect(LoginPath)
    ensures session.Some? && !session.value.isAdmin <==> result == Thrown(OnlyAdminsSeeAssignmentsMessage)
    ensures result.Done? <==> session.Some? && session.value.isAdmin
    ensures result.Done? ==>
      forall u :: u in result.value <==> Assignments.IsUserAssignedToEvent(assignments, u, eventId)
  {
    if session.None? then Redirect(LoginPath)
    else if !session.value.isAdmin then Thrown(OnlyAdminsSeeAssignmentsMessage)
    else Done(Assignments.GetCurrentAssignments(assignments, eventId))
  }
}
