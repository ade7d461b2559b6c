/** What the two event dialogs share: the user selection (the toggle,
    select-all and deselect-all handlers' list computations), the per-user
    badges and the pending-changes notice of the edit dialog, the form's
    client-side schema and how a server action's outcome is reported. */
module Selection {

  import opened Wrappers
  import opened Seqs
  import opened Records
  import opened Database
  import Assignments
  import Schemas

  function IdIsNot(userId: string): string -> bool {
    (id: string) => id != userId
  }

  /** `handleUserToggle`'s update: drop every occurrence of a selected id,
      append an unselected one at the end. */
  function Toggled(prev: seq<string>, userId: string): (next: seq<string>)
    ensures userId in next <==> userId !in prev
    ensures forall id :: id != userId ==> (id in next <==> id in prev)
    ensures userId !in prev ==> next == prev + [userId]
  {
    if userId in prev then Filter(prev, IdIsNot(userId)) else prev + [userId]
  }

  /** Toggling the same user twice restores who is selected, and restores
      the list itself when the user was not selected. */
  lemma ToggleTwice(prev: seq<string>, userId: string)
    ensures forall id :: id in Toggled(Toggled(prev, userId), userId) <==> id in prev
    ensures userId !in prev ==> Toggled(Toggled(prev, userId), userId) == prev
  {
    if userId !in prev {
      FilterKeepsAll(prev, IdIsNot(userId));
      FilterConcat(prev, [userId], IdIsNot(userId));
    }
  }

  /** A selection without duplicates stays without duplicates. */
  lemma ToggleKeepsDistinct(prev: seq<string>, userId: string)
    requires Distinct(prev)
    ensures Distinct(Toggled(prev, userId))
  {
    if userId in prev {
      FilterDistinct(prev, IdIsNot(userId));
    }
  }

  /** `handleSelectAll`'s list: the loaded users' ids, in order. */
  function SelectAll(users: seq<User>): (ids: seq<string>)
    ensures |ids| == |users|
    ensures forall k :: 0 <= k < |users| ==> ids[k] == users[k].id
  {
    UserIds(users)
  }

  /** The change badge of one user row. */
  datatype Change = WillBeAdded | WillBeRemoved

  datatype UserBadges = UserBadges(change: Option<Change>, currentlyAssigned: bool)

  /** The badges of a user row: a change badge when the user's selection
      differs from the initial assignments, "Currently assigned" when the
      user was assigned and still is. */
  function Badges(selected: seq<string>, initial: seq<string>, userId: string): (b: UserBadges)
    ensures b.change == Some(WillBeAdded) <==> userId in selected && userId !in initial
    ensures b.change == Some(WillBeRemoved) <==> userId !in selected && userId in initial
    ensures b.currentlyAssigned <==> userId in selected && userId in initial
  {
    var isCurrentlySelected := userId in selected;
    var wasInitiallyAssigned := userId in initial;
    var hasChanged := isCurrentlySelected != wasInitiallyAssigned;
    UserBadges(
      if hasChanged then Some(if isCurrentlySelected then WillBeAdded else WillBeRemoved) else None,
      wasInitiallyAssigned && !hasChanged)
  }

  /** At most one badge shows per user. */
  lemma BadgesExclusive(selected: seq<string>, initial: seq<string>, userId: string)
    ensures Badges(selected, initial, userId).change.Some? ==> !Badges(selected, initial, userId).currentlyAssigned
  {
  }

  /** When the initial list is what `getCurrentAssignments` loaded, the
      badges preview exactly the additions and removals the server's sync
      will make for the submitted selection. */
  lemma BadgesPreviewSync(rows: seq<Assignment>, eventId: string, selected: seq<string>, userId: string)
    ensures var initial := Assignments.GetCurrentAssignments(rows, eventId);
      (Badges(selected, initial, userId).change == Some(WillBeAdded)
       <==> userId in Assignments.UsersToAdd(rows, eventId, selected))
    ensures var initial := Assignments.GetCurrentAssignments(rows, eventId);
      (Badges(selected, initial, userId).change == Some(WillBeRemoved)
       <==> userId in Assignments.UsersToRemove(rows, eventId, selected))
  {
  }

  function InList(ys: seq<string>): string -> bool {
    (x: string) => x in ys
  }

  /** The notice "Assignment changes will be applied": the lengths differ or
      some selected id was not initially assigned. */
  predicate PendingChanges(selected: seq<string>, initial: seq<string>) {
    |selected| != |initial| || !(forall id :: id in selected ==> id in initial)
  }

  lemma {:induction false} DistinctCard(s: seq<string>)
    requires Distinct(s)
    ensures |set x | x in s| == |s|
    decreases |s|
  {
    if s != [] {
      var rest := s[..|s| - 1];
      DistinctCard(rest);
      assert s == rest + [s[|s| - 1]];
      assert (set x | x in s) == (set x | x in rest) + {s[|s| - 1]};
    }
  }

  /** For duplicate-free lists the notice shows exactly when the sync would
      report changes: when the selected and the initial ids differ as sets. */
  lemma PendingChangesIffDiff(selected: seq<string>, initial: seq<string>)
    requires Distinct(selected) && Distinct(initial)
    ensures PendingChanges(selected, initial) <==>
      |Assignments.Difference(selected, initial)| + |Assignments.Difference(initial, selected)| > 0
  {
    var a, b := set x | x in selected, set x | x in initial;
    DistinctCard(selected);
    DistinctCard(initial);
    var add, remove := Assignments.Difference(selected, initial), Assignments.Difference(initial, selected);
    if add != [] {
      assert add[0] in add;
    }
    if remove != [] {
      assert remove[0] in remove;
    }
    if !PendingChanges(selected, initial) {
      assert a <= b;
      assert |b - a| == |b| - |a|;
      assert b - a == {};
      forall x | x in initial ensures x in selected {
        assert x in b;
      }
    } else if |selected| != |initial| {
      assert a != b;
    }
  }

  /** With a repeated id the notice and the sync disagree: the lists
      ["a", "a"] and ["a", "b"] show no pending change, yet "b" would be
      removed. */
  lemma PendingChangesMissesDuplicates()
    ensures !PendingChanges(["a", "a"], ["a", "b"])
    ensures Assignments.Difference(["a", "b"], ["a", "a"]) == ["b"]
  {
    assert "a" != "b";
    var d := Assignments.Difference(["a", "b"], ["a", "a"]);
    assert "b" in d && "a" !in d;
    assert |d| <= 2;
    assert Filter(["a", "b"], (x: string) => x !in ["a", "a"]) == ["b"] by {
      assert ["a", "b"][..1] == ["a"];
    }
  }

  const RestaurantRequiredMessage := "Restaurant name is required"
  const DateRequiredMessage := "Date is required"

  /** The form's fields; `date` is absent while the date input is empty. */
  datatype EventForm = EventForm(restaurant: string, date: Option<Timestamp>)

  /** The dialogs' zod schema: restaurant and date are both required, and
      each missing one is reported, restaurant first. */
  function FormIssues(form: EventForm): (issues: seq<Issue>)
    ensures issues == [] <==> form.restaurant != "" && form.date.Some?
    ensures form.restaurant == "" ==> issues[0] == Issue("restaurant", RestaurantRequiredMessage)
    ensures form.date.None? ==> issues[|issues| - 1] == Issue("date", DateRequiredMessage)
  {
    Schemas.NonEmptyIssues("restaurant", form.restaurant, RestaurantRequiredMessage)
      + (if form.date.None? then [Issue("date", DateRequiredMessage)] else [])
  }

  /** What a dialog shows after a submit: a success or error toast, the
      form's field errors, or the navigation a server redirect causes. */
  datatype Feedback =
    | SuccessToast(message: string)
    | ErrorToast(message: string)
    | FieldErrors(issues: seq<Issue>)
    | Navigate(location: string)

  /** The `catch` of a submit: a thrown error's message becomes the error
      toast; a server-side validation error is reported by its issues. */
  function FailureFeedback<T>(result: Outcome<T>): (f: Feedback)
    requires !result.Done?
    ensures result.Thrown? ==> f == ErrorToast(result.message)
    ensures result.Redirect? ==> f == Navigate(result.location)
    ensures result.Rejected? ==> f == FieldErrors(result.issues)
  {
    match result
    case Redirect(location) => Navigate(location)
    case Thrown(message) => ErrorToast(message)
    case Rejected(issues) => FieldErrors(issues)
  }
}
