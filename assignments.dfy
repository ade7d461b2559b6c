/** The assignment service: who may rate which event, and the diff-based
    synchronisation of an event's assignments with a desired list of users. */
module Assignments {

  import opened Seqs
  import opened Records
  import opened Database

  /** The condition `eventAssignment.eventId = eventId`. */
  function OfEvent(eventId: string): Assignment -> bool {
    (a: Assignment) => a.eventId == eventId
  }

  /** The table's rows for one event, in table order. */
  function RowsOf(rows: seq<Assignment>, eventId: string): (r: seq<Assignment>)
    ensures forall a :: a in r <==> a in rows && a.eventId == eventId
  {
    Filter(rows, OfEvent(eventId))
  }

  /** `isUserAssignedToEvent`: some row pairs the user with the event. */
  function IsUserAssignedToEvent(rows: seq<Assignment>, userId: string, eventId: string): (r: bool)
    ensures r <==> exists a :: a in rows && a.userId == userId && a.eventId == eventId
  {
    var matches := Filter(rows, (a: Assignment) => a.userId == userId && a.eventId == eventId);
    assert matches != [] ==> matches[0] in matches;
    matches != []
  }

  /** `getCurrentAssignments`: the user id of every row of the event, in
      table order; a user is listed exactly when assigned. */
  function GetCurrentAssignments(rows: seq<Assignment>, eventId: string): (ids: seq<string>)
    ensures |ids| == |RowsOf(rows, eventId)|
    ensures forall u :: u in ids <==> IsUserAssignedToEvent(rows, u, eventId)
  {
    var ids := Map(RowsOf(rows, eventId), (a: Assignment) => a.userId);
    forall u | IsUserAssignedToEvent(rows, u, eventId) ensures u in ids {
      var a :| a in rows && a.userId == u && a.eventId == eventId;
      var k :| 0 <= k < |RowsOf(rows, eventId)| && RowsOf(rows, eventId)[k] == a;
      assert ids[k] == u;
    }
    ids
  }

  /** The columns `getAllConfirmedUsers` selects: the name parts are not among them. */
  function SelectedColumns(u: User): User {
    u.(firstName := Wrappers.None, lastName := Wrappers.None)
  }

  /** `getAllConfirmedUsers`: every confirmed user, in table order, and no one else. */
  function GetAllConfirmedUsers(users: seq<User>): (r: seq<User>)
    ensures forall k :: 0 <= k < |r| ==> r[k].isConfirmed
    ensures forall u :: u in users && u.isConfirmed ==> SelectedColumns(u) in r
    ensures forall v :: v in r ==> exists u :: u in users && u.isConfirmed && v == SelectedColumns(u)
  {
    var confirmed := Filter(users, (u: User) => u.isConfirmed);
    var r := Map(confirmed, SelectedColumns);
    forall u | u in users && u.isConfirmed ensures SelectedColumns(u) in r {
      var k :| 0 <= k < |confirmed| && confirmed[k] == u;
      assert r[k] == SelectedColumns(u);
    }
    forall v | v in r ensures exists u :: u in users && u.isConfirmed && v == SelectedColumns(u) {
      var k :| 0 <= k < |r| && r[k] == v;
      assert confirmed[k] in confirmed;
    }
    r
  }

  /** The ids of `xs` that `ys` does not include, in the order of `xs`:
      `xs.filter((id) => !ys.includes(id))`. */
  function Difference(xs: seq<string>, ys: seq<string>): (r: seq<string>)
    ensures forall x :: x in r <==> x in xs && x !in ys
    ensures |r| <= |xs|
  {
    Filter(xs, (x: string) => x !in ys)
  }

  /** The rows `assignMultipleUsers` and the sync insert: one per user id, in order. */
  function NewAssignments(ids: seq<string>, userIds: seq<string>, eventId: string, assignedBy: string): (r: seq<Assignment>)
    requires |ids| == |userIds|
    ensures |r| == |userIds|
    ensures forall k :: 0 <= k < |r| ==>
      r[k] == Assignment(ids[k], userIds[k], eventId, assignedBy)
  {
    seq(|userIds|, (k: int) requires 0 <= k < |userIds| => Assignment(ids[k], userIds[k], eventId, assignedBy))
  }

  /** Rows that survive the sync's delete: not of `eventId`, or of a user not in `removed`. */
  function KeepPredicate(eventId: string, removed: seq<string>): Assignment -> bool {
    (a: Assignment) => !(a.eventId == eventId && a.userId in removed)
  }

  /** The delete of the sync: rows of `eventId` whose user is in `removed` go. */
  function KeepRows(rows: seq<Assignment>, eventId: string, removed: seq<string>): seq<Assignment> {
    Filter(rows, KeepPredicate(eventId, removed))
  }

  /** The sync's additions: desired ids that are not assigned yet. */
  function UsersToAdd(rows: seq<Assignment>, eventId: string, newUserIds: seq<string>): seq<string> {
    Difference(newUserIds, GetCurrentAssignments(rows, eventId))
  }

  /** The sync's removals: assigned ids that are no longer desired. */
  function UsersToRemove(rows: seq<Assignment>, eventId: string, newUserIds: seq<string>): seq<string> {
    Difference(GetCurrentAssignments(rows, eventId), newUserIds)
  }

  /** The number of changes a sync reports: its removals and its additions. */
  function ChangeCount(rows: seq<Assignment>, eventId: string, newUserIds: seq<string>): nat {
    |UsersToRemove(rows, eventId, newUserIds)| + |UsersToAdd(rows, eventId, newUserIds)|
  }

  /** The table after the sync, given the ids drawn for the inserted rows. */
  function Synced(rows: seq<Assignment>, eventId: string, assignedBy: string, newUserIds: seq<string>, ids: seq<string>): seq<Assignment>
    requires |ids| == |UsersToAdd(rows, eventId, newUserIds)|
  {
    KeepRows(rows, eventId, UsersToRemove(rows, eventId, newUserIds))
      + NewAssignments(ids, UsersToAdd(rows, eventId, newUserIds), eventId, assignedBy)
  }

  /** The table after the sync, with its ids drawn from the id generator. */
  function SyncedTable(rows: seq<Assignment>, eventId: string, assignedBy: string, newUserIds: seq<string>): seq<Assignment> {
    Synced(rows, eventId, assignedBy, newUserIds,
           FreshIds(AssignmentIds(rows), |UsersToAdd(rows, eventId, newUserIds)|))
  }

  /** After the sync a user is assigned to the event exactly when desired. */
  lemma SyncAssignsExactlyDesired(rows: seq<Assignment>, eventId: string, assignedBy: string, newUserIds: seq<string>, ids: seq<string>)
    requires |ids| == |UsersToAdd(rows, eventId, newUserIds)|
    ensures forall u :: IsUserAssignedToEvent(Synced(rows, eventId, assignedBy, newUserIds, ids), u, eventId) <==> u in newUserIds
  {
    forall u ensures IsUserAssignedToEvent(Synced(rows, eventId, assignedBy, newUserIds, ids), u, eventId) <==> u in newUserIds {
      if u in newUserIds {
        SyncAssignsDesired(rows, eventId, assignedBy, newUserIds, ids, u);
      }
      if IsUserAssignedToEvent(Synced(rows, eventId, assignedBy, newUserIds, ids), u, eventId) {
        SyncAssignsOnlyDesired(rows, eventId, assignedBy, newUserIds, ids, u);
      }
    }
  }

  lemma SyncAssignsDesired(rows: seq<Assignment>, eventId: string, assignedBy: string, newUserIds: seq<string>, ids: seq<string>, u: string)
    requires |ids| == |UsersToAdd(rows, eventId, newUserIds)|
    requires u in newUserIds
    ensures IsUserAssignedToEvent(Synced(rows, eventId, assignedBy, newUserIds, ids), u, eventId)
  {
    var current := GetCurrentAssignments(rows, eventId);
    var add := UsersToAdd(rows, eventId, newUserIds);
    var remove := UsersToRemove(rows, eventId, newUserIds);
    var kept := KeepRows(rows, eventId, remove);
    var added := NewAssignments(ids, add, eventId, assignedBy);
    var after := Synced(rows, eventId, assignedBy, newUserIds, ids);
    assert after == kept + added;
    if u in current {
      var a :| a in rows && a.userId == u && a.eventId == eventId;
      assert a in kept;
      assert a in after;
    } else {
      assert u in add;
      var k :| 0 <= k < |add| && add[k] == u;
      assert added[k] in after;
    }
  }

  lemma SyncAssignsOnlyDesired(rows: seq<Assignment>, eventId: string, assignedBy: string, newUserIds: seq<string>, ids: seq<string>, u: string)
    requires |ids| == |UsersToAdd(rows, eventId, newUserIds)|
    requires IsUserAssignedToEvent(Synced(rows, eventId, assignedBy, newUserIds, ids), u, eventId)
    ensures u in newUserIds
  {
    var kept := KeepRows(rows, eventId, UsersToRemove(rows, eventId, newUserIds));
    var added := NewAssignments(ids, UsersToAdd(rows, eventId, newUserIds), eventId, assignedBy);
    var after := Synced(rows, eventId, assignedBy, newUserIds, ids);
    assert after == kept + added;
    var a :| a in after && a.userId == u && a.eventId == eventId;
    if a in kept {
      KeptRowIsDesired(rows, eventId, newUserIds, a);
    } else {
      AddedRowIsDesired(rows, eventId, assignedBy, newUserIds, ids, a);
    }
  }

  lemma KeptRowIsDesired(rows: seq<Assignment>, eventId: string, newUserIds: seq<string>, a: Assignment)
    requires a in KeepRows(rows, eventId, UsersToRemove(rows, eventId, newUserIds))
    requires a.eventId == eventId
    ensures a.userId in newUserIds
  {
    var remove := UsersToRemove(rows, eventId, newUserIds);
    assert a in rows && KeepPredicate(eventId, remove)(a);
    assert a.userId in GetCurrentAssignments(rows, eventId);
  }

  lemma AddedRowIsDesired(rows: seq<Assignment>, eventId: string, assignedBy: string, newUserIds: seq<string>, ids: seq<string>, a: Assignment)
    requires |ids| == |UsersToAdd(rows, eventId, newUserIds)|
    requires a in NewAssignments(ids, UsersToAdd(rows, eventId, newUserIds), eventId, assignedBy)
    ensures a.userId in newUserIds
  {
    var add := UsersToAdd(rows, eventId, newUserIds);
    var added := NewAssignments(ids, add, eventId, assignedBy);
    var k :| 0 <= k < |added| && added[k] == a;
    assert add[k] in add;
  }

  /** The sync touches no row of any other event. */
  lemma SyncLeavesOtherEvents(rows: seq<Assignment>, eventId: string, assignedBy: string, newUserIds: seq<string>, ids: seq<string>, other: string)
    requires |ids| == |UsersToAdd(rows, eventId, newUserIds)|
    requires other != eventId
    ensures RowsOf(Synced(rows, eventId, assignedBy, newUserIds, ids), other) == RowsOf(rows, other)
  {
    var remove := UsersToRemove(rows, eventId, newUserIds);
    var added := NewAssignments(ids, UsersToAdd(rows, eventId, newUserIds), eventId, assignedBy);
    var keep := KeepPredicate(eventId, remove);
    var ofOther := OfEvent(other);
    FilterConcat(KeepRows(rows, eventId, remove), added, ofOther);
    FilterNone(added, ofOther);
    FilterCommutes(rows, keep, ofOther);
    FilterKeepsAll(Filter(rows, ofOther), keep);
  }

  /** Rows of users who are both currently and still assigned stay; rows of
      users no longer desired are gone (their ids are not reused). */
  lemma SyncKeepsStayersDropsLeavers(rows: seq<Assignment>, eventId: string, assignedBy: string, newUserIds: seq<string>, ids: seq<string>)
    requires |ids| == |UsersToAdd(rows, eventId, newUserIds)|
    requires forall k :: 0 <= k < |ids| ==> ids[k] !in AssignmentIds(rows)
    ensures forall a :: a in rows && a.eventId == eventId && a.userId in newUserIds ==>
      a in Synced(rows, eventId, assignedBy, newUserIds, ids)
    ensures forall a :: a in rows && a.eventId == eventId && a.userId !in newUserIds ==>
      a !in Synced(rows, eventId, assignedBy, newUserIds, ids)
  {
    var remove := UsersToRemove(rows, eventId, newUserIds);
    var kept := KeepRows(rows, eventId, remove);
    var added := NewAssignments(ids, UsersToAdd(rows, eventId, newUserIds), eventId, assignedBy);
    forall a | a in rows && a.eventId == eventId && a.userId !in newUserIds
      ensures a !in kept + added
    {
      assert a.userId in GetCurrentAssignments(rows, eventId);
      assert a.userId in remove;
    }
  }

  /** The sync reports zero changes exactly when the desired ids and the
      assigned ids are the same set. */
  lemma ChangeCountZeroIff(rows: seq<Assignment>, eventId: string, newUserIds: seq<string>)
    ensures |UsersToAdd(rows, eventId, newUserIds)| + |UsersToRemove(rows, eventId, newUserIds)| == 0
        <==> (forall u :: u in newUserIds <==> IsUserAssignedToEvent(rows, u, eventId))
  {
    var current := GetCurrentAssignments(rows, eventId);
    var add := UsersToAdd(rows, eventId, newUserIds);
    var remove := UsersToRemove(rows, eventId, newUserIds);
    if add != [] {
      assert add[0] in add;
    }
    if remove != [] {
      assert remove[0] in remove;
    }
  }

  /** Repeating a sync with the same list changes nothing more. */
  lemma SyncIsIdempotent(rows: seq<Assignment>, eventId: string, assignedBy: string, newUserIds: seq<string>, ids: seq<string>)
    requires |ids| == |UsersToAdd(rows, eventId, newUserIds)|
    ensures var after := Synced(rows, eventId, assignedBy, newUserIds, ids);
      |UsersToAdd(after, eventId, newUserIds)| + |UsersToRemove(after, eventId, newUserIds)| == 0
  {
    var after := Synced(rows, eventId, assignedBy, newUserIds, ids);
    SyncAssignsExactlyDesired(rows, eventId, assignedBy, newUserIds, ids);
    ChangeCountZeroIff(after, eventId, newUserIds);
  }

  /** The sync keeps the table's primary key unique. */
  lemma SyncKeepsIdsDistinct(rows: seq<Assignment>, eventId: string, assignedBy: string, newUserIds: seq<string>, ids: seq<string>)
    requires |ids| == |UsersToAdd(rows, eventId, newUserIds)|
    requires Distinct(AssignmentIds(rows))
    requires Distinct(ids) && forall k :: 0 <= k < |ids| ==> ids[k] !in AssignmentIds(rows)
    ensures Distinct(AssignmentIds(Synced(rows, eventId, assignedBy, newUserIds, ids)))
  {
    var remove := UsersToRemove(rows, eventId, newUserIds);
    var kept := KeepRows(rows, eventId, remove);
    var added := NewAssignments(ids, UsersToAdd(rows, eventId, newUserIds), eventId, assignedBy);
    FilterMapDistinct(rows, KeepPredicate(eventId, remove), AssignmentId);
    FilterMapSubset(rows, KeepPredicate(eventId, remove), AssignmentId);
    var keptIds := AssignmentIds(kept);
    NewAssignmentIds(ids, UsersToAdd(rows, eventId, newUserIds), eventId, assignedBy);
    forall i, j | 0 <= i < |keptIds| && 0 <= j < |ids| ensures keptIds[i] != ids[j] {
      assert keptIds[i] in AssignmentIds(rows);
    }
    DistinctConcat(keptIds, ids);
    AssignmentIdsConcat(kept, added);
  }

  lemma NewAssignmentIds(ids: seq<string>, userIds: seq<string>, eventId: string, assignedBy: string)
    requires |ids| == |userIds|
    ensures AssignmentIds(NewAssignments(ids, userIds, eventId, assignedBy)) == ids
  {
  }

  lemma AssignmentIdsConcat(a: seq<Assignment>, b: seq<Assignment>)
    ensures AssignmentIds(a + b) == AssignmentIds(a) + AssignmentIds(b)
  {
  }

  /** `assignMultipleUsers`: inserts one row per given user id, duplicates
      included, each with the event and the assigning admin. */
  method AssignMultipleUsers(db: Db, assignedBy: string, eventId: string, userIds: seq<string>)
    returns (newAssignments: seq<Assignment>)
    requires db.Valid()
    modifies db
    ensures db.Valid()
    ensures newAssignments == NewAssignments(FreshIds(AssignmentIds(old(db.assignments)), |userIds|), userIds, eventId, assignedBy)
    ensures db.assignments == old(db.assignments) + newAssignments
    ensures db.users == old(db.users) && db.events == old(db.events) && db.ratings == old(db.ratings)
  {
    var ids := FreshIds(AssignmentIds(db.assignments), |userIds|);
    newAssignments := NewAssignments(ids, userIds, eventId, assignedBy);
    NewAssignmentIds(ids, userIds, eventId, assignedBy);
    AssignmentIdsConcat(db.assignments, newAssignments);
    DistinctConcat(AssignmentIds(db.assignments), ids);
    db.assignments := db.assignments + newAssignments;
  }

  /** `updateEventAssignments`: deletes the rows of users no longer desired,
      inserts rows for desired users not yet assigned, and returns how many
      rows it deleted and inserted. */
  method UpdateEventAssignments(db: Db, assignedBy: string, eventId: string, newUserIds: seq<string>)
    returns (totalChanges: nat)
    requires db.Valid()
    modifies db
    ensures db.Valid()
    ensures db.users == old(db.users) && db.events == old(db.events) && db.ratings == old(db.ratings)
    ensures db.assignments == SyncedTable(old(db.assignments), eventId, assignedBy, newUserIds)
    ensures totalChanges == |UsersToRemove(old(db.assignments), eventId, newUserIds)|
                          + |UsersToAdd(old(db.assignments), eventId, newUserIds)|
    ensures forall u :: IsUserAssignedToEvent(db.assignments, u, eventId) <==> u in newUserIds
    ensures forall other :: other != eventId ==> RowsOf(db.assignments, other) == RowsOf(old(db.assignments), other)
  {
    ghost var before := db.assignments;
    var currentUserIds := GetCurrentAssignments(db.assignments, eventId);
    var usersToAdd := Difference(newUserIds, currentUserIds);
    var usersToRemove := Difference(currentUserIds, newUserIds);
    var ids := FreshIds(AssignmentIds(db.assignments), |usersToAdd|);
    var newAssignments := NewAssignments(ids, usersToAdd, eventId, assignedBy);
    assert usersToAdd == UsersToAdd(before, eventId, newUserIds);
    assert usersToRemove == UsersToRemove(before, eventId, newUserIds);

    totalChanges := 0;
    if |usersToRemove| > 0 {
      DeleteRows(db, eventId, usersToRemove);
      totalChanges := totalChanges + |usersToRemove|;
    } else {
      FilterKeepsAll(db.assignments, KeepPredicate(eventId, usersToRemove));
    }
    if |usersToAdd| > 0 {
      InsertRows(db, newAssignments);
      totalChanges := totalChanges + |usersToAdd|;
    } else {
      assert db.assignments + newAssignments == db.assignments;
    }
    assert db.assignments == KeepRows(before, eventId, usersToRemove) + newAssignments;
    assert db.assignments == SyncedTable(before, eventId, assignedBy, newUserIds);
    SyncedTableFacts(before, eventId, assignedBy, newUserIds);
  }

  /** The sync's delete: the rows of `eventId` whose user is in `removed` go. */
  method DeleteRows(db: Db, eventId: string, removed: seq<string>)
    modifies db
    ensures db.assignments == KeepRows(old(db.assignments), eventId, removed)
    ensures db.users == old(db.users) && db.events == old(db.events) && db.ratings == old(db.ratings)
  {
    db.assignments := KeepRows(db.assignments, eventId, removed);
  }

  /** The sync's insert: the new rows go after the existing ones. */
  method InsertRows(db: Db, rows: seq<Assignment>)
    modifies db
    ensures db.assignments == old(db.assignments) + rows
    ensures db.users == old(db.users) && db.events == old(db.events) && db.ratings == old(db.ratings)
  {
    db.assignments := db.assignments + rows;
  }

  /** The table the sync leaves behind keeps its ids unique, assigns exactly
      the desired users and leaves every other event's rows alone. */
  lemma SyncedTableFacts(rows: seq<Assignment>, eventId: string, assignedBy: string, newUserIds: seq<string>)
    requires Distinct(AssignmentIds(rows))
    ensures Distinct(AssignmentIds(SyncedTable(rows, eventId, assignedBy, newUserIds)))
    ensures forall u :: IsUserAssignedToEvent(SyncedTable(rows, eventId, assignedBy, newUserIds), u, eventId) <==> u in newUserIds
    ensures forall other :: other != eventId ==>
      RowsOf(SyncedTable(rows, eventId, assignedBy, newUserIds), other) == RowsOf(rows, other)
  {
    var ids := FreshIds(AssignmentIds(rows), |UsersToAdd(rows, eventId, newUserIds)|);
    SyncAssignsExactlyDesired(rows, eventId, assignedBy, newUserIds, ids);
    SyncKeepsIdsDistinct(rows, eventId, assignedBy, newUserIds, ids);
    forall other | other != eventId
      ensures RowsOf(Synced(rows, eventId, assignedBy, newUserIds, ids), other) == RowsOf(rows, other)
    {
      SyncLeavesOtherEvents(rows, eventId, assignedBy, newUserIds, ids, other);
    }
  }
}
