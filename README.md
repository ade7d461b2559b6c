# eat-happens business logic in Dafny

eat-happens is a small web app for a group that goes out to eat together.
Admins create restaurant events and assign members to them. Assigned members
rate an event once, on food, ambience and price/performance. The app shows
event cards, a ranking, the year's ranking, a cost table and statistics.

This project models the app's business layer, as it sits in the services,
the server actions, the two event dialogs, the event card and the small
string and routing helpers:

- **Database.** The tables `user`, `event`, `event_assignment` and `rating`
  are sequences of records inside the class `Database.Db`. `Db.Valid()`
  says every primary key is unique and no user rated an event twice (the
  `rating_user_event_idx` constraint). Every state-changing method keeps
  `Valid()`.
- **Ids.** `nanoid` becomes the deterministic oracle `Database.FreshIds`.
  It returns ids that are distinct and unused.
- **Queries.** A query becomes a function over the tables. `ORDER BY`
  becomes the insertion sort `Sorting.SortBy` under a total
  preorder. Postgres puts NULLs first in descending order and last in
  ascending order, and the orders follow that.
- **Sessions.** The session is an input value, `Option<SessionUser>`.
- **Actions.** A server action ends in `Records.Outcome`:
  - `Done`: it returned a value;
  - `Redirect`: Next.js `redirect`;
  - `Thrown`: an `Error` with its message;
  - `Rejected`: a zod `parse` failure, with its issues.
- **Dialogs.** The edit and create dialogs are classes. Their fields are
  the React state the handlers update.
- **Pure components.** The card, the initials helpers and the middleware
  are functions.

The main properties proved:

- **Assignment sync.** `updateEventAssignments` leaves the event assigned
  to exactly the desired users. It touches only that event's rows and keeps
  the rows of users who stay. It returns the number of rows it changed.
  That number is zero iff the desired set equals the current set, so a
  repeated call returns zero.
- **Dialog preview.** The edit dialog's badges predict exactly the sync's
  additions and removals.
- **Pending-changes notice.** For duplicate-free lists, the notice shows
  exactly when the sync will report changes. A lemma gives two lists with a
  repeated id where the notice and the sync disagree.
- **Ratings.** `saveRating` refuses a second rating by the same user for
  the same event. When it inserts, the user has exactly one rating for the
  event afterwards. `saveRatingAction` checks, in order:
  1. that there is a session;
  2. the schema;
  3. the assignment;
  4. whether the user already rated.
- **Orders.** The year ranking, the cost table and `getEvents` are ordered
  as their `ORDER BY` clauses say. Each holds exactly one row per qualifying
  event. Averages are exact means that ignore NULL scores.
- **Ranking page.** It sorts its array in place by average (descending),
  then by number of ratings. The result is a sorted permutation.
- **Statistics.** The five-bucket histogram counts each in-range rating
  once. The top and worst restaurants are the extremes of the restaurants
  with at least three ratings. The most active user has the highest rating
  count.
- **Small helpers.**
  - Initials are at most two characters under the modelled a-z case
    mapping.
  - Score and checkmark never show together.
  - The middleware's redirect target is public, so redirects cannot loop.

Points where the model follows details of the code:

- **Update action.** Its schema has no `totalCost`, so zod strips a
  submitted cost before `updateEvent` sees it (`EventActions.Stripped`).
- **`src/db/schema.ts`.** It shows an older table layout (one `score`
  column, no `event_assignment`). The tables follow what the services read
  and write: `totalCost` on events, the legacy score plus three category
  scores on ratings, and an assignment table.
- **Ranking page and event card.** Both read `averageRating` and a rating's
  `score`. The `EventWithDetails` that `getEvents` builds has neither.
  - **Ranking page.** In the real app, `averageRating ?? 0` is 0 for every
    event, so the page orders by the number of ratings alone. The model
    states the intended comparator on its own view record, with an optional
    average (`RankingPage.RankedEvent`).
  - **Event card.** It is modelled on its own view record
    (`EventCard.CardEvent`).
- **`hideRatings`.** The card never passes `hideRatings` to a user row, so
  on the card a rated user never shows the checkmark
  (`EventCard.CardRowsNeverShowCheckmark`).
- **Statistics with null scores.** With nullable scores, a restaurant that
  qualifies by count but has only NULL scores sorts first under `DESC` and
  is shown with average 0 (`Statistics.UnscoredRestaurantIsTop`).

## Model

| member | source | states |
|---|---|---|
| Assignments.RowsOf | src/services/assignments.ts:50-54 | a row is selected iff it is in the table and belongs to the event |
| Assignments.IsUserAssignedToEvent | src/services/assignments.ts:7-15 | true iff some row has both the user id and the event id |
| Assignments.GetCurrentAssignments | src/services/assignments.ts:50-57 | one id per row of the event; an id occurs iff that user is assigned to the event |
| Assignments.GetAllConfirmedUsers | src/services/assignments.ts:34-48 | every returned user is confirmed; every confirmed user appears with the selected columns; nothing else appears |
| Assignments.Difference | src/services/assignments.ts:64-65 | keeps exactly the elements of the first list that are not in the second |
| Assignments.NewAssignments | src/services/assignments.ts:22-27 | one row per user id, in order, each with the drawn id, the event and `assignedBy` |
| Assignments.AssignMultipleUsers | src/services/assignments.ts:17-32 | appends exactly those rows with fresh ids, no deduplication; other tables unchanged; keys stay unique |
| Assignments.UpdateEventAssignments | src/services/assignments.ts:59-95 | new table is the synced table; result is \|removed\| + \|added\|; a user is assigned to the event iff desired; other events' rows unchanged |
| Assignments.DeleteRows | src/services/assignments.ts:70-77 | the event's rows of the removed users go, every other row stays in order, the other tables are untouched |
| Assignments.InsertRows | src/services/assignments.ts:82-90 | the new rows follow the existing ones, the other tables are untouched |
| Assignments.SyncedTableFacts | src/services/assignments.ts:59-95 | the synced table keeps assignment ids unique, assigns exactly the desired users and leaves other events' rows alone |
| Assignments.SyncAssignsExactlyDesired | src/services/assignments.ts:69-92 | after delete and insert, the users assigned to the event are exactly the desired ids |
| Assignments.SyncAssignsDesired | src/services/assignments.ts:69-92 | every desired user is assigned after the sync, through a kept row or an inserted one |
| Assignments.SyncAssignsOnlyDesired | src/services/assignments.ts:69-92 | a user assigned after the sync is a desired one |
| Assignments.KeptRowIsDesired | src/services/assignments.ts:65-77 | a row of the event that survives the delete belongs to a desired user |
| Assignments.AddedRowIsDesired | src/services/assignments.ts:64-90 | an inserted row belongs to a desired user |
| Assignments.SyncLeavesOtherEvents | src/services/assignments.ts:71-77 | the rows of every other event are the same, in the same order |
| Assignments.SyncKeepsStayersDropsLeavers | src/services/assignments.ts:64-77 | a row of a user still desired survives; a row of a user no longer desired is gone |
| Assignments.ChangeCountZeroIff | src/services/assignments.ts:64-67 | the change count is zero iff the desired ids and the assigned ids are the same set |
| Assignments.SyncIsIdempotent | src/services/assignments.ts:59-95 | a second sync with the same list finds nothing to add or remove |
| Assignments.SyncKeepsIdsDistinct | src/services/assignments.ts:83-90 | inserting rows with fresh distinct ids keeps the primary key unique |
| Assignments.NewAssignmentIds | src/services/assignments.ts:22-27 | the inserted rows carry exactly the drawn ids, in order |
| Assignments.AssignmentIdsConcat | src/services/assignments.ts:29 | the ids of an appended table are the old ids followed by the new |
| AssignmentActions.CheckUserAssignmentAction | src/actions/assignments.ts:8-27 | redirects to /login iff there is no session; otherwise answers whether the caller is assigned |
| AssignmentActions.GetAllConfirmedUsersAction | src/actions/assignments.ts:29-52 | redirect without a session, the German admin error for non-admins, otherwise the service's complete list: only confirmed users, and every confirmed user with the selected columns |
| AssignmentActions.GetCurrentAssignmentsAction | src/actions/assignments.ts:54-77 | redirect without a session, the German admin error for non-admins, otherwise exactly the assigned user ids |
| Database.FreshIds | src/services/assignments.ts:23 | n distinct ids, none of them already used |
| Database.Db.constructor | src/db/schema.ts:95-113 | an empty application with its users satisfies the key and one-rating-per-user-and-event invariant |
| Records.Scores | src/services/events.ts:32-39 | at most one value per rating |
| Records.ScoresMembers | src/services/events.ts:33 | the values are exactly the non-null scores of the field; empty iff every rating leaves it null |
| Schemas.ScoreIssues | src/lib/schemas.ts:3-6 | no issue iff 1 ≤ score ≤ 5; the too-small or too-big message otherwise |
| Schemas.NonEmptyIssues | src/lib/schemas.ts:15 | no issue iff the string is non-empty; otherwise exactly the given message |
| Schemas.ScoreSchema | src/lib/schemas.ts:3-6 | accepts exactly the scores in [1, 5], fractions included |
| Schemas.RatingSchema | src/lib/schemas.ts:8-12 | accepts iff all three category scores are in range |
| Schemas.CreateRatingSchema | src/lib/schemas.ts:14-16 | accepts iff the three scores are in range and the event id is non-empty |
| Schemas.FractionalScoreAccepted | src/lib/schemas.ts:3-6 | 2.5 is accepted and 0.5 is rejected as too small: there is no integer constraint |
| Schemas.OutOfRangeMessagesDiffer | src/lib/schemas.ts:5-6 | a score below 1 and one above 5 are rejected with different issues |
| RatingService.HasRated | src/services/ratings.ts:18-22 | true iff the table holds a rating by the user for the event |
| RatingService.AtMostOneRatingPerUserAndEvent | src/db/schema.ts:110 | under the unique constraint, a user has at most one rating for an event |
| RatingService.RatingIdsConcat | src/services/ratings.ts:29-39 | appending ratings appends their ids |
| RatingService.RatedOnce | src/db/schema.ts:110 | under the unique constraint, a user who rated an event has exactly one rating of it |
| RatingService.AppendKeepsOneRating | src/services/ratings.ts:26-39 | inserting a rating for a pair that has none keeps the unique constraint |
| RatingService.SaveRating | src/services/ratings.ts:14-42 | an existing rating throws the German "already rated" error and changes nothing; otherwise inserts one rating with a fresh id, legacy score null, the three scores given; afterwards exactly one rating by the user for the event |
| RatingService.RatingsOfEvent | src/services/ratings.ts:56 | exactly the ratings joined to the event |
| RatingService.RankingRow | src/services/ratings.ts:48-65 | id and restaurant of the event; count of all its ratings; average null iff no legacy score, else the exact mean of the legacy scores |
| RatingService.RankingOrderIsTotalPreorder | src/services/ratings.ts:59 | average descending with NULLs first, then count descending, is a total preorder |
| RatingService.Get2025Ratings | src/services/ratings.ts:44-66 | one row per event of 2025, sorted by the ranking order |
| RatingService.Get2025RatingsRows | src/services/ratings.ts:55-58 | every row is the ranking row of a 2025 event, and every 2025 event has its row |
| RatingService.Get2025RatingsOrder | src/services/ratings.ts:59 | averages never rise down the list (NULLs first); equal averages keep counts non-increasing |
| RatingService.CostRow | src/services/ratings.ts:93-103 | attendees are the event's assignment rows; cost per person present iff a non-zero cost and attendees, and then cost per person × attendees = total cost |
| RatingService.CostOrderIsTotalPreorder | src/services/ratings.ts:88-91 | events with a cost first, then cost per attendee descending with NULLs first, is a total preorder |
| RatingService.GetAllEventCosts | src/services/ratings.ts:76-104 | one row per event up to today, sorted by the cost order |
| RatingService.GetAllEventCostsRows | src/services/ratings.ts:84-87 | every row is the cost row of an event up to today, and every such event has its row |
| RatingService.CostPerPersonIsSortKey | src/services/ratings.ts:90-101 | a present cost per person equals the SQL sort key `totalCost / NULLIF(count, 0)` |
| RatingService.CostRowsInOrder | src/services/ratings.ts:88-91 | of two grouped rows in cost order, the first has a total cost if the second has, and the higher cost per person where both have one |
| RatingService.GetAllEventCostsOrder | src/services/ratings.ts:88-91 | events without cost come last; among costed events the cost per person never rises |
| RatingActions.CreateRatingIssues | src/actions/ratings.ts:12-19 | no issue iff the event id is non-empty and all scores are in range; an empty event id is the first issue |
| RatingActions.ActionAndFormAcceptTheSame | src/actions/ratings.ts:12-19 | the action's schema and the form's schema accept the same data |
| RatingActions.ActionMessagesDifferFromForm | src/actions/ratings.ts:12 | a too-small score gets the action's own message, which differs from the form's |
| RatingActions.SaveRatingAction | src/actions/ratings.ts:21-54 | redirect without session; rejection on invalid data; "only assigned events" error when not assigned; then the service's outcome; a rating is inserted iff every check passes and none existed; otherwise the ratings are unchanged |
| EventService.CalculateAverage | src/services/events.ts:32-39 | missing iff no rating has the field; otherwise average × number of non-null scores = their sum |
| EventService.CalculateAverageBounds | src/services/events.ts:32-39 | the average of scores within [lo, hi] lies within [lo, hi] |
| EventService.NullScoreDoesNotCount | src/services/events.ts:33 | adding a rating whose field is null leaves the average unchanged |
| EventService.UserById | src/services/events.ts:17-21 | the joined user is in the user table and has the requested id |
| EventService.AssignedUsers | src/services/events.ts:61-65 | one user per assignment row, the row's user |
| EventService.NameOrderIsTotalPreorder | src/services/events.ts:66 | ordering by name, a missing name as "", is a total preorder |
| EventService.SortedAssignedUsers | src/services/events.ts:61-66 | one user per assignment row, sorted by name |
| EventService.SortedAssignedUsersAreAssigned | src/services/events.ts:61-66 | every listed user is a user assigned by some row |
| EventService.SortedAssignedUsersCoverRows | src/services/events.ts:61-66 | every assignment row's user is listed |
| EventService.EventDetails | src/services/events.ts:42-73 | the details are those of the given event |
| EventService.EventDetailsContents | src/services/events.ts:42-73 | exactly the event's ratings and assignments; totalRatings = number of ratings; users sorted by name, registered, assigned and covering the rows; each average is the field's average over the event's ratings |
| EventService.AllDetails | src/services/events.ts:42 | one details record per event, in order |
| EventService.GetEvents | src/services/events.ts:7-74 | one details record per event, each the details of its own event |
| EventService.GetEventsLatestFirst | src/services/events.ts:10 | dates never increase down the list |
| EventService.GetEventsListsTableEvents | src/services/events.ts:9-23 | every listed event is an event of the table |
| EventService.GetEventsListsEveryEvent | src/services/events.ts:9-23 | every event of the table is listed |
| EventService.EventIdsConcat | src/services/events.ts:79-87 | appending events appends their ids |
| EventService.CreateEvent | src/services/events.ts:76-90 | appends one event with a fresh id and the given fields; other tables unchanged |
| EventService.Patched | src/services/events.ts:93 | the id is kept |
| EventService.PatchSetsOnlySupplied | src/services/events.ts:93 | fields not supplied keep their value; the empty patch changes nothing; patching twice equals patching once |
| EventService.PatchEvents | src/services/events.ts:93 | only the row with the id is patched; the ids are unchanged |
| EventService.PatchMissingIsNoOp | src/services/events.ts:93-97 | an update of a missing id changes nothing |
| EventService.FindEvent | src/services/events.ts:93-99 | missing iff no event has the id; otherwise an event of the table with that id |
| EventService.UpdateEvent | src/services/events.ts:92-100 | the table is patched at the id; null iff the id is missing; otherwise the patched event; other tables unchanged |
| EventActions.UpdateEventIssues | src/actions/events.ts:17-20 | no issue iff the restaurant is not supplied as "" |
| EventActions.Stripped | src/actions/events.ts:41 | the parsed update carries no cost |
| EventActions.UpdateKeepsTotalCost | src/actions/events.ts:17-20 | an update through the action never changes an event's cost or id |
| EventActions.UpdateEventWithAssignmentsAction | src/actions/events.ts:22-65 | redirect, admin error, rejection, then "Failed to update event" for a missing event, each before any write; when done, the event is patched and, iff a list was sent, the assignments are synced to exactly that list with the sync's change count |
| EventActions.CreateEventIssues | src/actions/events.ts:11-15 | no issue iff the restaurant is non-empty |
| EventActions.CreateEventWithAssignmentsAction | src/actions/events.ts:67-108 | the same gate; when done, one new event with no cost, and for a non-empty list one row per id with the caller as assignedBy; assignedCount = number of rows |
| Selection.Toggled | src/components/edit-event-dialog.tsx:111-113 | flips the user's membership and no one else's; an unselected user is appended at the end |
| Selection.ToggleTwice | src/components/edit-event-dialog.tsx:111-113 | toggling twice restores who is selected, and the list itself when the user was not selected |
| Selection.ToggleKeepsDistinct | src/components/edit-event-dialog.tsx:111-113 | a duplicate-free selection stays duplicate-free |
| Selection.SelectAll | src/components/edit-event-dialog.tsx:115-117 | the loaded users' ids, in order |
| Selection.Badges | src/components/edit-event-dialog.tsx:231-233 | "will be added" iff selected and not initial; "will be removed" iff initial and not selected; "currently assigned" iff both |
| Selection.BadgesExclusive | src/components/edit-event-dialog.tsx:249-268 | a change badge and "currently assigned" never show together |
| Selection.BadgesPreviewSync | src/components/edit-event-dialog.tsx:249-256 | with the loaded assignments as initial list, the badges name exactly the sync's additions and removals |
| Selection.PendingChangesIffDiff | src/components/edit-event-dialog.tsx:278-285 | for duplicate-free lists the notice shows iff the sync would report a change |
| Selection.PendingChangesMissesDuplicates | src/components/edit-event-dialog.tsx:278-279 | ["a", "a"] against ["a", "b"] shows no notice though "b" would be removed |
| Selection.FormIssues | src/components/edit-event-dialog.tsx:33-37 | no issue iff restaurant and date are filled; each missing one is reported |
| Selection.FailureFeedback | src/components/edit-event-dialog.tsx:103-108 | a thrown message becomes the error toast, a redirect navigates, a server rejection shows its issues |
| EditEventDialog.UpdateSuccessMessage | src/components/edit-event-dialog.tsx:98-102 | the change count appears iff it is positive |
| EditEventDialog.UpdateRequest | src/components/edit-event-dialog.tsx:84-92 | always sends the current selection, and no cost |
| EditEventDialog.Dialog.constructor | src/components/edit-event-dialog.tsx:45-51 | nothing loaded, nothing selected |
| EditEventDialog.Dialog.LoadData | src/components/edit-event-dialog.tsx:60-82 | for an admin: the confirmed users, and selection and initial list both the current assignments; otherwise unchanged and the load error |
| EditEventDialog.Dialog.HandleUserToggle | src/components/edit-event-dialog.tsx:111-113 | the selection becomes the toggled selection; a duplicate-free one stays so |
| EditEventDialog.Dialog.HandleSelectAll | src/components/edit-event-dialog.tsx:115-117 | the selection becomes all loaded ids |
| EditEventDialog.Dialog.HandleDeselectAll | src/components/edit-event-dialog.tsx:119-121 | the selection becomes empty |
| EditEventDialog.Dialog.RowBadges | src/components/edit-event-dialog.tsx:230-268 | the row's badges from the current selection and the initial list |
| EditEventDialog.FormPatch | src/components/edit-event-dialog.tsx:86-90 | the form's restaurant and date, with the cost left alone |
| EditEventDialog.SendUpdate | src/components/edit-event-dialog.tsx:85-92 | the update succeeds iff the session is an admin's and the event exists; then the event is patched with the form's values, the reported count is the sync's, the table is the admin's sync with the selection, exactly the selection is assigned and every other event keeps its rows; a failure changes no table; users and ratings never change |
| EditEventDialog.UpdateFeedback | src/components/edit-event-dialog.tsx:97-107 | a success toast exactly when the update was done, with the message for the reported count; otherwise the failure feedback |
| EditEventDialog.SubmitValidForm | src/components/edit-event-dialog.tsx:84-109 | for a valid form: an admin's update of an existing event gives the success toast with the sync's count, patches the event, syncs the table with the selection, assigns exactly the selection and keeps every other event's rows; otherwise no success and no table changes; users and ratings never change |
| EditEventDialog.Submit | src/components/edit-event-dialog.tsx:84-109 | an invalid form is reported without touching the database; otherwise as SubmitValidForm |
| EditEventDialog.Dialog.OnSubmit | src/components/edit-event-dialog.tsx:84-109 | an invalid form is reported without a request; an admin's valid update succeeds with the sync's count in the toast, patches the event's restaurant and date, syncs the table with the selection so the event has exactly the selected users while every other event keeps its rows; otherwise no table changes; users and ratings never change |
| EditEventDialog.OpenedDialogHasNoPendingChanges | src/components/edit-event-dialog.tsx:72-75 | right after loading, no notice and no change badge; "currently assigned" iff assigned |
| CreateEventDialog.CreateSuccessMessage | src/components/create-event-dialog.tsx:83-87 | the number of assigned users appears iff it is positive |
| CreateEventDialog.CreateRequest | src/components/create-event-dialog.tsx:69-73 | an empty selection is sent as no list, so nobody is assigned; otherwise the selection |
| CreateEventDialog.Dialog.constructor | src/components/create-event-dialog.tsx:108-115 | an empty restaurant and today's date, nothing selected; the date is kept as the mount-time default |
| CreateEventDialog.Dialog.LoadUsers | src/components/create-event-dialog.tsx:52-65 | for an admin the confirmed users; otherwise unchanged and the load error, which is also what the no-session redirect turns into |
| CreateEventDialog.Dialog.EnterValues | src/components/create-event-dialog.tsx:108-115 | the form holds what was typed |
| CreateEventDialog.Dialog.HandleUserToggle | src/components/create-event-dialog.tsx:96-98 | the selection becomes the toggled selection |
| CreateEventDialog.Dialog.HandleSelectAll | src/components/create-event-dialog.tsx:100-102 | the selection becomes all loaded ids |
| CreateEventDialog.Dialog.HandleDeselectAll | src/components/create-event-dialog.tsx:104-106 | the selection becomes empty |
| CreateEventDialog.Dialog.OnSubmit | src/components/create-event-dialog.tsx:67-94 | an invalid form is reported without a request; an admin's valid form creates one event with the form's values and no cost, keeps every existing assignment row in place, appends one row per selected user, assigns every selected user and reports their number; form and selection are reset only after success, the form to the mount-time defaults; users and ratings never change |
| EventCardUserRating.ScoreAndCheckmarkExclusive | src/components/event-card-user-rating.tsx:30-31 | score and checkmark never both show |
| EventCardUserRating.UserRatingRow | src/components/event-card-user-rating.tsx:25-56 | name or else e-mail; initials from the name; stars iff showScore, checkmark iff showCheckmark, "Noch nicht bewertet" iff neither |
| EventCardUserRating.UnratedRowsSayNotYetRated | src/components/event-card-user-rating.tsx:30-52 | without a rating, or with a non-positive visible score, the row says "Noch nicht bewertet" |
| EventCard.FirstRating | src/components/event-card.tsx:19 | missing iff no rating of the user; otherwise the user's first rating in list order |
| EventCard.UserRating | src/components/event-card.tsx:19 | missing iff there is no list or no rating of the user |
| EventCard.Render | src/components/event-card.tsx:17-63 | average shown iff no unrated assignment and a positive average; rate button iff unrated assignment; otherwise one row per assigned user with that user's first rating |
| EventCard.CardRowsNeverShowCheckmark | src/components/event-card.tsx:48-55 | the card passes no hideRatings, so no row shows the checkmark |
| EventCard.RatedViewerSeesNoRateButton | src/components/event-card.tsx:19-20 | a viewer with a rating never gets the rate button |
| UserNames.Initials | src/lib/user.ts:1-12 | "?" for a missing or empty name; never more than two characters under the modelled a-z upper-casing |
| UserNames.SingleWordInitial | src/lib/user.ts:6-11 | a name without a space yields its upper-cased first character |
| UserNames.TwoWordInitials | src/lib/user.ts:6-11 | two words yield both upper-cased first characters |
| UserNames.EmptyPieceContributesNothing | src/lib/user.ts:7-10 | a double space makes an empty second piece: one character, and the third word is not read |
| UserUtils.FullName | src/lib/user-utils.ts:4-16 | "first last", the one name given, or "User"; never empty |
| UserUtils.GetUserInitials | src/lib/user-utils.ts:21-36 | "U" without names; otherwise, under the modelled a-z upper-casing, one or two characters, two iff both names, first name's initial first, last name's last, upper-cased |
| Middleware.Gate | src/middleware.ts:5-19 | public prefixes pass; otherwise a missing or empty cookie redirects to /login; passes iff public or a non-empty cookie |
| Middleware.RedirectCannotLoop | src/middleware.ts:3-15 | the redirect target is public, so a redirected request passes |
| Middleware.PrefixMatchExamples | src/middleware.ts:8 | "/loginx" passes by prefix; "/" and "/log" need a cookie |
| RankingPage.RanksNoLaterMeans | src/app/ranking/page.tsx:9-22 | a ranks no later than b iff higher average, or equal average and no fewer ratings; a missing value counts as 0 |
| RankingPage.HigherRanksFirst | src/app/ranking/page.tsx:13-21 | a higher average, or an equal one with more ratings, sorts strictly first |
| RankingPage.RanksNoLaterTransitive | src/app/ranking/page.tsx:9-22 | the comparator is transitive |
| RankingPage.RanksNoLaterTotal | src/app/ranking/page.tsx:9-22 | the comparator is total |
| RankingPage.SortRanking | src/app/ranking/page.tsx:9-22 | sorts the same array in place into ranking order, as a permutation of its contents |
| RankingPage.SinkInto | src/app/ranking/page.tsx:9-22 | one insertion pass: the ranked prefix grows by one, as a permutation of the array |
| Statistics.CountScore | src/services/statistics.ts:31-38 | never more than the number of ratings |
| Statistics.RatingDistribution | src/services/statistics.ts:40-44 | five buckets for 5 down to 1, each the count of ratings with that score |
| Statistics.TotalOfFive | src/services/statistics.ts:41-44 | the histogram total is the sum of its five counts |
| Statistics.DistributionCountsEachRatingOnce | src/services/statistics.ts:31-44 | the buckets never count more than all ratings, and count all of them when every score is 1 to 5 |
| Statistics.AverageRating | src/services/statistics.ts:28 | 0 without scores; otherwise average × number of scores = their sum |
| Statistics.JoinRatings | src/services/statistics.ts:53-54 | each joined row is a rating of an existing event with its restaurant; every rating of an existing event is joined |
| Statistics.GroupOf | src/services/statistics.ts:47-55 | the restaurant's row count and the mean of its scores |
| Statistics.Dedup | src/services/statistics.ts:55 | each restaurant once |
| Statistics.JoinKeepsEachRatingOnce | src/services/statistics.ts:53-54 | the joined rows carry exactly the ratings whose event exists, each once and in table order |
| Statistics.QualifyingGroupsExactly | src/services/statistics.ts:55-56 | a restaurant's group is listed iff at least three joined rows carry its name; by JoinKeepsEachRatingOnce, one row per rating of an existing event |
| Statistics.EnoughRatingsQualify | src/services/statistics.ts:56 | a restaurant with three joined rows or more, that is three ratings of its events, is listed |
| Statistics.QualifyingAreGroups | src/services/statistics.ts:55-56 | every listed group is its restaurant's group and qualifies |
| Statistics.Top | src/services/statistics.ts:57-58 | missing iff no group; otherwise a group no other precedes, NULLs first |
| Statistics.Worst | src/services/statistics.ts:71-72 | missing iff no group; otherwise a group with the lowest average, NULLs last |
| Statistics.TopAndWorstBound | src/services/statistics.ts:47-72 | both are missing iff no restaurant qualifies; with all averages present, worst ≤ top |
| Statistics.UnscoredRestaurantIsTop | src/services/statistics.ts:102-107 | a qualifying restaurant without scores is top and shown with average 0 |
| Statistics.RatingCount | src/services/statistics.ts:81-86 | never more than the number of ratings |
| Statistics.ActiveUserName | src/services/statistics.ts:116-119 | "first last" when both are truthy, else the name, else "Unbekannt" |
| Statistics.MostActive | src/services/statistics.ts:75-87 | missing iff nobody rated; otherwise a user with the highest rating count |
| Statistics.MostActiveUser | src/services/statistics.ts:114-122 | missing iff nobody rated; otherwise a user's name and count, and no user has more |
| Statistics.GetStatistics | src/services/statistics.ts:17-125 | the totals are the table sizes; events this year are the number of events dated on or after January 1, zero iff none is; the average, the five buckets, top, worst and most active user are the proved query results over the joined ratings and qualifying groups; no ratings give average 0 and no active user |
| Statistics.EventsThisYearZeroIff | src/services/statistics.ts:92-94 | the year's event count is zero iff no event is dated on or after the start of the year |
| Seqs.Mean | src/services/events.ts:38 | missing iff no values; otherwise mean × count = sum |
| Seqs.MeanBounds | src/services/events.ts:38 | the mean of values in [lo, hi] is in [lo, hi] |
| Sorting.SortBySorted | src/services/events.ts:10 | the sort yields an ordered list under any total preorder |
| Sorting.SortByMembers | src/services/events.ts:10 | sorting keeps exactly the given elements |
| Text.Split | src/lib/user.ts:7 | pieces contain no separator and join back to the input |
| Text.LexLeqTotal | src/services/events.ts:66 | the name order is total |
| Text.LexLeqTransitive | src/services/events.ts:66 | the name order is transitive |

## Left out

- Rendering, icons, charts, tables, layouts and menus are left out. So are
  the dialogs' open/close state, `router.refresh` and `revalidatePath`.
  They are presentation with no stated behaviour.
- Authentication (better-auth) is left out. The session is an input value,
  and the middleware gets the session cookie's value as an input.
- The ORM and Postgres are replaced by in-memory tables. Foreign-key and
  unique-constraint failures are not modelled, and neither is drizzle's
  error on an empty `set({})` or `values([])`. Ties in `ORDER BY` that SQL
  leaves in any order come out in the one order the insertion sort gives;
  the model promises nothing about the order among tied rows.
- EventService.GetEvents, EventDetails and AllDetails, and the lemmas about
  them, take the assignments' foreign key to users as a precondition
  (`EventService.AssignmentsReferenceUsers`), since the code reads
  `a.user.image` from the join (src/services/events.ts:58-63) and relies on
  the database to keep every row's user. `Db.Valid` does not carry that key,
  and the sync inserts rows without looking the users up.
- `nanoid` is modelled as the deterministic oracle `Database.FreshIds`.
  Random ids are not modelled.
- Dates become integer timestamps. The windows a query derives from the
  clock through dayjs or `Date` are parameters: the bounds of 2025, the
  start of today, the start of the year, and the create dialog's default
  date. `new Date(date)` parsing of the form's date string is not modelled.
- Scores, averages and costs are exact reals. IEEE rounding, `toFixed`,
  `Number()` of Postgres numerics and currency formatting are not modelled.
- `localeCompare` is replaced by character-code order (`Text.LexLeq`),
  because locale collation is not available.
- `toUpperCase` is modelled for a-z only. Unicode case mapping is not
  available.
- UserNames.Initials and UserUtils.GetUserInitials: their bound of two
  characters rests on that a-z upper-casing. JavaScript's `toUpperCase` can
  lengthen a string ("ß" becomes "SS"), so the code itself can return more
  than two characters.
- Errors the database could raise inside the `try` blocks of the actions
  are left out. So are the catch-all messages they would produce ("Failed
  to create event", "Bewertung konnte nicht gespeichert werden", "Failed to
  load users"). What stays modelled: "Event not found", turned into "Failed
  to update event", and the load errors the dialogs show when an action
  refuses.
- Concurrency is left out. The sync runs without a transaction, and the
  model runs it sequentially.
- The middleware's `config.matcher`, which exempts static assets, is left
  out. It is framework configuration.
- A server-side zod rejection is modelled by its issues
  (`Selection.FieldErrors`). The JSON text of a `ZodError`'s message is not
  modelled.
- In both dialogs, a redirect thrown while loading is reported like any
  other load failure. This covers the edit dialog's `loadData` and the
  create dialog's `loadUsers`, whose action redirects to /login without a
  session (src/actions/assignments.ts:35-37). The navigation is not
  modelled.
- `src/lib/ratings-visibility.ts` is not part of this model. It reads
  environment variables and the clock. So is
  `src/components/rating-dialog.tsx`, which belongs to an older version of
  the actions.
- EventCard.Render: the card's date formatting and the `toFixed(1)` of the
  average are not modelled; the view returns the raw average.
- Statistics.GetStatistics: the statistics read the rating's legacy score
  as `rating.score`. The result does not promise an order for ties in the
  top, worst or most active query; the model picks the first such row in
  table order.
