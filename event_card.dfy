/** An event card: restaurant and date, the average when it may be shown,
    and either the rate button for an assigned user who has not rated yet
    or one row per assigned user. */
module EventCard {

  import opened Wrappers
  import opened EventCardUserRating

  /** The event as the card reads it; the lists and the average are optional. */
  datatype CardEvent = CardEvent(
    id: string,
    restaurant: string,
    ratings: Option<seq<CardRating>>,
    averageRating: Option<real>,
    assignedUsers: Option<seq<CardUser>>)

  /** `assignedUsers?.some(...)`: the viewer is among the assigned users. */
  predicate IsUserAssigned(e: CardEvent, currentUserId: string) {
    e.assignedUsers.Some? && exists u :: u in e.assignedUsers.value && u.id == currentUserId
  }

  /** `find`: the first rating of `userId`, if any. */
  function FirstRating(ratings: seq<CardRating>, userId: string): (r: Option<CardRating>)
    ensures r.None? <==> forall x :: x in ratings ==> x.userId != userId
    ensures r.Some? ==> r.value.userId == userId
    ensures r.Some? ==>
      exists k :: (0 <= k < |ratings| && ratings[k] == r.value && forall j :: 0 <= j < k ==> ratings[j].userId != userId)
  {
    if ratings == [] then None
    else if ratings[0].userId == userId then Some(ratings[0])
    else
      var r := FirstRating(ratings[1..], userId);
      assert forall x :: x in ratings ==> x == ratings[0] || x in ratings[1..];
      if r.Some? then
        var k :| 0 <= k < |ratings[1..]| && ratings[1..][k] == r.value && r.value.userId == userId
          && forall j :: 0 <= j < k ==> ratings[1..][j].userId != userId;
        assert ratings[k + 1] == r.value;
        assert forall j :: 0 <= j < k + 1 ==> ratings[j].userId != userId by {
          forall j | 0 <= j < k + 1 ensures ratings[j].userId != userId {
            if j > 0 {
              assert ratings[j] == ratings[1..][j - 1];
            }
          }
        }
        r
      else r
  }

  /** `ratings?.find(...)` on the optional list. */
  function UserRating(e: CardEvent, userId: string): (r: Option<CardRating>)
    ensures r.None? <==> e.ratings.None? || forall x :: x in e.ratings.value ==> x.userId != userId
  {
    if e.ratings.None? then None else FirstRating(e.ratings.value, userId)
  }

  /** The viewer is assigned and has not rated this event. */
  predicate HasUnratedAssignment(e: CardEvent, currentUserId: string) {
    IsUserAssigned(e, currentUserId) && UserRating(e, currentUserId).None?
  }

  /** The average is worth showing: present and positive. */
  predicate ShowAverageRating(e: CardEvent) {
    e.averageRating.Some? && e.averageRating.value > 0.0
  }

  datatype Body = RateButton | UserRows(rows: seq<UserRatingView>) | Empty

  datatype CardView = CardView(average: Option<real>, body: Body)

  /** The row of one assigned user; the card passes no `hideRatings`, so
      ratings are never hidden here. */
  function RowOf(e: CardEvent, currentUserId: string, user: CardUser): UserRatingView {
    UserRatingRow(user, UserRating(e, user.id), user.id == currentUserId, false)
  }

  /** `EventCard`'s rendering decisions. */
  function Render(e: CardEvent, currentUserId: string): (v: CardView)
    ensures v.average.Some? <==> !HasUnratedAssignment(e, currentUserId) && ShowAverageRating(e)
    ensures v.average.Some? ==> v.average == e.averageRating
    ensures v.body == RateButton <==> HasUnratedAssignment(e, currentUserId)
    ensures v.body.UserRows? <==>
      !HasUnratedAssignment(e, currentUserId) && e.assignedUsers.Some? && |e.assignedUsers.value| > 0
    ensures v.body.UserRows? ==>
      && |v.body.rows| == |e.assignedUsers.value|
      && forall k :: 0 <= k < |v.body.rows| ==>
           v.body.rows[k] == RowOf(e, currentUserId, e.assignedUsers.value[k])
  {
    var hasUnrated := HasUnratedAssignment(e, currentUserId);
    var average := if !hasUnrated && ShowAverageRating(e) then e.averageRating else None;
    var body :=
      if hasUnrated then RateButton
      else if e.assignedUsers.Some? && |e.assignedUsers.value| > 0 then
        UserRows(seq(|e.assignedUsers.value|, k requires 0 <= k < |e.assignedUsers.value| =>
          RowOf(e, currentUserId, e.assignedUsers.value[k])))
      else Empty;
    CardView(average, body)
  }

  /** Because the card never hides ratings, no row shows the checkmark:
      every rated user with a positive score shows that score. */
  lemma CardRowsNeverShowCheckmark(e: CardEvent, currentUserId: string)
    ensures Render(e, currentUserId).body.UserRows? ==>
      forall k :: 0 <= k < |Render(e, currentUserId).body.rows| ==>
        !Render(e, currentUserId).body.rows[k].status.Checkmark?
  {
  }

  /** A viewer who has rated, or is not assigned, never sees the rate button. */
  lemma RatedViewerSeesNoRateButton(e: CardEvent, currentUserId: string, r: CardRating)
    requires e.ratings.Some? && r in e.ratings.value && r.userId == currentUserId
    ensures Render(e, currentUserId).body != RateButton
  {
  }
}
