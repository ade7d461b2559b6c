/** One assigned user's row on an event card: name, avatar initials and
    either their score, a "rated" checkmark or "Noch nicht bewertet". */
module EventCardUserRating {

  import opened Wrappers
  import opened Text
  import UserNames

  const NotYetRatedLabel := "Noch nicht bewertet"
  const RatedLabel := "Bewertet"

  /** The card's view of a user and of a rating. */
  datatype CardUser = CardUser(id: string, name: Option<string>, email: string)
  datatype CardRating = CardRating(userId: string, score: real)

  /** The score is shown when there is a rating, ratings are not hidden or
      the row is the viewer's own, and the score is positive. */
  predicate ShowScore(userRating: Option<CardRating>, isCurrentUser: bool, hideRatings: bool) {
    userRating.Some? && (!hideRatings || isCurrentUser) && userRating.value.score > 0.0
  }

  /** The checkmark stands in for another user's rating while ratings are hidden. */
  predicate ShowCheckmark(userRating: Option<CardRating>, isCurrentUser: bool, hideRatings: bool) {
    userRating.Some? && hideRatings && !isCurrentUser
  }

  /** Score and checkmark never show together. */
  lemma ScoreAndCheckmarkExclusive(userRating: Option<CardRating>, isCurrentUser: bool, hideRatings: bool)
    ensures !(ShowScore(userRating, isCurrentUser, hideRatings) && ShowCheckmark(userRating, isCurrentUser, hideRatings))
  {
  }

  datatype Status = Stars(score: real) | Checkmark | NotYetRated

  datatype UserRatingView = UserRatingView(displayName: string, initials: string, status: Status)

  /** `EventCardUserRating`: the name falls back to the e-mail address, the
      initials come from the name alone, and the first of score, checkmark
      and "not yet rated" that applies is shown. */
  function UserRatingRow(user: CardUser, userRating: Option<CardRating>, isCurrentUser: bool, hideRatings: bool)
    : (v: UserRatingView)
    ensures v.displayName == (if Truthy(user.name) then user.name.value else user.email)
    ensures v.initials == UserNames.Initials(user.name)
    ensures v.status.Stars? <==> ShowScore(userRating, isCurrentUser, hideRatings)
    ensures v.status.Stars? ==> v.status.score == userRating.value.score && v.status.score > 0.0
    ensures v.status.Checkmark? <==> ShowCheckmark(userRating, isCurrentUser, hideRatings)
    ensures v.status.NotYetRated? <==>
      !ShowScore(userRating, isCurrentUser, hideRatings) && !ShowCheckmark(userRating, isCurrentUser, hideRatings)
  {
    var userName := if Truthy(user.name) then user.name.value else user.email;
    var status :=
      if ShowScore(userRating, isCurrentUser, hideRatings) then Stars(userRating.value.score)
      else if ShowCheckmark(userRating, isCurrentUser, hideRatings) then Checkmark
      else NotYetRated;
    UserRatingView(userName, UserNames.Initials(user.name), status)
  }

  /** Without a rating the row always reads "not yet rated"; so does a
      rating whose score is not positive when it is not hidden. */
  lemma UnratedRowsSayNotYetRated(user: CardUser, userRating: Option<CardRating>, isCurrentUser: bool, hideRatings: bool)
    ensures userRating.None? ==> UserRatingRow(user, userRating, isCurrentUser, hideRatings).status == NotYetRated
    ensures (userRating.Some? && userRating.value.score <= 0.0 && !hideRatings) ==>
      UserRatingRow(user, userRating, isCurrentUser, hideRatings).status == NotYetRated
  {
  }
}
