/** The server action behind the rating dialog: session, validation,
    assignment, then the insert-once save, each failing early. */
module RatingActions {

  import opened Wrappers
  import opened Records
  import opened Database
  import Schemas
  import Assignments
  import RatingService

  const ScoreTooSmallMessage := "Bewertung muss mindestens 1 sein"
  const ScoreTooBigMessage := "Bewertung darf höchstens 5 sein"
  const NotAssignedMessage := "Du kannst nur Events bewerten, denen du zugewiesen bist"

  /** The action's own `createRatingSchema`: `eventId` first, then the three
      scores, with the action's messages. */
  function CreateRatingIssues(data: CreateRatingData): (issues: seq<Issue>)
    ensures issues == [] <==>
      && data.eventId != ""
      && Schemas.MinScore <= data.foodScore <= Schemas.MaxScore
      && Schemas.MinScore <= data.ambienceScore <= Schemas.MaxScore
      && Schemas.MinScore <= data.pricePerformanceScore <= Schemas.MaxScore
    ensures data.eventId == "" ==> issues[0] == Issue("eventId", Schemas.EventIdRequiredMessage)
  {
    Schemas.NonEmptyIssues("eventId", data.eventId, Schemas.EventIdRequiredMessage)
      + Schemas.ScoreIssues("foodScore", data.foodScore, ScoreTooSmallMessage, ScoreTooBigMessage)
      + Schemas.ScoreIssues("ambienceScore", data.ambienceScore, ScoreTooSmallMessage, ScoreTooBigMessage)
      + Schemas.ScoreIssues("pricePerformanceScore", data.pricePerformanceScore, ScoreTooSmallMessage, ScoreTooBigMessage)
  }

  /** The form's validator and the action's accept exactly the same data;
      they differ only in messages and in the order of the issues. */
  lemma ActionAndFormAcceptTheSame(data: CreateRatingData)
    ensures CreateRatingIssues(data) == [] <==> Schemas.CreateRatingSchema(data) == []
  {
  }

  /** The action's messages are not the form's. */
  lemma ActionMessagesDifferFromForm(data: CreateRatingData)
    requires data.eventId != "" && data.foodScore < Schemas.MinScore
    requires Schemas.MinScore <= data.ambienceScore <= Schemas.MaxScore
    requires Schemas.MinScore <= data.pricePerformanceScore <= Schemas.MaxScore
    ensures CreateRatingIssues(data) == [Issue("foodScore", ScoreTooSmallMessage)]
    ensures Schemas.CreateRatingSchema(data) == [Issue("foodScore", Schemas.TooSmallMessage)]
    ensures CreateRatingIssues(data) != Schemas.CreateRatingSchema(data)
  {
    assert Schemas.NonEmptyIssues("eventId", data.eventId, Schemas.EventIdRequiredMessage) == [];
    assert Schemas.ScoreSchema("ambienceScore", data.ambienceScore) == [];
    assert Schemas.ScoreSchema("pricePerformanceScore", data.pricePerformanceScore) == [];
    assert Schemas.CreateRatingSchema(data)[0].message == Schemas.TooSmallMessage;
  }

  /** `saveRatingAction`. A request without a session is redirected to the
      login page, invalid data is rejected, a user not assigned to the event
      gets an error, and an error of the save (the duplicate rating) is
      passed on with its own message. Only the last step writes. */
  method SaveRatingAction(db: Db, session: Option<SessionUser>, data: CreateRatingData)
    returns (result: Outcome<Rating>)
    requires db.Valid()
    modifies db
    ensures db.Valid()
    ensures db.users == old(db.users) && db.events == old(db.events) && db.assignments == old(db.assignments)
    ensures session.None? ==> result == Redirect(LoginPath)
    ensures session.Some? && CreateRatingIssues(data) != [] ==> result == Rejected(CreateRatingIssues(data))
    ensures (session.Some? && CreateRatingIssues(data) == []
             && !Assignments.IsUserAssignedToEvent(old(db.assignments), session.value.id, data.eventId)) ==>
      result == Thrown(NotAssignedMessage)
    ensures (session.Some? && CreateRatingIssues(data) == []
             && Assignments.IsUserAssignedToEvent(old(db.assignments), session.value.id, data.eventId)
             && RatingService.HasRated(old(db.ratings), session.value.id, data.eventId)) ==>
      result == Thrown(RatingService.AlreadyRatedMessage)
    ensures result.Done? <==>
      && session.Some? && CreateRatingIssues(data) == []
      && Assignments.IsUserAssignedToEvent(old(db.assignments), session.value.id, data.eventId)
      && !RatingService.HasRated(old(db.ratings), session.value.id, data.eventId)
    ensures result.Done? ==>
      && db.ratings == old(db.ratings) + [result.value]
      && result.value == RatingService.NewRating(result.value.id, session.value.id, data)
      && result.value.id !in RatingIds(old(db.ratings))
    ensures !result.Done? ==> db.ratings == old(db.ratings)
  {
    if session.None? {
      return Redirect(LoginPath);
    }
    var issues := CreateRatingIssues(data);
    if issues != [] {
      return Rejected(issues);
    }
    var user := session.value;
    if !Assignments.IsUserAssignedToEvent(db.assignments, user.id, data.eventId) {
      return Thrown(NotAssignedMessage);
    }
    result := RatingService.SaveRating(db, user.id, data);
  }
}
