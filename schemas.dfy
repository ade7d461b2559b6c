/** The rating validators: a score must lie in 1..5 and an event id must be
    non-empty. Like zod, a validator reports every failed check, in field order. */
module Schemas {

  import opened Records

  const MinScore: real := 1.0
  const MaxScore: real := 5.0

  const TooSmallMessage := "Bitte gib eine Bewertung ab"
  const TooBigMessage := "Bewertung kann nicht mehr als 5 Sterne haben"
  const EventIdRequiredMessage := "Event-ID ist erforderlich"

  /** `z.number().min(1, tooSmall).max(5, tooBig)` for the field `path`. */
  function ScoreIssues(path: string, score: real, tooSmall: string, tooBig: string): (issues: seq<Issue>)
    ensures issues == [] <==> MinScore <= score <= MaxScore
    ensures score < MinScore ==> issues == [Issue(path, tooSmall)]
    ensures score > MaxScore ==> issues == [Issue(path, tooBig)]
  {
    (if score < MinScore then [Issue(path, tooSmall)] else [])
      + (if score > MaxScore then [Issue(path, tooBig)] else [])
  }

  /** `z.string().min(1, message)` for the field `path`. */
  function NonEmptyIssues(path: string, value: string, message: string): (issues: seq<Issue>)
    ensures issues == [] <==> value != ""
    ensures value == "" ==> issues == [Issue(path, message)]
  {
    if |value| < 1 then [Issue(path, message)] else []
  }

  /** `scoreSchema`. */
  function ScoreSchema(path: string, score: real): (issues: seq<Issue>)
    ensures issues == [] <==> MinScore <= score <= MaxScore
  {
    ScoreIssues(path, score, TooSmallMessage, TooBigMessage)
  }

  /** `ratingSchema`: the three category scores, in this order. */
  function RatingSchema(foodScore: real, ambienceScore: real, pricePerformanceScore: real): (issues: seq<Issue>)
    ensures issues == [] <==>
      && MinScore <= foodScore <= MaxScore
      && MinScore <= ambienceScore <= MaxScore
      && MinScore <= pricePerformanceScore <= MaxScore
  {
    ScoreSchema("foodScore", foodScore)
      + ScoreSchema("ambienceScore", ambienceScore)
      + ScoreSchema("pricePerformanceScore", pricePerformanceScore)
  }

  /** `createRatingSchema`: `ratingSchema` extended by a non-empty `eventId`,
      which zod checks after the scores. */
  function CreateRatingSchema(data: CreateRatingData): (issues: seq<Issue>)
    ensures issues == [] <==>
      RatingSchema(data.foodScore, data.ambienceScore, data.pricePerformanceScore) == [] && data.eventId != ""
  {
    RatingSchema(data.foodScore, data.ambienceScore, data.pricePerformanceScore)
      + NonEmptyIssues("eventId", data.eventId, EventIdRequiredMessage)
  }

  /** There is no integer check: a score between two stars passes. */
  lemma FractionalScoreAccepted()
    ensures ScoreSchema("foodScore", 2.5) == []
    ensures ScoreSchema("foodScore", 0.5) == [Issue("foodScore", TooSmallMessage)]
  {
  }

  /** A score below 1 and a score above 5 are told apart by their messages. */
  lemma OutOfRangeMessagesDiffer(path: string, low: real, high: real)
    requires low < MinScore && high > MaxScore
    ensures ScoreSchema(path, low) != ScoreSchema(path, high)
  {
    assert ScoreSchema(path, low)[0].message == TooSmallMessage;
    assert ScoreSchema(path, high)[0].message == TooBigMessage;
  }
}
