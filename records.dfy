/** The rows of the application's tables, as the services and actions use
    them, and the outcomes of the server actions. */
module Records {

  import opened Wrappers

  /** A point in time; only its order matters to the model. */
  type Timestamp = int

  datatype User = User(
    id: string,
    name: Option<string>,
    firstName: Option<string>,
    lastName: Option<string>,
    email: string,
    isAdmin: bool,
    isConfirmed: bool)

  /** A dinner event; `totalCost` is the bill for the whole group. */
  datatype Event = Event(id: string, date: Timestamp, restaurant: string, totalCost: Option<real>)

  /** A row of the join table: `userId` may rate `eventId`; `assignedBy` is the admin. */
  datatype Assignment = Assignment(id: string, userId: string, eventId: string, assignedBy: string)

  /** A rating: the legacy single score, or the three category scores. */
  datatype Rating = Rating(
    id: string,
    userId: string,
    eventId: string,
    legacyScore: Option<real>,
    foodScore: Option<real>,
    ambienceScore: Option<real>,
    pricePerformanceScore: Option<real>)

  /** The fields a rating form submits. */
  datatype CreateRatingData = CreateRatingData(eventId: string, foodScore: real, ambienceScore: real, pricePerformanceScore: real)

  /** The score columns of a rating. */
  datatype ScoreField = LegacyScore | FoodScore | AmbienceScore | PricePerformanceScore

  function ScoreOf(r: Rating, field: ScoreField): Option<real> {
    match field
    case LegacyScore => r.legacyScore
    case FoodScore => r.foodScore
    case AmbienceScore => r.ambienceScore
    case PricePerformanceScore => r.pricePerformanceScore
  }

  /** The non-null values of one score column, in row order. */
  function Scores(ratings: seq<Rating>, field: ScoreField): (xs: seq<real>)
    ensures |xs| <= |ratings|
    decreases |ratings|
  {
    if ratings == [] then []
    else
      var last := ratings[|ratings| - 1];
      Scores(ratings[..|ratings| - 1], field) + (if ScoreOf(last, field).Some? then [ScoreOf(last, field).value] else [])
  }

  /** `Scores` keeps exactly the values that are set, and is empty exactly
      when no rating sets the column. */
  lemma {:induction false} ScoresMembers(ratings: seq<Rating>, field: ScoreField)
    ensures Scores(ratings, field) == [] <==> forall r :: r in ratings ==> ScoreOf(r, field).None?
    ensures forall x :: x in Scores(ratings, field) <==> exists r :: r in ratings && ScoreOf(r, field) == Some(x)
    decreases |ratings|
  {
    if ratings != [] {
      var rest, last := ratings[..|ratings| - 1], ratings[|ratings| - 1];
      ScoresMembers(rest, field);
      assert ratings == rest + [last];
    }
  }

  /** The authenticated user of a request, as the session carries it. */
  datatype SessionUser = SessionUser(id: string, isAdmin: bool)

  /** One failed check of a validation schema: the field and its message. */
  datatype Issue = Issue(path: string, message: string)

  /** How a server action ends: with a value, with a redirect (Next.js's
      `redirect`, which throws), with a thrown `Error`, or with a
      validation error listing every failed check. */
  datatype Outcome<T> =
    | Done(value: T)
    | Redirect(location: string)
    | Thrown(message: string)
    | Rejected(issues: seq<Issue>)

  /** Where a request without a session is sent. */
  const LoginPath := "/login"
}
