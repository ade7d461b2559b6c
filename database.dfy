/** The database: four tables kept in one object, with their key constraints. */
module Database {

  import opened Seqs
  import opened Records

  function UserId(u: User): string { u.id }
  function EventId(e: Event): string { e.id }
  function AssignmentId(a: Assignment): string { a.id }
  function RatingId(r: Rating): string { r.id }

  /** The primary-key columns of the tables. */
  function UserIds(users: seq<User>): seq<string> { Map(users, UserId) }
  function EventIds(events: seq<Event>): seq<string> { Map(events, EventId) }
  function AssignmentIds(rows: seq<Assignment>): seq<string> { Map(rows, AssignmentId) }
  function RatingIds(rows: seq<Rating>): seq<string> { Map(rows, RatingId) }

  /** The unique constraint `rating_user_event_idx`: one rating per user and event. */
  ghost predicate OneRatingPerUserAndEvent(ratings: seq<Rating>) {
    forall i, j :: 0 <= i < j < |ratings| ==>
      (ratings[i].userId, ratings[i].eventId) != (ratings[j].userId, ratings[j].eventId)
  }

  /** The longest length among `used`. */
  function MaxLength(used: seq<string>): (m: nat)
    ensures forall k :: 0 <= k < |used| ==> |used[k]| <= m
    decreases |used|
  {
    if used == [] then 0
    else var m := MaxLength(used[1..]); if |used[0]| > m then |used[0]| else m
  }

  /** `n` copies of `c`. */
  function Repeat(c: char, n: nat): (r: string)
    ensures |r| == n
  {
    seq(n, _ => c)
  }

  /** The id generator (`nanoid`), as a deterministic oracle: `n` ids, each
      longer than every id in `used`, so none is in use and no two are equal. */
  function FreshIds(used: seq<string>, n: nat): (ids: seq<string>)
    ensures |ids| == n
    ensures Distinct(ids)
    ensures forall k :: 0 <= k < n ==> ids[k] !in used
  {
    var m := MaxLength(used);
    var ids := seq(n, (k: int) requires 0 <= k < n => Repeat('x', m + 1 + k));
    forall k | 0 <= k < n ensures |ids[k]| == m + 1 + k {
      assert ids[k] == Repeat('x', m + 1 + k);
    }
    ids
  }

  class Db {
    var users: seq<User>
    var events: seq<Event>
    var assignments: seq<Assignment>
    var ratings: seq<Rating>

    /** Primary keys are unique in every table, and no user rated an event twice. */
    ghost predicate Valid()
      reads this
    {
      && Distinct(UserIds(users))
      && Distinct(EventIds(events))
      && Distinct(AssignmentIds(assignments))
      && Distinct(RatingIds(ratings))
      && OneRatingPerUserAndEvent(ratings)
    }

    /** An empty application with its registered users. */
    constructor (users: seq<User>)
      requires Distinct(UserIds(users))
      ensures Valid()
      ensures this.users == users && events == [] && assignments == [] && ratings == []
    {
      this.users := users;
      events, assignments, ratings := [], [], [];
    }
  }
}
