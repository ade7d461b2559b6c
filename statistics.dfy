/** The statistics page's aggregates: table counts, the overall average, the
    score histogram, the best and worst restaurant with enough ratings, the
    most active rater and the events of the current year. All reads. */
module Statistics {

  import opened Wrappers
  import opened Seqs
  import opened Text
  import opened Records
  import Database
  import EventService

  /** A restaurant needs this many ratings, over all its events, to be ranked. */
  const MinRatingsForRanking: nat := 3

  /** The scores the histogram always lists, highest first. */
  const DistributionScores: seq<nat> := [5, 4, 3, 2, 1]

  const UnknownUserName := "Unbekannt"

  // ---- histogram ----

  /** The number of ratings whose score is exactly `score` (`count()` of
      the group `rating.score = score`). */
  function CountScore(ratings: seq<Rating>, score: real): (n: nat)
    ensures n <= |ratings|
    decreases |ratings|
  {
    if ratings == [] then 0
    else CountScore(ratings[..|ratings| - 1], score) + (if ratings[|ratings| - 1].legacyScore == Some(score) then 1 else 0)
  }

  datatype ScoreCount = ScoreCount(score: nat, count: nat)

  /** The histogram, padded: one entry per score 5, 4, 3, 2, 1, with 0 for a
      score no rating has. */
  function RatingDistribution(ratings: seq<Rating>): (d: seq<ScoreCount>)
    ensures |d| == 5
    ensures forall k :: 0 <= k < 5 ==> d[k].score == 5 - k
    ensures forall k :: 0 <= k < 5 ==> d[k].count == CountScore(ratings, (5 - k) as real)
  {
    Map(DistributionScores, (s: nat) => ScoreCount(s, CountScore(ratings, s as real)))
  }

  function DistributionTotal(d: seq<ScoreCount>): nat
    decreases |d|
  {
    if d == [] then 0 else d[0].count + DistributionTotal(d[1..])
  }

  lemma TotalOfFive(d: seq<ScoreCount>)
    requires |d| == 5
    ensures DistributionTotal(d) == d[0].count + d[1].count + d[2].count + d[3].count + d[4].count
  {
    assert d[4..][1..] == [];
    assert DistributionTotal(d[4..]) == d[4].count;
    assert d[3..][1..] == d[4..];
    assert DistributionTotal(d[3..]) == d[3].count + DistributionTotal(d[4..]);
    assert d[2..][1..] == d[3..];
    assert DistributionTotal(d[2..]) == d[2].count + DistributionTotal(d[3..]);
    assert d[1..][1..] == d[2..];
    assert DistributionTotal(d[1..]) == d[1].count + DistributionTotal(d[2..]);
  }

  /** No rating is counted twice: the histogram's bars add up to at most
      the number of ratings, and to exactly that when every score is one of
      1..5. */
  lemma {:induction false} DistributionCountsEachRatingOnce(ratings: seq<Rating>)
    ensures DistributionTotal(RatingDistribution(ratings)) <= |ratings|
    ensures (forall r :: r in ratings ==> r.legacyScore.Some? && r.legacyScore.value in {1.0, 2.0, 3.0, 4.0, 5.0}) ==>
      DistributionTotal(RatingDistribution(ratings)) == |ratings|
    decreases |ratings|
  {
    var d := RatingDistribution(ratings);
    TotalOfFive(d);
    if ratings != [] {
      var rest := ratings[..|ratings| - 1];
      DistributionCountsEachRatingOnce(rest);
      TotalOfFive(RatingDistribution(rest));
      if forall r :: r in ratings ==> r.legacyScore.Some? && r.legacyScore.value in {1.0, 2.0, 3.0, 4.0, 5.0} {
        assert ratings[|ratings| - 1] in ratings;
      }
    }
  }

  // ---- overall average ----

  /** `averageRating`: the mean of all scores, 0 when there is none. */
  function AverageRating(ratings: seq<Rating>): (avg: real)
    ensures Scores(ratings, LegacyScore) == [] ==> avg == 0.0
    ensures Scores(ratings, LegacyScore) != [] ==>
      avg * |Scores(ratings, LegacyScore)| as real == Sum(Scores(ratings, LegacyScore))
  {
    Mean(Scores(ratings, LegacyScore)).GetOr(0.0)
  }

  // ---- restaurants ----

  /** A row of `event inner join rating on event.id = rating.eventId`. */
  datatype Joined = Joined(restaurant: string, rating: Rating)

  /** The join: each rating whose event exists, with that event's restaurant. */
  function JoinRatings(events: seq<Event>, ratings: seq<Rating>): (rows: seq<Joined>)
    ensures forall j :: j in rows ==> j.rating in ratings && exists e :: e in events && e.id == j.rating.eventId && e.restaurant == j.restaurant
    ensures forall r :: r in ratings && (exists e :: e in events && e.id == r.eventId) ==> exists j :: j in rows && j.rating == r
    decreases |ratings|
  {
    if ratings == [] then []
    else
      var rest := JoinRatings(events, ratings[..|ratings| - 1]);
      var last := ratings[|ratings| - 1];
      var e := EventService.FindEvent(events, last.eventId);
      assert forall r :: r in ratings ==> r in ratings[..|ratings| - 1] || r == last;
      if e.Some? then
        assert Database.EventIds(events) == Map(events, Database.EventId);
        rest + [Joined(e.value.restaurant, last)]
      else
        assert forall x :: x in events ==> x.id != last.eventId by {
          forall x | x in events ensures x.id != last.eventId {
            var k :| 0 <= k < |events| && events[k] == x;
            assert Database.EventIds(events)[k] == x.id;
          }
        }
        rest
  }

  function HasEventIn(events: seq<Event>): Rating -> bool {
    (r: Rating) => EventService.FindEvent(events, r.eventId).Some?
  }

  /** The inner join neither drops nor repeats a rating: its rows carry
      exactly the ratings whose event exists, once each and in table order,
      so `count(*)` over a restaurant's rows counts its ratings. */
  lemma {:induction false} JoinKeepsEachRatingOnce(events: seq<Event>, ratings: seq<Rating>)
    ensures Map(JoinRatings(events, ratings), JoinedRating) == Filter(ratings, HasEventIn(events))
    decreases |ratings|
  {
    if ratings != [] {
      var init := ratings[..|ratings| - 1];
      var last := ratings[|ratings| - 1];
      JoinKeepsEachRatingOnce(events, init);
      var rest := JoinRatings(events, init);
      var e := EventService.FindEvent(events, last.eventId);
      var tail := if e.Some? then [Joined(e.value.restaurant, last)] else [];
      assert JoinRatings(events, ratings) == rest + tail;
      assert Filter(ratings, HasEventIn(events))
          == Filter(init, HasEventIn(events)) + (if e.Some? then [last] else []);
      MapJoinedConcat(rest, tail);
    }
  }

  lemma MapJoinedConcat(a: seq<Joined>, b: seq<Joined>)
    ensures Map(a + b, JoinedRating) == Map(a, JoinedRating) + Map(b, JoinedRating)
  {
    var l := Map(a + b, JoinedRating);
    var r := Map(a, JoinedRating) + Map(b, JoinedRating);
    assert |l| == |r|;
    forall k | 0 <= k < |l| ensures l[k] == r[k] {
      if k < |a| {
        assert (a + b)[k] == a[k];
      } else {
        assert (a + b)[k] == b[k - |a|];
      }
    }
  }

  function AtRestaurant(name: string): Joined -> bool {
    (j: Joined) => j.restaurant == name
  }

  function JoinedRating(j: Joined): Rating { j.rating }
  function JoinedRestaurant(j: Joined): string { j.restaurant }

  /** The group of one restaurant name: `count(*)` and `avg(score)`. */
  datatype RestaurantGroup = RestaurantGroup(restaurant: string, ratingCount: nat, averageRating: Option<real>)

  /** The group of all rows with this restaurant name, whichever event they
      came from. The average is missing when no row has a score. */
  function GroupOf(rows: seq<Joined>, name: string): (g: RestaurantGroup)
    ensures g.restaurant == name
    ensures g.ratingCount == |Filter(rows, AtRestaurant(name))|
    ensures g.averageRating == Mean(Scores(Map(Filter(rows, AtRestaurant(name)), JoinedRating), LegacyScore))
  {
    var own := Filter(rows, AtRestaurant(name));
    RestaurantGroup(name, |own|, Mean(Scores(Map(own, JoinedRating), LegacyScore)))
  }

  function GroupIn(rows: seq<Joined>): string -> RestaurantGroup {
    (name: string) => GroupOf(rows, name)
  }

  /** The values without repetitions, in order of first appearance. */
  function Dedup(xs: seq<string>): (r: seq<string>)
    ensures Distinct(r)
    ensures forall x :: x in r <==> x in xs
    decreases |xs|
  {
    if xs == [] then []
    else
      var rest := Dedup(xs[..|xs| - 1]);
      var last := xs[|xs| - 1];
      assert forall x :: x in xs ==> x in xs[..|xs| - 1] || x == last;
      if last in rest then rest else rest + [last]
  }

  function Qualifies(g: RestaurantGroup): bool {
    g.ratingCount >= MinRatingsForRanking
  }

  /** `groupBy(event.restaurant).having(count(*) >= 3)`: one group per
      restaurant name. */
  function QualifyingGroups(rows: seq<Joined>): seq<RestaurantGroup> {
    Filter(Map(Dedup(Map(rows, JoinedRestaurant)), GroupIn(rows)), Qualifies)
  }

  /** A restaurant with at least three rows is ranked. */
  lemma EnoughRatingsQualify(rows: seq<Joined>, name: string)
    requires |Filter(rows, AtRestaurant(name))| >= MinRatingsForRanking
    ensures GroupOf(rows, name) in QualifyingGroups(rows)
  {
    var names := Dedup(Map(rows, JoinedRestaurant));
    var groups := Map(names, GroupIn(rows));
    var own := Filter(rows, AtRestaurant(name));
    assert own[0] in rows;
    var k :| 0 <= k < |rows| && rows[k] == own[0];
    var restaurants := Map(rows, JoinedRestaurant);
    assert restaurants[k] == name;
    assert name in restaurants;
    assert name in names;
    var i :| 0 <= i < |names| && names[i] == name;
    assert groups[i] == GroupOf(rows, name);
    assert groups[i] in groups;
  }

  /** Every ranked group is the group of its name, and has at least three rows. */
  lemma QualifyingAreGroups(rows: seq<Joined>)
    ensures forall g :: g in QualifyingGroups(rows) ==> g == GroupOf(rows, g.restaurant) && Qualifies(g)
  {
    var names := Dedup(Map(rows, JoinedRestaurant));
    var groups := Map(names, GroupIn(rows));
    forall g | g in QualifyingGroups(rows) ensures g == GroupOf(rows, g.restaurant) && Qualifies(g) {
      assert g in groups;
      var i :| 0 <= i < |groups| && groups[i] == g;
      assert g == GroupOf(rows, names[i]);
    }
  }

  /** A restaurant is ranked exactly when at least three rows carry its name,
      counting the rows of all its events together. */
  lemma QualifyingGroupsExactly(rows: seq<Joined>, name: string)
    ensures GroupOf(rows, name) in QualifyingGroups(rows) <==> |Filter(rows, AtRestaurant(name))| >= MinRatingsForRanking
  {
    if |Filter(rows, AtRestaurant(name))| >= MinRatingsForRanking {
      EnoughRatingsQualify(rows, name);
    }
    QualifyingAreGroups(rows);
  }

  /** `a` may come before `b` under `ORDER BY avg DESC` (missing first). */
  predicate DescNullsFirst(a: Option<real>, b: Option<real>) {
    a.None? || (b.Some? && a.value >= b.value)
  }

  /** `a` may come before `b` under `ORDER BY avg` (missing last). */
  predicate AscNullsLast(a: Option<real>, b: Option<real>) {
    b.None? || (a.Some? && a.value <= b.value)
  }

  /** `orderBy(desc(avg)).limit(1)`: a group no other group precedes. */
  function Top(groups: seq<RestaurantGroup>): (best: Option<RestaurantGroup>)
    ensures best.None? <==> groups == []
    ensures best.Some? ==> best.value in groups
    ensures best.Some? ==> forall g :: g in groups ==> DescNullsFirst(best.value.averageRating, g.averageRating)
    decreases |groups|
  {
    if groups == [] then None
    else
      var last := groups[|groups| - 1];
      var rest := Top(groups[..|groups| - 1]);
      assert forall g :: g in groups ==> g in groups[..|groups| - 1] || g == last;
      if rest.Some? && DescNullsFirst(rest.value.averageRating, last.averageRating) then rest else Some(last)
  }

  /** `orderBy(avg).limit(1)`: a group no other group precedes. */
  function Worst(groups: seq<RestaurantGroup>): (worst: Option<RestaurantGroup>)
    ensures worst.None? <==> groups == []
    ensures worst.Some? ==> worst.value in groups
    ensures worst.Some? ==> forall g :: g in groups ==> AscNullsLast(worst.value.averageRating, g.averageRating)
    decreases |groups|
  {
    if groups == [] then None
    else
      var last := groups[|groups| - 1];
      var rest := Worst(groups[..|groups| - 1]);
      assert forall g :: g in groups ==> g in groups[..|groups| - 1] || g == last;
      if rest.Some? && AscNullsLast(rest.value.averageRating, last.averageRating) then rest else Some(last)
  }

  /** What the page shows of a restaurant; a missing average reads as 0
      (`Number(null)`). */
  datatype RestaurantAverage = RestaurantAverage(restaurant: string, averageRating: real)

  function Shown(g: Option<RestaurantGroup>): Option<RestaurantAverage> {
    if g.None? then None else Some(RestaurantAverage(g.value.restaurant, g.value.averageRating.GetOr(0.0)))
  }

  /** The best restaurant has an average no qualifying restaurant exceeds,
      the worst one none undercuts, as long as every qualifying restaurant
      has a score; neither exists when no restaurant qualifies. */
  lemma TopAndWorstBound(rows: seq<Joined>)
    ensures Top(QualifyingGroups(rows)).None? <==> QualifyingGroups(rows) == []
    ensures Worst(QualifyingGroups(rows)).None? <==> QualifyingGroups(rows) == []
    ensures (forall g :: g in QualifyingGroups(rows) ==> g.averageRating.Some?) ==>
      forall g :: g in QualifyingGroups(rows) ==>
        Shown(Worst(QualifyingGroups(rows))).value.averageRating
          <= g.averageRating.value
          <= Shown(Top(QualifyingGroups(rows))).value.averageRating
  {
  }

  /** Under the SQL order a qualifying restaurant without any score is the
      "top" one, and is shown with average 0. */
  lemma UnscoredRestaurantIsTop(groups: seq<RestaurantGroup>, k: nat)
    requires k < |groups| && groups[k].averageRating.None?
    ensures Top(groups).value.averageRating.None?
    ensures Shown(Top(groups)).value.averageRating == 0.0
  {
    assert groups[k] in groups;
  }

  // ---- most active user ----

  /** The number of ratings the user gave. */
  function RatingCount(ratings: seq<Rating>, userId: string): (n: nat)
    ensures n <= |ratings|
    decreases |ratings|
  {
    if ratings == [] then 0
    else RatingCount(ratings[..|ratings| - 1], userId) + (if ratings[|ratings| - 1].userId == userId then 1 else 0)
  }

  /** The name shown for the most active user: "first last" when both are
      set and non-empty, otherwise `name`, and 'Unbekannt' when that is null. */
  function ActiveUserName(u: User): (name: string)
    ensures Truthy(u.firstName) && Truthy(u.lastName) ==> name == u.firstName.value + " " + u.lastName.value
    ensures !(Truthy(u.firstName) && Truthy(u.lastName)) && u.name.Some? ==> name == u.name.value
    ensures !(Truthy(u.firstName) && Truthy(u.lastName)) && u.name.None? ==> name == UnknownUserName
  {
    if Truthy(u.firstName) && Truthy(u.lastName) then u.firstName.value + " " + u.lastName.value
    else u.name.GetOr(UnknownUserName)
  }

  /** The user with the most ratings among those with any (`rating inner
      join user`, grouped per user, `orderBy(desc(count())).limit(1)`). */
  function MostActive(users: seq<User>, ratings: seq<Rating>): (m: Option<User>)
    ensures m.None? <==> forall u :: u in users ==> RatingCount(ratings, u.id) == 0
    ensures m.Some? ==> m.value in users && RatingCount(ratings, m.value.id) > 0
    ensures m.Some? ==> forall u :: u in users ==> RatingCount(ratings, u.id) <= RatingCount(ratings, m.value.id)
    decreases |users|
  {
    if users == [] then None
    else
      var last := users[|users| - 1];
      var rest := MostActive(users[..|users| - 1], ratings);
      assert forall u :: u in users ==> u in users[..|users| - 1] || u == last;
      if RatingCount(ratings, last.id) == 0 then rest
      else if rest.Some? && RatingCount(ratings, rest.value.id) >= RatingCount(ratings, last.id) then rest
      else Some(last)
  }

  datatype ActiveUser = ActiveUser(name: string, ratingCount: nat)

  function MostActiveUser(users: seq<User>, ratings: seq<Rating>): (a: Option<ActiveUser>)
    ensures a.None? <==> forall u :: u in users ==> RatingCount(ratings, u.id) == 0
    ensures a.Some? ==> exists u :: u in users && a.value == ActiveUser(ActiveUserName(u), RatingCount(ratings, u.id))
    ensures a.Some? ==> forall u :: u in users ==> RatingCount(ratings, u.id) <= a.value.ratingCount
  {
    var m := MostActive(users, ratings);
    if m.None? then None else Some(ActiveUser(ActiveUserName(m.value), RatingCount(ratings, m.value.id)))
  }

  // ---- the page ----

  function OnOrAfter(t: Timestamp): Event -> bool {
    (e: Event) => e.date >= t
  }

  datatype Stats = Stats(
    totalEvents: nat,
    totalRatings: nat,
    totalUsers: nat,
    averageRating: real,
    ratingDistribution: seq<ScoreCount>,
    topRatedRestaurant: Option<RestaurantAverage>,
    worstRatedRestaurant: Option<RestaurantAverage>,
    mostActiveUser: Option<ActiveUser>,
    eventsThisYear: nat)

  /** `getStatistics`, with January 1 of the current year as `startOfYear`. */
  function GetStatistics(users: seq<User>, events: seq<Event>, ratings: seq<Rating>, startOfYear: Timestamp)
    : (s: Stats)
    ensures s.totalEvents == |events| && s.totalRatings == |ratings| && s.totalUsers == |users|
    ensures s.eventsThisYear == |Filter(events, OnOrAfter(startOfYear))| <= s.totalEvents
    ensures s.eventsThisYear == 0 <==> forall e :: e in events ==> e.date < startOfYear
    ensures s.averageRating == AverageRating(ratings)
    ensures s.ratingDistribution == RatingDistribution(ratings) && |s.ratingDistribution| == 5
    ensures var groups := QualifyingGroups(JoinRatings(events, ratings));
      && s.topRatedRestaurant == Shown(Top(groups))
      && s.worstRatedRestaurant == Shown(Worst(groups))
    ensures s.mostActiveUser == MostActiveUser(users, ratings)
    ensures ratings == [] ==> s.averageRating == 0.0 && s.mostActiveUser.None?
  {
    EventsThisYearZeroIff(events, startOfYear);
    var rows := JoinRatings(events, ratings);
    var groups := QualifyingGroups(rows);
    Stats(
      |events|, |ratings|, |users|,
      AverageRating(ratings),
      RatingDistribution(ratings),
      Shown(Top(groups)),
      Shown(Worst(groups)),
      MostActiveUser(users, ratings),
      |Filter(events, OnOrAfter(startOfYear))|)
  }

  /** The year's event count is zero exactly when no event is dated on or
      after the start of the year. */
  lemma EventsThisYearZeroIff(events: seq<Event>, startOfYear: Timestamp)
    ensures |Filter(events, OnOrAfter(startOfYear))| == 0 <==> forall e :: e in events ==> e.date < startOfYear
  {
    var kept := Filter(events, OnOrAfter(startOfYear));
    if kept != [] {
      assert kept[0] in kept;
    }
  }
}
