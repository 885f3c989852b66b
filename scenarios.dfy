/** Small worked tables: what the genre query, the join and the per-year means
    give on concrete data. */
module Scenarios {
  import opened Wrappers
  import opened Text
  import opened Tables
  import opened UtcCalendar
  import opened YearlyRatings

  /** Timestamps within the years 2000 and 2001 (UTC). */
  predicate In2000(t: int) { 946684800 <= t < 978307200 }
  predicate In2001(t: int) { 978307200 <= t < 1009843200 }

  const Catalogue := [Movie(1, Some("Comedy")), Movie(2, Some("Drama"))]
  const ComedyYearRows := [Row(2000, 4.0), Row(2001, 5.0)]

  /** Two ratings of the Comedy movie, one in 2000 and one in 2001, and one
      rating of the Drama movie. */
  function Log(t1: int, t2: int, t3: int): seq<Rating> {
    [Rating(1, 4.0, t1), Rating(1, 5.0, t2), Rating(2, 3.0, t3)]
  }

  /** Matching is on the raw genre text, ignoring case: a movie listed as
      "Action|Adventure" matches the query "action", and "om" matches
      "Romance". */
  lemma SubstringMatches()
    ensures MatchesGenre(Movie(1, Some("Action|Adventure")), "action")
    ensures MatchesGenre(Movie(2, Some("Romance")), "om")
    ensures !MatchesGenre(Movie(3, None), "")
  {
    assert OccursAt(Lower("Action|Adventure"), Lower("action"), 0);
    assert OccursAt(Lower("Romance"), Lower("om"), 1);
  }

  /** Only the Comedy movie matches "Comedy". */
  lemma ComedyMovies()
    ensures GenreMovies(Catalogue, "Comedy") == [Catalogue[0]]
  {
    assert OccursAt(Lower("Comedy"), Lower("Comedy"), 0);
    assert !MatchesGenre(Catalogue[1], "Comedy");
  }

  /** The join keeps the two ratings of movie 1 and drops the Drama rating. */
  lemma ComedyJoin(t1: int, t2: int, t3: int)
    ensures Merge(Log(t1, t2, t3), [Catalogue[0]]) == Log(t1, t2, t3)[..2]
  {
    var log := Log(t1, t2, t3);
    var matched := [Catalogue[0]];
    assert IdCount(matched, 1) == 1;
    assert IdCount(matched, 2) == 0;
    assert Merge(log[2..], matched) == [];
    assert Merge(log[1..], matched) == [log[1]] + Merge(log[2..], matched);
  }

  /** Dating the joined ratings gives one row in 2000 and one in 2001. */
  lemma ComedyDates(t1: int, t2: int, t3: int)
    requires In2000(t1) && In2001(t2)
    ensures Dated(Log(t1, t2, t3)[..2]) == ComedyYearRows
  {
    KnownYears(t1);
    KnownYears(t2);
  }

  lemma ComedyRows(t1: int, t2: int, t3: int)
    requires In2000(t1) && In2001(t2)
    ensures GenreRows(Catalogue, Log(t1, t2, t3), "Comedy") == ComedyYearRows
  {
    ComedyMovies();
    ComedyJoin(t1, t2, t3);
    ComedyDates(t1, t2, t3);
  }

  lemma TwoYears()
    ensures SortedUnique(YearsOf(ComedyYearRows)) == [2000, 2001]
  {
    assert YearsOf(ComedyYearRows) == [2000, 2001];
    assert [2000, 2001][..1] == [2000];
    assert [2000][..0] == [];
    assert SortedUnique([2000]) == [2000];
  }

  lemma OneRatingEach()
    ensures Mean(ComedyYearRows, 2000) == 4.0
    ensures Mean(ComedyYearRows, 2001) == 5.0
  {
    var rows := ComedyYearRows;
    assert rows[1..][1..] == [];
    assert RatingSum(rows, 2000) == 4.0 && RatingCount(rows, 2000) == 1;
    assert RatingSum(rows, 2001) == 5.0 && RatingCount(rows, 2001) == 1;
  }

  /** The distinct years of the rows and their means. */
  lemma TwoYearMeans()
    ensures GroupMeans(ComedyYearRows) == [YearAverage(2000, 4.0), YearAverage(2001, 5.0)]
  {
    TwoYears();
    OneRatingEach();
    var ys := [2000, 2001];
    assert ys[1..][1..] == [];
    assert MeansFor(ys, ComedyYearRows) == [YearAverage(2000, 4.0), YearAverage(2001, 5.0)];
  }

  /** The Comedy chart of the two-movie catalogue: the Drama rating is dropped
      by the join, and each remaining year keeps its single rating. The Drama
      rating's time does not matter. */
  lemma ComedyChart(t1: int, t2: int, t3: int)
    requires In2000(t1) && In2001(t2)
    ensures GetYearsForGenre(Catalogue, Log(t1, t2, t3), "Comedy") == Success([2000, 2001])
    ensures YearsForGenre(Catalogue, Log(t1, t2, t3), "Comedy") == [2000, 2001]
    ensures GenreAverages(Catalogue, Log(t1, t2, t3), "Comedy", None) ==
            [YearAverage(2000, 4.0), YearAverage(2001, 5.0)]
  {
    var log := Log(t1, t2, t3);
    ComedyRows(t1, t2, t3);
    TwoYears();
    TwoYearMeans();
    var rows := GenreRows(Catalogue, log, "Comedy");
    assert YearsForGenre(Catalogue, log, "Comedy") == SortedUnique(YearsOf(rows));
    assert GenreAverages(Catalogue, log, "Comedy", None) == GroupMeans(rows);
    ComedyRated(t1, t2, t3);
  }

  /** The Comedy movie has ratings, so `get_years_for_genre` does not fail. */
  lemma ComedyRated(t1: int, t2: int, t3: int)
    ensures !Unrated(Catalogue, Log(t1, t2, t3), "Comedy")
  {
    var log := Log(t1, t2, t3);
    ComedyMovies();
    assert log[0] in log && Catalogue[0] in Catalogue;
    assert Joined(Catalogue, "Comedy", log[0].movieId);
  }
}
