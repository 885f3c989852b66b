/** The training set of the rating model: `train_model` adds a date column and
    a year column to the shared ratings table in place, then averages the
    ratings of each year over every rating, whatever its genre. The regression
    fitted to that series is not modelled. */
module Training {
  import opened Wrappers
  import opened Text
  import opened Tables
  import opened UtcCalendar
  import opened YearlyRatings

  /** The shared ratings table. Its `date` column is represented by the year
      of each date, the only part of it that is read back; the column is
      absent until `train_model` adds it. */
  class RatingsFrame {
    var ratings: seq<Rating>
    var years: Option<seq<int>>

    /** The year column, once present, gives the UTC year of each row's
        timestamp. */
    predicate Valid()
      reads this
    {
      years.Some? ==> years.value == YearsOf(Dated(ratings))
    }

    /** `pd.read_csv("csv/ratings.csv")`, with the rows as parameter. */
    constructor(rows: seq<Rating>)
      ensures Valid()
      ensures ratings == rows && years == None
    {
      ratings := rows;
      years := None;
    }

    /** The table as the group-by reads it: each row's year and rating. */
    function YearRows(): (rows: seq<Row>)
      reads this
      requires Valid() && years.Some?
      ensures rows == Dated(ratings)
    {
      var rs, ys := ratings, years.value;
      var rows := seq(|rs|, k requires 0 <= k < |rs| => Row(ys[k], rs[k].rating));
      assert forall k :: 0 <= k < |rs| ==> ys[k] == Dated(rs)[k].year;
      rows
    }

    /** `ratings_df['date'] = ...apply(utcfromtimestamp)` followed by
        `ratings_df['year'] = ratings_df['date'].dt.year`: the ratings stay as
        they are and gain the year column. */
    method AddYearColumn()
      modifies this
      ensures Valid()
      ensures ratings == old(ratings)
      ensures years == Some(YearsOf(Dated(ratings)))
    {
      var rs := ratings;
      years := Some(seq(|rs|, k requires 0 <= k < |rs| => UtcYear(rs[k].timestamp)));
    }

    /** `ratings_df.groupby('year')['rating'].mean().reset_index()` on a table
        that already has its year column. */
    method YearlyAverages() returns (series: seq<YearAverage>)
      requires Valid() && years.Some?
      ensures series == GroupMeans(Dated(ratings))
      ensures Ascending(SeriesYears(series))
      ensures forall y :: y in SeriesYears(series) <==> exists r :: r in ratings && UtcYear(r.timestamp) == y
    {
      series := GroupMeans(YearRows());
      forall y | true
        ensures y in SeriesYears(series) <==> exists r :: r in ratings && UtcYear(r.timestamp) == y
      {
        YearsOfDated(ratings, y);
      }
    }

    /** The data part of `train_model`: add the columns, then average per year.
        Every rating takes part, whichever movie it belongs to. */
    method TrainingSeries() returns (series: seq<YearAverage>)
      modifies this
      ensures Valid()
      ensures ratings == old(ratings) && years == Some(YearsOf(Dated(ratings)))
      ensures series == GroupMeans(Dated(ratings))
      ensures forall y :: y in SeriesYears(series) <==> exists r :: r in ratings && UtcYear(r.timestamp) == y
    {
      AddYearColumn();
      series := YearlyAverages();
    }
  }

  /** The empty query occurs in every genre text, so it selects every movie
      whose genre value is present. */
  lemma {:induction false} EmptyQuerySelectsAll(movies: seq<Movie>)
    requires forall m :: m in movies ==> m.genres.Some?
    ensures GenreMovies(movies, "") == movies
    decreases |movies|
  {
    if movies != [] {
      assert movies[0] in movies;
      assert OccursAt(Lower(movies[0].genres.value), Lower(""), 0);
      assert MatchesGenre(movies[0], "");
      assert forall m :: m in movies[1..] ==> m in movies;
      EmptyQuerySelectsAll(movies[1..]);
      assert GenreMovies(movies, "") == [movies[0]] + GenreMovies(movies[1..], "");
      assert movies == [movies[0]] + movies[1..];
    }
  }

  /** When every rating belongs to exactly one movie, the inner join keeps the
      ratings as they are. */
  lemma {:induction false} MergeOneToOne(ratings: seq<Rating>, movies: seq<Movie>)
    requires forall r :: r in ratings ==> IdCount(movies, r.movieId) == 1
    ensures Merge(ratings, movies) == ratings
    decreases |ratings|
  {
    if ratings != [] {
      assert ratings[0] in ratings;
      assert Repeat(ratings[0], 1) == [ratings[0]];
      assert forall r :: r in ratings[1..] ==> r in ratings;
      MergeOneToOne(ratings[1..], movies);
      assert ratings == [ratings[0]] + ratings[1..];
    }
  }

  /** The training series is the chart of the empty genre query without a
      range, provided every movie has a genre value and every rating belongs
      to exactly one movie. */
  lemma TrainingIsUniversalChart(movies: seq<Movie>, ratings: seq<Rating>)
    requires forall m :: m in movies ==> m.genres.Some?
    requires forall r :: r in ratings ==> IdCount(movies, r.movieId) == 1
    ensures GenreAverages(movies, ratings, "", None) == GroupMeans(Dated(ratings))
  {
    EmptyQuerySelectsAll(movies);
    MergeOneToOne(ratings, movies);
  }
}
