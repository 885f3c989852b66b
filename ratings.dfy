/** The ratings of one genre over the years: the movies whose genre text
    matches a query, their ratings joined on the movie id, each rating's UTC
    year, the distinct years (`get_years_for_genre`), and the mean rating of
    each year, optionally restricted to a year range (the data part of
    `create_figure`, and with every rating kept, of `train_model`).

    Means are exact `real` quotients; pandas computes them in binary floating
    point, which this model does not follow. */
module YearlyRatings {
  import opened Wrappers
  import opened Text
  import opened Tables
  import opened UtcCalendar

  // ---------------------------------------------------------------- matching

  /** `movies_df['genres'].str.contains(genre, case=False, na=False)` for one
      row: a missing cell never matches; otherwise the lower-cased query must
      occur in the lower-cased genre text. pandas reads the query as a regular
      expression; it is modelled as a literal, which agrees for genre names
      without regular-expression metacharacters. Case folding is ASCII. */
  predicate MatchesGenre(m: Movie, genre: string)
    ensures MatchesGenre(m, genre) <==>
              m.genres.Some? && exists i :: OccursAt(Lower(m.genres.value), Lower(genre), i)
  {
    match m.genres
    case None => false
    case Some(text) => Contains(Lower(text), Lower(genre))
  }

  /** `movies_df[genre_mask]`: the matching movies, in table order. */
  function GenreMovies(movies: seq<Movie>, genre: string): (matched: seq<Movie>)
    ensures forall m :: m in matched <==> m in movies && MatchesGenre(m, genre)
    ensures forall m :: multiset(matched)[m] == if MatchesGenre(m, genre) then multiset(movies)[m] else 0
  {
    if movies == [] then []
    else
      assert movies == [movies[0]] + movies[1..];
      assert forall m :: m in movies <==> m == movies[0] || m in movies[1..];
      (if MatchesGenre(movies[0], genre) then [movies[0]] else []) + GenreMovies(movies[1..], genre)
  }

  // ---------------------------------------------------------------- joining

  /** Some movie of `movies` has id `id`. */
  predicate HasMovie(movies: seq<Movie>, id: int) {
    exists m :: m in movies && m.movieId == id
  }

  /** The number of movies with id `id`. */
  function IdCount(movies: seq<Movie>, id: int): (n: nat)
    ensures n > 0 <==> HasMovie(movies, id)
  {
    if movies == [] then 0
    else
      assert forall m :: m in movies <==> m == movies[0] || m in movies[1..] by {
        assert movies == [movies[0]] + movies[1..];
      }
      (if movies[0].movieId == id then 1 else 0) + IdCount(movies[1..], id)
  }

  function Repeat(r: Rating, n: nat): (rs: seq<Rating>)
    ensures |rs| == n && forall x :: x in rs <==> n > 0 && x == r
    ensures forall x :: multiset(rs)[x] == if x == r then n else 0
  {
    if n == 0 then [] else [r] + Repeat(r, n - 1)
  }

  /** `ratings_df.merge(movies, on='movieId', how='inner')`, rating columns
      only: every rating once for each movie carrying its id, in ratings
      order. A rating whose movie is absent is dropped without error. */
  function Merge(ratings: seq<Rating>, movies: seq<Movie>): (rows: seq<Rating>)
    ensures forall r :: r in rows <==> r in ratings && HasMovie(movies, r.movieId)
    ensures forall r :: multiset(rows)[r] == multiset(ratings)[r] * IdCount(movies, r.movieId)
  {
    if ratings == [] then []
    else
      var head, tail := ratings[0], ratings[1..];
      assert ratings == [head] + tail;
      assert forall r :: r in ratings <==> r == head || r in tail;
      var rows := Repeat(head, IdCount(movies, head.movieId)) + Merge(tail, movies);
      assert forall r :: multiset(rows)[r] == multiset(ratings)[r] * IdCount(movies, r.movieId) by {
        forall r ensures multiset(rows)[r] == multiset(ratings)[r] * IdCount(movies, r.movieId) {
          MergeStep(ratings, Merge(tail, movies), movies, r);
        }
      }
      rows
  }

  /** One step of the join's count: the first rating contributes one row per
      movie with its id, the rest of the ratings the rows `rest`. */
  lemma MergeStep(ratings: seq<Rating>, rest: seq<Rating>, movies: seq<Movie>, r: Rating)
    requires ratings != []
    requires multiset(rest)[r] == multiset(ratings[1..])[r] * IdCount(movies, r.movieId)
    ensures multiset(Repeat(ratings[0], IdCount(movies, ratings[0].movieId)) + rest)[r]
         == multiset(ratings)[r] * IdCount(movies, r.movieId)
  {
    var head, tail := ratings[0], ratings[1..];
    var c, m := IdCount(movies, r.movieId), multiset(tail)[r];
    var b := if r == head then 1 else 0;
    var copies := Repeat(head, IdCount(movies, head.movieId));
    assert multiset(copies)[r] == b * c;
    assert multiset(copies + rest)[r] == b * c + m * c;
    assert ratings == [head] + tail;
    assert multiset(ratings)[r] == b + m;
    Distributes(b, m, c);
  }

  lemma Distributes(b: int, m: int, c: int)
    ensures (b + m) * c == b * c + m * c
  {
  }

  /** A joined row reduced to what the aggregation reads: its UTC year (the
      `date` column's year) and its rating. */
  datatype Row = Row(year: int, rating: real)

  /** `merged['date'] = merged['timestamp'].apply(utcfromtimestamp)`. */
  function Dated(rs: seq<Rating>): (rows: seq<Row>)
    ensures |rows| == |rs|
  {
    seq(|rs|, k requires 0 <= k < |rs| => Row(UtcYear(rs[k].timestamp), rs[k].rating))
  }

  /** The `year` column. */
  function YearsOf(rows: seq<Row>): (ys: seq<int>)
    ensures |ys| == |rows|
  {
    seq(|rows|, k requires 0 <= k < |rows| => rows[k].year)
  }

  /** A year occurs among dated ratings exactly when one of the ratings was
      given in it. */
  lemma YearsOfDated(rs: seq<Rating>, y: int)
    ensures y in YearsOf(Dated(rs)) <==> exists r :: r in rs && UtcYear(r.timestamp) == y
  {
    var ys := YearsOf(Dated(rs));
    if y in ys {
      var k :| 0 <= k < |ys| && ys[k] == y;
      assert rs[k] in rs;
    }
    if exists r :: r in rs && UtcYear(r.timestamp) == y {
      var r :| r in rs && UtcYear(r.timestamp) == y;
      var k :| 0 <= k < |rs| && rs[k] == r;
      assert ys[k] == y;
    }
  }

  /** The rows the chart of `genre` is drawn from. */
  function GenreRows(movies: seq<Movie>, ratings: seq<Rating>, genre: string): seq<Row> {
    Dated(Merge(ratings, GenreMovies(movies, genre)))
  }

  // ---------------------------------------------------------------- sorting years

  /** Strictly ascending, hence without duplicates. */
  predicate Ascending(ys: seq<int>) {
    forall i, j :: 0 <= i < j < |ys| ==> ys[i] < ys[j]
  }

  /** Inserts `y` at its place in an ascending sequence, unless present. */
  function InsertYear(ys: seq<int>, y: int): (r: seq<int>)
    requires Ascending(ys)
    ensures Ascending(r)
    ensures forall x :: x in r <==> x in ys || x == y
  {
    if ys == [] then [y]
    else if y < ys[0] then [y] + ys
    else if y == ys[0] then ys
    else
      var tail := InsertYear(ys[1..], y);
      assert forall x :: x in ys <==> x == ys[0] || x in ys[1..] by {
        assert ys == [ys[0]] + ys[1..];
      }
      assert forall j :: 0 <= j < |tail| ==> ys[0] < tail[j] by {
        forall j | 0 <= j < |tail| ensures ys[0] < tail[j] {
          assert tail[j] in tail;
        }
      }
      [ys[0]] + tail
  }

  /** `sorted(years.unique())`: the distinct years, ascending. */
  function SortedUnique(ys: seq<int>): (r: seq<int>)
    ensures Ascending(r)
    ensures forall y :: y in r <==> y in ys
  {
    if ys == [] then []
    else
      assert forall y :: y in ys <==> y in ys[..|ys| - 1] || y == ys[|ys| - 1] by {
        assert ys == ys[..|ys| - 1] + [ys[|ys| - 1]];
      }
      InsertYear(SortedUnique(ys[..|ys| - 1]), ys[|ys| - 1])
  }

  /** An ascending sequence is fixed by its elements. */
  lemma {:induction false} AscendingUnique(a: seq<int>, b: seq<int>)
    requires Ascending(a) && Ascending(b)
    requires forall y :: y in a <==> y in b
    ensures a == b
    decreases |a|
  {
    assert a != [] ==> a[0] in a;
    assert b != [] ==> b[0] in b;
    if a != [] && b != [] {
      AscendingHeads(a, b);
      AscendingTails(a, b);
      AscendingUnique(a[1..], b[1..]);
      assert a == [a[0]] + a[1..] && b == [b[0]] + b[1..];
    }
  }

  lemma AscendingHeads(a: seq<int>, b: seq<int>)
    requires Ascending(a) && Ascending(b) && a != [] && b != []
    requires forall y :: y in a <==> y in b
    ensures a[0] == b[0]
  {
    assert a[0] in a && b[0] in b;
    var i :| 0 <= i < |a| && a[i] == b[0];
    var j :| 0 <= j < |b| && b[j] == a[0];
    assert a[0] <= a[i] && b[0] <= b[j];
  }

  lemma AscendingTails(a: seq<int>, b: seq<int>)
    requires Ascending(a) && Ascending(b) && a != [] && b != [] && a[0] == b[0]
    requires forall y :: y in a <==> y in b
    ensures forall y :: y in a[1..] <==> y in b[1..]
  {
    forall y ensures y in a[1..] ==> y in b[1..] {
      if y in a[1..] {
        var i :| 1 <= i < |a| && a[i] == y;
        assert y in a;
        var j :| 0 <= j < |b| && b[j] == y;
        assert j != 0 && b[1..][j - 1] == y;
      }
    }
    forall y ensures y in b[1..] ==> y in a[1..] {
      if y in b[1..] {
        var j :| 1 <= j < |b| && b[j] == y;
        assert y in b;
        var i :| 0 <= i < |a| && a[i] == y;
        assert i != 0 && a[1..][i - 1] == y;
      }
    }
  }

  /** `sorted(merged['date'].dt.year.unique())` in `get_years_for_genre`: the
      distinct years of the joined rows, ascending. `GetYearsForGenre` adds the
      failure on an empty join. */
  function YearsForGenre(movies: seq<Movie>, ratings: seq<Rating>, genre: string): (years: seq<int>)
    ensures Ascending(years)
  {
    SortedUnique(YearsOf(GenreRows(movies, ratings, genre)))
  }

  // ---------------------------------------------------------------- grouping

  /** The sum and the number of the ratings of year `y`. */
  function RatingSum(rows: seq<Row>, y: int): real {
    if rows == [] then 0.0
    else (if rows[0].year == y then rows[0].rating else 0.0) + RatingSum(rows[1..], y)
  }

  function RatingCount(rows: seq<Row>, y: int): (n: nat)
    ensures n > 0 <==> y in YearsOf(rows)
  {
    if rows == [] then 0
    else
      assert forall x :: x in YearsOf(rows) <==> x == rows[0].year || x in YearsOf(rows[1..]) by {
        assert YearsOf(rows) == [rows[0].year] + YearsOf(rows[1..]);
      }
      (if rows[0].year == y then 1 else 0) + RatingCount(rows[1..], y)
  }

  /** The mean rating of year `y` (zero for a year without rows). */
  function Mean(rows: seq<Row>, y: int): real {
    var n := RatingCount(rows, y);
    if n == 0 then 0.0 else RatingSum(rows, y) / n as real
  }

  /** One entry of `groupby('year')['rating'].mean().reset_index()`. */
  datatype YearAverage = YearAverage(year: int, rating: real)

  function SeriesYears(series: seq<YearAverage>): (ys: seq<int>)
    ensures |ys| == |series|
  {
    seq(|series|, k requires 0 <= k < |series| => series[k].year)
  }

  function MeansFor(ys: seq<int>, rows: seq<Row>): (series: seq<YearAverage>)
    ensures SeriesYears(series) == ys
  {
    if ys == [] then []
    else [YearAverage(ys[0], Mean(rows, ys[0]))] + MeansFor(ys[1..], rows)
  }

  lemma {:induction false} MeansForAt(ys: seq<int>, rows: seq<Row>, k: int)
    requires 0 <= k < |ys|
    ensures MeansFor(ys, rows)[k] == YearAverage(ys[k], Mean(rows, ys[k]))
    decreases |ys|
  {
    if k > 0 {
      MeansForAt(ys[1..], rows, k - 1);
    }
  }

  /** `groupby('year')['rating'].mean()`: one entry for every year that has
      rows and no other, ascending by year, holding the sum of that year's
      ratings divided by their number. */
  function GroupMeans(rows: seq<Row>): (series: seq<YearAverage>)
    ensures Ascending(SeriesYears(series))
    ensures forall y :: y in SeriesYears(series) <==> y in YearsOf(rows)
    ensures forall k :: 0 <= k < |series| ==>
              RatingCount(rows, series[k].year) > 0 &&
              series[k].rating == RatingSum(rows, series[k].year) / RatingCount(rows, series[k].year) as real
  {
    var ys := SortedUnique(YearsOf(rows));
    var series := MeansFor(ys, rows);
    forall k | 0 <= k < |series|
      ensures RatingCount(rows, series[k].year) > 0
      ensures series[k].rating == RatingSum(rows, series[k].year) / RatingCount(rows, series[k].year) as real
    {
      MeansForAt(ys, rows, k);
      assert ys[k] in ys;
    }
    series
  }

  // ---------------------------------------------------------------- year range

  /** `merged[(year >= start) & (year <= end)]`. */
  function InRange(rows: seq<Row>, start: int, end: int): (kept: seq<Row>)
    ensures forall x :: x in kept <==> x in rows && start <= x.year <= end
  {
    if rows == [] then []
    else
      assert forall x :: x in rows <==> x == rows[0] || x in rows[1..] by {
        assert rows == [rows[0]] + rows[1..];
      }
      (if start <= rows[0].year <= end then [rows[0]] else []) + InRange(rows[1..], start, end)
  }

  /** The entries of a series whose year lies in `start..end`. */
  function SeriesInRange(series: seq<YearAverage>, start: int, end: int): seq<YearAverage> {
    if series == [] then []
    else (if start <= series[0].year <= end then [series[0]] else []) + SeriesInRange(series[1..], start, end)
  }

  function YearsInRange(ys: seq<int>, start: int, end: int): (kept: seq<int>)
    requires Ascending(ys)
    ensures Ascending(kept)
    ensures forall y :: y in kept <==> y in ys && start <= y <= end
  {
    if ys == [] then []
    else
      assert forall y :: y in ys <==> y == ys[0] || y in ys[1..] by {
        assert ys == [ys[0]] + ys[1..];
      }
      var tail := YearsInRange(ys[1..], start, end);
      assert forall j :: 0 <= j < |tail| ==> ys[0] < tail[j] by {
        forall j | 0 <= j < |tail| ensures ys[0] < tail[j] {
          assert tail[j] in tail;
        }
      }
      (if start <= ys[0] <= end then [ys[0]] else []) + tail
  }

  lemma {:induction false} InRangeKeepsYear(rows: seq<Row>, start: int, end: int, y: int)
    requires start <= y <= end
    ensures RatingSum(InRange(rows, start, end), y) == RatingSum(rows, y)
    ensures RatingCount(InRange(rows, start, end), y) == RatingCount(rows, y)
    decreases |rows|
  {
    if rows != [] {
      InRangeKeepsYear(rows[1..], start, end, y);
      var tail := InRange(rows[1..], start, end);
      if start <= rows[0].year <= end {
        assert ([rows[0]] + tail)[1..] == tail;
      } else {
        assert InRange(rows, start, end) == tail;
      }
    }
  }

  lemma InRangeYears(rows: seq<Row>, start: int, end: int, y: int)
    ensures y in YearsOf(InRange(rows, start, end)) <==> y in YearsOf(rows) && start <= y <= end
  {
    var kept := InRange(rows, start, end);
    if y in YearsOf(kept) {
      var k :| 0 <= k < |kept| && kept[k].year == y;
      assert kept[k] in kept;
      var i :| 0 <= i < |rows| && rows[i] == kept[k];
      assert YearsOf(rows)[i] == y;
    }
    if y in YearsOf(rows) && start <= y <= end {
      var i :| 0 <= i < |rows| && rows[i].year == y;
      assert rows[i] in kept;
      var k :| 0 <= k < |kept| && kept[k] == rows[i];
      assert YearsOf(kept)[k] == y;
    }
  }

  lemma {:induction false} MeansForInRange(ys: seq<int>, rows: seq<Row>, start: int, end: int)
    requires Ascending(ys)
    ensures MeansFor(YearsInRange(ys, start, end), InRange(rows, start, end))
         == SeriesInRange(MeansFor(ys, rows), start, end)
    decreases |ys|
  {
    if ys != [] {
      MeansForInRange(ys[1..], rows, start, end);
      if start <= ys[0] <= end {
        InRangeKeepsYear(rows, start, end, ys[0]);
        MeansForInRangeHead(ys, rows, start, end, YearsInRange(ys[1..], start, end));
      } else {
        MeansForInRangeSkip(ys, rows, start, end);
      }
    }
  }

  lemma MeansForInRangeSkip(ys: seq<int>, rows: seq<Row>, start: int, end: int)
    requires ys != [] && Ascending(ys) && !(start <= ys[0] <= end)
    requires MeansFor(YearsInRange(ys[1..], start, end), InRange(rows, start, end))
          == SeriesInRange(MeansFor(ys[1..], rows), start, end)
    ensures MeansFor(YearsInRange(ys, start, end), InRange(rows, start, end))
         == SeriesInRange(MeansFor(ys, rows), start, end)
  {
    YearsInRangeSkip(ys, start, end);
    MeansForCons(ys, rows);
    SeriesInRangeSkip(MeansFor(ys, rows), start, end);
  }

  lemma YearsInRangeSkip(ys: seq<int>, start: int, end: int)
    requires ys != [] && Ascending(ys) && !(start <= ys[0] <= end)
    ensures YearsInRange(ys, start, end) == YearsInRange(ys[1..], start, end)
  {
  }

  lemma SeriesInRangeSkip(series: seq<YearAverage>, start: int, end: int)
    requires series != [] && !(start <= series[0].year <= end)
    ensures SeriesInRange(series, start, end) == SeriesInRange(series[1..], start, end)
  {
    assert [] + SeriesInRange(series[1..], start, end) == SeriesInRange(series[1..], start, end);
  }

  lemma MeansForInRangeHead(ys: seq<int>, rows: seq<Row>, start: int, end: int, keptTail: seq<int>)
    requires ys != [] && Ascending(ys) && start <= ys[0] <= end
    requires keptTail == YearsInRange(ys[1..], start, end)
    requires Mean(InRange(rows, start, end), ys[0]) == Mean(rows, ys[0])
    requires MeansFor(keptTail, InRange(rows, start, end)) == SeriesInRange(MeansFor(ys[1..], rows), start, end)
    ensures MeansFor(YearsInRange(ys, start, end), InRange(rows, start, end))
         == SeriesInRange(MeansFor(ys, rows), start, end)
  {
    var kept := YearsInRange(ys, start, end);
    assert kept == [ys[0]] + keptTail;
    MeansForCons(kept, InRange(rows, start, end));
    MeansForCons(ys, rows);
    SeriesInRangeCons(MeansFor(ys, rows), start, end);
  }

  lemma MeansForCons(ys: seq<int>, rows: seq<Row>)
    requires ys != []
    ensures MeansFor(ys, rows)[0] == YearAverage(ys[0], Mean(rows, ys[0]))
    ensures MeansFor(ys, rows)[1..] == MeansFor(ys[1..], rows)
  {
  }

  lemma SeriesInRangeCons(series: seq<YearAverage>, start: int, end: int)
    requires series != []
    ensures SeriesInRange(series, start, end) ==
            (if start <= series[0].year <= end then [series[0]] else []) + SeriesInRange(series[1..], start, end)
  {
  }

  /** Averaging only the rows of `start..end` gives the unrestricted series
      with the years outside the range removed: every year kept has the same
      average as before. */
  lemma GroupMeansInRange(rows: seq<Row>, start: int, end: int)
    ensures GroupMeans(InRange(rows, start, end)) == SeriesInRange(GroupMeans(rows), start, end)
  {
    var ys := SortedUnique(YearsOf(rows));
    var kept := SortedUnique(YearsOf(InRange(rows, start, end)));
    forall y ensures y in kept <==> y in YearsInRange(ys, start, end) {
      InRangeYears(rows, start, end, y);
    }
    AscendingUnique(kept, YearsInRange(ys, start, end));
    MeansForInRange(ys, rows, start, end);
  }

  lemma {:induction false} SeriesInRangeBounds(series: seq<YearAverage>, start: int, end: int)
    ensures forall k :: 0 <= k < |SeriesInRange(series, start, end)| ==>
              start <= SeriesInRange(series, start, end)[k].year <= end
    ensures forall k :: 0 <= k < |SeriesInRange(series, start, end)| ==>
              SeriesInRange(series, start, end)[k] in series
    decreases |series|
  {
    if series != [] {
      SeriesInRangeBounds(series[1..], start, end);
      assert forall e :: e in series[1..] ==> e in series;
    }
  }

  // ---------------------------------------------------------------- the chart's series

  /** The series `create_figure` plots for `genre`: every joined row, or when
      `bounds` is `Some((start, end))` only those of years `start..end`,
      averaged per year. */
  function GenreAverages(movies: seq<Movie>, ratings: seq<Rating>, genre: string,
                         bounds: Option<(int, int)>): (series: seq<YearAverage>)
    ensures Ascending(SeriesYears(series))
    ensures bounds.Some? ==>
              forall k :: 0 <= k < |series| ==> bounds.value.0 <= series[k].year <= bounds.value.1
  {
    var merged := GenreRows(movies, ratings, genre);
    match bounds
    case None => GroupMeans(merged)
    case Some((start, end)) =>
      RangedYears(merged, start, end);
      GroupMeans(InRange(merged, start, end))
  }

  /** Averaging the rows of a range gives only years of that range. */
  lemma RangedYears(rows: seq<Row>, start: int, end: int)
    ensures forall k :: 0 <= k < |GroupMeans(InRange(rows, start, end))| ==>
              start <= GroupMeans(InRange(rows, start, end))[k].year <= end
  {
    var series := GroupMeans(InRange(rows, start, end));
    forall k | 0 <= k < |series| ensures start <= series[k].year <= end {
      assert SeriesYears(series)[k] == series[k].year;
      InRangeYears(rows, start, end, series[k].year);
    }
  }

  /** Some movie with id `id` matches `genre`. */
  predicate Joined(movies: seq<Movie>, genre: string, id: int) {
    exists m :: m in movies && m.movieId == id && MatchesGenre(m, genre)
  }

  /** Year `y` is listed for `genre` exactly when some rating was given in
      `y` to a movie that matches `genre`; ratings of other or unknown movies
      never contribute. */
  lemma YearsForGenreMembership(movies: seq<Movie>, ratings: seq<Rating>, genre: string, y: int)
    ensures y in YearsForGenre(movies, ratings, genre) <==>
            exists r :: r in ratings && UtcYear(r.timestamp) == y && Joined(movies, genre, r.movieId)
  {
    var matched := GenreMovies(movies, genre);
    var merged := Merge(ratings, matched);
    YearsOfDated(merged, y);
    forall r | r in ratings
      ensures HasMovie(matched, r.movieId) <==> Joined(movies, genre, r.movieId)
    {
      MatchedIds(movies, genre, r.movieId);
    }
  }

  /** A movie id is among the matched movies exactly when a movie with that id
      matches. */
  lemma MatchedIds(movies: seq<Movie>, genre: string, id: int)
    ensures HasMovie(GenreMovies(movies, genre), id) <==> Joined(movies, genre, id)
  {
    var matched := GenreMovies(movies, genre);
    if HasMovie(matched, id) {
      var m :| m in matched && m.movieId == id;
    }
    if Joined(movies, genre, id) {
      var m :| m in movies && m.movieId == id && MatchesGenre(m, genre);
      assert m in matched;
    }
  }

  /** No rating belongs to a movie matching `genre`: the inner join is empty. */
  predicate Unrated(movies: seq<Movie>, ratings: seq<Rating>, genre: string) {
    forall r :: r in ratings ==> !Joined(movies, genre, r.movieId)
  }

  /** The join is empty exactly when no rating belongs to a matching movie. */
  lemma EmptyJoin(movies: seq<Movie>, ratings: seq<Rating>, genre: string)
    ensures GenreRows(movies, ratings, genre) == [] <==> Unrated(movies, ratings, genre)
  {
    var merged := Merge(ratings, GenreMovies(movies, genre));
    if !Unrated(movies, ratings, genre) {
      var r :| r in ratings && Joined(movies, genre, r.movieId);
      MatchedIds(movies, genre, r.movieId);
      assert r in merged;
    }
    if merged != [] {
      assert merged[0] in merged;
      MatchedIds(movies, genre, merged[0].movieId);
    }
  }

  /** What `.dt` raises on the `date` column of an empty join: `apply` on a
      column without rows keeps the timestamps' integer type, so the column
      holds no dates. */
  const NoDatesError := "AttributeError: Can only use .dt accessor with datetimelike values"

  /** `get_years_for_genre(genre)` with its failure: when no rating belongs to
      a matching movie, reading the years of the empty join raises; otherwise
      it lists the distinct years of the genre's ratings, ascending. */
  function GetYearsForGenre(movies: seq<Movie>, ratings: seq<Rating>, genre: string): (r: Result<seq<int>>)
    ensures r.Failure? <==> Unrated(movies, ratings, genre)
    ensures r.Failure? ==> r.error == NoDatesError
    ensures r.Success? ==> r.value == YearsForGenre(movies, ratings, genre) && r.value != []
    ensures r.Success? ==> forall y :: y in r.value <==>
              exists x :: x in ratings && UtcYear(x.timestamp) == y && Joined(movies, genre, x.movieId)
  {
    EmptyJoin(movies, ratings, genre);
    if GenreRows(movies, ratings, genre) == [] then Failure(NoDatesError)
    else
      RatedYearsListed(movies, ratings, genre);
      ListedYears(movies, ratings, genre);
      Success(YearsForGenre(movies, ratings, genre))
  }

  lemma RatedYearsListed(movies: seq<Movie>, ratings: seq<Rating>, genre: string)
    requires !Unrated(movies, ratings, genre)
    ensures YearsForGenre(movies, ratings, genre) != []
  {
    EmptyJoin(movies, ratings, genre);
    var merged := GenreRows(movies, ratings, genre);
    assert YearsOf(merged)[0] in YearsOf(merged);
  }

  lemma ListedYears(movies: seq<Movie>, ratings: seq<Rating>, genre: string)
    ensures forall y :: y in YearsForGenre(movies, ratings, genre) <==>
              exists x :: x in ratings && UtcYear(x.timestamp) == y && Joined(movies, genre, x.movieId)
  {
    forall y
      ensures y in YearsForGenre(movies, ratings, genre) <==>
              exists x :: x in ratings && UtcYear(x.timestamp) == y && Joined(movies, genre, x.movieId)
    {
      YearsForGenreMembership(movies, ratings, genre, y);
    }
  }

  /** Without a range the series lists exactly the years `get_years_for_genre`
      lists, in the same order. */
  lemma SeriesYearsAgree(movies: seq<Movie>, ratings: seq<Rating>, genre: string)
    ensures SeriesYears(GenreAverages(movies, ratings, genre, None)) == YearsForGenre(movies, ratings, genre)
  {
  }

  /** A range restricts the series and changes no average: the ranged series
      is the full one without the years outside `start..end`, all of its years
      lie in the range, and `start > end` leaves nothing. */
  lemma RangeRestrictsSeries(movies: seq<Movie>, ratings: seq<Rating>, genre: string, start: int, end: int)
    ensures GenreAverages(movies, ratings, genre, Some((start, end)))
         == SeriesInRange(GenreAverages(movies, ratings, genre, None), start, end)
    ensures forall k :: 0 <= k < |GenreAverages(movies, ratings, genre, Some((start, end)))| ==>
              start <= GenreAverages(movies, ratings, genre, Some((start, end)))[k].year <= end &&
              GenreAverages(movies, ratings, genre, Some((start, end)))[k] in GenreAverages(movies, ratings, genre, None)
    ensures start > end ==> GenreAverages(movies, ratings, genre, Some((start, end))) == []
  {
    var merged := GenreRows(movies, ratings, genre);
    var full := GroupMeans(merged);
    assert GenreAverages(movies, ratings, genre, None) == full;
    assert GenreAverages(movies, ratings, genre, Some((start, end))) == GroupMeans(InRange(merged, start, end));
    GroupMeansInRange(merged, start, end);
    SeriesInRangeBounds(full, start, end);
  }

  /** A range that covers every listed year changes nothing. */
  lemma RangeCoveringAllYears(movies: seq<Movie>, ratings: seq<Rating>, genre: string, start: int, end: int)
    requires forall y :: y in YearsForGenre(movies, ratings, genre) ==> start <= y <= end
    ensures GenreAverages(movies, ratings, genre, Some((start, end)))
         == GenreAverages(movies, ratings, genre, None)
  {
    var full := GenreAverages(movies, ratings, genre, None);
    SeriesYearsAgree(movies, ratings, genre);
    CoveredYears(full, YearsForGenre(movies, ratings, genre), start, end);
    RangeRestrictsSeries(movies, ratings, genre, start, end);
    SeriesInRangeAll(full, start, end);
  }

  lemma CoveredYears(series: seq<YearAverage>, ys: seq<int>, start: int, end: int)
    requires SeriesYears(series) == ys
    requires forall y :: y in ys ==> start <= y <= end
    ensures forall k :: 0 <= k < |series| ==> start <= series[k].year <= end
  {
    forall k | 0 <= k < |series|
      ensures start <= series[k].year <= end
    {
      assert |ys| == |series| && ys[k] == series[k].year;
      assert ys[k] in ys;
    }
  }

  /** In particular the span from the first to the last listed year changes
      nothing. */
  lemma RangeOfListedYears(movies: seq<Movie>, ratings: seq<Rating>, genre: string)
    requires !Unrated(movies, ratings, genre)
    ensures (var ys := YearsForGenre(movies, ratings, genre);
             GenreAverages(movies, ratings, genre, Some((ys[0], ys[|ys| - 1])))
             == GenreAverages(movies, ratings, genre, None))
  {
    RatedYearsListed(movies, ratings, genre);
    var ys := YearsForGenre(movies, ratings, genre);
    forall y | y in ys
      ensures ys[0] <= y <= ys[|ys| - 1]
    {
      var i :| 0 <= i < |ys| && ys[i] == y;
      AscendingEnds(ys, i);
    }
    RangeCoveringAllYears(movies, ratings, genre, ys[0], ys[|ys| - 1]);
  }

  lemma AscendingEnds(ys: seq<int>, i: int)
    requires Ascending(ys) && 0 <= i < |ys|
    ensures ys[0] <= ys[i] <= ys[|ys| - 1]
  {
  }

  lemma {:induction false} SeriesInRangeAll(series: seq<YearAverage>, start: int, end: int)
    requires forall k :: 0 <= k < |series| ==> start <= series[k].year <= end
    ensures SeriesInRange(series, start, end) == series
    decreases |series|
  {
    if series != [] {
      SeriesInRangeAll(series[1..], start, end);
      assert [series[0]] + series[1..] == series;
    }
  }

  lemma {:induction false} GenreMoviesUpper(movies: seq<Movie>, genre: string)
    ensures GenreMovies(movies, Upper(genre)) == GenreMovies(movies, genre)
    decreases |movies|
  {
    if movies != [] {
      LowerOfUpper(genre);
      assert MatchesGenre(movies[0], Upper(genre)) == MatchesGenre(movies[0], genre);
      GenreMoviesUpper(movies[1..], genre);
    }
  }

  /** Matching ignores case: an upper-cased query joins the same ratings,
      so `get_years_for_genre` gives the same years or fails alike, and the
      series is the same. */
  lemma CaseInsensitive(movies: seq<Movie>, ratings: seq<Rating>, genre: string, bounds: Option<(int, int)>)
    ensures Unrated(movies, ratings, Upper(genre)) == Unrated(movies, ratings, genre)
    ensures GetYearsForGenre(movies, ratings, Upper(genre)) == GetYearsForGenre(movies, ratings, genre)
    ensures YearsForGenre(movies, ratings, Upper(genre)) == YearsForGenre(movies, ratings, genre)
    ensures GenreAverages(movies, ratings, Upper(genre), bounds) == GenreAverages(movies, ratings, genre, bounds)
  {
    GenreMoviesUpper(movies, genre);
    LowerOfUpper(genre);
    assert forall m :: MatchesGenre(m, Upper(genre)) == MatchesGenre(m, genre);
  }

  lemma {:induction false} NoMatchNoMovies(movies: seq<Movie>, genre: string)
    requires forall m :: m in movies ==> !MatchesGenre(m, genre)
    ensures GenreMovies(movies, genre) == []
    decreases |movies|
  {
    if movies != [] {
      assert movies[0] in movies;
      NoMatchNoMovies(movies[1..], genre);
    }
  }

  lemma {:induction false} MergeWithoutMovies(ratings: seq<Rating>)
    ensures Merge(ratings, []) == []
    decreases |ratings|
  {
    if ratings != [] {
      MergeWithoutMovies(ratings[1..]);
    }
  }

  /** A query no movie matches leaves the join empty, so `get_years_for_genre`
      raises; the years and the series of the empty join are empty, with or
      without a range. */
  lemma NoMatchNoYears(movies: seq<Movie>, ratings: seq<Rating>, genre: string, bounds: Option<(int, int)>)
    requires forall m :: m in movies ==> !MatchesGenre(m, genre)
    ensures Unrated(movies, ratings, genre)
    ensures GetYearsForGenre(movies, ratings, genre) == Failure(NoDatesError)
    ensures YearsForGenre(movies, ratings, genre) == []
    ensures GenreAverages(movies, ratings, genre, bounds) == []
  {
    NoMatchNoMovies(movies, genre);
    MergeWithoutMovies(ratings);
    assert GenreRows(movies, ratings, genre) == [];
    EmptyJoin(movies, ratings, genre);
    if bounds.Some? {
      var (start, end) := bounds.value;
      assert InRange([], start, end) == [];
    }
  }

  // ---------------------------------------------------------------- means

  /** `n` copies of `x` added up. */
  function Times(n: nat, x: real): real {
    if n == 0 then 0.0 else x + Times(n - 1, x)
  }

  lemma {:induction false} TimesIsProduct(n: nat, x: real)
    ensures Times(n, x) == n as real * x
  {
    if n > 0 {
      TimesIsProduct(n - 1, x);
      assert (n - 1) as real * x + x == n as real * x;
    }
  }

  /** The ratings of year `y` add up to between `Times(count, lo)` and
      `Times(count, hi)`. */
  lemma {:induction false} SumBounds(rows: seq<Row>, y: int, lo: real, hi: real)
    requires forall k :: 0 <= k < |rows| ==> lo <= rows[k].rating <= hi
    ensures Times(RatingCount(rows, y), lo) <= RatingSum(rows, y) <= Times(RatingCount(rows, y), hi)
    decreases |rows|
  {
    if rows != [] {
      var rest := rows[1..];
      assert forall k :: 0 <= k < |rest| ==> rest[k] == rows[k + 1];
      SumBounds(rest, y, lo, hi);
    }
  }

  lemma MeanBetween(sum: real, n: real, lo: real, hi: real)
    requires n > 0.0 && n * lo <= sum <= n * hi
    ensures lo <= sum / n <= hi
  {
  }

  lemma CountedMeanBetween(count: nat, sum: real, lo: real, hi: real)
    requires count > 0 && Times(count, lo) <= sum <= Times(count, hi)
    ensures lo <= sum / count as real <= hi
  {
    TimesIsProduct(count, lo);
    TimesIsProduct(count, hi);
    MeanBetween(sum, count as real, lo, hi);
  }

  lemma YearMeanWithin(rows: seq<Row>, y: int, lo: real, hi: real)
    requires forall k :: 0 <= k < |rows| ==> lo <= rows[k].rating <= hi
    requires RatingCount(rows, y) > 0
    ensures lo <= RatingSum(rows, y) / RatingCount(rows, y) as real <= hi
  {
    SumBounds(rows, y, lo, hi);
    CountedMeanBetween(RatingCount(rows, y), RatingSum(rows, y), lo, hi);
  }

  /** A yearly average lies between the smallest and the largest rating
      that can occur. */
  lemma MeansWithinRatings(rows: seq<Row>, lo: real, hi: real)
    requires forall k :: 0 <= k < |rows| ==> lo <= rows[k].rating <= hi
    ensures forall k :: 0 <= k < |GroupMeans(rows)| ==> lo <= GroupMeans(rows)[k].rating <= hi
  {
    var series := GroupMeans(rows);
    forall k | 0 <= k < |series|
      ensures lo <= series[k].rating <= hi
    {
      YearMeanWithin(rows, series[k].year, lo, hi);
    }
  }
}
