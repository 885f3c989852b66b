# Movie rating predicter: the data core in Dafny

`app.py` is a small Flask site. It shows the MovieLens genres, and for a chosen
genre it charts the average rating of every year, optionally limited to a year
range. A linear regression trained on the per-year averages of all ratings
predicts a future year. This project models the data part of that program and
proves properties about it:

- the genre catalogue of the home page (`get_genres`);
- the years in which a genre was rated (`get_years_for_genre`);
- the per-year average series and the title of the chart (`create_figure`),
  with the conversion of the session's year bounds in `fig`;
- the per-year averages the regression is trained on (`train_model`).

The tables are explicit sequences of records instead of global data frames.
A `Movie` has an id and a genre cell that may be missing. A `Rating` has a
movie id, a rating and a Unix timestamp. The UTC year of a timestamp follows
the POSIX definition of "Seconds Since the Epoch" (IEEE Std 1003.1-2017, Base
Definitions, section 4.16): proleptic Gregorian calendar, 86400 seconds a day,
no leap seconds. Means are exact `real` quotients.

Modules, in dependency order:

- `Wrappers` (wrappers.dfy): `Option` and `Result`.
- `Text` (text.dfy): Python's `isspace`, `strip`, `split`, ASCII case mapping,
  `in` on strings and the code-point order of strings.
- `Numerals` (numerals.dfy): `str(int)` and `int(str)`.
- `UtcCalendar` (calendar.dfy): the year of a timestamp.
- `Tables` (tables.dfy): the `Movie` and `Rating` records.
- `Genres` (genres.dfy): `get_genres`, a method with the source's two nested
  loops over a set accumulator, followed by a sort.
- `YearlyRatings` (ratings.dfy): genre matching, the inner join, dating, the
  distinct years, grouping by year, range filtering, and the lemmas relating
  them.
- `Figure` (figure.dfy): bound conversion in `fig` and the `create_figure`
  method, which reassigns `merged` as the source does.
- `Training` (training.dfy): the ratings table as a class whose year column
  `train_model` adds in place, and the per-year averages over all ratings.
- `Scenarios` (scenarios.dfy): worked examples on small tables.

Four behaviours of the code are easy to overlook, and the model keeps them:

- A range applies only when both bounds are truthy. `fig` tests the session
  strings. `create_figure` then tests the converted integers, so a bound
  typed as `0` is converted but ignores the range (`Figure.ZeroStartIgnored`).
- If several movie rows share an id, the inner merge repeats the rating once
  for each of them. `YearlyRatings.Merge` states that count for every
  rating. When every rating has exactly one partner, the join returns the
  ratings unchanged (`Training.MergeOneToOne`).
- A missing genre cell is `""` for `get_genres` (`fillna('')`), but it never
  matches in `str.contains(..., na=False)`, not even the empty query.
- When no rating belongs to a matching movie, the join has no rows. `apply`
  on the empty `timestamp` column then keeps its integer type, and `.dt`
  raises `AttributeError`. So `get_years_for_genre`, `create_figure` and
  `fig` fail there rather than return an empty list or chart
  (`YearlyRatings.GetYearsForGenre`, `Figure.CreateFigure`, `Figure.Fig`).

## Model

| member | source | states |
|---|---|---|
| Genres.GetGenres | app.py:44-56 | The result is strictly ascending, so it has no duplicates. It holds exactly the catalogue labels, and each element is non-empty with no whitespace at either end. |
| Genres.SortLabels | app.py:56 | `sorted(set)`: the result is strictly ascending and holds exactly the elements of the set. |
| Genres.GenreText | app.py:52 | `fillna('')`: a present genre cell gives its text, and a missing one the empty string. |
| Genres.CatalogueMembership | app.py:52-55 | A string is a catalogue label exactly when it is non-empty and is the stripped form of some `'|'`-separated piece of some movie's genre text. |
| Genres.LabelsTrimmed | app.py:54-55 | Every catalogue label is non-empty, has no whitespace at either end, and is unchanged by stripping. |
| Genres.MissingGenresContributeNothing | app.py:52 | Dropping a movie with a missing genre cell leaves the catalogue unchanged. An empty movie table gives an empty catalogue. |
| Text.AscendingUnique | app.py:56 | Two strictly ascending listings with the same elements are equal. So `sorted` of a set does not depend on the order the set is walked in. |
| Text.Strip | app.py:54-55 | The result has no whitespace at either end and is no longer than the input. `StripSpan` completes the characterisation. |
| Text.StripSpan | app.py:54 | What `strip()` returns is a contiguous part of its input, and everything it removes is whitespace. |
| Text.StripIdempotent | app.py:55 | Stripping twice is the same as stripping once. |
| Text.Split | app.py:53 | `split(sep)` gives at least one piece. `JoinSplit` and `SplitJoin` pin down the pieces. |
| Text.JoinSplit | app.py:53 | No piece of `split(sep)` contains the separator. Joining the pieces with the separator rebuilds the input. |
| Text.SplitJoin | app.py:53 | Splitting the join of one or more separator-free pieces gives back those pieces. |
| Text.Contains | app.py:66 | `needle in hay` is true exactly when the needle occurs at some index of the haystack. |
| Text.LowerOfUpper | app.py:66 | Upper-casing a query does not change its lower-cased form. |
| Text.Insert | app.py:56 | Inserting into a strictly ascending sequence keeps it strictly ascending. The elements afterwards are the old ones plus the inserted one. |
| Text.Less | app.py:56 | Python's `<` on strings puts a proper prefix first and never holds between equal strings. With `LessTotal` and `LessTransitive` it is a strict total order. |
| Text.LessTotal | app.py:56 | Python's string order is total: two strings are equal or one is below the other. |
| Text.LessTransitive | app.py:56 | Python's string order is transitive. |
| YearlyRatings.MatchesGenre | app.py:66 | A movie matches exactly when its genre cell is present and the lower-cased query occurs at some index of its lower-cased text. |
| YearlyRatings.GenreMovies | app.py:66-67 | The selected movies are exactly the movies that match. Each matching movie row is kept as often as it occurs in the table, and every other row is dropped. |
| YearlyRatings.Merge | app.py:68 | The joined rows are exactly the ratings whose movie id belongs to a selected movie, so a rating of an unknown or unmatched movie is dropped. Each rating appears as many times as it occurs in the ratings times the number of selected movies with its id. |
| YearlyRatings.IdCount | app.py:68 | A rating has at least one join partner exactly when some movie has its id. |
| YearlyRatings.Dated | app.py:69 | Dating keeps one row per rating. Its contract gives only the length, and `YearsOfDated` pins down the years. |
| YearlyRatings.YearsOfDated | app.py:69-70 | A year occurs among the dated rows exactly when one of the ratings has that UTC year. |
| YearlyRatings.YearsForGenre | app.py:70 | The distinct years of the joined rows are strictly ascending, so there are no duplicates. The failure on an empty join is in `GetYearsForGenre`. |
| YearlyRatings.GetYearsForGenre | app.py:58-71 | `get_years_for_genre` fails with `.dt`'s `AttributeError` exactly when no rating belongs to a matching movie. Otherwise it returns a non-empty ascending list that holds exactly the UTC years of the ratings of matching movies. |
| YearlyRatings.EmptyJoin | app.py:66-68 | The join has no rows exactly when no rating belongs to a movie matching the query. |
| YearlyRatings.YearsForGenreMembership | app.py:66-70 | A year is listed for a genre exactly when some rating has that UTC year and belongs to a movie whose genre text matches the query. |
| YearlyRatings.SortedUnique | app.py:70 | `sorted(unique(...))`: the result is strictly ascending and holds exactly the input's values. |
| YearlyRatings.GroupMeans | app.py:224-225 | The series is ascending by year, and its years are exactly the rows' years. Each entry's count is positive and its rating is the sum of that year's ratings divided by their count. |
| YearlyRatings.InRange | app.py:221 | The kept rows are exactly the rows whose year lies in `start..end`, inclusive. |
| YearlyRatings.GenreAverages | app.py:215-225 | The chart's series ascends by year, and with a range every year lies inside it. `GroupMeans`, `RangeRestrictsSeries` and `SeriesYearsAgree` pin down its entries. |
| YearlyRatings.GroupMeansInRange | app.py:220-225 | Averaging only the rows in the range gives the unrestricted series without the years outside the range. |
| YearlyRatings.RangeRestrictsSeries | app.py:220-225 | The ranged series is the full series without the years outside the range. Each of its entries lies in the range and appears in the full series with the same average. `start > end` gives an empty series. |
| YearlyRatings.RangeCoveringAllYears | app.py:220-225 | A range covering every listed year leaves the series unchanged. |
| YearlyRatings.RangeOfListedYears | app.py:220-225 | When some rating belongs to a matching movie, the range from the first to the last listed year leaves the series unchanged. |
| YearlyRatings.SeriesYearsAgree | app.py:66-70 | Without a range, the chart's years are exactly `get_years_for_genre`'s list, in the same order. |
| YearlyRatings.CaseInsensitive | app.py:66 | Upper-casing the query changes nothing. The same ratings are joined, so `get_years_for_genre` returns the same years or fails in the same way, and the series is the same with or without a range. |
| YearlyRatings.NoMatchNoYears | app.py:66-70 | When no movie matches the query, no rating is joined and `get_years_for_genre` fails with `.dt`'s `AttributeError`. The years and the series of the empty join are empty, with or without a range. |
| YearlyRatings.MeansWithinRatings | app.py:225 | When every rating lies in `lo..hi`, every yearly average does too. |
| UtcCalendar.UtcYear | app.py:29 | The year of a timestamp is the year whose first second is at or before it and whose successor's first second is after it. |
| UtcCalendar.UtcYearUnique | app.py:29 | Only one year's span holds a given timestamp. |
| UtcCalendar.UtcYearMonotone | app.py:69 | A later timestamp never has an earlier year. |
| UtcCalendar.YearLength | app.py:218 | A year has 366 days exactly when it is a Gregorian leap year, and 365 otherwise. |
| UtcCalendar.Cycles | app.py:218 | Every 400 years hold 146097 days, forwards and backwards. |
| UtcCalendar.KnownYears | app.py:29 | The timestamps of 1969, 1970, 2000 and 2001 are exactly the expected ranges of seconds. |
| Numerals.ParseInt | app.py:176-177 | `int()` strips the whitespace it skips. It succeeds exactly when the rest is digit groups, optionally after one `+` or `-`. The value is those digits' number, negated after `-`. Blank text fails. |
| Numerals.IntTrimIsStrip | app.py:176-177 | Apart from the separators U+001C..U+001F, the whitespace `int()` skips is the whitespace `strip()` removes. |
| Numerals.SeparatorNotSkipped | app.py:176-177 | `strip()` removes a leading U+001C, but `int()` rejects text that starts with one. |
| Numerals.ParseIntOfString | app.py:176-177 | `int(str(n)) == n` for every integer `n`. |
| Numerals.NatToString | app.py:240 | `str(n)` for `n >= 0` is a non-empty string of decimal digits, with no leading zero unless `n` is 0. |
| Numerals.IntToString | app.py:240 | `str(n)` is non-empty and has no whitespace at either end. |
| Figure.FigBounds | app.py:175-180 | Each bound becomes `None` unless both session strings are present and non-empty. Conversion fails exactly when both are given and one is not an integer literal. Otherwise both bounds are the parsed integers. |
| Figure.FigBoundsOfNumbers | app.py:175-177 | Bounds written as decimal numbers are converted back to the same integers. |
| Figure.RangeOf | app.py:220 | A range exists exactly when both bounds are truthy (present and non-zero), and it is those two bounds. |
| Figure.FigureTitle | app.py:238-240 | The title starts with `"Ratings for Genre: " + genre`. It is exactly that prefix unless both bounds are truthy. |
| Figure.TitleShowsRange | app.py:239-240 | With both bounds truthy, the title continues with `" (" + str(start) + "-" + str(end) + ")"`. `int()` reads the start back from the title text between `" ("` and `"-"`, and the end from the text between that `"-"` and the closing `")"`. |
| Figure.CreateFigure | app.py:215-225 | The call fails with `.dt`'s `AttributeError` exactly when no rating belongs to a matching movie. Otherwise the series is the genre's series under the truthy-bounds range, the title is the figure title, and the years ascend. With a range, every year lies inside it and the series is the full series restricted to it. Without one, the years are exactly what `get_years_for_genre` returns. |
| Figure.RatedChart | app.py:218-225 | For a genre with ratings: the series' years ascend. With truthy bounds the series is the full one restricted to them. Otherwise its years are `get_years_for_genre`'s result. |
| Figure.Fig | app.py:166-182 | The request fails exactly when bound conversion fails or no rating belongs to a matching movie. A bad bound gives the `ValueError`, which comes before the empty join's `AttributeError`. Otherwise it returns the title and the series for the converted bounds. |
| Figure.ZeroStartIgnored | app.py:175-180 | A start bound of `"0"` is converted to 0 and then ignored. The title gets no range, and the series is the full history. |
| Training.RatingsFrame.AddYearColumn | app.py:29-30 | The ratings are unchanged, and the table gains a year column holding each rating's UTC year. |
| Training.RatingsFrame.YearlyAverages | app.py:33 | The result is the per-year means over every rating. Its years ascend and are exactly the years in which some rating was given. |
| Training.RatingsFrame.TrainingSeries | app.py:29-33 | The method adds the year column, keeps the ratings, and returns the per-year means over all ratings. |
| Training.MergeOneToOne | app.py:68 | When every rating has exactly one movie with its id, the join returns the ratings unchanged. |
| Training.TrainingIsUniversalChart | app.py:29-33 | Assume every movie has a genre value and every rating belongs to exactly one movie. Then the training series is the chart of the empty query without a range. |
| Scenarios.SubstringMatches | app.py:66 | "action" matches "Action\|Adventure", "om" matches "Romance", and a missing cell matches nothing. |
| Scenarios.ComedyChart | app.py:58-71 | Take a Comedy movie rated 4.0 in 2000 and 5.0 in 2001, and a Drama movie rated 3.0. `get_years_for_genre("Comedy")` returns `[2000, 2001]`, and the series is `[(2000, 4.0), (2001, 5.0)]`. |

## Left out

- The web layer: Flask routing, redirects, session cookies, templates, form
  parsing and the catch-all route. `fig` gets its two session strings as
  parameters.
- Plotting: the matplotlib figure, the plot and scatter calls, `savefig`, the
  byte buffer and `send_file`.
- The regression: `LinearRegression().fit` and `model.predict`, including the
  `prediction_year` branch of `fig`. These are floating-point numerics inside
  a library whose code is not part of this model. Only the training series is
  modelled.
- Start-up: reading the two CSV files, the random secret key, and the
  port/environment settings. The tables are parameters.
- Training.RatingsFrame.AddYearColumn, Training.RatingsFrame.TrainingSeries: on an empty ratings table, `train_model`
  raises at the `.dt` access, as the empty join does. The model instead adds
  an empty year column and returns an empty series. The training data is
  a fixed, non-empty file.
- Regular expressions: pandas reads the genre query as a regular expression.
  `YearlyRatings.MatchesGenre` treats it as a literal substring. The two agree
  for genre names without metacharacters.
- Case and digits beyond ASCII: `case=False` folds full Unicode case, and
  `int()` accepts non-ASCII decimal digits. The model maps only ASCII letters
  and reads only ASCII digits.
- Numerals.ParseInt: Python 3.11 and later reject literals of more than 4300
  digits. The model reads literals of any length.
- Floating point: pandas takes means in binary floating point, and the model
  takes exact `real` quotients. The `:.2f` formatting of a prediction is not
  modelled.
- `UtcCalendar.UtcYear`: Python raises an error for years outside 1..9999. The
  model extends the calendar proleptically to every integer timestamp.
- Column contents other than year and rating: the joined rows keep only what
  the grouping reads, and the `date` column is represented by its year.
- The order of rows within the join is the rating order. pandas' inner merge
  may order rows differently, but no result of the model depends on it.
