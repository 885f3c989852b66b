/** The chart request for one genre: how `fig` turns the year bounds kept in
    the session (form text, possibly missing or empty) into integers, and what
    `create_figure` computes before drawing: the per-year average series,
    restricted to a year range only when both bounds are truthy, and the
    figure title. */
module Figure {
  import opened Wrappers
  import opened Text
  import opened Numerals
  import opened Tables
  import opened YearlyRatings

  /** Python truthiness of a session string: present and non-empty. */
  predicate Given(s: Option<string>) {
    s.Some? && s.value != []
  }

  /** Python truthiness of an optional integer bound: present and non-zero. */
  predicate Truthy(b: Option<int>) {
    b.Some? && b.value != 0
  }

  /** The message `int()` raises with on text that is not a decimal literal. */
  const InvalidLiteral := "ValueError: invalid literal for int() with base 10"

  /** The bound conversion in `fig`: when both session strings are truthy, both
      are converted with `int()` (a failure is an uncaught `ValueError`);
      otherwise both bounds become `None`. */
  function FigBounds(start: Option<string>, end: Option<string>): (r: Result<(Option<int>, Option<int>)>)
    ensures !(Given(start) && Given(end)) ==> r == Success((None, None))
    ensures r.Failure? <==>
              Given(start) && Given(end) && (ParseInt(start.value).None? || ParseInt(end.value).None?)
    ensures r.Success? ==> (r.value.0.Some? <==> r.value.1.Some?)
    ensures r.Success? && r.value.0.Some? ==>
              Given(start) && Given(end) &&
              ParseInt(start.value) == r.value.0 && ParseInt(end.value) == r.value.1
  {
    if Given(start) && Given(end) then
      match (ParseInt(start.value), ParseInt(end.value))
      case (Some(s), Some(e)) => Success((Some(s), Some(e)))
      case _ => Failure(InvalidLiteral)
    else
      Success((None, None))
  }

  /** Bounds written as decimal numbers come back as the same integers. */
  lemma FigBoundsOfNumbers(s: int, e: int)
    ensures FigBounds(Some(IntToString(s)), Some(IntToString(e))) == Success((Some(s), Some(e)))
  {
    ParseIntOfString(s);
    ParseIntOfString(e);
  }

  /** The range the series is restricted to, if any: only when both bounds are
      truthy (a bound of 0 is falsy and switches the range off). */
  function RangeOf(start: Option<int>, end: Option<int>): (bounds: Option<(int, int)>)
    ensures bounds.Some? <==> Truthy(start) && Truthy(end)
    ensures bounds.Some? ==> bounds.value == (start.value, end.value)
  {
    if Truthy(start) && Truthy(end) then Some((start.value, end.value)) else None
  }

  const TitlePrefix := "Ratings for Genre: "

  /** The `" (start-end)"` part of a title. */
  function RangeSuffix(start: int, end: int): (suffix: string)
    ensures |suffix| >= 6 && suffix[..2] == " (" && suffix[|suffix| - 1] == ')'
  {
    " (" + IntToString(start) + "-" + IntToString(end) + ")"
  }

  /** The title `create_figure` gives the figure. */
  function FigureTitle(genre: string, start: Option<int>, end: Option<int>): (title: string)
    ensures TitlePrefix + genre <= title
    ensures title == TitlePrefix + genre <==> !(Truthy(start) && Truthy(end))
  {
    var base := TitlePrefix + genre;
    if Truthy(start) && Truthy(end) then base + RangeSuffix(start.value, end.value) else base
  }

  /** With a range, the title closes with the range written out, and `int()`
      reads the start back from the text between `" ("` and `"-"`, and the end
      from the text between that `"-"` and the closing `")"`. */
  lemma TitleShowsRange(genre: string, s: int, e: int)
    requires s != 0 && e != 0
    ensures FigureTitle(genre, Some(s), Some(e))[|TitlePrefix + genre|..] == RangeSuffix(s, e)
    ensures ReadsBack(FigureTitle(genre, Some(s), Some(e)), |TitlePrefix + genre|, s, e)
  {
    var base := TitlePrefix + genre;
    assert FigureTitle(genre, Some(s), Some(e)) == base + RangeSuffix(s, e);
    SuffixReadsBack(base, s, e);
  }

  /** From index `at` on, `title` holds `" (" + a + "-" + b + ")"` where `int()`
      reads `a` as `s` and `b` as `e`. */
  predicate ReadsBack(title: string, at: int, s: int, e: int) {
    var open, dash := at + 2, at + 2 + |IntToString(s)|;
    && 0 <= at && dash < |title| - 1
    && title[at] == ' ' && title[at + 1] == '(' && title[dash] == '-' && title[|title| - 1] == ')'
    && ParseInt(title[open..dash]) == Some(s)
    && ParseInt(title[dash + 1..|title| - 1]) == Some(e)
  }

  lemma SuffixReadsBack(base: string, s: int, e: int)
    ensures (base + RangeSuffix(s, e))[|base|..] == RangeSuffix(s, e)
    ensures ReadsBack(base + RangeSuffix(s, e), |base|, s, e)
  {
    var title := base + RangeSuffix(s, e);
    RangeParts(base, IntToString(s), IntToString(e));
    SlicesParse(title, |base| + 2, |base| + 2 + |IntToString(s)|, s, e);
  }

  lemma SlicesParse(title: string, open: int, dash: int, s: int, e: int)
    requires 0 <= open <= dash < |title| - 1
    requires title[open..dash] == IntToString(s) && title[dash + 1..|title| - 1] == IntToString(e)
    ensures ParseInt(title[open..dash]) == Some(s)
    ensures ParseInt(title[dash + 1..|title| - 1]) == Some(e)
  {
    ParseIntOfString(s);
    ParseIntOfString(e);
  }

  /** Where the parts of `base + " (" + a + "-" + b + ")"` lie. */
  lemma RangeParts(base: string, a: string, b: string)
    ensures (var title, open := base + (" (" + a + "-" + b + ")"), |base| + 2;
             var dash := open + |a|;
             && title[|base|..] == " (" + a + "-" + b + ")"
             && dash < |title| - 1
             && title[open - 2] == ' ' && title[open - 1] == '(' && title[dash] == '-' && title[|title| - 1] == ')'
             && title[open..dash] == a
             && title[dash + 1..|title| - 1] == b)
  {
    var suffix := " (" + a + "-" + b + ")";
    var title := base + suffix;
    assert title[|base|..] == suffix;
    assert suffix[2..2 + |a|] == a && suffix[2 + |a|] == '-';
    assert suffix[3 + |a|..|suffix| - 1] == b;
  }

  /** The data part of `create_figure`: join, date, optionally restrict
      `merged` to the range, group by year and average; then the title. When
      no rating belongs to a matching movie, reading the years of the empty
      join raises before anything is drawn. The prediction marker drawn on top
      is not modelled. */
  method CreateFigure(movies: seq<Movie>, ratings: seq<Rating>, genre: string,
                      start: Option<int>, end: Option<int>)
    returns (r: Result<(string, seq<YearAverage>)>)
    ensures r.Failure? <==> Unrated(movies, ratings, genre)
    ensures r.Failure? ==> r.error == NoDatesError
    ensures r.Success? ==> r.value.0 == FigureTitle(genre, start, end)
    ensures r.Success? ==> r.value.1 == GenreAverages(movies, ratings, genre, RangeOf(start, end))
    ensures r.Success? ==> Ascending(SeriesYears(r.value.1))
    ensures r.Success? && Truthy(start) && Truthy(end) ==>
              forall k :: 0 <= k < |r.value.1| ==> start.value <= r.value.1[k].year <= end.value
    ensures r.Success? && Truthy(start) && Truthy(end) ==>
              r.value.1 == SeriesInRange(GenreAverages(movies, ratings, genre, None), start.value, end.value)
    ensures r.Success? && !(Truthy(start) && Truthy(end)) ==>
              GetYearsForGenre(movies, ratings, genre) == Success(SeriesYears(r.value.1))
  {
    var merged := GenreRows(movies, ratings, genre);
    EmptyJoin(movies, ratings, genre);
    if merged == [] {
      return Failure(NoDatesError);
    }
    RatedChart(movies, ratings, genre, start, end);
    if Truthy(start) && Truthy(end) {
      merged := InRange(merged, start.value, end.value);
    }
    var series := GroupMeans(merged);
    var title := TitlePrefix + genre;
    if Truthy(start) && Truthy(end) {
      title := title + (" (" + IntToString(start.value) + "-" + IntToString(end.value) + ")");
    }
    return Success((title, series));
  }

  /** What the chart of a genre with ratings shows, with the bounds as
      `create_figure` receives them. */
  lemma RatedChart(movies: seq<Movie>, ratings: seq<Rating>, genre: string,
                   start: Option<int>, end: Option<int>)
    requires !Unrated(movies, ratings, genre)
    ensures Ascending(SeriesYears(GenreAverages(movies, ratings, genre, RangeOf(start, end))))
    ensures Truthy(start) && Truthy(end) ==>
              (var series := GenreAverages(movies, ratings, genre, RangeOf(start, end));
               && (forall k :: 0 <= k < |series| ==> start.value <= series[k].year <= end.value)
               && series == SeriesInRange(GenreAverages(movies, ratings, genre, None), start.value, end.value))
    ensures !(Truthy(start) && Truthy(end)) ==>
              GetYearsForGenre(movies, ratings, genre) ==
              Success(SeriesYears(GenreAverages(movies, ratings, genre, RangeOf(start, end))))
  {
    if Truthy(start) && Truthy(end) {
      RangeRestrictsSeries(movies, ratings, genre, start.value, end.value);
    } else {
      SeriesYearsAgree(movies, ratings, genre);
    }
  }

  /** `fig` up to the drawing: convert the session bounds, then build the
      figure data. A malformed bound aborts the request, and so does a genre
      none of whose movies was rated. */
  method Fig(movies: seq<Movie>, ratings: seq<Rating>, genre: string,
             startText: Option<string>, endText: Option<string>)
    returns (r: Result<(string, seq<YearAverage>)>)
    ensures r.Failure? <==> FigBounds(startText, endText).Failure? || Unrated(movies, ratings, genre)
    ensures FigBounds(startText, endText).Failure? ==> r == Failure(InvalidLiteral)
    ensures FigBounds(startText, endText).Success? && Unrated(movies, ratings, genre) ==>
              r == Failure(NoDatesError)
    ensures r.Success? ==>
              (var (start, end) := FigBounds(startText, endText).value;
               r.value == (FigureTitle(genre, start, end),
                           GenreAverages(movies, ratings, genre, RangeOf(start, end))))
  {
    var bounds := FigBounds(startText, endText);
    if bounds.Failure? {
      return Failure(bounds.error);
    }
    var (start, end) := bounds.value;
    r := CreateFigure(movies, ratings, genre, start, end);
  }

  /** A start year of "0" is converted but then ignored: it is falsy once it is
      an integer, so the whole history is charted under the plain title. */
  lemma ZeroStartIgnored(movies: seq<Movie>, ratings: seq<Rating>, genre: string, e: int)
    ensures FigBounds(Some("0"), Some(IntToString(e))) == Success((Some(0), Some(e)))
    ensures RangeOf(Some(0), Some(e)) == None
    ensures FigureTitle(genre, Some(0), Some(e)) == TitlePrefix + genre
    ensures GenreAverages(movies, ratings, genre, RangeOf(Some(0), Some(e))) ==
            GenreAverages(movies, ratings, genre, None)
  {
    FigBoundsOfNumbers(0, e);
    assert IntToString(0) == "0";
  }
}
