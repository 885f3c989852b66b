/** The two tables the application loads at start-up, as rows. */
module Tables {
  import opened Wrappers

  /** A row of the movie table. `genres` is the pipe-delimited genre text,
      `None` where the cell is empty (pandas reads it as NaN). */
  datatype Movie = Movie(movieId: int, genres: Option<string>)

  /** A row of the ratings table: the rated movie, the rating and the Unix
      time it was given, in seconds. */
  datatype Rating = Rating(movieId: int, rating: real, timestamp: int)
}
