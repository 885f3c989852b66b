/** The genre catalogue offered on the home page (`get_genres`): every label
    of every movie's pipe-delimited genre text, stripped of surrounding
    whitespace, without empty labels or duplicates, in ascending order. */
module Genres {
  import opened Wrappers
  import opened Text
  import opened Tables

  /** `fillna('')`: a movie's genre text, empty where the cell is missing. */
  function GenreText(m: Movie): (text: string)
    ensures m.genres.Some? ==> text == m.genres.value
    ensures m.genres.None? ==> text == []
  {
    match m.genres
    case None => ""
    case Some(text) => text
  }

  /** The `'|'`-separated pieces of a movie's genre text. */
  function Pieces(m: Movie): seq<string> {
    Split(GenreText(m), '|')
  }

  /** What one piece adds to the catalogue: its stripped form, if non-empty. */
  function PieceLabel(piece: string): set<string> {
    var stripped := Strip(piece);
    if stripped != [] then {stripped} else {}
  }

  function PieceLabels(pieces: seq<string>): set<string> {
    if pieces == [] then {}
    else PieceLabels(pieces[..|pieces| - 1]) + PieceLabel(pieces[|pieces| - 1])
  }

  /** Every label the catalogue holds, as a set. */
  function CatalogueLabels(movies: seq<Movie>): set<string> {
    if movies == [] then {}
    else CatalogueLabels(movies[..|movies| - 1]) + PieceLabels(Pieces(movies[|movies| - 1]))
  }

  /** Label `g` is the stripped form of piece `j` of movie `m`. */
  predicate LabelOf(m: Movie, j: int, g: string) {
    0 <= j < |Pieces(m)| && Strip(Pieces(m)[j]) == g
  }

  lemma {:induction false} PieceLabelsMembership(pieces: seq<string>, g: string)
    ensures g in PieceLabels(pieces) <==>
            g != [] && exists j :: 0 <= j < |pieces| && Strip(pieces[j]) == g
    decreases |pieces|
  {
    if pieces != [] {
      var init := pieces[..|pieces| - 1];
      PieceLabelsMembership(init, g);
      assert forall j :: 0 <= j < |init| ==> init[j] == pieces[j];
      if g in PieceLabels(init) {
        var j :| 0 <= j < |init| && Strip(init[j]) == g;
        assert Strip(pieces[j]) == g;
      }
    }
  }

  /** Some piece of movie `m` has stripped form `g`. */
  ghost predicate HasLabel(m: Movie, g: string) {
    exists j :: LabelOf(m, j, g)
  }

  /** Some movie among the first `n` has a piece whose stripped form is `g`. */
  ghost predicate LabelAmong(movies: seq<Movie>, n: int, g: string) {
    exists i, j :: 0 <= i < n && i < |movies| && LabelOf(movies[i], j, g)
  }

  lemma LabelAmongStep(movies: seq<Movie>, g: string)
    requires movies != []
    ensures LabelAmong(movies, |movies|, g) <==>
            LabelAmong(movies[..|movies| - 1], |movies| - 1, g) || HasLabel(movies[|movies| - 1], g)
  {
    var n := |movies| - 1;
    var init := movies[..n];
    if LabelAmong(movies, |movies|, g) {
      var i, j :| 0 <= i < |movies| && LabelOf(movies[i], j, g);
      if i < n {
        assert init[i] == movies[i];
      }
    }
    if LabelAmong(init, n, g) {
      var i, j :| 0 <= i < n && LabelOf(init[i], j, g);
      assert init[i] == movies[i];
    }
  }

  lemma HasLabelPieces(m: Movie, g: string)
    ensures HasLabel(m, g) <==> exists j :: 0 <= j < |Pieces(m)| && Strip(Pieces(m)[j]) == g
  {
    if exists j :: 0 <= j < |Pieces(m)| && Strip(Pieces(m)[j]) == g {
      var j :| 0 <= j < |Pieces(m)| && Strip(Pieces(m)[j]) == g;
      assert LabelOf(m, j, g);
    }
  }

  /** A label is in the catalogue exactly when it is non-empty and is the
      stripped form of some piece of some movie's genre text. */
  lemma {:induction false} CatalogueMembership(movies: seq<Movie>, g: string)
    ensures g in CatalogueLabels(movies) <==> g != [] && LabelAmong(movies, |movies|, g)
    decreases |movies|
  {
    if movies != [] {
      var init := movies[..|movies| - 1];
      var last := movies[|movies| - 1];
      CatalogueMembership(init, g);
      PieceLabelsMembership(Pieces(last), g);
      HasLabelPieces(last, g);
      LabelAmongStep(movies, g);
    }
  }

  /** Every catalogue label is non-empty and has nothing left to strip. */
  lemma LabelsTrimmed(movies: seq<Movie>, g: string)
    requires g in CatalogueLabels(movies)
    ensures g != [] && Trimmed(g) && Strip(g) == g
  {
    CatalogueMembership(movies, g);
    var i, j :| 0 <= i < |movies| && LabelOf(movies[i], j, g);
    StripTrimmed(g);
  }

  lemma {:induction false} CatalogueConcat(a: seq<Movie>, b: seq<Movie>)
    ensures CatalogueLabels(a + b) == CatalogueLabels(a) + CatalogueLabels(b)
    decreases |b|
  {
    if b == [] {
      assert a + b == a;
    } else {
      var init := b[..|b| - 1];
      CatalogueConcat(a, init);
      assert (a + b)[..|a + b| - 1] == a + init;
    }
  }

  lemma MissingGenresNoLabels(m: Movie)
    requires m.genres == None
    ensures CatalogueLabels([m]) == {}
  {
    assert GenreText(m) == [];
    assert Pieces(m) == [[]];
    assert Pieces(m)[..0] == [];
    assert PieceLabels(Pieces(m)) == {};
    assert [m][..0] == [];
  }

  lemma SplitAround(movies: seq<Movie>, i: int)
    requires 0 <= i < |movies|
    ensures movies == movies[..i] + [movies[i]] + movies[i + 1..]
  {
  }

  /** A movie whose genre cell is missing adds no label: the catalogue is the
      same as without it. An empty catalogue offers no genre. */
  lemma MissingGenresContributeNothing(movies: seq<Movie>, i: int)
    requires 0 <= i < |movies| && movies[i].genres == None
    ensures CatalogueLabels(movies) == CatalogueLabels(movies[..i] + movies[i + 1..])
    ensures CatalogueLabels([]) == {}
  {
    var m := movies[i];
    var before, after := movies[..i], movies[i + 1..];
    var left := before + [m];
    MissingGenresNoLabels(m);
    SplitAround(movies, i);
    CatalogueConcat(left, after);
    CatalogueConcat(before, [m]);
    assert CatalogueLabels(left) == CatalogueLabels(before);
    CatalogueConcat(before, after);
  }

  /** `sorted(labels)`: the labels in ascending order. The set is taken apart
      one element at a time, each inserted at its place. */
  method SortLabels(labels: set<string>) returns (sorted: seq<string>)
    ensures StrictlyAscending(sorted)
    ensures forall g :: g in sorted <==> g in labels
  {
    sorted := [];
    var rest := labels;
    while rest != {}
      invariant rest <= labels
      invariant StrictlyAscending(sorted)
      invariant forall g :: g in sorted <==> g in labels - rest
      decreases rest
    {
      var g :| g in rest;
      sorted := Insert(sorted, g);
      rest := rest - {g};
    }
  }

  /** Every element of a listing of the catalogue is a non-empty trimmed label. */
  lemma ListedLabelsTrimmed(movies: seq<Movie>, genres: seq<string>)
    requires forall g :: g in genres <==> g in CatalogueLabels(movies)
    ensures forall k :: 0 <= k < |genres| ==> genres[k] != [] && Trimmed(genres[k])
  {
    forall k | 0 <= k < |genres|
      ensures genres[k] != [] && Trimmed(genres[k])
    {
      assert genres[k] in genres;
      LabelsTrimmed(movies, genres[k]);
    }
  }

  /** `get_genres()`: walks every movie's genre text piece by piece, adding
      every non-empty stripped piece to a set, then sorts the set. */
  method GetGenres(movies: seq<Movie>) returns (genres: seq<string>)
    ensures StrictlyAscending(genres)
    ensures forall g :: g in genres <==> g in CatalogueLabels(movies)
    ensures forall k :: 0 <= k < |genres| ==> genres[k] != [] && Trimmed(genres[k])
  {
    var unique: set<string> := {};
    var i := 0;
    while i < |movies|
      invariant 0 <= i <= |movies|
      invariant unique == CatalogueLabels(movies[..i])
    {
      var pieces := Split(GenreText(movies[i]), '|');
      var j := 0;
      while j < |pieces|
        invariant 0 <= j <= |pieces|
        invariant unique == CatalogueLabels(movies[..i]) + PieceLabels(pieces[..j])
      {
        var stripped := Strip(pieces[j]);
        if stripped != [] {
          unique := unique + {stripped};
        }
        assert pieces[..j + 1][..j] == pieces[..j];
        assert PieceLabels(pieces[..j + 1]) == PieceLabels(pieces[..j]) + PieceLabel(pieces[j]);
        j := j + 1;
      }
      assert pieces[..j] == pieces;
      assert movies[..i + 1][..i] == movies[..i];
      assert CatalogueLabels(movies[..i + 1]) == CatalogueLabels(movies[..i]) + PieceLabels(Pieces(movies[i]));
      i := i + 1;
    }
    assert movies[..i] == movies;
    genres := SortLabels(unique);
    ListedLabelsTrimmed(movies, genres);
  }
}
