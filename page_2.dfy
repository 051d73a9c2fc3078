/**
 * The search-results page: the fuzzy matches of the session's query are turned back into
 * dataset rows (title membership, then one row per `id_tmdb`) and shown as clickable cards.
 */
module SearchPage {
  import opened Common
  import opened Seqs
  import opened Movies
  import opened Session
  import opened Cards
  import opened Fonctions

  /** The titles of the fuzzy matches, one per match and in the matcher's order. */
  function MatchedTitles(results: seq<Match>): (titles: seq<string>)
    ensures |titles| == |results|
    ensures forall k :: 0 <= k < |results| ==> titles[k] == results[k].choice
  {
    seq(|results|, k requires 0 <= k < |results| => results[k].choice)
  }

  function TitleIn(titles: seq<string>): Movie -> bool
  {
    (m: Movie) => m.title in titles
  }

  /**
   * The title membership mask applied to the dataset: the rows whose title is listed, in
   * dataset order, each as often as the dataset holds it.
   */
  function RowsWithTitles(movies: seq<Movie>, titles: seq<string>): (rows: seq<Movie>)
    ensures forall m :: m in rows <==> m in movies && m.title in titles
    ensures forall m :: multiset(rows)[m] == if m.title in titles then multiset(movies)[m] else 0
    ensures IsSubsequence(rows, movies)
  {
    Filter(movies, TitleIn(titles))
  }

  function IdOf(m: Movie): int { m.idTmdb }

  /**
   * The rows of the matched titles with repeated `id_tmdb` values dropped, keeping the first:
   * no more movies than matching rows, each of them one of those rows.
   */
  function MatchedMovies(movies: seq<Movie>, results: seq<Match>): (shown: seq<Movie>)
    ensures |shown| <= |RowsWithTitles(movies, MatchedTitles(results))|
    ensures forall m :: m in shown ==> m in RowsWithTitles(movies, MatchedTitles(results))
  {
    DropDuplicatesBy(RowsWithTitles(movies, MatchedTitles(results)), IdOf)
  }

  /** The movies shown are rows of the dataset whose title was matched, in dataset order. */
  lemma MatchedMoviesAreMatchedRows(movies: seq<Movie>, results: seq<Match>)
    ensures var shown := MatchedMovies(movies, results);
      && IsSubsequence(shown, movies)
      && forall m :: m in shown ==> m in movies && m.title in MatchedTitles(results)
  {
    var rows := RowsWithTitles(movies, MatchedTitles(results));
    var shown := MatchedMovies(movies, results);
    DropDuplicatesBySubsequence(rows, IdOf);
    SubsequenceTransitive(shown, rows, movies);
    SubsequenceMembers(shown, rows);
  }

  /**
   * One movie per `id_tmdb`: the ids shown are pairwise distinct and each kept row is the
   * first matching row of its id.
   */
  lemma MatchedMoviesDistinctIds(movies: seq<Movie>, results: seq<Match>)
    ensures var shown := MatchedMovies(movies, results);
      var rows := RowsWithTitles(movies, MatchedTitles(results));
      && (forall i, j :: 0 <= i < j < |shown| ==> shown[i].idTmdb != shown[j].idTmdb)
      && (forall k :: 0 <= k < |shown| ==>
            FirstIndexOfKey(rows, IdOf, shown[k].idTmdb) < |rows|
            && shown[k] == rows[FirstIndexOfKey(rows, IdOf, shown[k].idTmdb)])
  {
    var rows := RowsWithTitles(movies, MatchedTitles(results));
    var shown := DropDuplicatesBy(rows, IdOf);
    DropDuplicatesByFirstPositions(rows, IdOf, shown);
    assert forall k :: 0 <= k < |shown| ==> IdOf(shown[k]) == shown[k].idTmdb;
  }

  /** No id is lost: every dataset row with a matched title has its id among the movies shown. */
  lemma MatchedMoviesCoverIds(movies: seq<Movie>, results: seq<Match>, m: Movie)
    requires m in movies && m.title in MatchedTitles(results)
    ensures exists k :: 0 <= k < |MatchedMovies(movies, results)| && MatchedMovies(movies, results)[k].idTmdb == m.idTmdb
  {
    var rows := RowsWithTitles(movies, MatchedTitles(results));
    assert m in rows;
    var i :| 0 <= i < |rows| && rows[i] == m;
    var k := DropDuplicatesByCovers(rows, IdOf, i);
    assert MatchedMovies(movies, results)[k].idTmdb == m.idTmdb;
  }

  /**
   * The matcher only offers titles of the dataset, so non-empty fuzzy results always leave
   * at least one movie to show.
   */
  lemma MatchedMoviesNonEmpty(movies: seq<Movie>, results: seq<Match>)
    requires results != []
    requires forall r :: r in results ==> r.choice in Titles(movies)
    ensures MatchedMovies(movies, results) != []
  {
    var rows := RowsWithTitles(movies, MatchedTitles(results));
    var t := results[0].choice;
    assert MatchedTitles(results)[0] == t;
    var i :| 0 <= i < |movies| && Titles(movies)[i] == t;
    assert movies[i] in rows;
    DropDuplicatesByCoverage(rows, IdOf, MatchedMovies(movies, results));
  }

  /**
   * What the page shows: the error for a missing query, the warning for no result, the
   * cards, or the exception that stops the script.
   */
  datatype SearchView = NoQuery | NoResults | Results(cards: seq<Card>) | Failed(exception: Exception)

  /**
   * One run of the page. `read` is the read of the dataset file that `load_movies` wraps;
   * `extract` stands for the fuzzy matcher: given the query and the titles it returns
   * `(title, score)` pairs. A missing file leaves a frame without a `title` column, so a
   * query then fails with KeyError. A click on a card stores its movie as `selected_film`.
   */
  method ShowSearchResults(
    s: SessionState,
    read: Outcome<seq<Movie>>,
    extract: (string, seq<string>) -> seq<Match>,
    clicked: Option<string>) returns (view: SearchView)
    modifies s`selectedFilm
    ensures var dataset := LoadMovies(read);
      view.Failed? <==> dataset.Raised? || (dataset == Returned(None) && s.query.Present?)
    ensures LoadMovies(read).Raised? ==> view == Failed(LoadMovies(read).exception)
    ensures LoadMovies(read) == Returned(None) && s.query.Present? ==> view == Failed(MissingTitleColumn)
    ensures LoadMovies(read).Returned? ==> (s.query.Absent? <==> view == NoQuery)
    ensures read.Returned? && s.query.Present? ==>
      (view == NoResults <==> FuzzySearch(extract(s.query.value, Titles(read.value))) == [])
    ensures view.Results? ==> (
      && read.Returned? && s.query.Present?
      && var shown := MatchedMovies(read.value, FuzzySearch(extract(s.query.value, Titles(read.value))));
      && |view.cards| == |shown|
      && forall idx :: 0 <= idx < |shown| ==>
           view.cards[idx] == Card(shown[idx], idx % ColumnsPerRow, Keys.IndexKey("btn", idx)))
    ensures view.Results? ==> forall idx :: 0 <= idx < |view.cards| && clicked == Some(view.cards[idx].key) ==>
      s.selectedFilm == Present(Some(view.cards[idx].movie))
    ensures !view.Results? || (forall idx :: 0 <= idx < |view.cards| ==> clicked != Some(view.cards[idx].key)) ==>
      s.selectedFilm == old(s.selectedFilm)
  {
    var dataset := LoadMovies(read);
    if dataset.Raised? {
      return Failed(dataset.exception);
    }
    if s.query.Absent? {
      return NoQuery;
    }
    if dataset.value.None? {
      return Failed(MissingTitleColumn);
    }
    var movies := dataset.value.value;
    var query := s.query.value;
    var titles := Titles(movies);
    var results := FuzzySearch(extract(query, titles));
    if results == [] {
      return NoResults;
    }
    var cards := ShowMatches(s, MatchedMovies(movies, results), clicked);
    return Results(cards);
  }

  /** The result cards: card `idx` shows movie `idx` in column `idx % 5` keyed `btn_idx`, and a click selects it. */
  method ShowMatches(s: SessionState, shown: seq<Movie>, clicked: Option<string>) returns (cards: seq<Card>)
    modifies s`selectedFilm
    ensures |cards| == |shown|
    ensures forall idx :: 0 <= idx < |shown| ==>
      cards[idx] == Card(shown[idx], idx % ColumnsPerRow, Keys.IndexKey("btn", idx))
    ensures forall idx :: 0 <= idx < |cards| && clicked == Some(cards[idx].key) ==>
      s.selectedFilm == Present(Some(cards[idx].movie))
    ensures (forall idx :: 0 <= idx < |cards| ==> clicked != Some(cards[idx].key)) ==>
      s.selectedFilm == old(s.selectedFilm)
  {
    cards := PlaceCards(shown, "btn");
    SelectClicked(s, cards, clicked);
  }
}
