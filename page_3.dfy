/**
 * The detail page of the selected film: its rating, the dataset rows it recommends, and
 * the cards that replace the selection when clicked.
 */
module DetailPage {
  import opened Common
  import opened Seqs
  import opened Keys
  import opened Movies
  import opened Session
  import opened Cards

  /** The rating shown: the film's number when it has one, 0 when the key is missing or the cell is NaN. */
  function ShownRating(m: Movie): (rating: real)
    ensures (m.noteMoyenne.Some? && m.noteMoyenne.value.Finite?) ==> rating == m.noteMoyenne.value.value
    ensures !(m.noteMoyenne.Some? && m.noteMoyenne.value.Finite?) ==> rating == 0.0
  {
    match m.noteMoyenne
    case Some(Finite(v)) => v
    case _ => 0.0
  }

  /** The film's recommended titles, already evaluated: a missing list is the empty list. */
  function RecommendationList(m: Movie): (titles: seq<string>)
    ensures m.recommendations.None? ==> titles == []
    ensures m.recommendations.Some? ==> titles == m.recommendations.value
  {
    m.recommendations.GetOr([])
  }

  function TitleListed(titles: seq<string>): Movie -> bool
  {
    (m: Movie) => m.title in titles
  }

  /**
   * The title membership mask for the recommended titles: every row whose title is
   * recommended, in dataset order, as many times as the dataset holds it (no de-duplication).
   */
  function RecommendedMovies(movies: seq<Movie>, recommendations: seq<string>): (shown: seq<Movie>)
    ensures IsSubsequence(shown, movies)
    ensures forall m :: m in shown <==> m in movies && m.title in recommendations
    ensures forall m :: multiset(shown)[m] == if m.title in recommendations then multiset(movies)[m] else 0
  {
    Filter(movies, TitleListed(recommendations))
  }

  /** A film without a recommendation list recommends nothing. */
  lemma NoListNoRecommendations(movies: seq<Movie>, film: Movie)
    requires film.recommendations.None?
    ensures RecommendedMovies(movies, RecommendationList(film)) == []
  {
  }

  /**
   * What the page shows: nothing without a selected film, else the film, its rating and
   * either the recommendation cards or the exception that stops the script before them.
   */
  datatype DetailView = NoFilm | Detail(film: Movie, rating: real, recommendations: Outcome<seq<Card>>)

  /**
   * One run of the page. The block is drawn only when `selected_film` is present and not
   * None. `read` is the read of the dataset file that `load_movies` wraps: a missing file
   * leaves a frame without a `title` column, so the recommendations fail with KeyError after
   * the film itself is drawn. A click on a recommendation replaces `selected_film` with that movie.
   */
  method ShowDetail(s: SessionState, read: Outcome<seq<Movie>>, clicked: Option<string>) returns (view: DetailView)
    modifies s`selectedFilm
    ensures view.NoFilm? <==> old(s.selectedFilm) == Absent || old(s.selectedFilm) == Present(None)
    ensures view.Detail? ==> old(s.selectedFilm) == Present(Some(view.film)) && view.rating == ShownRating(view.film)
    ensures view.Detail? ==> (view.recommendations.Raised? <==> read.Raised?)
    ensures view.Detail? && LoadMovies(read).Raised? ==> view.recommendations == Raised(LoadMovies(read).exception)
    ensures view.Detail? && LoadMovies(read) == Returned(None) ==> view.recommendations == Raised(MissingTitleColumn)
    ensures view.Detail? && read.Returned? ==> (
      var recommended := RecommendedMovies(read.value, RecommendationList(view.film));
      var cards := view.recommendations.value;
      && |cards| == |recommended|
      && forall idx :: 0 <= idx < |recommended| ==>
           cards[idx] == Card(recommended[idx], idx % ColumnsPerRow, IndexKey("rec", idx)))
    ensures view.Detail? && view.recommendations.Returned? ==>
      forall idx :: 0 <= idx < |view.recommendations.value| && clicked == Some(view.recommendations.value[idx].key) ==>
        s.selectedFilm == Present(Some(view.recommendations.value[idx].movie))
    ensures (|| view.NoFilm? || view.recommendations.Raised?
             || forall idx :: 0 <= idx < |view.recommendations.value| ==> clicked != Some(view.recommendations.value[idx].key))
      ==> s.selectedFilm == old(s.selectedFilm)
  {
    if s.selectedFilm.Absent? || s.selectedFilm.value.None? {
      return NoFilm;
    }
    var film := s.selectedFilm.value.value;
    var rating := ShownRating(film);
    var dataset := LoadMovies(read);
    if dataset.Raised? {
      return Detail(film, rating, Raised(dataset.exception));
    }
    if dataset.value.None? {
      return Detail(film, rating, Raised(MissingTitleColumn));
    }
    var recommended := RecommendedMovies(dataset.value.value, RecommendationList(film));
    var cards := PlaceCards(recommended, "rec");
    SelectClicked(s, cards, clicked);
    return Detail(film, rating, Returned(cards));
  }
}
