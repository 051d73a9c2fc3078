/** The movie dataset as the pages read it (`load_movies()`, one record per row). */
module Movies {
  import opened Common

  /** A `note_moyenne` cell: pandas holds a number or NaN. */
  datatype Number = NaN | Finite(value: real)

  /**
   * One row of the dataset, as `film.to_dict()` hands it to the session. `cibles` is None
   * for a NaN cell; `noteMoyenne` and `recommendations` are None when the key is absent;
   * `recommendations` is the list the page obtains by evaluating the stored text.
   */
  datatype Movie = Movie(
    idTmdb: int,
    title: string,
    overview: string,
    photo: string,
    cibles: Option<string>,
    noteMoyenne: Option<Number>,
    recommendations: Option<seq<string>>)

  /** The title column as a list: title `i` is film `i`'s, and a title is listed exactly when some film has it. */
  function Titles(movies: seq<Movie>): (titles: seq<string>)
    ensures |titles| == |movies|
    ensures forall i :: 0 <= i < |movies| ==> titles[i] == movies[i].title
    ensures forall t :: t in titles <==> exists i :: 0 <= i < |movies| && movies[i].title == t
  {
    seq(|movies|, i requires 0 <= i < |movies| => movies[i].title)
  }

  /**
   * `load_movies`: the rows read from the dataset file, or, when the file is missing, the
   * empty frame returned instead, which has no column at all (None). Any other exception
   * of the read propagates to the page.
   */
  function LoadMovies(read: Outcome<seq<Movie>>): (dataset: Outcome<Option<seq<Movie>>>)
    ensures dataset == Returned(None) <==> read == Raised(FileNotFoundError)
    ensures read.Returned? ==> dataset == Returned(Some(read.value))
    ensures read.Raised? && read.exception != FileNotFoundError ==> dataset == Raised(read.exception)
  {
    match read
    case Returned(rows) => Returned(Some(rows))
    case Raised(FileNotFoundError) => Returned(None)
    case Raised(e) => Raised(e)
  }

  /** What selecting the `title` column of the column-less empty frame raises. */
  const MissingTitleColumn := KeyError("title")
}
