/**
 * The helpers shared by the pages: the fuzzy-search filter, the film grids and their
 * button keys, the per-category sections, and the chat sidebar's session handling.
 */
module Fonctions {
  import opened Common
  import opened Seqs
  import opened Keys
  import opened Movies
  import opened Session
  import opened Cards

  // ---- fuzzy_search -----------------------------------------------------------------------

  /** One `(choice, score)` pair returned by the fuzzy matcher. */
  datatype Match = Match(choice: string, score: int)

  const ScoreThreshold := 70

  predicate KeepsScore(m: Match)
  {
    m.score >= ScoreThreshold
  }

  /**
   * The matcher's pairs whose score reaches the threshold: exactly those scoring 70 or more
   * (70 included), each as often as the matcher gave it, in its order.
   */
  function FuzzySearch(matches: seq<Match>): (results: seq<Match>)
    ensures IsSubsequence(results, matches)
    ensures forall m :: m in results <==> m in matches && m.score >= 70
    ensures forall m :: multiset(results)[m] == if m.score >= 70 then multiset(matches)[m] else 0
  {
    Filter(matches, KeepsScore)
  }

  // ---- afficher_films_sans_boutons / afficher_films_avec_boutons ---------------------------

  /** What a grid cell shows with its title: the picture when its link is non-empty, else a warning. */
  datatype Thumbnail = Image(link: string, caption: string) | ImageUnavailable

  function ThumbnailOf(m: Movie): (t: Thumbnail)
    ensures t.Image? <==> m.photo != ""
    ensures t.Image? ==> t.link == m.photo && t.caption == m.title
  {
    if m.photo != "" then Image(m.photo, m.title) else ImageUnavailable
  }

  /** Where a film is drawn (the row starting at position `rowStart` of the list, column `column`) and what it shows. */
  datatype GridCell = GridCell(movie: Movie, rowStart: nat, column: nat, thumbnail: Thumbnail)

  /** The film at position `p` is drawn in column `p % nb` of the row that starts at `p - p % nb`. */
  ghost predicate CellAt(films: seq<Movie>, nb: nat, cell: GridCell, p: nat)
    requires nb > 0 && p < |films|
  {
    cell == GridCell(films[p], p - p % nb, p % nb, ThumbnailOf(films[p]))
  }

  ghost predicate IsGridLayout(films: seq<Movie>, nb: nat, cells: seq<GridCell>)
    requires nb > 0
  {
    |cells| == |films| && forall p :: 0 <= p < |cells| ==> CellAt(films, nb, cells[p], p)
  }

  lemma MulAtLeast(x: int, nb: nat)
    requires x >= 1
    ensures x * nb >= nb
  {
  }

  /** Euclidean division is unique: `q * nb + j` leaves remainder `j` when `0 <= j < nb`. */
  lemma ModOfMultiplePlus(q: int, nb: nat, j: int)
    requires nb > 0 && 0 <= j < nb
    ensures (q * nb + j) % nb == j
  {
    var a := q * nb + j;
    var d, r := a / nb, a % nb;
    assert nb * d + r == a;
    assert (d - q) * nb == j - r;
    if d - q >= 1 {
      MulAtLeast(d - q, nb);
    } else if q - d >= 1 {
      MulAtLeast(q - d, nb);
    }
  }

  /** Inside a row that starts at a multiple of `nb`, position `i + j` is in column `j`; the next row starts at a multiple too. */
  lemma ModInRow(i: nat, nb: nat, j: nat)
    requires nb > 0 && i % nb == 0 && j < nb
    ensures (i + j) % nb == j
    ensures (i + nb) % nb == 0
  {
    var q := i / nb;
    assert i == q * nb;
    ModOfMultiplePlus(q, nb, j);
    assert i + nb == (q + 1) * nb + 0;
    ModOfMultiplePlus(q + 1, nb, 0);
  }

  /** The exception `range` raises when its step is zero. */
  const RangeStepZero := ValueError("range() arg 3 must not be zero")

  /**
   * The loops of `afficher_films_sans_boutons` and `afficher_films_avec_boutons`: rows start
   * every `nb_colonnes` positions, and within a row the films are enumerated from column 0;
   * each shows its picture or the warning. A zero step makes `range` raise ValueError; a
   * negative step gives an empty range.
   */
  method LayOutGrid(films: seq<Movie>, nbColonnes: int) returns (cells: Outcome<seq<GridCell>>)
    ensures cells.Raised? <==> nbColonnes == 0
    ensures cells.Raised? ==> cells.exception == RangeStepZero
    ensures nbColonnes < 0 ==> cells == Returned([])
    ensures nbColonnes > 0 ==> cells.Returned? && IsGridLayout(films, nbColonnes, cells.value)
  {
    if nbColonnes == 0 {
      return Raised(RangeStepZero);
    }
    if nbColonnes < 0 {
      return Returned([]);
    }
    var nb: nat := nbColonnes;
    var out: seq<GridCell> := [];
    var i := 0;
    while i < |films|
      invariant i % nb == 0
      invariant |out| == Min(i, |films|)
      invariant |out| <= |films|
      invariant forall p :: 0 <= p < |out| ==> CellAt(films, nb, out[p], p)
      decreases |films| - i
    {
      var subset := films[i .. Min(i + nb, |films|)];
      for j := 0 to |subset|
        invariant |out| == i + j <= |films|
        invariant forall p :: 0 <= p < |out| ==> CellAt(films, nb, out[p], p)
      {
        ModInRow(i, nb, j);
        out := out + [GridCell(subset[j], i, j, ThumbnailOf(subset[j]))];
        assert CellAt(films, nb, out[i + j], i + j);
      }
      ModInRow(i, nb, 0);
      i := i + nb;
    }
    return Returned(out);
  }

  /** The grid's rows are the chunks of the list: film `p` is item `p % nb` of chunk `p / nb`. */
  lemma GridRowsAreChunks(films: seq<Movie>, nb: nat, p: nat)
    requires nb > 0 && p < |films|
    ensures p / nb < |Chunks(films, nb)|
    ensures p % nb < |Chunks(films, nb)[p / nb]|
    ensures Chunks(films, nb)[p / nb][p % nb] == films[p]
  {
    var k, r := p / nb, p % nb;
    var start := k * nb;
    assert start + r == p;
    ChunkCount(films, nb, k);
    ChunkAt(films, nb, k);
    assert Chunks(films, nb)[k][r] == films[start + r];
  }

  /** Within one grid no two cells share their (row start, column) key pair. */
  lemma GridKeysDistinct(films: seq<Movie>, nb: nat, cells: seq<GridCell>, prefix: string)
    requires nb > 0 && IsGridLayout(films, nb, cells)
    ensures forall a, b :: 0 <= a < b < |cells| ==>
      GridKey(prefix, cells[a].rowStart, cells[a].column) != GridKey(prefix, cells[b].rowStart, cells[b].column)
  {
    forall a, b | 0 <= a < b < |cells|
      ensures GridKey(prefix, cells[a].rowStart, cells[a].column) != GridKey(prefix, cells[b].rowStart, cells[b].column)
    {
      assert CellAt(films, nb, cells[a], a) && CellAt(films, nb, cells[b], b);
      GridKeyInjective(prefix, cells[a].rowStart, cells[a].column, cells[b].rowStart, cells[b].column);
    }
  }

  /**
   * The buttons of a laid-out grid: the film at position `p` gets a button in column `p % nb`
   * keyed by its row start and column, and no two buttons share a key.
   */
  function GridCards(films: seq<Movie>, nb: nat, cells: seq<GridCell>, prefix: string): (cards: seq<Card>)
    requires nb > 0 && IsGridLayout(films, nb, cells)
    ensures |cards| == |films|
    ensures forall p :: 0 <= p < |films| ==>
      cards[p] == Card(films[p], p % nb, GridKey(prefix, p - p % nb, p % nb))
    ensures forall a, b :: 0 <= a < b < |cards| ==> cards[a].key != cards[b].key
  {
    var cards := seq(|cells|, p requires 0 <= p < |cells| =>
      Card(cells[p].movie, cells[p].column, GridKey(prefix, cells[p].rowStart, cells[p].column)));
    GridCardsOfCells(films, nb, cells, prefix, cards);
    cards
  }

  /** A button per laid-out cell, keyed by the cell's row start and column, sits where its film is laid out. */
  lemma GridCardsOfCells(films: seq<Movie>, nb: nat, cells: seq<GridCell>, prefix: string, cards: seq<Card>)
    requires nb > 0 && IsGridLayout(films, nb, cells)
    requires |cards| == |cells|
    requires forall p :: 0 <= p < |cells| ==>
      cards[p] == Card(cells[p].movie, cells[p].column, GridKey(prefix, cells[p].rowStart, cells[p].column))
    ensures forall p :: 0 <= p < |films| ==>
      cards[p] == Card(films[p], p % nb, GridKey(prefix, p - p % nb, p % nb))
    ensures forall a, b :: 0 <= a < b < |cards| ==> cards[a].key != cards[b].key
  {
    GridKeysDistinct(films, nb, cells, prefix);
    forall p | 0 <= p < |films|
      ensures cards[p] == Card(films[p], p % nb, GridKey(prefix, p - p % nb, p % nb))
    {
      assert CellAt(films, nb, cells[p], p);
    }
  }

  /**
   * `afficher_films_avec_boutons`: the grid, one button per film, and a click storing the
   * film as `selected_film`. A zero `nb_colonnes` raises before any button is drawn; a
   * negative one draws nothing.
   */
  method ShowFilmsWithButtons(s: SessionState, films: seq<Movie>, nbColonnes: int, prefix: string, clicked: Option<string>)
    returns (cards: Outcome<seq<Card>>)
    modifies s`selectedFilm
    ensures cards.Raised? <==> nbColonnes == 0
    ensures cards.Raised? ==> cards.exception == RangeStepZero
    ensures nbColonnes < 0 ==> cards == Returned([])
    ensures cards.Returned? ==> forall a, b :: 0 <= a < b < |cards.value| ==> cards.value[a].key != cards.value[b].key
    ensures nbColonnes > 0 ==> (
      && cards.Returned? && |cards.value| == |films|
      && forall p :: 0 <= p < |films| ==>
           cards.value[p] == Card(films[p], p % nbColonnes, GridKey(prefix, p - p % nbColonnes, p % nbColonnes)))
    ensures cards.Returned? ==> forall p :: 0 <= p < |cards.value| && clicked == Some(cards.value[p].key) ==>
      s.selectedFilm == Present(Some(cards.value[p].movie))
    ensures cards.Raised? || (forall p :: 0 <= p < |cards.value| ==> clicked != Some(cards.value[p].key)) ==>
      s.selectedFilm == old(s.selectedFilm)
  {
    var cells := LayOutGrid(films, nbColonnes);
    if cells.Raised? {
      return Raised(cells.exception);
    }
    var laid := if nbColonnes > 0 then GridCards(films, nbColonnes, cells.value, prefix) else [];
    SelectClicked(s, laid, clicked);
    return Returned(laid);
  }

  // ---- afficher_films_par_cible ------------------------------------------------------------

  predicate HasSomeCategory(m: Movie)
  {
    m.cibles.Some?
  }

  /**
   * The category column without its missing values: one entry per film that has a
   * category, in dataset order, so duplicates are kept.
   */
  function CategoryColumn(films: seq<Movie>): (column: seq<string>)
    ensures |column| == |Filter(films, HasSomeCategory)|
    ensures forall i :: 0 <= i < |column| ==> Filter(films, HasSomeCategory)[i].cibles == Some(column[i])
    ensures forall c :: c in column <==> exists i :: 0 <= i < |films| && films[i].cibles == Some(c)
  {
    var tagged := Filter(films, HasSomeCategory);
    assert forall i :: 0 <= i < |tagged| ==> HasSomeCategory(tagged[i]);
    var column := seq(|tagged|, i requires 0 <= i < |tagged| => tagged[i].cibles.value);
    TaggedCategoriesOccur(films, tagged, column);
    TaggedCategoriesCovered(films, tagged, column);
    column
  }

  /** Every category listed from the films that have one is some film's category. */
  lemma TaggedCategoriesOccur(films: seq<Movie>, tagged: seq<Movie>, column: seq<string>)
    requires tagged == Filter(films, HasSomeCategory)
    requires |column| == |tagged| && forall i :: 0 <= i < |column| ==> tagged[i].cibles == Some(column[i])
    ensures forall c :: c in column ==> exists i :: 0 <= i < |films| && films[i].cibles == Some(c)
  {
    forall c | c in column
      ensures exists i :: 0 <= i < |films| && films[i].cibles == Some(c)
    {
      var k :| 0 <= k < |column| && column[k] == c;
      TaggedCategoryOccurs(films, tagged, column, k);
    }
  }

  /** Entry `k` of the list is the category of some film. */
  lemma TaggedCategoryOccurs(films: seq<Movie>, tagged: seq<Movie>, column: seq<string>, k: nat)
    requires tagged == Filter(films, HasSomeCategory)
    requires |column| == |tagged| && forall i :: 0 <= i < |column| ==> tagged[i].cibles == Some(column[i])
    requires k < |column|
    ensures exists i :: 0 <= i < |films| && films[i].cibles == Some(column[k])
  {
    var m := tagged[k];
    assert m in tagged;
    assert m in films;
    var i :| 0 <= i < |films| && films[i] == m;
    assert films[i].cibles == Some(column[k]);
  }

  /** Every film's category is listed among the categories of the films that have one. */
  lemma TaggedCategoriesCovered(films: seq<Movie>, tagged: seq<Movie>, column: seq<string>)
    requires tagged == Filter(films, HasSomeCategory)
    requires |column| == |tagged| && forall i :: 0 <= i < |column| ==> tagged[i].cibles == Some(column[i])
    ensures forall i :: 0 <= i < |films| && films[i].cibles.Some? ==> films[i].cibles.value in column
  {
    forall i | 0 <= i < |films| && films[i].cibles.Some?
      ensures films[i].cibles.value in column
    {
      TaggedCategoryCovered(films, tagged, column, films[i]);
    }
  }

  /** One film's category is listed. */
  lemma TaggedCategoryCovered(films: seq<Movie>, tagged: seq<Movie>, column: seq<string>, m: Movie)
    requires tagged == Filter(films, HasSomeCategory)
    requires |column| == |tagged| && forall i :: 0 <= i < |column| ==> tagged[i].cibles == Some(column[i])
    requires m in films && m.cibles.Some?
    ensures m.cibles.value in column
  {
    assert HasSomeCategory(m);
    assert m in tagged;
    var k :| 0 <= k < |tagged| && tagged[k] == m;
    assert column[k] == m.cibles.value;
  }

  /** A category value is its own key: distinct values are compared as they are. */
  function Itself(c: string): string { c }

  /**
   * The categories offered: the distinct non-missing categories in order of first
   * appearance, cut to the first `nb_cibles` (a negative count drops that many from the end).
   */
  function AvailableCategories(films: seq<Movie>, nbCibles: int): (cats: seq<string>)
    ensures var unique := DropDuplicatesBy(CategoryColumn(films), Itself);
      && |cats| <= |unique| && cats == unique[..|cats|]
      && (nbCibles >= 0 ==> |cats| == Min(nbCibles, |unique|))
      && (nbCibles < 0 ==> |cats| == Max(0, |unique| + nbCibles))
  {
    PyHead(DropDuplicatesBy(CategoryColumn(films), Itself), nbCibles)
  }

  /**
   * The categories shown: at most `nb_cibles` of them when that is not negative, no two
   * alike, in the order the column first mentions them.
   */
  lemma AvailableCategoriesDistinct(films: seq<Movie>, nbCibles: int)
    ensures var cats := AvailableCategories(films, nbCibles);
      var column := CategoryColumn(films);
      && (nbCibles >= 0 ==> |cats| <= nbCibles)
      && (forall i, j :: 0 <= i < j < |cats| ==> cats[i] != cats[j])
      && (forall i, j :: 0 <= i < j < |cats| ==>
            FirstIndexOfKey(column, Itself, cats[i]) < FirstIndexOfKey(column, Itself, cats[j]))
  {
    var column := CategoryColumn(films);
    var unique := DropDuplicatesBy(column, Itself);
    DropDuplicatesByFirstPositions(column, Itself, unique);
    var cats := AvailableCategories(films, nbCibles);
    assert cats == unique[..|cats|];
    forall i, j | 0 <= i < j < |cats|
      ensures cats[i] != cats[j]
    {
      assert Itself(cats[i]) == cats[i] && Itself(cats[j]) == cats[j];
    }
  }

  /** Every category shown is the category of some film. */
  lemma AvailableCategoriesOccur(films: seq<Movie>, nbCibles: int)
    ensures forall c :: c in AvailableCategories(films, nbCibles) ==>
      exists i :: 0 <= i < |films| && films[i].cibles == Some(c)
  {
    var column := CategoryColumn(films);
    var unique := DropDuplicatesBy(column, Itself);
    DropDuplicatesBySubsequence(column, Itself);
    SubsequenceMembers(unique, column);
    var cats := AvailableCategories(films, nbCibles);
    assert cats == unique[..|cats|];
  }

  /**
   * The categories shown are the first ones: a category that the column mentions before a
   * shown category is shown too.
   */
  lemma AvailableCategoriesFirst(films: seq<Movie>, nbCibles: int, c: string, d: string)
    requires c in AvailableCategories(films, nbCibles)
    requires d in CategoryColumn(films)
    requires FirstIndexOfKey(CategoryColumn(films), Itself, d) < FirstIndexOfKey(CategoryColumn(films), Itself, c)
    ensures d in AvailableCategories(films, nbCibles)
  {
    var column := CategoryColumn(films);
    var unique := DropDuplicatesBy(column, Itself);
    var cats := AvailableCategories(films, nbCibles);
    var kc :| 0 <= kc < |cats| && cats[kc] == c;
    assert unique[kc] == c;
    var i :| 0 <= i < |column| && column[i] == d;
    var kd := DropDuplicatesByCovers(column, Itself, i);
    assert unique[kd] == d;
    DropDuplicatesByOrder(column, Itself, unique, kd, kc);
    assert cats[kd] == d;
  }

  /** When `nb_cibles` is at least the number of distinct categories, every category is shown. */
  lemma AvailableCategoriesComplete(films: seq<Movie>, nbCibles: int, c: string)
    requires exists i :: 0 <= i < |films| && films[i].cibles == Some(c)
    requires nbCibles >= |DropDuplicatesBy(CategoryColumn(films), Itself)|
    ensures c in AvailableCategories(films, nbCibles)
  {
    var column := CategoryColumn(films);
    var unique := DropDuplicatesBy(column, Itself);
    var i :| 0 <= i < |column| && column[i] == c;
    var k := DropDuplicatesByCovers(column, Itself, i);
    assert AvailableCategories(films, nbCibles) == unique;
    assert unique[k] == c;
  }

  function HasCategory(c: string): Movie -> bool
  {
    (m: Movie) => m.cibles == Some(c)
  }

  /**
   * The films of one category: the first `nb_films_par_cible` films having it, in dataset
   * order (a negative count drops that many from the end).
   */
  function FilmsOfCategory(films: seq<Movie>, c: string, nbFilms: int): (r: seq<Movie>)
    ensures var all := Filter(films, HasCategory(c));
      && |r| <= |all| && r == all[..|r|]
      && (nbFilms >= 0 ==> |r| == Min(nbFilms, |all|))
      && (nbFilms < 0 ==> |r| == Max(0, |all| + nbFilms))
    ensures forall m :: m in r ==> m in films && m.cibles == Some(c)
    ensures IsSubsequence(r, films)
  {
    var all := Filter(films, HasCategory(c));
    var r := PyHead(all, nbFilms);
    SubsequencePrefix(all, films, |r|);
    r
  }

  /**
   * The films of a section cut into rows of `nb_colonnes`: consecutive, none empty, none
   * wider, together the films in order. A negative width gives no row.
   */
  function GridRows(films: seq<Movie>, nbColonnes: int): (rows: seq<seq<Movie>>)
    requires nbColonnes != 0
    ensures nbColonnes < 0 ==> rows == []
    ensures nbColonnes > 0 ==> rows == Chunks(films, nbColonnes)
    ensures nbColonnes > 0 ==> Flatten(rows) == films
    ensures nbColonnes > 0 ==> forall k :: 0 <= k < |rows| ==> 0 < |rows[k]| <= nbColonnes
  {
    if nbColonnes < 0 then []
    else
      ChunksFlatten(films, nbColonnes);
      Chunks(films, nbColonnes)
  }

  datatype Section = Section(category: string, rows: seq<seq<Movie>>)

  /** The section of one category: its heading and the rows of its first films. */
  function SectionOf(films: seq<Movie>, c: string, nbColonnes: int, nbFilmsParCible: int): (section: Section)
    requires nbColonnes != 0
    ensures section.category == c
  {
    Section(c, GridRows(FilmsOfCategory(films, c, nbFilmsParCible), nbColonnes))
  }

  /** The loop over the available categories: one section per category, in order. */
  method BuildSections(films: seq<Movie>, cats: seq<string>, nbColonnes: int, nbFilmsParCible: int)
    returns (sections: seq<Section>)
    requires nbColonnes != 0
    ensures |sections| == |cats|
    ensures forall q :: 0 <= q < |cats| ==> sections[q] == SectionOf(films, cats[q], nbColonnes, nbFilmsParCible)
  {
    sections := MapEach(cats, c => SectionOf(films, c, nbColonnes, nbFilmsParCible));
  }

  /**
   * `afficher_films_par_cible`: one section per available category, in order. A zero
   * `nb_colonnes` raises ValueError in the first section, so there is no page when any
   * category is available.
   */
  method ShowFilmsByCategory(films: seq<Movie>, nbColonnes: int, nbCibles: int, nbFilmsParCible: int)
    returns (sections: Outcome<seq<Section>>)
    ensures sections.Raised? <==> nbColonnes == 0 && AvailableCategories(films, nbCibles) != []
    ensures sections.Raised? ==> sections.exception == RangeStepZero
    ensures sections.Returned? ==> (
      var cats := AvailableCategories(films, nbCibles);
      && |sections.value| == |cats|
      && forall q :: 0 <= q < |cats| ==> sections.value[q].category == cats[q])
    ensures sections.Returned? && nbColonnes != 0 ==> (
      var cats := AvailableCategories(films, nbCibles);
      forall q :: 0 <= q < |cats| ==> sections.value[q] == SectionOf(films, cats[q], nbColonnes, nbFilmsParCible))
  {
    var cats := AvailableCategories(films, nbCibles);
    if cats == [] {
      return Returned([]);
    }
    if nbColonnes == 0 {
      return Raised(RangeStepZero);
    }
    var built := BuildSections(films, cats, nbColonnes, nbFilmsParCible);
    return Returned(built);
  }

  /**
   * Each section shows the category's first films in dataset order, at most
   * `nb_films_par_cible` of them, in rows of at most `nb_colonnes`, every one of the category.
   */
  lemma SectionShape(films: seq<Movie>, c: string, nbColonnes: int, nbFilmsParCible: int)
    requires nbColonnes > 0
    ensures var section := SectionOf(films, c, nbColonnes, nbFilmsParCible);
      && section.rows == Chunks(FilmsOfCategory(films, c, nbFilmsParCible), nbColonnes)
      && Flatten(section.rows) == FilmsOfCategory(films, c, nbFilmsParCible)
      && (forall row :: row in section.rows ==> 0 < |row| <= nbColonnes)
      && (nbFilmsParCible >= 0 ==> |Flatten(section.rows)| <= nbFilmsParCible)
      && (forall m :: m in Flatten(section.rows) ==> m in films && m.cibles == Some(c))
  {
    var rows := SectionOf(films, c, nbColonnes, nbFilmsParCible).rows;
    forall row | row in rows
      ensures 0 < |row| <= nbColonnes
    {
      var k :| 0 <= k < |rows| && rows[k] == row;
    }
  }

  // ---- call_chatbot ------------------------------------------------------------------------

  /** What the sidebar shows for one run: nothing, the answer, or the error. */
  datatype ChatDisplay = NoReply | Answer(text: string) | ErrorShown(exception: Exception)

  datatype ChatState = ChatState(conversation: Option<Chain>, history: seq<Turn>)

  /**
   * One question: fetch the vector store, create the chain when there is none yet and store
   * it, invoke it on the question and the history, and record the turn. Any exception is
   * shown and ends the step; the history then is as before, but a chain already stored
   * stays stored.
   */
  function AskStep(
    state: ChatState,
    question: string,
    store: Outcome<Option<VectorIndex>>,
    makeChain: Option<VectorIndex> -> Outcome<Chain>,
    invoke: (Chain, string, seq<Turn>) -> Outcome<string>): (r: (ChatState, ChatDisplay))
    ensures r.1.Answer? || r.1.ErrorShown?
    ensures r.1.Answer? ==> r.0.history == state.history + [(question, r.1.text)]
    ensures !r.1.Answer? ==> r.0.history == state.history
    ensures state.conversation.Some? ==> r.0.conversation == state.conversation
    ensures state.conversation.None? && r.0.conversation.Some? ==>
      store.Returned? && makeChain(store.value) == Returned(r.0.conversation.value)
    ensures r.1.Answer? <==>
      store.Returned? && r.0.conversation.Some? && invoke(r.0.conversation.value, question, state.history).Returned?
    ensures r.1.Answer? ==> r.1.text == invoke(r.0.conversation.value, question, state.history).value
    ensures store.Raised? ==> r == (state, ErrorShown(store.exception))
    ensures store.Returned? && state.conversation.None? && makeChain(store.value).Raised? ==>
      r == (state, ErrorShown(makeChain(store.value).exception))
    ensures store.Returned? && state.conversation.None? && makeChain(store.value).Returned? ==>
      r.0.conversation == Some(makeChain(store.value).value)
    ensures r.1.ErrorShown? && r.0.conversation.Some? && store.Returned? ==>
      r.1 == ErrorShown(invoke(r.0.conversation.value, question, state.history).exception)
  {
    match store
    case Raised(e) => (state, ErrorShown(e))
    case Returned(vs) =>
      var made := if state.conversation.Some? then Returned(state.conversation.value) else makeChain(vs);
      match made
      case Raised(e) => (state, ErrorShown(e))
      case Returned(chain) =>
        var created := ChatState(Some(chain), state.history);
        match invoke(chain, question, state.history)
        case Raised(e) => (created, ErrorShown(e))
        case Returned(answer) => (ChatState(Some(chain), state.history + [(question, answer)]), Answer(answer))
  }

  /** `conversation` becomes None and `chat_history` becomes [] only where they are absent. */
  method InitChatState(s: SessionState)
    modifies s`conversation, s`chatHistory
    ensures s.conversation == if old(s.conversation).Absent? then Present(None) else old(s.conversation)
    ensures s.chatHistory == if old(s.chatHistory).Absent? then Present([]) else old(s.chatHistory)
  {
    if s.conversation.Absent? {
      s.conversation := Present(None);
    }
    if s.chatHistory.Absent? {
      s.chatHistory := Present([]);
    }
  }

  /** The `try` block run for a non-empty input, on the session's own fields. */
  method Ask(
    s: SessionState,
    question: string,
    store: Outcome<Option<VectorIndex>>,
    makeChain: Option<VectorIndex> -> Outcome<Chain>,
    invoke: (Chain, string, seq<Turn>) -> Outcome<string>) returns (shown: ChatDisplay)
    requires s.conversation.Present? && s.chatHistory.Present?
    modifies s`conversation, s`chatHistory
    ensures s.conversation.Present? && s.chatHistory.Present?
    ensures (ChatState(s.conversation.value, s.chatHistory.value), shown)
         == AskStep(ChatState(old(s.conversation.value), old(s.chatHistory.value)), question, store, makeChain, invoke)
  {
    if store.Raised? {
      return ErrorShown(store.exception);
    }
    if s.conversation.value.None? {
      var made := makeChain(store.value);
      if made.Raised? {
        return ErrorShown(made.exception);
      }
      s.conversation := Present(Some(made.value));
    }
    var response := invoke(s.conversation.value.value, question, s.chatHistory.value);
    if response.Raised? {
      return ErrorShown(response.exception);
    }
    s.chatHistory := Present(s.chatHistory.value + [(question, response.value)]);
    shown := Answer(response.value);
  }

  /** The reset button: no conversation and an empty history, whatever was there before. */
  method Reset(s: SessionState)
    modifies s`conversation, s`chatHistory
    ensures s.conversation == Present(None) && s.chatHistory == Present([])
  {
    s.conversation := Present(None);
    s.chatHistory := Present([]);
  }

  /**
   * `call_chatbot` for one run of a page: initialise, answer a non-empty input, then apply
   * the reset button if it was pressed.
   */
  method CallChatbot(
    s: SessionState,
    userInput: string,
    resetClicked: bool,
    store: Outcome<Option<VectorIndex>>,
    makeChain: Option<VectorIndex> -> Outcome<Chain>,
    invoke: (Chain, string, seq<Turn>) -> Outcome<string>) returns (shown: ChatDisplay)
    modifies s`conversation, s`chatHistory
    ensures userInput == "" ==> shown == NoReply
    ensures resetClicked ==> s.conversation == Present(None) && s.chatHistory == Present([])
    ensures !resetClicked ==> s.conversation.Present? && s.chatHistory.Present?
    ensures var before := ChatState(
        if old(s.conversation).Absent? then None else old(s.conversation).value,
        if old(s.chatHistory).Absent? then [] else old(s.chatHistory).value);
      userInput != "" ==> shown == AskStep(before, userInput, store, makeChain, invoke).1
    ensures var before := ChatState(
        if old(s.conversation).Absent? then None else old(s.conversation).value,
        if old(s.chatHistory).Absent? then [] else old(s.chatHistory).value);
      !resetClicked ==>
        if userInput == "" then ChatState(s.conversation.value, s.chatHistory.value) == before
        else (ChatState(s.conversation.value, s.chatHistory.value), shown)
             == AskStep(before, userInput, store, makeChain, invoke)
  {
    InitChatState(s);
    if userInput != "" {
      shown := Ask(s, userInput, store, makeChain, invoke);
    } else {
      shown := NoReply;
    }
    if resetClicked {
      Reset(s);
    }
  }
}
