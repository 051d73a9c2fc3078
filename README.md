# MovieMind rules in Dafny

MovieMind is a Streamlit movie-recommendation site. Its pages search a movie dataset by fuzzy title, show a film's details and the films it recommends, lay films out in grids and by target category, and offer a chat sidebar. The chat answers from a FAISS index of documents built from the dataset. Most of the code is rendering and calls into libraries. This project models the rules the code itself owns, and proves what they guarantee:

- **Document builder** (`VectorStore`): each dataset row becomes a document. The document holds the page content, a fixed template read literally, and a four-key metadata map. If any row lacks a column the template reads, the result is empty (a missing `URL` column only leaves the `url` metadata empty). The module also covers the texts projection and `load_vectorstore`'s missing-store case.
- **Selection rules** (`Seqs`, `Keys`, `Cards`, `Fonctions`, `SearchPage`, `DetailPage`):
  - the inclusive score threshold of `fuzzy_search`;
  - grid chunking, column placement and button keys;
  - the per-category sections;
  - the search-result filter with de-duplication by `id_tmdb`;
  - the recommendation lookup and the rating default.
- **Chat session state** (`Fonctions`): `call_chatbot` initialises `conversation` and `chat_history` lazily. It creates the chain once and then reuses it. A successful `invoke` appends exactly one turn; on an error the history is unchanged. Reset clears both.
- **Login** (`Login`): `logged_in` is initialised, the admin/admin check sets the session fields only on success, and the form is guarded.

The session store is the class `Session.SessionState`. It has one field per key the pages use, and each field is either `Absent` or `Present(value)`. The methods that write the store name only the fields they change in `modifies`. Calls into code that cannot be seen are parameters of the operations that use them: reading the CSV (for the document builder and for `load_movies`), loading the index, creating the chain, and `invoke`. Each of these either returns a value or raises (`Common.Outcome`). The fuzzy matcher is a plain function parameter that always returns its pairs.

Three behaviours of the code are easy to misread, and the model follows the code in each:

- `create_documents_from_csv` catches any exception around the whole loop and returns `[]`. So a single row without a template column empties the whole result; no row is skipped on its own (`VectorStore.CreatedDocuments`).
- The content template reads `\systeme de recommendation: ` (the backslash stays) and `\n\note_moyenne: ` (two newlines followed by `ote_moyenne`). The model uses the template exactly as written.
- A chain created before `invoke` raises stays in `conversation`; only `chat_history` is left unchanged (`Fonctions.AskStep`).

## Model

| member | source | states |
|---|---|---|
| VectorStore.CreateDocumentsFromCsv | utils/vectorestore.py:58-82 | the loop builds exactly `CreatedDocuments(csv)`: one document per row, in row order, or `[]` when reading fails or a row lacks a column |
| VectorStore.CreatedDocuments | utils/vectorestore.py:62-82 | never a partial list: empty when the read raises or any row lacks a template column, otherwise one document per row, document `i` built from row `i` |
| VectorStore.DocumentPerRow | utils/vectorestore.py:66-77 | document `i` comes from row `i`; its metadata keys are exactly title, Description, url and source, holding the row's title, its overview, its URL (or "" without a URL column) and "Movie_Mind"; its content is the template filled with the row's four fields |
| VectorStore.ContentRoundTrip | utils/vectorestore.py:67 | the template, with its literal `\s` and `\n\note` labels, loses nothing: the four values can be read back when the first three hold no newline |
| VectorStore.Texts | utils/vectorestore.py:90-91 | the texts have the documents' length and order, `texts[i]` being document `i`'s page content |
| VectorStore.LoadVectorstore | utils/vectorestore.py:44-56 | None exactly when loading raises FileNotFoundError; a loaded store is returned; any other exception propagates |
| Movies.Titles | pages/page_2.py:26 | the title list has one entry per row, title `i` being row `i`'s, and lists exactly the dataset's titles |
| Movies.LoadMovies | utils/fonctions.py:135-140 | the rows read; a missing file gives the column-less empty frame (None); any other exception propagates |
| Seqs.Filter | pages/page_2.py:31 | a boolean-mask selection keeps exactly the items satisfying the mask, each as often as in the input, as a subsequence |
| Seqs.DropDuplicatesBy | pages/page_2.py:32 | dropping duplicates never lengthens the list and keeps only its own items |
| Seqs.DropDuplicatesByProperties | pages/page_2.py:32 | `drop_duplicates(keep='first')` keeps a subsequence with pairwise distinct keys, loses no key, keeps each key's first row and lists keys by first appearance |
| Seqs.PyHead | utils/fonctions.py:52-59 | `[:n]` and `head(n)` give a prefix of length min(n, len) for n >= 0, and drop the last -n items for n < 0 |
| Seqs.Chunks | utils/fonctions.py:62 | no chunk without input, and every chunk is non-empty and at most `n` long |
| Seqs.ChunkAt | utils/fonctions.py:15-16 | row `k` of the grid is the slice starting at `k * n`, non-empty and at most `n` long |
| Seqs.ChunksFlatten | utils/fonctions.py:62 | the rows concatenate back to the input |
| Keys.NatToStringRoundTrip | utils/fonctions.py:101 | the decimal rendering of an index reads back as that index |
| Keys.IndexKeyInjective | pages/page_2.py:47 | `f"{prefix}_{idx}"` keys are equal exactly when the indices are |
| Keys.GridKeyInjective | utils/fonctions.py:101 | `f"{prefix}_{i}_{j}"` keys are equal exactly when both indices are |
| Cards.PlaceCards | pages/page_2.py:35-36 | card `idx` holds movie `idx` in column `idx % 5 < 5` with key `prefix_idx`, and the keys are pairwise distinct |
| Cards.SelectClicked | pages/page_2.py:45-50 | the clicked card's movie becomes `selected_film`; with no click the session is unchanged |
| Fonctions.FuzzySearch | utils/fonctions.py:115-121 | keeps exactly the matches scoring 70 or more (70 included), each as often as given, in the matcher's order |
| Fonctions.LayOutGrid | utils/fonctions.py:15-38 | film `p` goes to column `p % nb` of the row starting at `p - p % nb` and shows its picture or the warning; a zero width raises ValueError; a negative width lays out nothing |
| Fonctions.GridRowsAreChunks | utils/fonctions.py:15-16 | film `p` is item `p % nb` of the slice `p / nb` |
| Fonctions.GridKeysDistinct | utils/fonctions.py:101 | no two buttons of one grid share a key |
| Fonctions.GridCards | utils/fonctions.py:87-102 | the button of film `p` sits in column `p % nb` with key `prefix_{p - p % nb}_{p % nb}`, one per film, and no two share a key |
| Fonctions.ThumbnailOf | utils/fonctions.py:95-98 | a film shows its picture exactly when its photo link is non-empty, otherwise the warning |
| Fonctions.ShowFilmsWithButtons | utils/fonctions.py:81-106 | card `p` holds film `p` in column `p % nb` with key `prefix_{p - p % nb}_{p % nb}`; keys are distinct; a click selects that film; a zero width raises |
| Fonctions.CategoryColumn | utils/fonctions.py:52 | entry `i` is the category of the `i`-th film that has one, duplicates kept, so the entries are exactly the films' non-null categories |
| Fonctions.AvailableCategories | utils/fonctions.py:52 | a prefix of the distinct categories in order of first appearance, of length min(`nb_cibles`, their number), or their number less -`nb_cibles` when negative |
| Fonctions.AvailableCategoriesDistinct | utils/fonctions.py:52 | at most `nb_cibles` categories, pairwise distinct, in order of first appearance |
| Fonctions.AvailableCategoriesOccur | utils/fonctions.py:52 | every category shown is some film's category |
| Fonctions.AvailableCategoriesFirst | utils/fonctions.py:52 | a category the column mentions before a shown one is shown too |
| Fonctions.AvailableCategoriesComplete | utils/fonctions.py:52 | with `nb_cibles` at least the number of distinct categories, every category is shown |
| Fonctions.FilmsOfCategory | utils/fonctions.py:59 | the first min(`nb_films_par_cible`, count) films of the category in dataset order (for a negative count, all but the last -count), all of that category |
| Fonctions.GridRows | utils/fonctions.py:62 | with a positive width the rows are the chunks cut at multiples of the width (so they concatenate to the films, each non-empty and at most the width); a negative width gives no row |
| Fonctions.BuildSections | utils/fonctions.py:55-62 | section `q` is category `q`'s `SectionOf`, one per category, in order |
| Seqs.MapEach | utils/fonctions.py:55 | the loop over a list yields item `k`'s result at position `k`, one per item |
| Fonctions.ShowFilmsByCategory | utils/fonctions.py:41-79 | one section per available category, in order, each that category's `SectionOf`; a zero width raises ValueError exactly when at least one category is available |
| Fonctions.SectionShape | utils/fonctions.py:59-62 | a section's rows are the category's first films cut at multiples of the width: they concatenate to those films, hold at most the width each, and every film shown has the category |
| Fonctions.AskStep | utils/fonctions.py:179-201 | a failing store load or chain creation shows that exception and changes nothing; a created chain is stored before `invoke` and stays stored; a successful `invoke` appends exactly `(question, answer)` and shows the answer, a failing one shows its exception and leaves the history unchanged; an existing conversation is reused |
| Fonctions.InitChatState | utils/fonctions.py:160-164 | `conversation := None` and `chat_history := []` only where absent |
| Fonctions.Ask | utils/fonctions.py:180-201 | the session's fields move exactly as `AskStep` says |
| Fonctions.Reset | utils/fonctions.py:203-207 | no conversation and an empty history whatever was there, so resetting twice gives the same state |
| Fonctions.CallChatbot | utils/fonctions.py:153-209 | an empty input shows nothing and changes nothing beyond initialisation; a non-empty one shows what one `AskStep` shows and, without reset, leaves the session as that step does; reset clears both fields |
| SearchPage.MatchedTitles | pages/page_2.py:30 | title `k` is the choice of match `k` |
| SearchPage.RowsWithTitles | pages/page_2.py:31 | exactly the dataset rows whose title is listed, in dataset order, each as often as in the dataset |
| SearchPage.MatchedMovies | pages/page_2.py:30-32 | no more movies than matching rows, each one of those rows |
| SearchPage.MatchedMoviesAreMatchedRows | pages/page_2.py:30-32 | the movies shown are dataset rows with a matched title, in dataset order |
| SearchPage.MatchedMoviesDistinctIds | pages/page_2.py:32 | the ids shown are pairwise distinct and each movie is the first matching row of its id |
| SearchPage.MatchedMoviesCoverIds | pages/page_2.py:31-32 | every matching row's id is shown |
| SearchPage.MatchedMoviesNonEmpty | pages/page_2.py:26-31 | non-empty fuzzy results over the dataset's own titles leave at least one movie |
| SearchPage.ShowSearchResults | pages/page_2.py:17-57 | a failed dataset read stops the page; no query gives the error view; a query over the missing file's empty frame raises KeyError; no result gives the warning; otherwise card `idx` shows matched movie `idx` in column `idx % 5` with key `btn_idx`, and a click selects it |
| DetailPage.ShownRating | pages/page_3.py:26 | the rating when it is a number, 0 when missing or NaN |
| DetailPage.RecommendationList | pages/page_3.py:44 | a missing list is the empty list |
| DetailPage.RecommendedMovies | pages/page_3.py:46 | exactly the rows whose title is recommended, in dataset order, duplicates kept |
| DetailPage.NoListNoRecommendations | pages/page_3.py:44-46 | a film without recommendations recommends no movie |
| DetailPage.ShowDetail | pages/page_3.py:14-64 | nothing without a present, non-None `selected_film`; otherwise its rating, then either the exception of the dataset read (KeyError for the missing file's empty frame) or card `idx` for recommendation `idx` in column `idx % 5` with key `rec_idx`; a click replaces `selected_film` |
| Login.InitLoginState | login.py:15-16 | `logged_in := False` only where absent |
| Login.Login | login.py:18-24 | True exactly for admin/admin, which sets `logged_in` and `username`; a refusal changes nothing |
| Login.LoginScript | login.py:68-72 | the form is shown exactly when not logged in, and a submission is checked by `login`; otherwise the page switches to `login.py` |

## Left out

- Streamlit rendering is left out as a UI effect: HTML and CSS, markdown, columns, images, spinners, `st.switch_page` and `st.rerun`. The pages' previous/next buttons and `pages/main.py` and `pages/page_4.py` are left out for the same reason.
- Embedding, FAISS indexing and search, persistence (`create_vectorstore`, `save_vectorstore`, `load_local`) and the language model are library calls. They appear only as parameters that return or raise. No retrieval ordering is assumed.
- `get_llm` in `utils/chatbot.py` cannot work as written: it reads `gorq_api_key` but tests `groq_api_key`, and `ChatOpenAI` is never imported. The chain factory is an oracle, so every chain creation may raise.
- The prompt template and its off-topic refusal are natural-language instructions with nothing to prove.
- Fuzzy scoring is left out. `ShowSearchResults` takes the matcher's `(title, score)` pairs as a parameter.
- ShowSearchResults: does not impose the matcher's `limit=10` on those pairs, because it is the library's promise, not the page's.
- Reading the CSV, `load_css` and `sqlite3` are I/O. A read of the dataset file is an `Outcome` parameter, and `load_movies` is modelled over it. The `csv_path` argument of `create_documents_from_csv` is never used by the code.
- The error message that `load_movies` shows for a missing file, and the message the document builder's handler prints, are output only.
- `eval` of the recommendations text is left out. A movie's recommendations are an already parsed list, or None when the key is missing.
- Cell values are modelled as the text the f-string renders (`VectorStore.Row`) or as typed movie fields. pandas dtypes and NaN formatting are not modelled.
- `get_random_movies` depends on random sampling and is not part of this model.
- Secrets and credential lookup are not modelled.
- CallChatbot: shows the raised exception itself, not the text of `st.error(f"Erreur : {e}")`.
- SelectClicked: stops at the clicked button; that `st.switch_page` and `st.rerun` end the script run is rendering.
