/**
 * Building the retrieval documents from the movie dataset, the projection of their
 * texts for indexing, and loading a persisted index.
 */
module VectorStore {
  import opened Common

  /** One CSV row: column name to the text the f-string renders for the cell. */
  type Row = map<string, string>

  /** A retrieval document: the text that is embedded and a metadata map. */
  datatype Document = Document(pageContent: string, metadata: map<string, string>)

  const Source := "Movie_Mind"

  // The four labels of the content template, exactly as the Python literal reads them.
  const TitleLabel := "title: "
  const DescriptionLabel := "\n\nDescription: "
  /** `\s` is not a Python escape: the backslash and the `s` both stay. */
  const RecommendationLabel := "\n\\systeme de recommendation: "
  /** `\n\note` is two newline escapes followed by `ote`: the label loses its `n`. */
  const RatingLabel := "\n\note_moyenne: "

  /** The columns the template and the metadata read with `row[...]`. */
  predicate HasTemplateColumns(row: Row)
  {
    "title" in row && "overview" in row && "recommendations" in row && "note_moyenne" in row
  }

  /** The page content of one row. */
  function Content(title: string, overview: string, recommendations: string, noteMoyenne: string): string
  {
    TitleLabel + title + DescriptionLabel + overview + RecommendationLabel + recommendations
    + RatingLabel + noteMoyenne
  }

  function Metadata(row: Row): map<string, string>
    requires HasTemplateColumns(row)
  {
    map[
      "title" := row["title"],
      "Description" := row["overview"],
      "url" := if "URL" in row then row["URL"] else "",
      "source" := Source]
  }

  /** The document built for a row that has every column the template reads. */
  function DocumentOf(row: Row): Document
    requires HasTemplateColumns(row)
  {
    Document(Content(row["title"], row["overview"], row["recommendations"], row["note_moyenne"]), Metadata(row))
  }

  /**
   * What `create_documents_from_csv` returns: one document per row, in row order, when
   * the file was read and every row has the template's columns; otherwise the exception
   * (from `read_csv` or a `KeyError`) is caught and the result is empty.
   */
  function CreatedDocuments(csv: Outcome<seq<Row>>): (docs: seq<Document>)
    ensures docs == [] || (csv.Returned? && |docs| == |csv.value|)
    ensures csv.Raised? ==> docs == []
    ensures csv.Returned? && (exists i :: 0 <= i < |csv.value| && !HasTemplateColumns(csv.value[i])) ==> docs == []
    ensures csv.Returned? && (forall i :: 0 <= i < |csv.value| ==> HasTemplateColumns(csv.value[i])) ==>
      |docs| == |csv.value| && forall i :: 0 <= i < |csv.value| ==> docs[i] == DocumentOf(csv.value[i])
  {
    match csv
    case Raised(_) => []
    case Returned(rows) =>
      if forall i :: 0 <= i < |rows| ==> HasTemplateColumns(rows[i])
      then seq(|rows|, i requires 0 <= i < |rows| && HasTemplateColumns(rows[i]) => DocumentOf(rows[i]))
      else []
  }

  /**
   * The loop of `create_documents_from_csv`, over the result of reading the file (the
   * path argument is not used by the code: it always reads the same file).
   */
  method CreateDocumentsFromCsv(csv: Outcome<seq<Row>>) returns (documents: seq<Document>)
    ensures documents == CreatedDocuments(csv)
  {
    if csv.Raised? {
      return [];
    }
    var rows := csv.value;
    documents := [];
    for i := 0 to |rows|
      invariant |documents| == i
      invariant forall k :: 0 <= k < i ==> HasTemplateColumns(rows[k]) && documents[k] == DocumentOf(rows[k])
    {
      if !HasTemplateColumns(rows[i]) {
        // row[...] raises KeyError; the handler discards what was built so far
        return [];
      }
      documents := documents + [DocumentOf(rows[i])];
    }
  }

  /**
   * When the file was read and every row is complete, document `i` is built from row `i`:
   * its metadata has exactly the keys title, Description, url and source, holding the row's
   * title, its overview, its URL or "" when there is no URL column, and "Movie_Mind".
   */
  lemma DocumentPerRow(rows: seq<Row>, i: nat)
    requires forall k :: 0 <= k < |rows| ==> HasTemplateColumns(rows[k])
    requires i < |rows|
    ensures var docs := CreatedDocuments(Returned(rows));
      && |docs| == |rows|
      && docs[i].metadata.Keys == {"title", "Description", "url", "source"}
      && docs[i].metadata["title"] == rows[i]["title"]
      && docs[i].metadata["Description"] == rows[i]["overview"]
      && docs[i].metadata["url"] == (if "URL" in rows[i] then rows[i]["URL"] else "")
      && docs[i].metadata["source"] == "Movie_Mind"
      && docs[i].pageContent
         == Content(rows[i]["title"], rows[i]["overview"], rows[i]["recommendations"], rows[i]["note_moyenne"])
  {
    var docs := CreatedDocuments(Returned(rows));
    assert docs[i] == DocumentOf(rows[i]);
    assert docs[i].metadata == Metadata(rows[i]);
  }

  // ---- Reading the template back ------------------------------------------------------

  datatype ContentFields = ContentFields(title: string, overview: string, recommendations: string, noteMoyenne: string)

  predicate StartsWith(s: string, prefix: string)
  {
    |prefix| <= |s| && s[..|prefix|] == prefix
  }

  /** The text before the first newline of `s`, and the rest of `s` from that newline on. */
  function SplitAtNewline(s: string): (r: (string, string))
    ensures r.0 + r.1 == s
    decreases |s|
  {
    if s == [] || s[0] == '\n' then ([], s)
    else
      var (line, rest) := SplitAtNewline(s[1..]);
      ([s[0]] + line, rest)
  }

  lemma {:induction false} SplitAtNewlineOf(line: string, rest: string)
    requires '\n' !in line
    requires rest != [] && rest[0] == '\n'
    ensures SplitAtNewline(line + rest) == (line, rest)
    decreases |line|
  {
    if line != [] {
      var s := line + rest;
      assert s[0] == line[0] != '\n';
      assert s[1..] == line[1..] + rest;
      SplitAtNewlineOf(line[1..], rest);
      assert SplitAtNewline(s) == ([line[0]] + line[1..], rest);
      assert [line[0]] + line[1..] == line;
    } else {
      assert line + rest == rest;
    }
  }

  /** After `heading` at the start of `s`: the text up to the next newline, and what follows. */
  function ReadField(s: string, heading: string): Option<(string, string)>
  {
    if StartsWith(s, heading) then Some(SplitAtNewline(s[|heading|..])) else None
  }

  lemma ReadFieldOf(heading: string, field: string, rest: string)
    requires '\n' !in field
    requires rest != [] && rest[0] == '\n'
    ensures ReadField(heading + field + rest, heading) == Some((field, rest))
  {
    var s := heading + field + rest;
    assert s[..|heading|] == heading;
    assert s[|heading|..] == field + rest;
    SplitAtNewlineOf(field, rest);
  }

  /**
   * Reads the four fields back from a page content, expecting the labels as the template
   * writes them (`\systeme`, `ote_moyenne`).
   */
  function ParseContent(c: string): Option<ContentFields>
  {
    match ReadField(c, TitleLabel)
    case None => None
    case Some((title, r1)) =>
      match ReadField(r1, DescriptionLabel)
      case None => None
      case Some((overview, r2)) =>
        match ReadField(r2, RecommendationLabel)
        case None => None
        case Some((recommendations, r3)) =>
          if StartsWith(r3, RatingLabel)
          then Some(ContentFields(title, overview, recommendations, r3[|RatingLabel|..]))
          else None
  }

  /**
   * The template loses nothing: when title, overview and recommendations hold no newline,
   * the four values can be read back from the content.
   */
  lemma ContentRoundTrip(title: string, overview: string, recommendations: string, noteMoyenne: string)
    requires '\n' !in title && '\n' !in overview && '\n' !in recommendations
    ensures ParseContent(Content(title, overview, recommendations, noteMoyenne))
         == Some(ContentFields(title, overview, recommendations, noteMoyenne))
  {
    var r3 := RatingLabel + noteMoyenne;
    var r2 := RecommendationLabel + recommendations + r3;
    var r1 := DescriptionLabel + overview + r2;
    assert r3[0] == '\n' && r2[0] == '\n' && r1[0] == '\n';
    assert Content(title, overview, recommendations, noteMoyenne) == TitleLabel + title + r1;
    ReadFieldOf(TitleLabel, title, r1);
    ReadFieldOf(DescriptionLabel, overview, r2);
    ReadFieldOf(RecommendationLabel, recommendations, r3);
    assert r3[..|RatingLabel|] == RatingLabel && r3[|RatingLabel|..] == noteMoyenne;
  }

  // ---- Indexing and loading ---------------------------------------------------------------

  /** The texts handed to the index: each document's page content, in document order. */
  function Texts(documents: seq<Document>): (texts: seq<string>)
    ensures |texts| == |documents|
    ensures forall i :: 0 <= i < |documents| ==> texts[i] == documents[i].pageContent
    decreases |documents|
  {
    if documents == [] then [] else [documents[0].pageContent] + Texts(documents[1..])
  }

  /**
   * `load_vectorstore`: a missing store (`FileNotFoundError`) gives None; a loaded store is
   * returned; any other exception propagates to the caller.
   */
  function LoadVectorstore<S>(load: Outcome<S>): (r: Outcome<Option<S>>)
    ensures r == Returned(None) <==> load == Raised(FileNotFoundError)
    ensures load.Returned? ==> r == Returned(Some(load.value))
    ensures load.Raised? && load.exception != FileNotFoundError ==> r == Raised(load.exception)
  {
    match load
    case Returned(store) => Returned(Some(store))
    case Raised(FileNotFoundError) => Returned(None)
    case Raised(e) => Raised(e)
  }
}
