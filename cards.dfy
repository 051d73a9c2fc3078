/**
 * The clickable movie cards the search and detail pages lay out five to a row, and the
 * session update a click on one of them makes.
 */
module Cards {
  import opened Common
  import opened Keys
  import opened Movies
  import opened Session

  /** Both pages draw their cards in five columns. */
  const ColumnsPerRow := 5

  datatype Card = Card(movie: Movie, column: nat, key: string)

  /**
   * The cards of an enumerated list: the card for position `idx` goes to column `idx % 5`
   * and its button is keyed by the prefix and `idx`; no two buttons share a key.
   */
  method PlaceCards(movies: seq<Movie>, prefix: string) returns (cards: seq<Card>)
    ensures |cards| == |movies|
    ensures forall idx :: 0 <= idx < |cards| ==>
      && cards[idx].movie == movies[idx]
      && cards[idx].column == idx % ColumnsPerRow < ColumnsPerRow
      && cards[idx].key == IndexKey(prefix, idx)
    ensures forall a, b :: 0 <= a < b < |cards| ==> cards[a].key != cards[b].key
  {
    cards := [];
    for idx := 0 to |movies|
      invariant |cards| == idx
      invariant forall k :: 0 <= k < idx ==> cards[k] == Card(movies[k], k % ColumnsPerRow, IndexKey(prefix, k))
      invariant forall a, b :: 0 <= a < b < idx ==> cards[a].key != cards[b].key
    {
      forall a | 0 <= a < idx
        ensures cards[a].key != IndexKey(prefix, idx)
      {
        IndexKeyInjective(prefix, a, idx);
      }
      cards := cards + [Card(movies[idx], idx % ColumnsPerRow, IndexKey(prefix, idx))];
    }
  }

  /**
   * The buttons are checked in order; the one whose key was clicked stores its movie as
   * `selected_film` (and the page then navigates away). Streamlit refuses two widgets with
   * one key, so at most one button matches.
   */
  method SelectClicked(s: SessionState, cards: seq<Card>, clicked: Option<string>)
    requires forall a, b :: 0 <= a < b < |cards| ==> cards[a].key != cards[b].key
    modifies s`selectedFilm
    ensures forall idx :: 0 <= idx < |cards| && clicked == Some(cards[idx].key) ==>
      s.selectedFilm == Present(Some(cards[idx].movie))
    ensures (forall idx :: 0 <= idx < |cards| ==> clicked != Some(cards[idx].key)) ==>
      s.selectedFilm == old(s.selectedFilm)
  {
    for idx := 0 to |cards|
      invariant forall k :: 0 <= k < idx ==> clicked != Some(cards[k].key)
      invariant s.selectedFilm == old(s.selectedFilm)
    {
      if clicked == Some(cards[idx].key) {
        s.selectedFilm := Present(Some(cards[idx].movie));
        return;
      }
    }
  }
}
