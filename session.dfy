/**
 * The per-user session store. The application keeps it as a dictionary keyed by
 * strings; here each key it uses is a typed field that is either absent or present.
 */
module Session {
  import opened Common
  import opened Movies

  /** One exchange of the chat: the user's question and the assistant's answer. */
  type Turn = (string, string)

  /** Handle of a conversational retrieval chain (a library object). */
  datatype Chain = Chain(handle: nat)

  /** Handle of a loaded vector index (a library object). */
  datatype VectorIndex = VectorIndex(handle: nat)

  class SessionState {
    var loggedIn: Slot<bool>
    var username: Slot<string>
    var query: Slot<string>
    /** `None` is Python's None; a present movie record is truthy. */
    var selectedFilm: Slot<Option<Movie>>
    var conversation: Slot<Option<Chain>>
    var chatHistory: Slot<seq<Turn>>

    /** A fresh session: no key has been written yet. */
    constructor ()
      ensures loggedIn == Absent && username == Absent && query == Absent
      ensures selectedFilm == Absent && conversation == Absent && chatHistory == Absent
    {
      loggedIn, username, query := Absent, Absent, Absent;
      selectedFilm, conversation, chatHistory := Absent, Absent, Absent;
    }
  }
}
