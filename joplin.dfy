/**
 * The replies of the note-service client (`save_note_to_joplin`,
 * `search_notes_in_joplin`, `fetch_note_by_id`). The HTTP exchange is not
 * modelled: each operation receives the status code and the decoded JSON
 * fields the service answered with.
 */
module Joplin {
  import opened Wrappers
  import opened Text

  const HttpOk := 200

  const SavedMessage := "Successfully saved in Joplin!"
  const SaveFailedMessage := "Failed to save."
  const FoundHeader := "Here are the notes I found:"
  const NothingFoundMessage := "No notes found or failed to search."

  /** At most this many search results are listed. */
  const MaxResults: nat := 5

  /** The title and body a new note is created with. */
  datatype Draft = Draft(title: string, body: string)

  /** One entry of the search answer's `items`; a field may be missing. */
  datatype NoteItem = NoteItem(title: Option<string>, id: Option<string>)

  /** The search answer: its status and its `items` field, if present. */
  datatype SearchResponse = SearchResponse(status: int, items: Option<seq<NoteItem>>)

  /** The fetch answer: its status and the note's `body` field, if present. */
  datatype FetchResponse = FetchResponse(status: int, body: Option<string>)

  /** The reply to a create request, given the status the service answered with. */
  function SaveNote(status: int): (r: string)
    ensures r == SavedMessage <==> status == HttpOk
    ensures r == SaveFailedMessage <==> status != HttpOk
  {
    if status == HttpOk then SavedMessage else SaveFailedMessage
  }

  /** How a Python f-string shows an optional field: a missing one reads "None". */
  function Show(v: Option<string>): string
  {
    match v
    case Some(s) => s
    case None => "None"
  }

  /** The line listing one search result. */
  function ItemLine(n: NoteItem): string
  {
    "- " + Show(n.title) + ": " + Show(n.id)
  }

  /** The lines of the given items, in order. */
  function Lines(items: seq<NoteItem>): seq<string>
    decreases |items|
  {
    if items == [] then [] else Lines(items[..|items| - 1]) + [ItemLine(items[|items| - 1])]
  }

  /** The items that are listed: the first `MaxResults`, in the order the service gave. */
  function Shown(items: seq<NoteItem>): (r: seq<NoteItem>)
    ensures |r| <= MaxResults
    ensures |r| == |items| || |r| == MaxResults
    ensures r <= items
  {
    if |items| <= MaxResults then items else items[..MaxResults]
  }

  /** Whether the search answer lists anything: a success status and a non-empty `items`. */
  predicate Found(response: SearchResponse)
  {
    response.status == HttpOk && response.items.Some? && response.items.value != []
  }

  /** The reply to a search, given the service's answer. */
  function SearchReply(response: SearchResponse): string
  {
    if Found(response)
    then JoinWith("\n", [FoundHeader] + Lines(Shown(response.items.value)))
    else NothingFoundMessage
  }

  /** `search_notes_in_joplin` after the request: the header, then one line per shown item, appended in a loop. */
  method SearchNotes(response: SearchResponse) returns (reply: string)
    ensures reply == SearchReply(response)
  {
    if response.status == HttpOk && response.items.Some? && response.items.value != [] {
      var notes := Shown(response.items.value);
      var messages := [FoundHeader];
      for k := 0 to |notes|
        invariant messages == [FoundHeader] + Lines(notes[..k])
      {
        assert notes[..k + 1][..k] == notes[..k];
        messages := messages + [ItemLine(notes[k])];
      }
      assert notes[..|notes|] == notes;
      reply := JoinWith("\n", messages);
    } else {
      reply := NothingFoundMessage;
    }
  }

  /** The body `fetch_note_by_id` returns: the `body` field on success, otherwise nothing. */
  function FetchNoteBody(response: FetchResponse): (r: Option<string>)
    ensures r.Some? <==> response.status == HttpOk && response.body.Some?
    ensures r.Some? ==> r == response.body
  {
    if response.status == HttpOk then response.body else None
  }

  // ---------------------------------------------------------------------------
  // Properties of the search reply
  // ---------------------------------------------------------------------------

  /** The lines list the items one for one, in order. */
  lemma {:induction false} LinesAt(items: seq<NoteItem>)
    ensures |Lines(items)| == |items|
    ensures forall i :: 0 <= i < |items| ==> Lines(items)[i] == ItemLine(items[i])
    decreases |items|
  {
    if items != [] {
      LinesAt(items[..|items| - 1]);
    }
  }

  /**
   * A failed request, a missing `items` and an empty `items` all give the one
   * not-found reply, and a listing is never mistaken for it.
   */
  lemma SearchNothingFound(response: SearchResponse)
    ensures SearchReply(response) == NothingFoundMessage <==> !Found(response)
  {
    if Found(response) {
      var lines := Lines(Shown(response.items.value));
      JoinWithHead("\n", FoundHeader, lines);
      var reply := SearchReply(response);
      assert reply[0] == FoundHeader[0] == 'H';
      assert NothingFoundMessage[0] == 'N';
    }
  }

  /** A listing begins with the header's first letter. */
  lemma ListingStartsWithHeader(response: SearchResponse)
    requires Found(response)
    ensures SearchReply(response) != "" && SearchReply(response)[0] == 'H'
  {
    JoinWithHead("\n", FoundHeader, Lines(Shown(response.items.value)));
    assert FoundHeader[0] == 'H';
  }

  /**
   * A listing is the header followed by one "\n- title: id" line for each of
   * the first `MaxResults` items, in the service's order.
   */
  lemma SearchListing(response: SearchResponse)
    requires Found(response)
    ensures var items := response.items.value;
            var lines := Lines(Shown(items));
            && SearchReply(response) == FoundHeader + Prefixed("\n", lines)
            && |lines| == (if |items| < MaxResults then |items| else MaxResults)
            && forall i :: 0 <= i < |lines| ==> lines[i] == ItemLine(items[i])
  {
    var items := response.items.value;
    JoinWithHead("\n", FoundHeader, Lines(Shown(items)));
    LinesAt(Shown(items));
  }
}
