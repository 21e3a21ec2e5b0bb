/**
 * The chat command handlers (`start`, `handle_message`, `handle_search`,
 * `handle_read`) as functions from the command's arguments and the answers
 * of the note service to the replies the bot sends. The note service is
 * a function from the request to its answer; whether the chat platform
 * accepted a chunk is a function from the chunk's position to a flag.
 */
module Handlers {
  import opened Wrappers
  import opened Text
  import Paginator
  import opened Joplin

  const Greeting := "Hello! Send me a note, photo, or file to save to Joplin."
  const TextNoteTitle := "Telegram Note"
  // Written in two halves so that the verifier can read its first letter.
  const SearchPrompt := "Please provide a search query " + "after the /search command."
  const ReadPrompt := "Please provide a note ID after the /read command."
  const NoteNotFoundMessage := "Failed to fetch the note or note not found."
  const NoteEmptyMessage := "Note is empty or too large to process."
  const SendErrorMessage := "Error sending part of the note."

  /** One reply the bot sends: a fixed notice, or the chunk at `index` with whether it arrived. */
  datatype Reply =
    | Notice(text: string)
    | Part(index: nat, text: string, delivered: bool)

  /** A chunk the chat platform refused. */
  predicate Failed(r: Reply)
  {
    r.Part? && !r.delivered
  }

  /** The reply to a plain text message: it is saved as a note titled "Telegram Note". */
  function HandleMessage(text: string, save: Draft -> int): (r: string)
    ensures r == SavedMessage <==> save(Draft(TextNoteTitle, text)) == HttpOk
    ensures r == SaveFailedMessage <==> save(Draft(TextNoteTitle, text)) != HttpOk
  {
    SaveNote(save(Draft(TextNoteTitle, text)))
  }

  /** The reply to `/search`: the arguments joined by spaces are the query. */
  function HandleSearch(args: seq<string>, search: string -> SearchResponse): string
  {
    var query := JoinWith(" ", args);
    if query == "" then SearchPrompt else SearchReply(search(query))
  }

  /** Sending one chunk, and the error notice that follows it when it was refused. */
  function Attempt(i: nat, chunk: string, ok: nat -> bool): seq<Reply>
  {
    [Part(i, chunk, ok(i))] + (if ok(i) then [] else [Notice(SendErrorMessage)])
  }

  /** Sending every chunk in order; a refused chunk does not stop the ones after it. */
  function Deliver(parts: seq<string>, ok: nat -> bool): seq<Reply>
    decreases |parts|
  {
    if parts == [] then []
    else Deliver(parts[..|parts| - 1], ok) + Attempt(|parts| - 1, parts[|parts| - 1], ok)
  }

  /** The replies to `/read`, given the service's answers and the chat platform's acceptance of each chunk. */
  function ReadReplies(args: seq<string>, fetch: string -> FetchResponse, ok: nat -> bool): seq<Reply>
  {
    if |args| != 1 then [Notice(ReadPrompt)]
    else match FetchNoteBody(fetch(args[0]))
      case None => [Notice(NoteNotFoundMessage)]
      case Some(body) =>
        var parts := Paginator.Split(body, Paginator.MaxMessageLength);
        if parts == [] then [Notice(NoteEmptyMessage)] else Deliver(parts, ok)
  }

  /** `handle_read`: check the arguments, fetch the body, split it and send the chunks one by one. */
  method HandleRead(args: seq<string>, fetch: string -> FetchResponse, ok: nat -> bool)
    returns (replies: seq<Reply>)
    ensures replies == ReadReplies(args, fetch, ok)
  {
    if |args| != 1 {
      return [Notice(ReadPrompt)];
    }
    var noteBody := FetchNoteBody(fetch(args[0]));
    if noteBody.None? {
      return [Notice(NoteNotFoundMessage)];
    }
    var parts := Paginator.SplitMessages(noteBody.value, Paginator.MaxMessageLength);
    if parts == [] {
      return [Notice(NoteEmptyMessage)];
    }
    replies := SendChunks(parts, ok);
  }

  /** The sending loop of `handle_read`: each chunk in turn, an error notice after each refused one. */
  method SendChunks(parts: seq<string>, ok: nat -> bool) returns (replies: seq<Reply>)
    ensures replies == Deliver(parts, ok)
  {
    replies := [];
    for i := 0 to |parts|
      invariant replies == Deliver(parts[..i], ok)
    {
      assert parts[..i + 1][..i] == parts[..i];
      replies := replies + [Part(i, parts[i], ok(i))];
      if !ok(i) {
        replies := replies + [Notice(SendErrorMessage)];
      }
    }
    assert parts[..|parts|] == parts;
  }

  // ---------------------------------------------------------------------------
  // Properties of the handlers
  // ---------------------------------------------------------------------------

  /** The chunk sends among the replies, in order. */
  function Sends(rs: seq<Reply>): seq<Reply>
    decreases |rs|
  {
    if rs == [] then []
    else Sends(rs[..|rs| - 1]) + (if rs[|rs| - 1].Part? then [rs[|rs| - 1]] else [])
  }

  lemma {:induction false} SendsAppend(a: seq<Reply>, b: seq<Reply>)
    ensures Sends(a + b) == Sends(a) + Sends(b)
    decreases |b|
  {
    if b == [] {
      assert a + b == a;
    } else {
      var b' := b[..|b| - 1];
      assert (a + b)[..|a + b| - 1] == a + b';
      assert (a + b)[|a + b| - 1] == b[|b| - 1];
      SendsAppend(a, b');
    }
  }

  /**
   * `/search` prompts for a query exactly when the arguments join to nothing:
   * no argument, or a single empty one. Otherwise the joined arguments are searched for.
   */
  lemma SearchCommand(args: seq<string>, search: string -> SearchResponse)
    ensures HandleSearch(args, search) == SearchPrompt <==> (args == [] || args == [""])
    ensures !(args == [] || args == [""]) ==>
              HandleSearch(args, search) == SearchReply(search(JoinWith(" ", args)))
  {
    JoinWithEmpty(" ", args);
    var query := JoinWith(" ", args);
    if query != "" {
      SearchReplyNotPrompt(search(query));
    }
  }

  /** No search reply reads like the prompt: the not-found reply is shorter, and a listing starts with 'H'. */
  lemma SearchReplyNotPrompt(response: SearchResponse)
    ensures SearchReply(response) != SearchPrompt
  {
    assert SearchPrompt[0] == 'P';
    if Found(response) {
      ListingStartsWithHeader(response);
    } else {
      assert |NothingFoundMessage| == 35 && |SearchPrompt| == 56;
    }
  }

  /** Every chunk is sent once, in order, with its own outcome, whatever happened to the chunks before it. */
  lemma {:induction false} DeliverSendsAll(parts: seq<string>, ok: nat -> bool)
    ensures |Sends(Deliver(parts, ok))| == |parts|
    ensures forall i :: 0 <= i < |parts| ==> Sends(Deliver(parts, ok))[i] == Part(i, parts[i], ok(i))
    decreases |parts|
  {
    if parts != [] {
      var n := |parts| - 1;
      DeliverSendsAll(parts[..n], ok);
      var init := Sends(Deliver(parts[..n], ok));
      SendsAppend(Deliver(parts[..n], ok), Attempt(n, parts[n], ok));
      SendsAttempt(n, parts[n], ok);
      var sends := Sends(Deliver(parts, ok));
      assert sends == init + [Part(n, parts[n], ok(n))];
      forall i | 0 <= i < n ensures sends[i] == Part(i, parts[i], ok(i)) {
        assert sends[i] == init[i] && parts[..n][i] == parts[i];
      }
    }
  }

  /** One attempt sends its chunk once, whatever the outcome. */
  lemma SendsAttempt(i: nat, chunk: string, ok: nat -> bool)
    ensures Sends(Attempt(i, chunk, ok)) == [Part(i, chunk, ok(i))]
  {
    var part := Part(i, chunk, ok(i));
    assert [part][..0] == [];
    assert Sends([part]) == [part];
    if !ok(i) {
      assert Attempt(i, chunk, ok)[..1] == [part];
    }
  }

  /**
   * The notices among the chunk sends: each refused chunk is followed
   * immediately by the error notice, and every notice follows a refused chunk.
   */
  ghost predicate NoticesFollowFailures(rs: seq<Reply>)
  {
    && (forall k :: 0 < k < |rs| ==> (rs[k].Notice? <==> Failed(rs[k - 1])))
    && (rs != [] ==> rs[0].Part? && !Failed(rs[|rs| - 1]))
    && (forall k :: 0 <= k < |rs| && rs[k].Notice? ==> rs[k].text == SendErrorMessage)
  }

  lemma {:induction false} DeliverNotices(parts: seq<string>, ok: nat -> bool)
    ensures NoticesFollowFailures(Deliver(parts, ok))
    decreases |parts|
  {
    if parts != [] {
      var n := |parts| - 1;
      var init := Deliver(parts[..n], ok);
      DeliverNotices(parts[..n], ok);
      var rs := Deliver(parts, ok);
      assert rs == init + Attempt(n, parts[n], ok);
      assert rs[|init|] == Part(n, parts[n], ok(n));
      forall k | 0 <= k < |init| ensures rs[k] == init[k] {}
    }
  }

  /** `/read` with anything but exactly one argument only prompts for a note id. */
  lemma ReadWrongArguments(args: seq<string>, fetch: string -> FetchResponse, ok: nat -> bool)
    requires |args| != 1
    ensures ReadReplies(args, fetch, ok) == [Notice(ReadPrompt)]
  {
  }

  /** A failed fetch or a note without a body gives only the not-found reply and sends no chunk. */
  lemma ReadNotFound(id: string, fetch: string -> FetchResponse, ok: nat -> bool)
    requires fetch(id).status != HttpOk || fetch(id).body.None?
    ensures ReadReplies([id], fetch, ok) == [Notice(NoteNotFoundMessage)]
    ensures Sends(ReadReplies([id], fetch, ok)) == []
  {
    assert Sends([Notice(NoteNotFoundMessage)]) == Sends([]) + [];
  }

  /**
   * A fetched body: the "empty" notice exactly when the body is empty (so the
   * "too large" case the notice mentions never arises); otherwise every chunk
   * of the body is sent in order, each refused one followed by the error notice.
   */
  lemma ReadFetched(id: string, fetch: string -> FetchResponse, ok: nat -> bool)
    requires fetch(id).status == HttpOk && fetch(id).body.Some?
    ensures var body := fetch(id).body.value;
            ReadReplies([id], fetch, ok) == [Notice(NoteEmptyMessage)] <==> body == ""
    ensures var body := fetch(id).body.value;
            var chunks := Paginator.Split(body, Paginator.MaxMessageLength);
            var sends := Sends(ReadReplies([id], fetch, ok));
            && |sends| == |chunks|
            && (forall i :: 0 <= i < |chunks| ==> sends[i] == Part(i, chunks[i], ok(i)))
            && (body != "" ==> NoticesFollowFailures(ReadReplies([id], fetch, ok)))
  {
    var body := fetch(id).body.value;
    var chunks := Paginator.Split(body, Paginator.MaxMessageLength);
    Paginator.SplitEmptyIff(body, Paginator.MaxMessageLength);
    if body == "" {
      assert Sends([Notice(NoteEmptyMessage)]) == Sends([]) + [];
    } else {
      DeliverSendsAll(chunks, ok);
      DeliverNotices(chunks, ok);
    }
  }
}
