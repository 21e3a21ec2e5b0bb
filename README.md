# Telegram-to-Joplin note bot, modelled in Dafny

The bot connects a Telegram chat to a Joplin note service. A plain text
message becomes a note titled "Telegram Note". `/search <query>` lists up to
five matching notes. `/read <id>` fetches a note's body and sends it back in
chunks that each fit into one Telegram message (4096 characters).

The main part of the model is the paginator `split_messages`. It appears twice:

- as the imperative method `Paginator.SplitMessages`, the `while` loop over a shrinking suffix;
- as the specification function `Paginator.Split`, with `Paginator.Pieces`, which records how each chunk was cut.

Every iteration is `Paginator.Step`. The lemmas prove these properties:

- every chunk has at most `limit` characters;
- a hard cut takes exactly `limit` characters and contains no line break;
- putting back one `'\n'` after every newline cut rebuilds the text;
- only the empty text gives no chunks;
- the last chunk is never empty;
- a text that fits is sent unchanged as one chunk;
- with `limit == 0` an iteration makes no progress.

The client replies (`save_note_to_joplin`, `search_notes_in_joplin`,
`fetch_note_by_id`) are in module `Joplin`. They take the HTTP status and the
decoded JSON fields the service answered with. The command handlers are in
module `Handlers`. There the note service is a function from request to
answer, and the chat platform's acceptance of each chunk is a function from
chunk position to a flag. `Text` models Python's `str.join` and `str.rfind`.

Three behaviours of the code are easy to misread; the model follows the code:

- A fetched note without a `body` field is `None`, not the empty string, because `note.get('body')` has no default. Such a note gets the not-found reply.
- The reply "Note is empty or too large to process." is sent only for an empty body (`Handlers.ReadFetched`). The paginator never returns an empty list for a non-empty text, so the "too large" case never happens.
- A search item with no `title` or `id` is shown with the text `None`, as Python's f-string prints it (`Joplin.Show`).

## Model

| member | source | states |
|---|---|---|
| `Text.JoinWith` | run.py:40 | Python's `sep.join(parts)`, used for the search listing and, with `" "`, for the search query; its contract is stated by `Text.JoinWithHead` and `Text.JoinWithEmpty` |
| `Text.JoinWithHead` | run.py:40 | joining a header and lines with `"\n"` gives the header followed by each line with a `"\n"` in front |
| `Text.JoinWithEmpty` | run.py:45-46 | with a non-empty separator, a join is empty exactly when there are no parts or one empty part |
| `Text.LastIndexOf` | run.py:89 | `rfind` gives -1 exactly when the character is absent; otherwise an index holding the character, with none after it |
| `Paginator.Step` | run.py:84-95 | one iteration: chunk plus dropped newline plus remainder is the input; chunk within `limit`; a newline cut is shorter than `limit`; a hard cut is exactly `limit` characters with no `'\n'`; the whole text is taken exactly when it fits; `limit >= 1` shrinks the remainder; `limit == 0` leaves it unchanged |
| `Paginator.Pieces` | run.py:81-96 | `split_messages` as a function, each chunk with the way it was cut; its contract is stated by `Paginator.Reconstruct` and `Paginator.PiecesShape` |
| `Paginator.Split` | run.py:81-96 | the chunk list of `split_messages`; its contract is stated by `Paginator.ChunksBounded`, `Paginator.SplitEmptyIff`, `Paginator.SplitShort`, `Paginator.FirstCutAtNewline` and `Paginator.FirstCutHard` |
| `Paginator.SplitMessages` | run.py:81-96 | the loop returns exactly the chunk list `Split(message, limit)` |
| `Paginator.SplitTurn` | run.py:87-95 | on a text longer than the window, the chunks are the cut the loop body makes, followed by the chunks of the remainder |
| `Paginator.Reconstruct` | run.py:89-95 | joining the pieces, with `'\n'` put back after each newline cut and nothing after a hard cut, gives back the text |
| `Paginator.PiecesShape` | run.py:83-95 | no pieces exactly for the empty text; every piece is well cut; only the last piece is the fitting remainder, and it is non-empty |
| `Paginator.ChunksBounded` | run.py:84-95 | every chunk has at most `limit` characters |
| `Paginator.SplitEmptyIff` | run.py:83-86 | the chunk list is empty exactly for the empty text, and its last chunk is never empty |
| `Paginator.SplitShort` | run.py:84-86 | a non-empty text of at most `limit` characters is one chunk, equal to the text |
| `Paginator.ZeroLimitStalls` | run.py:83-95 | with `limit == 0` an iteration appends an empty chunk and leaves the text unchanged, so the loop would not end |
| `Paginator.FirstCutAtNewline` | run.py:88-92 | if the window's last `'\n'` is at `p`, the first chunk is the text before `p` and splitting resumes after `p` |
| `Paginator.FirstCutHard` | run.py:88-95 | if the window has no `'\n'`, the first chunk is the whole window and splitting resumes after it |
| `Paginator.FirstLineCut` | run.py:88-92 | a line, a `'\n'` and a newline-free run that fill the window: the line is the first chunk |
| `Paginator.ExampleLongLine` | run.py:81-96 | 5000 characters with no newline give chunks of 4096 and 904 characters |
| `Paginator.ExampleNewlineInWindow` | run.py:81-96 | `"line1\n"` + 4090 `x` + `"\nline3"` is cut after `line1`, because the second newline is outside the first window |
| `Paginator.ExampleEmptyChunk` | run.py:88-92 | a window that starts with its only `'\n'` gives an empty first chunk |
| `Joplin.SaveNote` | run.py:22-25 | the success reply exactly when the status is 200, the failure reply exactly otherwise |
| `Joplin.Shown` | run.py:38 | the listed items are a prefix of the service's items, at most five, and all of them when there are at most five |
| `Joplin.SearchNotes` | run.py:35-42 | the loop gives the reply `SearchReply(response)`: the header and the shown items' lines joined by newlines, or the not-found reply |
| `Joplin.FetchNoteBody` | run.py:71-77 | a body exactly when the status is 200 and the note has a `body` field, and then that field |
| `Joplin.Show` | run.py:39 | a field as the f-string prints it: its value, or `None` when it is missing; used by `Joplin.ItemLine` |
| `Joplin.ItemLine` | run.py:39 | the line `- title: id` for one search result; `Joplin.LinesAt` and `Joplin.SearchListing` state where it appears in the reply |
| `Joplin.LinesAt` | run.py:38-39 | one `- title: id` line per item, in the same order |
| `Joplin.SearchNothingFound` | run.py:35-42 | the not-found reply exactly when the status is not 200 or `items` is missing or empty |
| `Joplin.ListingStartsWithHeader` | run.py:37-40 | a listing is non-empty and starts with the header's first letter |
| `Joplin.SearchListing` | run.py:35-40 | a listing is the header followed by `"\n- title: id"` for each of the first min(5, n) items, in the service's order |
| `Handlers.HandleMessage` | run.py:27-30 | a text message is saved as a note titled "Telegram Note" with the text as its body; the reply says success exactly when the service answered 200 |
| `Handlers.SearchReplyNotPrompt` | run.py:35-50 | no search reply equals the prompt for a missing query: "no notes" is shorter, and a listing starts with 'H' |
| `Handlers.HandleSearch` | run.py:44-50 | the reply to `/search` for the space-joined arguments; its contract is stated by `Handlers.SearchCommand` |
| `Handlers.SearchCommand` | run.py:44-50 | `/search` prompts for a query exactly when there is no argument or one empty argument, since no search reply equals the prompt; otherwise it replies with the search for the space-joined arguments |
| `Handlers.HandleRead` | run.py:98-116 | the handler's replies equal `ReadReplies`: argument check, fetch, split, then one send per chunk |
| `Handlers.SendChunks` | run.py:111-116 | the sending loop gives `Deliver(parts, ok)`: each chunk in turn, with an error notice after each refused one |
| `Handlers.DeliverSendsAll` | run.py:111-116 | every chunk is sent once, in order, with its own outcome, whatever happened to earlier chunks |
| `Handlers.DeliverNotices` | run.py:111-116 | each refused chunk is followed at once by the error notice; every notice follows a refused chunk; the first reply is a chunk |
| `Handlers.ReadWrongArguments` | run.py:99-101 | anything but exactly one argument gives only the prompt for a note id |
| `Handlers.ReadNotFound` | run.py:103-106 | a failed fetch or a missing body gives only the not-found reply and sends no chunk |
| `Handlers.ReadFetched` | run.py:107-116 | a fetched body gives the "empty" notice exactly when it is empty; otherwise all its chunks are sent in order with their outcomes, and a refused chunk is followed by the error notice |

## Left out

- HTTP requests through `requests` and the construction of URLs, query strings and tokens (run.py:19-21, 33-34, 68-69): this is network I/O. Each operation receives the status code and the JSON fields it reads. The calls have no `try`, so a request that raises (connection refused, time-out) ends the handler with no reply; the model assumes every request is answered with a status code. A body that is not JSON, and JSON fields of types other than strings and lists, are not modelled.
- The Telegram `Updater`, handler registration and polling (run.py:119-130): this is the framework's event loop.
- Loading the environment and `.env` (run.py:8-13): this is configuration I/O.
- `handle_photo` (run.py:52-65): downloading the file, `os.path.abspath` and deleting the temporary file are filesystem I/O.
- `start` (run.py:15-16) is only the constant `Handlers.Greeting`. It has no logic to prove.
- `print` logging and the exception mechanism (run.py:73, 76, 115): a failed chunk send is a `false` flag from the acceptance function.
- `Handlers.HandleRead`: only chunk sends may fail. The prompt, the not-found, empty and error notices are assumed to be delivered. In the source, a failure of the error notice itself (run.py:116) would raise out of the handler and stop the remaining chunks.
- `Paginator.SplitMessages`: `limit` is a natural number. Python would also accept a negative limit, with slicing from the end. The model requires `limit >= 1`, because with `limit == 0` the source loop does not end (`Paginator.ZeroLimitStalls`).
- Characters are Unicode scalar values, as Python's `len` counts code points. Telegram's own limit counts UTF-16 units; that difference is outside the source and not modelled.
- Calling the paginator twice on the same input gives the same result. Dafny functions are deterministic, so no lemma states this.
