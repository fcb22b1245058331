# EDED retrieval demo — a Dafny model

This project models the deterministic core of a small retrieval-augmented
question-answering demo over the UN/EDIFACT data element directory (EDED):

- **The Flask server** (`app.py`):
  - input validation and HTML escaping;
  - the word pattern `\b[\w.-]+\b` that normalises the query and highlights the retrieved contexts;
  - the `code\s+(\d{4})` metadata filter;
  - the top-K count;
  - the session guard shared by `/context` and `/query` through `last_context` and `last_query`;
  - the server-sent-event frames `generate_response` yields.
- **The directory preprocessor** (`preprocess.py`):
  - `parseRepr` and the `USAGE_DICT` and `REPR_DICT` lookups;
  - the record extraction of `read()`, as a pure function from the directory text to the list of records.
- **The web client** (`App.js`): `handleQuerySubmit`, as a fold of the page state `(response, isLoading)` over a fetch outcome and the results of `reader.read()`.

The model keeps the behaviour of the code as written, quirks included, and proves it:

- `/query` compares the raw stripped query with the HTML-escaped query that `/context` stored. Sending the same text passes the guard exactly when it has none of `& < > " '` (`Server.SameQueryPassesIffNothingEscaped`).
- `/context` writes the session before the embedding calls, so a later failure leaves it updated (`Server.ContextGuard`).
- `/query` validates and escapes the stored, already escaped query a second time. A query that escaping pushed past 1000 characters, such as 201 `&` characters, therefore passes the guard and then gets an internal error (`Server.AmpersandsRevalidationFails`).
- The code filter has no word boundary and takes the first four digits of a longer run.
- `[a|n|an]` is a character class over `a`, `n` and `|`, so a run such as `na` or `a|n` raises `KeyError`.
- Likewise `[B|I|C]` admits `[|]`, which is not a key of `USAGE_DICT`.
- `prepr` is never reset between sections. A section without a `Repr:` line inherits the representation description of the section before it. A first section without one raises, because `prepr` is still unbound.
- The id digits are removed from everywhere on the line (`re.sub(id, "", line)`), not only from its start.
- A line that follows two `Note:` lines enters the note twice.
- The client appends raw chunks, so the `data: ` prefixes and the closing `[DONE]` event end up in the page.

Modules:

- `Wrappers`: `Option` and `Result`.
- `PyStr`: the Python string operations the code uses: `str.isspace`, `strip`, `split`, `join`, `replace`, `lower`, and leftmost runs for `re.search`.
- `HtmlEscape`: `html.escape` with `quote=True`.
- `Tokens`: `normalize_text` and `highlight_context`.
- `CodePattern`: the metadata filter.
- `EventStream`: `generate_response` and the wire format.
- `Server`: `validate_input`, top-K, and the two routes over the session state.
- `EdedRepr`: `parseRepr` and the dictionaries.
- `EdedSections`: `re.split` on rule lines.
- `Loops`: generic facts about `for` loops whose body may raise.
- `EdedRecords`: the record extraction.
- `EdedLines`, `EdedNotes` and `EdedRead`: what each record field ends up holding, stated against the lines of its section.
- `Client`: the web client.

## Model

| member | source | states |
|---|---|---|
| Server.ValidateInput | rag/chromadb/edi_demo/app.py:47-52 | Input over 1000 characters fails with "Input too long." before any character check. Otherwise a non-ASCII character fails with "Invalid characters detected.". Accepted input comes back escaped: it is ASCII, holds no `<`, `>`, `"` or `'`, unescapes to the input, and equals the input exactly when the input has nothing to escape. |
| HtmlEscape.EscapeHasNoMarkup | rag/chromadb/edi_demo/app.py:52 | The escaped text holds none of `<`, `>`, `"`, `'`. |
| HtmlEscape.EscapeAmpersandsOpenEntities | rag/chromadb/edi_demo/app.py:52 | Every `&` of the escaped text opens one of the five entities `html.escape` emits. |
| HtmlEscape.UnescapeEscape | rag/chromadb/edi_demo/app.py:52 | Decoding the five entities gives the original text back. |
| HtmlEscape.EscapeIdentity | rag/chromadb/edi_demo/app.py:52 | Escaping changes nothing exactly when the text has none of `& < > " '`. |
| HtmlEscape.EscapeKeepsAscii | rag/chromadb/edi_demo/app.py:50-52 | ASCII input stays ASCII after escaping. |
| HtmlEscape.EscapeInjective | rag/chromadb/edi_demo/app.py:52 | Two texts with the same escaping are equal. |
| HtmlEscape.EscapeIsReplaceChain | rag/chromadb/edi_demo/app.py:52 | The per-character escaping equals the library's chain of five `str.replace` calls, `&` first. |
| Tokens.Spans | rag/chromadb/edi_demo/app.py:55 | The spans found are exactly the matches of `\b[\w.-]+\b`: each is a maximal class run trimmed to word characters at both ends, the matches are separated, every position outside them cannot start a match, and they are in text order. |
| Tokens.NormalizeText | rag/chromadb/edi_demo/app.py:54-55 | Every token is non-empty, lower case, made only of word characters, `.` and `-`, and begins and ends with a word character. |
| Tokens.NormalizeTextFollowsText | rag/chromadb/edi_demo/app.py:54-55 | Token `m` is the `m`-th match of the lowered text, and consecutive tokens appear in text order without overlapping. |
| Tokens.HighlightErasesToContext | rag/chromadb/edi_demo/app.py:57-61 | Removing the inserted `<span ...>`/`</span>` wrappers gives back the context unchanged. |
| Tokens.HighlightMarksQueryWords | rag/chromadb/edi_demo/app.py:58-61 | The gaps between matches are never wrapped. Match `m` is kept verbatim and is wrapped exactly when its lower-case form is a query word. |
| Tokens.HighlightWithoutQueryWords | rag/chromadb/edi_demo/app.py:57-61 | When no match is a query word, which includes an empty word set, the context comes back unchanged. |
| Tokens.HighlightContext | rag/chromadb/edi_demo/app.py:57-61 | The rendered context comes back unchanged when none of its matches is a query word, and in particular for an empty set of query words. |
| CodePattern.SearchFrom | rag/chromadb/edi_demo/app.py:132 | The search returns the leftmost position from which `code\s+\d{4}` matches case-insensitively, or none when no position matches. |
| CodePattern.CodeFilter | rag/chromadb/edi_demo/app.py:130-134 | The filter is present exactly when some position matches. It then holds the four digits of the leftmost match. |
| CodePattern.NoWordBoundary | rag/chromadb/edi_demo/app.py:41 | "code" at the end of a longer word, as in "barcode 1234", still yields a filter. |
| CodePattern.FirstFourDigits | rag/chromadb/edi_demo/app.py:41 | A longer digit run after "code" and whitespace gives only its first four digits. |
| Server.TopK | rag/chromadb/edi_demo/app.py:179-183 | The count is 1 for at most three contexts, 2 for four or five, and 3 above five. It is therefore between 1 and 3, and never exceeds a non-zero number of contexts. |
| Server.Flatten | rag/chromadb/edi_demo/app.py:147-150 | The flattened documents are empty exactly when every group is empty. |
| Server.ContextGuard | rag/chromadb/edi_demo/app.py:123-156 | A `/context` request with a missing or blank query, input that fails validation, a failing lookup or no documents leaves `last_context`/`last_query` as they were. Otherwise they become the space-joined documents and the escaped query, whatever happens after. |
| Server.ContextStep | rag/chromadb/edi_demo/app.py:116-200 | `/context` leaves the session alone or stores the escaped stripped query. It asks for a query exactly when the query field is a blank text, and a failing lookup or an empty result leave the session unchanged. A `Similar` reply stores a context and the escaped query, and its top-K count lies between 1 and the number of contexts. |
| Server.QueryStep | rag/chromadb/edi_demo/app.py:206-233 | `/query` only refuses with "Please get context first" when the query field is text. A stream comes only from a stored non-empty context and a stored query equal to the stripped query sent; it carries that context and the query escaped again. |
| Server.Step | rag/chromadb/edi_demo/app.py:116-233 | A `/query` request never changes the session, and a request gets a `/context` reply exactly when it is a `/context` request. |
| Server.StoresStep | rag/chromadb/edi_demo/app.py:130-200 | When the query passes validation and the lookup returns documents, `/context` stores the space-joined documents and the escaped query. It answers `Similar` when the later calls succeed and an internal error otherwise. |
| Server.SimilarStores | rag/chromadb/edi_demo/app.py:123-200 | A `Similar` reply comes only from a request whose query passed validation, whose lookup returned documents, and whose later calls succeeded. |
| Server.ContextSimilar | rag/chromadb/edi_demo/app.py:147-183 | A successful `/context` stores the escaped query. It answers one highlighted context per retrieved document; each erases back to its document. Its top-K count lies between 1 and the number of documents. |
| Server.QueryGuard | rag/chromadb/edi_demo/app.py:213-221 | `/query` is refused with "Please get context first" exactly when the stripped query is empty, `last_context` is empty or missing, or the query differs from `last_query`. Past the guard `validate_input` runs a second time: the route streams the stored context with the query escaped once more exactly when that validation succeeds, and answers an internal error otherwise. |
| Server.StoredQueryRevalidated | rag/chromadb/edi_demo/app.py:213-221 | Sending back the escaped query `/context` stored passes the guard. It then streams the query escaped a second time when that is at most 1000 characters long, and answers an internal error otherwise. |
| Server.AmpersandsRevalidationFails | rag/chromadb/edi_demo/app.py:218 | A query of 201 to 1000 `&` characters passes `/context` validation, but its stored escaped form is over 1000 characters, so sending that stored text to `/query` passes the guard and then fails with an internal error. |
| Server.GuardPasses | rag/chromadb/edi_demo/app.py:214 | Once a context and a query are stored, a request passes exactly when its stripped text is non-empty and equals the stored query. |
| Server.QueryAfterStore | rag/chromadb/edi_demo/app.py:214-218 | When the session stores the escaped query, the same raw text passes only when escaping left it alone; the escaped text always passes. |
| Server.SameQueryPassesIffNothingEscaped | rag/chromadb/edi_demo/app.py:155-216 | After a `/context` whose query passed validation and whose lookup returned documents that join to a non-empty context, sending the same text to `/query` passes the guard exactly when the text has none of `& < > " '`. |
| Server.ContextStepKeepsInv | rag/chromadb/edi_demo/app.py:155-156 | `/context` keeps the session invariant: context and query are stored together, and the query is non-empty, escaped ASCII text without markup. |
| Server.StoredQueryInv | rag/chromadb/edi_demo/app.py:155-156 | What `/context` stores satisfies the session invariant. |
| Server.Serve | rag/chromadb/edi_demo/app.py:116-233 | A sequence of requests gets one reply each. |
| Server.ServeReplyAt | rag/chromadb/edi_demo/app.py:116-233 | Reply `i` is the reply the route gives to request `i` on the session that the first `i` requests left behind. |
| Server.ServeKeepsInv | rag/chromadb/edi_demo/app.py:121-156 | Every sequence of requests keeps the session invariant. |
| Server.QueriesKeepSession | rag/chromadb/edi_demo/app.py:208-229 | `/query` requests never change the session. |
| EventStream.StreamContent | rag/chromadb/edi_demo/app.py:96-103 | The loops emit one content frame per present, non-empty delta, in chunk and choice order. `has_streamed_data` is set exactly when there was one. |
| EventStream.DeltasEmpty | rag/chromadb/edi_demo/app.py:98-105 | No content is streamed exactly when no choice of any chunk carries a present, non-empty delta. |
| EventStream.GenerateResponse | rag/chromadb/edi_demo/app.py:84-113 | Content frames come first and carry the deltas in order. On normal completion the "No data received from OpenAI." frame appears exactly when nothing streamed, and the stream ends with exactly one `[DONE]`. After an exception the last frame is an error frame with its message, and there is no `[DONE]`. Nothing else is yielded: after the content frames come one closing frame, or two when the "no data" frame precedes `[DONE]`. |
| EventStream.FramesEnd | rag/chromadb/edi_demo/app.py:105-113 | How the stream ends: the "no data" frame, a single final `[DONE]`, or the exception's error frame. |
| EventStream.DecodeWire | rag/chromadb/edi_demo/app.py:102-109 | Each frame is written as `data: <payload>\n\n`. Given a `json.dumps` whose output is one line, never `[DONE]`, and decodable, reading the stream back yields exactly the frames sent. |
| EventStream.WireInjective | rag/chromadb/edi_demo/app.py:102-109 | Different frame sequences give different streams. |
| EventStream.WireEndsDone | rag/chromadb/edi_demo/app.py:109 | A stream whose last frame is `[DONE]` ends with `data: [DONE]\n\n`. |
| EdedRepr.UsageDescription | rag/chromadb/edi_demo/preprocess.py:4-8 | `USAGE_DICT[tag]` succeeds exactly for `[B]`, `[I]` and `[C]`, and otherwise raises `KeyError` on the tag. |
| EdedRepr.ParseRepr | rag/chromadb/edi_demo/preprocess.py:16-41 | The parse fails with `KeyError` exactly when the leftmost run over `a`, `n` and `|` is not a key of `REPR_DICT`. Otherwise `max` is the leftmost digit run, or empty when there is no digit. `type` is the dictionary name of the leftmost `[a\|n]` run, or empty when there is no such character. The description is "Up to " when `..` occurs, then `max + " "`, then `type + " "`, then "character" when `max` is "1" and "characters" otherwise. |
| EdedRepr.ParseCanonical | rag/chromadb/edi_demo/preprocess.py:16-41 | The directory's notations `a3`, `an..35` and so on parse to the expected description, type name and maximum length. |
| EdedRepr.UnknownTypeRaises | rag/chromadb/edi_demo/preprocess.py:26-38 | A type run such as `na` or `a\|n` that is not a key of `REPR_DICT` raises `KeyError` on that run. |
| EdedSections.SplitFrom | rag/chromadb/edi_demo/preprocess.py:47 | The split pieces tile the text around the rule lines of ten or more dashes at line starts. There is one more piece than rules. |
| EdedSections.Sections | rag/chromadb/edi_demo/preprocess.py:47 | `sections` has one more element than the text has rule lines, each the text between two rules. |
| EdedSections.NoRuleOneSection | rag/chromadb/edi_demo/preprocess.py:47-48 | Text without a rule line is a single piece, the introduction. |
| EdedRecords.NonBlankFilter | rag/chromadb/edi_demo/preprocess.py:55 | `sectionLines` keeps exactly the lines that are not blank. |
| EdedRecords.LeadingDigits | rag/chromadb/edi_demo/preprocess.py:69-72 | The id is the maximal digit run at the start of the line. |
| EdedRecords.UsageTagKnown | rag/chromadb/edi_demo/preprocess.py:74-77 | Of the tags the pattern admits, only `[\|]` is missing from `USAGE_DICT`. |
| EdedRecords.ApplyIdSpec | rag/chromadb/edi_demo/preprocess.py:69-79 | A line starting with digits sets `id` to them and `name` to the stripped rest. A trailing tag sets `usage` and `usage_description`, and a `[\|]` tag raises `KeyError`. A line without leading digits changes nothing. |
| EdedRecords.IdRemovedEverywhere | rag/chromadb/edi_demo/preprocess.py:72-73 | The id digits are removed wherever they occur on the line, not only at its start. |
| EdedRecords.RemoveSkipsText | rag/chromadb/edi_demo/preprocess.py:73 | Removing a digit string passes over text without digits unchanged. |
| EdedRecords.ProcessLines | rag/chromadb/edi_demo/preprocess.py:67-92 | The line loop raises only a `KeyError`, from `USAGE_DICT` or `REPR_DICT`. A section without lines leaves the fields and `prepr` as they were, and a `prepr` already bound stays bound. |
| EdedRecords.BuildRecordFields | rag/chromadb/edi_demo/preprocess.py:94-118 | The record raises exactly when `prepr` is still unbound. Otherwise it keeps the fields as they are, dots included. `note` is `None` exactly when the note is empty. |
| EdedRecords.BuildRecordText | rag/chromadb/edi_demo/preprocess.py:94-100 | `text` is the code, the name and the description with dots dropped, and the representation, one per line. The note line follows exactly when the note is non-empty, and nothing else is added. |
| EdedRecords.RecordsFrom | rag/chromadb/edi_demo/preprocess.py:53-118 | A successful section loop yields one record per section. |
| EdedRecords.Read | rag/chromadb/edi_demo/preprocess.py:47-118 | A successful `read()` yields one record per rule line, in file order; the introduction yields none. |
| EdedLines.LastMentionWins | rag/chromadb/edi_demo/preprocess.py:81-86 | After the loop, `desc` and `repr` hold the value from the last line that names them, or what they held before when no line does. |
| EdedLines.PreprFromLastRepr | rag/chromadb/edi_demo/preprocess.py:84-86 | After the loop, every `Repr:` value has parsed. `prepr` is the description of the last `Repr:` line, or the value carried in from the section before. |
| EdedLines.IdFromLastIdLine | rag/chromadb/edi_demo/preprocess.py:67-79 | After the loop, the id and the name come from the last line that starts with digits. |
| EdedLines.TagsKnown | rag/chromadb/edi_demo/preprocess.py:74-77 | A loop that finishes met only tags `USAGE_DICT` knows. |
| EdedLines.UsageFromLastTag | rag/chromadb/edi_demo/preprocess.py:74-77 | After the loop, the usage fields come from the last tag, which is one of `[B]`, `[I]`, `[C]`. |
| EdedNotes.NoteFoldJoins | rag/chromadb/edi_demo/preprocess.py:89-92 | The repeated `(note + " " + noteLine).strip()` equals the note joined with the non-empty cleaned lines by single spaces. |
| EdedNotes.NoteOfSection | rag/chromadb/edi_demo/preprocess.py:88-92 | After the loop, the note is the pieces every `Note:` line contributes, joined by single spaces. |
| EdedRead.SectionNote | rag/chromadb/edi_demo/preprocess.py:88-115 | A record's note is the joined pieces of every `Note:` line, and `None` exactly when that is empty. |
| EdedRead.SectionDesc | rag/chromadb/edi_demo/preprocess.py:81-82 | The description is the value of the last `Desc:` line, or empty when there is none. |
| EdedRead.SectionRepr | rag/chromadb/edi_demo/preprocess.py:84-85 | The representation is the value of the last `Repr:` line, or empty when there is none. |
| EdedRead.SectionId | rag/chromadb/edi_demo/preprocess.py:69-79 | Code and name come from the last line that starts with digits, or are empty without one. |
| EdedRead.SectionUsage | rag/chromadb/edi_demo/preprocess.py:74-77 | The usage is the last tag with its dictionary text, or empty without one. |
| EdedRead.SectionPrepr | rag/chromadb/edi_demo/preprocess.py:84-110 | The record's representation description is the `prepr` handed on: that of the last `Repr:` line, or the one handed in. |
| EdedRead.SectionNeedsRepr | rag/chromadb/edi_demo/preprocess.py:84-110 | Before any `Repr:` line, a section without one cannot yield a record. |
| EdedRead.RecordAt | rag/chromadb/edi_demo/preprocess.py:53-118 | Record `k` is the record of section `k`, read with the `prepr` that the sections before it left. |
| EdedRead.ReprInherited | rag/chromadb/edi_demo/preprocess.py:84-110 | A section without a `Repr:` line has the representation description of the section before it. |
| EdedRead.ReprOwnLine | rag/chromadb/edi_demo/preprocess.py:84-110 | A section with a `Repr:` line is described by its last one. |
| EdedRead.ReadNeedsFirstRepr | rag/chromadb/edi_demo/preprocess.py:53-110 | If the first section after the introduction has no `Repr:` line, the conversion fails. |
| Client.InFlight | rag/chromadb/edi_demo/chroma-frontend/src/App.js:14-29 | A submit on an idle page starts the handler for every fetch outcome. Before any read comes back, the page shows the cleared response and is loading, or shows the error text when the request failed. While it stays loading it shows only what the reads delivered, never the response from before the submit. |
| Client.Handle | rag/chromadb/edi_demo/chroma-frontend/src/App.js:12-56 | A rejected fetch or a non-2xx status finishes with the error text without reading the body. The handler still awaits a read exactly when the request succeeded and no read so far reported done or failed. It has finished exactly when the page is no longer loading, which re-enables the button (`finally`). |
| Client.Press | rag/chromadb/edi_demo/chroma-frontend/src/App.js:69 | A press does nothing exactly while the page is loading, since the button is disabled. |
| Client.Label | rag/chromadb/edi_demo/chroma-frontend/src/App.js:70 | The button reads "Loading..." exactly while the page is loading. |
| Client.LoopRuns | rag/chromadb/edi_demo/chroma-frontend/src/App.js:37-47 | While no read stops the loop, the page keeps loading and shows everything received so far. |
| Client.LoopStops | rag/chromadb/edi_demo/chroma-frontend/src/App.js:37-52 | The first read that reports done or fails is the last one awaited. A failure shows the error text; a done read shows everything received up to and including it. |
| Client.Streams | rag/chromadb/edi_demo/chroma-frontend/src/App.js:35-52 | On an ok response the page shows the values of the reads, appended in order, until the first read that stops the loop. |
| Client.SkipEmpty | rag/chromadb/edi_demo/chroma-frontend/src/App.js:40-46 | A read without a value adds nothing to the response. |
| Client.DeliveredShows | rag/chromadb/edi_demo/chroma-frontend/src/App.js:35-47 | A body delivered in full shows the concatenation of its chunks, and the page is idle after the closing read. |
| Client.RawEventStream | rag/chromadb/edi_demo/chroma-frontend/src/App.js:41-43 | However the server's event stream is cut into chunks, the page shows it verbatim, ending in `data: [DONE]\n\n`: the client does not parse frames. |

## Left out

- Server.Serve: requests are served one at a time, each seeing the session the previous one left. Flask's development server (`app.run`, app.py:267) handles requests in threads, so two concurrent `/context` requests can interleave the two separate global writes (app.py:155-156) and leave one request's context paired with another's query. That interleaving is not modelled, and `Server.ContextGuard` speaks of one request at a time.
- Flask routing, CORS, rate limiting, response headers and the 500 handler are HTTP plumbing. Each route is modelled as a function from the session and the request field to the new session and a reply.
- ChromaDB is a foreign service. The collection lookup is a function parameter that yields the document groups, or `None` when it raises.
- The OpenAI embedding and completion calls are foreign calls:
  - whether the embedding and tokenizer calls after the state update succeed is one boolean per `/context` request;
  - the completion is an input to `generate_response`: the chunks it delivered, and the message of the exception that ended it, if any;
  - `get_embedding` and `dummy_response` are not modelled.
- Cosine similarities, `np.argsort` and the mean embedding are floating-point numerics. The `Similar` reply carries the highlighted contexts and the top-K count, but no scores and not which contexts `argsort` selects as the top K.
- nltk's tokenizer and stop words are a foreign library. The tokenizer, with stop words already removed, is a function parameter.
- Python's `\w` depends on Unicode tables and is a parameter `word: char -> bool`.
- Tokens.HighlightMarksQueryWords: lowercasing is modelled for ASCII letters only. Python's `str.lower` also folds non-ASCII letters, which a retrieved context may contain. The query words themselves are ASCII, because validation admits only ASCII.
- CodePattern.CodeFilter: `\d` is modelled as the ASCII digits. It is applied to the escaped query, which is ASCII.
- EdedRecords.LeadingDigits: `\d` in the id pattern `^(\d+)` (preprocess.py:50) is modelled as the ASCII digits. Python also counts other Unicode decimal digits, which the directory text does not use.
- EdedRepr.ParseRepr: `\d` is modelled as the ASCII digits. Python also counts other Unicode decimal digits, which the directory text does not use.
- EventStream.DecodeWire: `json.dumps` is abstract. The lemma assumes only that its output is one line, is never `[DONE]`, and decodes back.
- Logging and `read_system_prompt` are I/O.
- The file reading and the `write()` JSON dump of `preprocess.py` are I/O. `read()` is modelled from the file content to the list of records.
- `repr_type` and `repr_max` are computed but never stored in a record. The model computes them in `ParseRepr` and stores nothing more.
- React rendering, `handleQueryChange`, the request body and `TextDecoder` are UI and transport. Chunks are already decoded strings.
- Client.Streams: a loop whose reads run out before one reports done is `Pending`. The model states what the page shows meanwhile, not that the handler eventually ends.
- No frame reassembly and no second request. A two-phase client that first fetches the context, then reassembles and decodes event-stream frames across chunk boundaries, is not what `App.js` does: it only calls `/query` and appends raw chunks. The model follows `App.js`.
