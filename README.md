# DocuChat backend: conversation and document-registry model

This project is a Dafny model of the stateful core of the DocuChat FastAPI backend
(`backend/main.py`). The backend keeps four module globals:

- `chat_sessions`: session id ↦ `{id, messages, title, created}`;
- `current_session_id`: the session an `ask` without an id continues;
- `uploaded_files`: file id ↦ `{filename, fid, chunks, size}`;
- `vector_store`: the FAISS index, or `None` before the first upload.

The endpoints `ask`, `new_session`, `delete_session`, `get_sessions`, `upload`,
`delete_file` and `clear_all` read and update them. The model has these modules:

- `Wrappers`: `Option` and `Result`, for `None` and for the errors an endpoint raises.
- `Text`: the Python `str` operations the endpoints rely on: `strip`, `lower`, `endswith`, `s[:n]`, `sep.join` and `str(int)`.
- `Conversation`: messages and sessions, and the pure steps of `ask`. These are session
  resolution, the history window and its text, the de-duplicated source list, the joined
  context, the prompt, and the append-and-title rule. `BuildHistory` is the history loop
  of `ask`, written as a loop.
- `Recency`: the `get_sessions` ordering. It sorts by `created`, newest first, and the sort is stable like Python's.
- `Documents`: upload validation. It covers accepted extensions, the choice of text reader, the 10-character threshold and the file id.
- `Registry`: the globals as one `State` value. Each endpoint is a function on that value
  (`AskSpec`, `NewSessionSpec`, `DeleteSessionSpec`, `UploadSpec`, `DeleteFileSpec`,
  `ClearSpec`, `SessionsByRecency`). The lemmas state what the endpoints promise, one
  request at a time and over sequences of requests. The invariant `Valid` is kept by every endpoint.
- `Server`: class `Backend`, whose fields are the globals. Its methods update those fields
  in place and are proved to match the `Registry` functions.

The outside world comes in as parameters:

- The clock is a `Clock`: milliseconds for ids, and formatted date and time strings.
- The similarity-search result is a `seq<Doc>`.
- The language model is a function from prompt to `Option<string>`. `None` means the call raised.
- The PDF and DOCX readers are a function from `Reader` to the extracted text.
- The splitter contributes only its chunk count. Building or merging the index contributes only success or failure.

Behaviour followed from the code:

- There are no per-user containers, no owner field, no greeting shortcut and no on-demand reload of sessions from disk.
- `ask` without an index raises before any state change.
- The title is always `question[:40] + "..."`, even for short questions.
- `clear_all` drops the index and the file records but keeps every session.
- Session resolution, and `current_session_id = sid`, happen before the model is called. A
  session minted for a request whose model call then fails stays behind, empty.
- Session ids are `"s"` followed by the millisecond clock, with no check that the id is
  free. Two sessions minted in the same millisecond share an id, and the second replaces
  the first. The model keeps this behaviour. The lemmas that need fresh ids assume that the
  minted id is not already in use.

## Model

| member | source | states |
|---|---|---|
| `Text.IsSpace` | backend/main.py:131 | (definition) Python's `str.isspace` on one character: the ASCII blanks `\t` to `\r` and `\x1c` to space, and the Unicode spaces `\x85`, `\xa0`, `\u1680`, `\u2000`-`\u200a`, `\u2028`, `\u2029`, `\u202f`, `\u205f`, `\u3000` |
| `Text.Strip` | backend/main.py:131 | `text.strip()` is the slice of the text between blank margins: it is empty exactly when the text is all whitespace, and otherwise starts and ends with non-whitespace |
| `Text.StripUnique` | backend/main.py:131 | any cut of a string into whitespace margins around a core with non-blank ends is the one `strip` makes |
| `Text.Lower` | backend/main.py:118 | `lower()` keeps the length and lowers each character |
| `Text.EndsWith` | backend/main.py:118-129 | (definition) `s.endswith(suffix)`: the suffix is no longer than `s` and equals its last characters |
| `Text.Take` | backend/main.py:259 | `s[:n]` is the prefix of length `min(len(s), n)` |
| `Text.Join` | backend/main.py:218 | (definition) `sep.join(parts)`: empty for no parts, the part itself for one, otherwise the first part, `sep`, and the join of the rest |
| `Text.JoinAppend` | backend/main.py:218 | `sep.join(a + b)` is `sep.join(a) + sep + sep.join(b)` for non-empty lists |
| `Text.Decimal` | backend/main.py:192 | `str(n)` of a natural number is a non-empty string of digits with no leading zero unless `n` is 0 |
| `Text.DecimalRoundTrip` | backend/main.py:192 | `int(str(n)) == n` |
| `Text.DecimalInjective` | backend/main.py:286 | different clock readings give different decimal strings |
| `Conversation.EmptySession` | backend/main.py:193-198 | (definition) the new-session dict (also at lines 206-211 and 287-292): the given id, no messages, title "New Chat", the given `created` stamp |
| `Conversation.Truthy` | backend/main.py:188-201 | (definition) Python truthiness of an optional string, as tested at lines 188 and 201: present and not the empty string |
| `Conversation.SessionId` | backend/main.py:192 | a minted session id is `"s"` followed by the decimal digits of the millisecond clock (`Decimal`), so it is never empty |
| `Conversation.SessionIdsDistinct` | backend/main.py:205 | ids minted at different milliseconds differ |
| `Conversation.Resolve` | backend/main.py:188-214 | an explicit non-empty id is reused exactly when known, otherwise the minted id is used; without one, the current session is reused exactly when it is set and still exists, otherwise the minted id is used |
| `Conversation.UserMessage` | backend/main.py:245-249 | (definition) the user message dict: role `user`, the question, the time, no `sources` key |
| `Conversation.AssistantMessage` | backend/main.py:251-256 | (definition) the assistant message dict: role `assistant`, the answer, its `sources`, the time |
| `Conversation.Title` | backend/main.py:259 | the title is the question's first `min(len, 40)` characters followed by `"..."`, always |
| `Conversation.Record` | backend/main.py:241-259 | after a successful `ask` the session keeps its earlier messages, then has the user message and the assistant message with the sources; the title is set from the question exactly when the session had no messages before |
| `Conversation.TitleSettles` | backend/main.py:258-259 | a second exchange never changes the title the first one set |
| `Conversation.Window` | backend/main.py:223 | `messages[-4:]` is the suffix of length `min(len, 4)`, in chronological order |
| `Conversation.WindowKeepsLastExchange` | backend/main.py:223 | the question and answer just appended are the last two entries of the next history window |
| `Conversation.Line` | backend/main.py:224 | (definition) one history line: `User` for role `user`, `AI` otherwise, then `: `, the content and a newline |
| `Conversation.HistoryText` | backend/main.py:223-224 | (definition) the history lines of a run of messages, concatenated oldest first |
| `Conversation.HistoryTextAppend` | backend/main.py:223-224 | the history text of consecutive runs of messages is the concatenation of their history texts |
| `Conversation.HistoryTextStartsWithSpeaker` | backend/main.py:224 | a history line starts with `User: ` for role `user` and `AI: ` for any other role, followed by the content |
| `Conversation.BuildHistory` | backend/main.py:221-224 | the loop builds exactly the history text of the last four messages, oldest first |
| `Conversation.Sources` | backend/main.py:219 | `sources` has no duplicates, and holds a name exactly when some retrieved doc has it as its `source` (or lacks one and the name is `"Unknown"`) |
| `Conversation.Label` | backend/main.py:219 | (definition) `d.metadata.get('source', 'Unknown')`: the doc's source name, or `Unknown` when it has none |
| `Conversation.Context` | backend/main.py:218 | (definition) the retrieved texts joined by `\n\n`, in ranked order |
| `Conversation.ContextAppend` | backend/main.py:218 | the context is the retrieved texts in ranked order, separated by blank lines |
| `Conversation.Prompt` | backend/main.py:226-236 | (definition) the f-string: the instruction and `Context:` heading, the context, the `History:` heading, the history, the `Question:` heading, the question and the closing instruction |
| `Conversation.PromptLayout` | backend/main.py:226-236 | the prompt carries the context, the history and the question, each under its heading, and ends with the fixed instruction |
| `Recency.LexLeq` | backend/main.py:274 | (definition) Python's `str <=`: the empty string precedes everything, otherwise the first characters decide, and on a tie the rests |
| `Recency.LexLeqTotal` | backend/main.py:274 | any two `created` stamps are comparable |
| `Recency.LexLeqTransitive` | backend/main.py:274 | string order on `created` stamps is transitive |
| `Recency.SortByCreated` | backend/main.py:274 | (definition) `sort(key=created, reverse=True)` as an insertion sort that puts each session before the first one whose stamp is not greater |
| `Recency.SortedNewestFirst` | backend/main.py:273-274 | the sort yields a permutation of the sessions, newest `created` first |
| `Recency.SortIsStable` | backend/main.py:274 | sessions with the same `created` stamp keep their relative order |
| `Recency.Listing` | backend/main.py:273 | `chat_sessions.values()` lists the session under each key, in insertion order |
| `Documents.Accepted` | backend/main.py:118 | (definition) the lower-cased file name ends with `.pdf`, `.docx` or `.doc` |
| `Documents.HasText` | backend/main.py:131 | (definition) the stripped text has at least 10 characters |
| `Documents.FileId` | backend/main.py:121 | (definition) the decimal millisecond clock, `_`, then the file name |
| `Documents.UploadPath` | backend/main.py:122 | (definition) `f"{UPLOAD_DIR}/{fid}"` with `UPLOAD_DIR = "uploads"` (line 35) |
| `Documents.ReaderAsWritten` | backend/main.py:129 | (definition) the PDF reader when the stored path ends with lower-case `.pdf`, the DOCX reader otherwise |
| `Documents.BlankTextRejected` | backend/main.py:131 | text that is all whitespace never passes the threshold |
| `Documents.PaddingIgnored` | backend/main.py:131 | any whitespace before and after the text, independently on each side, is stripped away: the stripped text, and so the threshold outcome, are those of the bare text |
| `Documents.ReaderFor` | backend/main.py:129 | (definition, corrected dispatch) the PDF reader when the lower-cased path ends with `.pdf`, the DOCX reader otherwise |
| `Documents.ReaderMatchesAcceptance` | backend/main.py:129 | (corrected dispatch) an accepted file is read with the PDF reader exactly when it was accepted as `.pdf`, whatever its letter case |
| `Documents.UpperCasePdfReadAsDocx` | backend/main.py:129 | (as written) `A.PDF` passes the extension check as a PDF but is handed to the DOCX reader |
| `Documents.ReaderAsWrittenIsCaseSensitive` | backend/main.py:129 | (as written) an accepted file goes to the PDF reader exactly when its name ends with lower-case `.pdf` |
| `Registry.Valid` | backend/main.py:40-43 | (definition) the invariant of the globals declared here: the key order lists each session key once, each session is stored under its own non-empty id, and `current_session_id`, when set, names a stored session |
| `Registry.Initial` | backend/main.py:40-43 | the start-up state satisfies the invariant |
| `Registry.Put` | backend/main.py:193-198 | `chat_sessions[sid] = s` sets that key and nothing else; a new key goes last in the order |
| `Registry.PutValid` | backend/main.py:206-211 | storing a session under its own non-empty id keeps the invariant |
| `Registry.ResolveSession` | backend/main.py:187-214 | after resolution the resolved session exists and is the current one; a reused session leaves sessions and order as they were, and a minted empty session is stored under the minted id, which goes last in the order when it is new |
| `Registry.ResolveSessionValid` | backend/main.py:187-214 | session resolution keeps the invariant |
| `Registry.ResolvedBase` | backend/main.py:187-214 | the session `ask` continues is the stored one when reused and an empty one under the minted id otherwise; resolution changes no other session |
| `Registry.AskPrompt` | backend/main.py:217-238 | (definition) the prompt `ask` sends: the f-string over the joined context of the retrieved docs, the history text of the session's last four messages and the question |
| `Registry.Exchange` | backend/main.py:238-269 | after resolution, recording the model's reply never adds or removes a session key and keeps the key order |
| `Registry.ExchangeFrame` | backend/main.py:238-269 | recording the reply leaves every other session, the current session, the files and the index as they were |
| `Registry.ExchangeEffect` | backend/main.py:238-269 | the exchange fails exactly when the model call raised, and then changes nothing; on success the reply carries the answer, the sources and the session id, and the session holds `Record` of the exchange |
| `Registry.ExchangeAppends` | backend/main.py:245-259 | a successful exchange appends exactly the question then the answer with its sources to the session, applies the title rule and keeps `created` |
| `Registry.AskSpec` | backend/main.py:178-269 | (definition) `ask`: no index gives `NoDocuments`, no model gives `NoApiKey`; otherwise resolve the session, make it current, send the prompt built from its history, and record the reply |
| `Registry.AskPrerequisites` | backend/main.py:181-185 | without an index, or without a model, `ask` fails and changes nothing |
| `Registry.AskResolution` | backend/main.py:187-214 | `ask` continues a known explicit id, replaces an unknown one by the minted id, otherwise continues the current session or mints one; afterwards the current session is the one used, and at most the minted id is added |
| `Registry.AskAppendsExchange` | backend/main.py:238-259 | a successful `ask` answers with the model's reply to the prompt built from the session's earlier history, appends exactly the question then the answer with `sources`, applies the title rule and leaves every other session unchanged |
| `Registry.AskFailureAppendsNothing` | backend/main.py:238-269 | if the model call fails no message is appended: older sessions are unchanged and a session minted for the request stays empty |
| `Registry.AskPreservesValid` | backend/main.py:178-269 | `ask` keeps the invariant and never touches the file records, the index or the model |
| `Registry.NewSessionSpec` | backend/main.py:284-295 | (definition) `new_session`: store an empty "New Chat" session under the minted id and make it current |
| `Registry.NewSessionEffect` | backend/main.py:284-295 | `new_session` adds an empty "New Chat" session under the minted id, makes it current, puts a new id last in the key order, and changes no other session, file or index |
| `Registry.RemoveAll` | backend/main.py:301 | removing a key from the dict order drops exactly that key and keeps every other key once |
| `Registry.RemoveAllKeepsOrder` | backend/main.py:301 | the keys that remain keep their relative insertion order |
| `Registry.DeleteSessionSpec` | backend/main.py:298-308 | (definition) `delete_session`: drop the key if present and clear `current_session_id` if it named that session |
| `Registry.DeleteSessionEffect` | backend/main.py:298-308 | `delete_session` removes only that id and resets the current session exactly when it was the deleted one |
| `Registry.DeleteSessionKeepsOrder` | backend/main.py:298-308 | after `delete_session` the remaining sessions keep the order in which they were added, which `get_sessions` uses to order sessions created in the same minute |
| `Registry.DeleteSessionIdempotent` | backend/main.py:298-308 | deleting a session twice is deleting it once |
| `Registry.SessionsByRecency` | backend/main.py:272-275 | (definition) `get_sessions`: the dict's values in insertion order, sorted by `created`, newest first |
| `Registry.SessionsByRecencyLists` | backend/main.py:272-275 | `get_sessions` lists every session exactly once, newest first, with ties in insertion order |
| `Registry.UploadSpec` | backend/main.py:115-161 | (definition) `upload`: reject an unaccepted extension, then text under the threshold from the reader chosen at line 129, then a failed indexing; otherwise mark the index present and register the file under its id |
| `Registry.UploadEffect` | backend/main.py:115-161 | `upload` succeeds exactly when the extension is accepted, the reader chosen by the case-sensitive test of line 129 yields enough text and indexing works; too little text is rejected as empty; then the index exists and the file is registered; a rejected upload changes nothing; sessions are never touched |
| `Registry.UpperCasePdfUploadRejected` | backend/main.py:129-133 | (as written) an upload named `A.PDF` whose bytes the DOCX reader cannot read is rejected as empty and registers nothing, whatever the PDF reader would have found |
| `Registry.DeleteFileSpec` | backend/main.py:168-175 | (definition) `delete_file`: drop the file record; the index is kept |
| `Registry.DeletedFileStillIndexed` | backend/main.py:168-175 | `delete_file` removes the file record but not the index, so `ask` still passes its index check |
| `Registry.ClearSpec` | backend/main.py:311-320 | (definition) `clear_all`: drop the index and all file records |
| `Registry.ClearThenAskFails` | backend/main.py:311-320 | `clear_all` empties the file records and keeps sessions, and `ask` then fails for want of documents |
| `Registry.NewSessionThenAsk` | backend/main.py:284-295 | an `ask` without id right after `new_session` goes to the new session, which then holds exactly that exchange and is titled after the question |
| `Registry.AskTwiceSameSession` | backend/main.py:188-190 | asking again with the returned session id extends that session by two messages and keeps its title |
| `Server.Backend.constructor` | backend/main.py:40-43 | the globals start empty with no index and no current session |
| `Server.Backend.Store` | backend/main.py:193-198 | the in-place dict assignment has the effect `Put` describes |
| `Server.Backend.ResolveInPlace` | backend/main.py:187-214 | the in-place resolution has the effect `ResolveSession` describes |
| `Server.Backend.Answer` | backend/main.py:216-269 | the in-place prompt, model call and append have the effect `Exchange` describes |
| `Server.Backend.Ask` | backend/main.py:178-269 | the in-place `ask` has the effect and the result `AskSpec` describes, and keeps the invariant |
| `Server.Backend.NewSession` | backend/main.py:284-295 | the in-place `new_session` matches `NewSessionSpec` |
| `Server.Backend.DeleteSession` | backend/main.py:298-308 | the in-place `delete_session` matches `DeleteSessionSpec` |
| `Server.Backend.Upload` | backend/main.py:115-161 | the in-place `upload` matches `UploadSpec` |
| `Server.Backend.DeleteFile` | backend/main.py:168-175 | the in-place `delete_file` matches `DeleteFileSpec` |
| `Server.Backend.ClearAll` | backend/main.py:311-320 | the in-place `clear_all` matches `ClearSpec` |

## Left out

- HTTP routing, CORS and status codes (`backend/main.py:25-33`, `100-112`, `322-325`): errors are `Result` values. The "Empty file" rejection is raised as a 400 inside the `try` of `upload` and re-raised as a 500 by its `except`. Status codes are not modelled, so this shows only as `EmptyText`.
- PDF and DOCX extraction (pypdf, python-docx): foreign libraries. The text each reader returns is the parameter `read`.
- Text splitting, embeddings, `FAISS.from_texts`, `merge_from` and `similarity_search`: library code with floating-point scoring. The index is only present or absent. The search result is the parameter `docs`, and the limit `k=4` is not enforced on it. The splitter contributes only its chunk count. A failure while building or merging the index is the flag `indexed`, and it changes nothing; a partly applied merge is not modelled.
- `ChatGroq.invoke`: a network call, modelled as the parameter `llm`.
- Disk I/O: `save_session`, `load_sessions`, writing the uploaded file, and every `os.remove` and `os.listdir`. Persistence is not modelled. The start-up state has no sessions.
- The checks for a missing `"messages"` key (`backend/main.py:222`, `242-243`) and the `created` default in `get_sessions`: only records loaded from disk can lack these keys. Every session in the model has them.
- Read-only endpoints `root`, `get_current_session`, `list_files` and `get_session`: they only read the globals, which `Backend.Model()` exposes.
- `time.time()` and `datetime.now()`: they are the parameter `Clock`. Date formatting is not modelled.
- Concurrency between requests: the model is sequential.
- Text.Lower: only ASCII letters are lowered. No other character lowers to one of the characters of `.pdf`, `.doc` or `.docx`, so the extension check is unaffected.
- Conversation.Sources: the order of the list is not stated, because Python gives no order for a set. The model keeps each name's last occurrence.
- A failure of `similarity_search` (`backend/main.py:217`): it raises after session resolution and before any message is appended, so its state is the one the `ModelFailed` path leaves. The parameter `docs` cannot fail, and that outcome is represented by `ModelFailed`.

## Findings

| source | as written | input that shows it | evidently intended | confidence | as-written member | corrected member |
|---|---|---|---|---|---|---|
| backend/main.py:129 | The upload path picks `extract_pdf` only when the path ends with lower-case `.pdf`. The extension check at line 118 lower-cases the name first. | file name `A.PDF`: accepted as a PDF, then handed to the DOCX reader, which cannot open a PDF, so the upload fails as empty (`Registry.UpperCasePdfUploadRejected`); the upload model keeps the code as written | read every file accepted as `.pdf` with the PDF reader, regardless of case | not executed; the extractor choice is certain from the code, the consequence relies on python-docx rejecting PDF bytes | `Documents.UpperCasePdfReadAsDocx` | `Documents.ReaderMatchesAcceptance` |
