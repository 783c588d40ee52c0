# docRAG core, modelled in Dafny

docRAG is a document question-answering service. A PDF is uploaded and
stored under its content hash. A background worker extracts the text page by
page and cuts it into overlapping word chunks. Questions are then answered
from the chunks nearest to the query, with citations. This project models the
deterministic core of that system:

- **`Chunker`** (`chunker.dfy`): `chunk_text`. Each page is split on Python
  whitespace. The words are cut into windows of at most `chunkSize` words,
  and each window starts `chunkSize - overlap` words after the previous one.
  Every chunk is tagged with the document, its page and `<doc_id>.pdf`. The
  window arithmetic is a pure function; the nested loops are methods proved
  equal to it.
- **`Strings`** (`strings.dfy`): the string primitives both sides rely on:
  - Python `split()` and `" ".join`, with a round-trip lemma;
  - JavaScript `trim()` and ASCII `toLowerCase()`;
  - `endsWith`, and the trailing-slash strip of the API base URL.
- **`TaskStore`** (`task_store.dfy`): the vanilla page's recent-tasks list.
  It keeps at most ten records, most recent first, in one storage entry.
  Covered: `saveTask`, `updateTaskStatus` and `clearRecentTasks`.
- **`Client`** (`client.dfy`): the request rules of the vanilla page. This
  covers the input checks and their messages, the URLs, the success and
  failure notices, and what each reply writes to the task store. It models
  `uploadPDF`, `checkStatus` and `sendChat`.
- **`Api`** (`api.dfy`): the request and response records shared by the
  server and both front ends, and how a citation list is displayed.
- **`ChatComponent`** (`chat_component.dfy`): the Angular chat component as
  a state machine. Events are typing, `initialDocId`, clicks, replies and
  failures. The template's send-button guard keeps the component consistent.
- **`Routes`** (`routes.py` and `search_vectors`, in `routes.dfy`):
  - the chat context, prompt and citations built from the search hits;
  - the streamed size limit and the duplicate and force rules of `upload_pdf`;
  - the shape of the `get_status` reply.
- **`Workflow`** (`workflow.dfy`): how the server's replies meet the page's
  handling of them.
- **`Common`** (`common.dfy`): `Option`, `Result`, and JavaScript truthiness
  for optional fields.

The settings `CHUNK_TOKENS`, `CHUNK_OVERLAP_TOKENS`, `RAG_TOP_K` and
`MAX_UPLOAD_MB` are parameters. Some things happen outside the model: the
clock, the content hash, whether the final file exists, the Celery task id
and state, the vector search ranking and the LLM answer. Each of these is an
input to the operation that uses it.

Three details of the code shape the model:

- A corrupt storage entry makes `JSON.parse` throw in every function that
  reads it. It is not treated as an empty list.
- The vanilla page has no busy flag, and Angular's `sendQuery` does not test
  `isLoading` itself. Only the template's `[disabled]` binding stops a second
  request (`ChatComponent.UnguardedSendShowsBoth`).
- `get_status` can report the state `PROCESSING` with an `info` field. The
  `TaskStatus` type of the Angular models does not list that state.

## Model

| member | source | states |
|---|---|---|
| Chunker.Stride | app/services/text_processing.py:41-46 | the index advance as written is positive exactly when overlap <= chunk size; it equals the intended advance there and is <= 0 above it |
| Chunker.Advance | app/services/text_processing.py:41-46 | the intended advance is always at least one word: chunk size minus overlap when positive, else one |
| Chunker.LargeOverlapStalls | app/services/text_processing.py:42-46 | chunk size 2 with overlap 4 moves the index from 0 to -1, where one word is intended |
| Chunker.WindowsFrom | app/services/text_processing.py:26-28 | every visited window starts before the page end and ends between its start and the page end |
| Chunker.WindowStarts | app/services/text_processing.py:25-42 | window k is [k*s, min(k*s + size, n)), there are ceil(n/s) windows, and none exactly when the page is empty |
| Chunker.EveryStrideMultipleStarts | app/services/text_processing.py:25-42 | every multiple of the stride below the page end is the start of a window |
| Chunker.WindowsCoverPage | app/services/text_processing.py:26-42 | with overlap >= 0 and chunk size >= 1 every word lies in some chunk, and the last chunk ends at the page end |
| Chunker.ConsecutiveWindows | app/services/text_processing.py:28-42 | consecutive chunks start chunk size - overlap apart, their ends never decrease, and a full chunk overlaps the next by exactly `overlap` words |
| Chunker.TrailingWindowInsidePredecessor | app/services/text_processing.py:26-42 | five words, size 4, overlap 2 give windows [0,4), [2,5), [4,5): the last one lies inside its predecessor |
| Chunker.ChunkText | app/services/text_processing.py:20-38 | every chunk carries the document id, the file name `<doc_id>.pdf` and the number of a page that was passed in |
| Chunker.ChunkTextAppend | app/services/text_processing.py:20-39 | chunks come out page by page: the chunks of a + b are those of a followed by those of b |
| Chunker.EmptyPageNoChunks | app/services/text_processing.py:21-23 | a page yields no chunk exactly when its text has no words |
| Chunker.PageChunkAt | app/services/text_processing.py:26-38 | chunk k of a page is `" ".join(words[k*s .. min(k*s + size, n)])`, re-splits into exactly those words, so it has at most `size` words, contains no whitespace but single blanks, and carries the page metadata |
| Chunker.PageChunksBounded | app/services/text_processing.py:28-30 | no chunk holds more than chunk size words |
| Chunker.ChunkWords | app/services/text_processing.py:25-46 | the inner loop as written yields exactly the page's chunks (it terminates when overlap <= chunk size) |
| Chunker.ChunkPages | app/services/text_processing.py:10-48 | the nested loops as written yield exactly `ChunkText` of the pages |
| Strings.WordPrefixFacts | app/services/text_processing.py:21 | the first word is a space-free prefix followed by whitespace or the end, and is non-empty when the text starts with a non-space |
| Strings.SplitWordsAreWords | app/services/text_processing.py:21 | `split()` yields only non-empty, whitespace-free words |
| Strings.SplitWordsContents | app/services/text_processing.py:21 | the words of `split()`, written one after another, are exactly the non-whitespace characters of the text, in order |
| Strings.SplitWordsEmpty | app/services/text_processing.py:21-23 | `split()` finds no word exactly when every character is whitespace |
| Strings.JoinWordsLength | app/services/text_processing.py:30 | `" ".join(words)` is as long as the words together plus one separator between each pair of neighbours |
| Strings.JoinBlanks | app/services/text_processing.py:30 | the only whitespace in `" ".join(words)` of whitespace-free words is the blank |
| Strings.SplitAtSpaceChar | app/services/text_processing.py:21 | any single whitespace character splits: the words of `a + c + b` are the words of `a` followed by those of `b`, so a word is a maximal run of non-whitespace |
| Strings.SplitJoin | app/services/text_processing.py:29-30 | splitting `" ".join(words)` gives back the words, for any whitespace-free non-empty words |
| Strings.Trim | frontend/script.js:156 | `trim()` leaves no JS whitespace at either end, and is empty exactly when the input is all whitespace |
| Strings.TrimStart | frontend/script.js:194 | the leading trim removes only whitespace and only a prefix |
| Strings.TrimEnd | frontend/script.js:195 | the trailing trim removes only whitespace and only a suffix |
| Strings.ToLower | frontend/script.js:185 | lower-casing keeps the length and maps each character on its own |
| Strings.Decimal | app/api/routes.py:89 | the decimal rendering of n has at least one digit, only digits, no leading zero unless it is exactly "0", and reads back as n |
| Strings.StripTrailingSlash | frontend/script.js:54 | exactly one trailing `/` is removed when present, and nothing otherwise |
| Common.NonEmpty | frontend/script.js:207-209 | an optional field is sent exactly when the text is non-empty |
| TaskStore.FindIndex | frontend/script.js:272 | `findIndex` finds the first record with the id, and nothing exactly when no record has it |
| TaskStore.KeepRecent | frontend/script.js:279-280 | the kept list is the first min(n, 10) records |
| TaskStore.Save | frontend/script.js:268-283 | a new id goes first, with the older records after it truncated to ten; a known id is overwritten in place, with all else unchanged |
| TaskStore.SavePreservesValid | frontend/script.js:268-283 | saving keeps ids distinct and the list at most ten long |
| TaskStore.SaveTwiceSameId | frontend/script.js:271-277 | saving twice under one id leaves one record with that id, the second one |
| TaskStore.UpdateStatus | frontend/script.js:285-293 | the first record with the id gets the new status and the rest are unchanged; an unknown id gives no write |
| TaskStore.UpdateStatusPreservesValid | frontend/script.js:285-293 | a status update keeps the store valid |
| TaskStore.Load | frontend/script.js:269 | an absent entry reads as the empty list |
| TaskStore.SaveTask | frontend/script.js:268-283 | saving always writes the entry, and the entry then holds the saved list |
| TaskStore.UpdateTaskStatus | frontend/script.js:285-293 | an unknown id leaves the entry exactly as it was, absent or not |
| TaskStore.ClearRecentTasks | frontend/script.js:333-338 | a confirmed clear leaves an empty list, and a declined one changes nothing |
| Client.ApiUrl | frontend/script.js:53-55 | the base URL is the field with one trailing slash removed |
| Client.FailureMessage | frontend/script.js:123-125 | a failed reply shows `detail` when truthy, otherwise the fallback |
| Client.IsPdfName | frontend/script.js:102 | a name is accepted exactly when it ends in `.pdf` in any letter case |
| Client.UploadNameExamples | frontend/script.js:102 | `report.PDF` is accepted and `report.docx` is not |
| Client.PrepareUpload | frontend/script.js:95-111 | no file and a non-PDF name give their two error messages; otherwise the request goes to exactly the base URL, then `/api/v1/upload`, then `?force=true` when forced and nothing otherwise |
| Client.FinishUpload | frontend/script.js:115-152 | only a successful reply with a task id saves a pending task and fills the task-id and doc-id boxes from the reply; success shows the reply's message; failures show `detail`, "Upload failed" or the thrown message |
| Client.UploadRecordsPendingTask | frontend/script.js:128-139 | after a queued upload the first recent task is the new pending one, the store stays valid, and the task-id box holds its id |
| Client.DuplicateDetailShown | frontend/script.js:123-124 | a refused upload shows the server's `detail` and changes neither the store nor the boxes |
| Client.PrepareStatusCheck | frontend/script.js:156-167 | a blank task id gives "Please enter a task ID"; otherwise the trimmed id is queried at the status URL |
| Client.StatusStyle | frontend/script.js:174-179 | SUCCESS is shown as success, FAILURE as error, and anything else as info |
| Client.FinishStatusCheck | frontend/script.js:166-190 | a successful reply writes the lower-cased status through; a failure leaves the store unchanged and shows `detail`, "Status check failed" or "Error: " with the thrown message |
| Client.StatusCheckWritesThrough | frontend/script.js:184-185 | after a status check the stored record with that id carries the lower-cased status and nothing else changes |
| Client.PrepareChat | frontend/script.js:193-214 | a blank query gives "Please enter a query"; the trimmed query is sent, and `doc_id` exactly when the trimmed field is non-empty, to `<api url>/api/v1/chat` |
| Client.FinishChat | frontend/script.js:213-259 | an answer and citation lines appear exactly on a successful reply, with "Query completed successfully"; failures show `detail`, "Chat request failed" or the thrown message |
| Api.CitationLines | frontend-angular/src/app/components/chat/chat.component.ts:48-63 | one numbered line per citation, shown only when the list is non-empty; a truthy file name is shown as is and a falsy one as "Unknown"; page and doc id appear, unchanged, exactly when truthy |
| ChatComponent.ApplyInitialDocId | frontend-angular/src/app/components/chat/chat.component.ts:244-249 | a non-empty `initialDocId` overwrites `docId`, and an empty one changes nothing |
| ChatComponent.SetDocId | frontend-angular/src/app/components/chat/chat.component.ts:252-254 | only `docId` changes |
| ChatComponent.SendQuery | frontend-angular/src/app/components/chat/chat.component.ts:256-266 | an empty query does nothing; otherwise loading starts, the result and error are cleared, and the untrimmed query is sent with `doc_id` exactly when set |
| ChatComponent.OnResponse | frontend-angular/src/app/components/chat/chat.component.ts:269-272 | loading ends and the reply is shown; the error is not touched |
| ChatComponent.OnError | frontend-angular/src/app/components/chat/chat.component.ts:273-276 | loading ends and "Error: " + message is shown; the result is not touched |
| ChatComponent.Step | frontend-angular/src/app/components/chat/chat.component.ts:256-277 | a click on the disabled button and a reply with nothing in flight change nothing; an enabled click starts one request and clears the result and error; a reply or failure ends one request, shows its answer or error and leaves both boxes alone; typing sets exactly the typed box and the initial document id is applied as `ApplyInitialDocId` says |
| ChatComponent.StepConsistent | frontend-angular/src/app/components/chat/chat.component.ts:33-39 | every guarded event keeps one request in flight only while loading, and never both a result and an error |
| ChatComponent.RunConsistent | frontend-angular/src/app/components/chat/chat.component.ts:256-278 | every sequence of guarded events preserves that consistency |
| ChatComponent.SessionsConsistent | frontend-angular/src/app/components/chat/chat.component.ts:235-278 | every session of a new component is consistent |
| ChatComponent.UnguardedSendShowsBoth | frontend-angular/src/app/components/chat/chat.component.ts:256-276 | two unguarded sends, then a failure and a reply, show a result and an error together |
| Routes.MatchDoc | app/services/vector_store.py:74-83 | a truthy doc id keeps every point of that document and no other; otherwise all points are kept |
| Routes.MatchDocAppend | app/services/vector_store.py:74-83 | the filter keeps ranking order: filtering a + b gives the matches of a followed by those of b |
| Routes.Search | app/services/vector_store.py:70-92 | the hits are the first min(top_k, matches) matching points in ranking order |
| Routes.Snippet | app/api/routes.py:51 | the snippet is the first min(n, 100) characters of the text followed by "..." |
| Routes.Citations | app/api/routes.py:41-52 | one citation per hit, in order, copying doc_id, page and filename and snipping the text |
| Routes.Context | app/api/routes.py:38-45 | the context is empty exactly when there are no hits, and otherwise opens with "---" and ends with a newline |
| Routes.ContextAppend | app/api/routes.py:38-45 | the context of a + b is the context of a followed by that of b |
| Routes.ContextInOrder | app/api/routes.py:41-45 | each hit's block sits between the blocks of the hits before it and after it |
| Routes.MissingText | app/api/routes.py:43-51 | a hit without text gives an empty block and the snippet "..." |
| Routes.Prompt | app/api/routes.py:56 | the prompt is the labelled context followed by the labelled question, so both can be read back from it |
| Routes.Chat | app/api/routes.py:37-63 | the loop yields the prompt over the hits' context, the model's answer for that prompt and the fixed system prompt, and the citations of all hits |
| Routes.SumPrefix | app/api/routes.py:82-84 | the bytes read so far never exceed the total |
| Routes.ReadUpload | app/api/routes.py:80-92 | the read stops with an error exactly when the total exceeds the limit, at the first chunk that crosses it |
| Routes.ErrorDetail | app/api/routes.py:72-89 | a non-PDF gets "Only PDF files are accepted."; an oversize file gets the fixed text around the plain decimal of the MB limit, which reads back as the limit |
| Routes.ErrorDetailInjective | app/api/routes.py:72-89 | different refusals carry different details |
| Routes.Reject | app/api/routes.py:72-89 | every refusal is an HTTP 400 carrying its detail |
| Routes.UploadDecision | app/api/routes.py:98-122 | doc_id is the hash; an existing file without `force` is reported as "existing" with no task; any other upload queues a task |
| Routes.UploadPdf | app/api/routes.py:72-122 | a non-PDF and an oversize file are refused with status 400; an accepted upload gets the duplicate/force decision's reply |
| Routes.GetStatus | app/api/routes.py:124-141 | `info` exactly for PROCESSING, `result` exactly for other ready states, never both |
| Workflow.UploadOutcomeInStore | frontend/script.js:128-139 | a duplicate upload without `force` leaves the store and the boxes untouched; a queued one becomes the first, pending task, and the boxes show its task id and content hash |
| Workflow.HitsDisplayedInOrder | frontend/script.js:228-245 | the page shows one line per search hit, in hit order, with its snippet and file name or "Unknown" |

## Left out

- OCR, embedding, the Qdrant client and the LLM call are not part of this
  model. The search ranking and the generated answer are inputs.
- Network I/O, `fetch`, Celery and the file system are not modelled. The
  content hash, whether the final file exists and the new task id are
  inputs. The random temp-file name, the renames and the deletions are not
  modelled.
- The rate limits (`20/minute`, `5/minute`) are not modelled; they need a
  clock and a per-client history.
- The `/health` route, `checkHealth` and the keep-alive timer are left out:
  they only drive an indicator.
- DOM rendering is not modelled: `showResult`, the interim "Uploading..."
  notices, `escapeHtml` and the HTML of `loadRecentTasks`. Citation display
  is modelled as structured lines.
- JSON encoding of the storage entry is not modelled. The entry is absent or
  holds a list, and a corrupt entry (on which the code throws) is not
  represented.
- Replies that arrive out of order on the vanilla page are not modelled. The
  Angular component is modelled with the requests in flight counted.
- The Angular `ApiService` and the rest of the Angular application are not
  part of this model.
- Chunker.ChunkText: a negative chunk size is outside the model (`nat`),
  since Python slicing with negative indices would be needed.
- Chunker.ChunkText: for overlap > chunk size it uses the intended
  advance, because the source loop does not terminate there (see Findings).
- Routes.MissingText: a payload whose `text` is present but `None` is not
  distinguished from a missing one.
- Client.FinishStatusCheck: a successful reply without a `status` field
  (where `toLowerCase` throws) is not modelled. The status is a string.
- Strings.ToLower: only ASCII letters are lower-cased. Unicode case mapping
  is not modelled.
- Client.FinishUpload: a reply whose `doc_id` is present but `null` is not
  distinguished from one without it; the model fills the box with
  "undefined" for both, where the browser shows an empty box for `null`.
- Routes.GetStatus: the reply is built from one snapshot of the task state.
  The handler reads `status` twice and `ready()` once, and the worker can
  move the task between those reads; that interleaving is not modelled.
- Strings.Trim: the contract does not state that the result is a slice of
  the input; `TrimStart` and `TrimEnd` state that of each step.

## Findings

| source | as written | input that shows it | evidently intended | confidence | as-written member | corrected member |
|---|---|---|---|---|---|---|
| app/services/text_processing.py:42-46 | the guard adds one to `chunk_size - overlap` when `chunk_size <= overlap`, which only helps when they are equal | chunk size 2, overlap 4: the index goes 0, -1, -2, … and `i < len(words)` never fails (`Chunker.LargeOverlapStalls`) | the comment says the loop must not get stuck when overlap >= chunk size, so advance at least one word | high; not executed | Chunker.Stride | Chunker.Advance |
