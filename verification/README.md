# Chat server routing and streamed-reply reassembly, in Dafny

A functional model of the two pieces of deterministic logic in a small
Express chat application:

- `server.js`, the `/api/chat` handler.
  - It picks the latest user message.
  - It answers from a table of canned replies (`funciones`) when a trigger word occurs in it.
  - Otherwise, when the question mentions one of the `DOCUMENT_KEYWORDS`, it retrieves up to three best-scoring document chunks (fewer when the store holds fewer).
  - It then assembles the message list for the language model: the system prompt, the history, and an optional context message.
  - The model also covers how documents are cut into 500-unit chunks named `file-offset` when they are loaded.
- `public/index.js`, the browser's streaming loop.
  - Decoded text arrives in chunks and is cut into lines.
  - Every `data:` line other than `data: [DONE]` gives a fragment, which is trimmed, has `###` turned into a line feed, and gets at most one space in front by two spacing rules.
  - The fragment is then appended to `respuestaCompleta`, with `ultimoChar` tracking the last character appended.

Modules:

| file | module | contents |
|---|---|---|
| `wrappers.dfy` | `Wrappers` | `Option` |
| `text.dfy` | `Text` | the JavaScript string operations used: `includes`, `toLowerCase`, `trim`, `split("\n")`, `join`, and decimal printing of numbers |
| `routing.dfy` | `Routing` | `DOCUMENT_KEYWORDS`, `conversacion`, the `funciones` table and `detectFunction` |
| `retrieval.dfy` | `Retrieval` | chunking, ingestion of `.docx` documents, the stable top-3 selection and the context string |
| `chat.dfy` | `Chat` | `ultimoMensaje`, the system prompt, `inputMessages` and the whole handler |
| `reassembly.dfy` | `Reassembly` | the client's fold over decoded chunks with state `(buffer, respuestaCompleta, ultimoChar)` |

Modelling choices:

- A string is `seq<char>`, and one `char` is one Unicode scalar value. Lengths, offsets, `slice` and the 500-unit chunks are therefore counted in scalar values. JavaScript counts them in UTF-16 code units; the two agree on text inside the Basic Multilingual Plane, which covers Spanish text, and differ for any character outside it (see "## Left out").
- Chunk scores are abstract. A function `score: Chunk -> real` stands for the cosine similarity of each chunk's embedding with the question's embedding.
- The language model, the embeddings service, the file system and the DOM are outside the model. The decoded stream is a sequence of strings, one per `reader.read()`.

Behaviour of the code that the model keeps as written:

- The word-character class `[a-zA-Z0-9áéíóúñ]` holds the accented letters in lower case only, so Á É Í Ó Ú Ñ are not word characters (`Reassembly.IsWordChar`).
- An empty `data:` fragment is not a no-op. `/^[...]/.test(fragment[0])` tests `undefined`, which is read as the string "undefined" and starts with the word character `u`. So after a word character an empty fragment appends one space, and `ultimoChar` becomes " " (`Reassembly.EmptyFragmentAfterWord`).
- The first spacing rule looks at `ultimoChar`, not at the end of the accumulated text. The two agree: `ultimoChar` is either the last character of `respuestaCompleta`, or it is "", and then the reply is empty or ends in a non-word character (`Reassembly.LastCharTracked`, kept by every step), so the rule holds exactly when the reply ends in a word character (`Reassembly.WordRuleSeesReply`).
- `server.js` answers every request with one JSON object and does not relay a server-sent-event stream. The client checks for a JSON content type first, so against this server its streaming loop does not run. The loop is modelled as written, on its own.
- `cosineSimilarity` divides by zero for an all-zero vector and gives NaN rather than 0. This is left out with the rest of the numerics.

## Model

| member | source | states |
|---|---|---|
| Text.Contains | server.js:69 | `s.includes(k)` holds exactly when `k` occurs in `s` at some index |
| Text.Lower | server.js:68 | lower-casing keeps the length, leaves no capital A-Z or Latin-1 capital (U+00C0-U+00DE except ×), keeps every other character, and moves each capital to the letter 32 code points above it |
| Text.TrimIsSlice | public/index.js:89 | `Text.Trim`, the model of `trim()`, returns a slice of its input with only whitespace around it and none at either end |
| Text.TrimNoOp | public/index.js:89 | a string with no whitespace at either end is its own trim |
| Text.TrimSkipsSpace | public/index.js:89 | leading whitespace does not change the trim |
| Text.JoinSplit | public/index.js:84 | joining the pieces of `split("\n")` with "\n" gives back the string |
| Text.SplitJoin | public/index.js:84 | splitting a "\n"-join of line-feed-free pieces gives back the pieces |
| Text.SplitPieces | public/index.js:84 | no piece of `Text.Split`, the model of `split("\n")`, contains a line feed |
| Text.SplitAppend | public/index.js:83-85 | splitting `s + t` gives the complete lines of `s`, then the split of its unterminated tail followed by `t` |
| Text.TerminatedJoin | public/index.js:84-85 | the complete lines, each followed by "\n", then the tail, rebuild the joined text |
| Text.Decimal | server.js:48 | the offset in a chunk id is printed with digits only and no leading zero |
| Text.DecimalRoundTrip | server.js:48 | reading back the printed offset gives the offset |
| Text.DecimalInjective | server.js:48 | different offsets print differently |
| Routing.SomeIncluded | server.js:69 | `keys.some(k => s.includes(k))` holds exactly when some key occurs in `s` |
| Routing.Conversacion | server.js:61-70 | retrieval is switched on exactly when some lower-cased `DOCUMENT_KEYWORDS` entry occurs in the lower-cased question |
| Routing.ConversacionIgnoresCase | server.js:67-70 | the retrieval test gives the same answer on a question and on its lower-cased form |
| Routing.FirstFiring | server.js:89 | `find` returns the first entry in table order that has a keyword occurring in the message, or none when no entry has one |
| Routing.DetectFunction | server.js:73-90 | `detectFunction` returns the first `funciones` entry with a keyword in the lower-cased message, and none exactly when no entry has one |
| Routing.HolaIsGreeting | server.js:73-78 | the message "hola" selects the greeting entry |
| Retrieval.ChunksFromShape | server.js:41-48 | the chunking loop makes one chunk per started block of 500, the `k`-th at `offset + 500k` |
| Retrieval.ChunkText | server.js:41-48 | there are ceil(n/500) chunks; chunk `k` is `text.slice(500k, 500k + 500)` with id `file-500k` and source `file`; every chunk but the last has 500 units, and none is empty |
| Retrieval.ChunkTextConcat | server.js:41-42 | the chunk texts concatenate to the document text |
| Retrieval.ChunkIdsDistinct | server.js:48 | chunk ids within one document are pairwise distinct |
| Retrieval.Ingest | server.js:34-53 | an empty folder stores nothing; every stored chunk comes from a `.docx` document of the folder and holds between 1 and 500 units |
| Retrieval.IngestAdds | server.js:34-53 | a `.docx` document adds all its chunks, in order, after those of the documents before it |
| Retrieval.IngestSkips | server.js:34 | a document whose name does not end in `.docx` adds no chunk |
| Retrieval.Insert | server.js:119 | inserting an index into a list sorted best-first keeps it sorted, and the list gains exactly that index |
| Retrieval.Sort | server.js:119 | the stable descending sort is a permutation of its input, ordered by higher score first and then by store order |
| Retrieval.TopIndices | server.js:114-119 | at most three indices, all distinct and in range; scores are non-increasing; equal scores keep store order; every selected score is at least every unselected score, and an unselected chunk with an equal score comes later in the store |
| Retrieval.TopIsBest | server.js:119 | the first selected chunk has the highest score and is the first chunk of the store with that score |
| Retrieval.Context | server.js:119-120 | an empty store gives "", and otherwise the context starts with the best chunk's text |
| Chat.UserMessages | server.js:96 | the user-authored messages, ending with the last user message; empty exactly when no message is the user's |
| Chat.UserMessagesSelects | server.js:96 | `filter` keeps every user message, in their order, and nothing else: the result is the messages at the increasing list of exactly the user positions |
| Chat.UltimoMensaje | server.js:96 | the content of the last user message, or "" when there is none |
| Chat.SystemPrompt | server.js:15 | the environment's prompt when it is set and non-empty, and the default prompt when it is unset or empty; never empty |
| Chat.BuildInput | server.js:123-130 | the system prompt, then the history unchanged and in order, then exactly one context message when the context is non-empty |
| Chat.RequestContext | server.js:106-121 | the context is "" when the question has no document keyword, and also when the store is empty |
| Chat.HandleChat | server.js:92-130 | a canned reply exactly when `detectFunction` matches the last user message; otherwise the model input starts with the system prompt and the history |
| Chat.CannedShortCircuits | server.js:99-103 | a canned match answers with exactly that entry's text, whatever the system prompt, store and scores |
| Chat.NoKeywordNoRetrieval | server.js:106-130 | without a document keyword, the input is the system prompt and the history only, whatever the store and scores |
| Chat.KeywordAddsContext | server.js:107-130 | with a document keyword, a context message is added exactly when the joined top chunks are non-empty, and it carries them under the heading |
| Chat.HolaGetsGreeting | server.js:96-103 | the single user message "hola" gets the canned greeting |
| Reassembly.ReplaceMarkersLeavesNone | public/index.js:93 | after `Reassembly.ReplaceMarkers`, the model of `replace(/###/g, "\n")`, no `###` is left |
| Reassembly.ReplaceMarkersSplice | public/index.js:93 | each `###` is replaced by one line feed: when no marker starts before it (stray `#` included), the text before it is kept, the marker becomes "\n", and the replacement goes on after it; with `Reassembly.ReplaceMarkersIdentity` this fixes the result on every input |
| Reassembly.ReplaceMarkersIdentity | public/index.js:93 | text without `###` passes the replacement unchanged |
| Reassembly.PayloadCases | public/index.js:88-93 | `Reassembly.Payload` skips a line exactly when it does not start with `data:` or its trimmed payload is `[DONE]`; an accepted fragment holds no `###` and is no longer than the payload |
| Reassembly.PayloadOfData | public/index.js:88-93 | a `data:` line contributes its trimmed payload with the markers replaced, unless that is `[DONE]` |
| Reassembly.Spaced | public/index.js:95-101 | the two rules applied in order put one space in front exactly when one of them holds of the fragment as it arrived |
| Reassembly.ProcessLine | public/index.js:87-105 | a skipped line changes nothing; an accepted one appends its fragment with at most one space in front, and `ultimoChar` becomes the last character of what was appended, or "" when nothing was; earlier text is never altered, and `ultimoChar` stays tracked |
| Reassembly.ProcessLines | public/index.js:87-107 | the line loop only extends the reply, leaves the buffer alone, and keeps `ultimoChar` tracked |
| Reassembly.TakeLines | public/index.js:83-85 | the complete lines, each followed by "\n", then the new buffer, are the old buffer plus the new text; no line feed is left in the buffer or in a line |
| Reassembly.Receive | public/index.js:80-107 | one read leaves no line feed in the buffer, only extends the reply, and keeps `ultimoChar` tracked |
| Reassembly.Reassemble | public/index.js:75-108 | after any sequence of reads the buffer holds no line feed and `ultimoChar` is the last character of the reply, or it is "", and then the reply is empty or ends in a non-word character |
| Reassembly.WordRuleSeesReply | public/index.js:95 | while `ultimoChar` is tracked, the word rule (`Reassembly.IsWordChar` of `ultimoChar`, `Reassembly.StartsWord` of the fragment) holds exactly when the reply ends in a word character and the fragment starts with one |
| Reassembly.EmptyStepTracked | public/index.js:104 | a step that appends nothing resets `ultimoChar` to "" and keeps it tracked, since the reply then ends in a non-word character or is empty |
| Reassembly.RulesExclusive | public/index.js:95-101 | while `ultimoChar` is tracked, the word rule and the punctuation rule never both hold |
| Reassembly.EmptyFragmentAfterWord | public/index.js:95-105 | an empty `data:` fragment after a word character appends one space and sets `ultimoChar` to " " |
| Reassembly.SpaceBetweenWordHalves | public/index.js:95-97 | when `ultimoChar` holds a word character (`Reassembly.IsWordChar`), every accepted fragment that starts with a word character, or is empty (`Reassembly.StartsWord`), gets one space in front ("hol" then "a" shows "hol a") |
| Reassembly.SpaceAfterMark | public/index.js:99-101 | after a closing mark (`Reassembly.IsClosingMark`), every accepted fragment that is non-empty and does not start with whitespace gets one space in front ("Hello." then "How" shows "Hello. How") |
| Reassembly.NoSpaceOtherwise | public/index.js:95-105 | when neither rule's test passes on `ultimoChar`, the reply's end and the accepted fragment, the fragment is appended as it is |
| Reassembly.PlainFragment | public/index.js:88-93 | a `data:` line whose payload has no whitespace at either end, no `#` and is not `[DONE]` contributes exactly that payload |
| Reassembly.OnlySpacesInserted | public/index.js:87-107 | apart from inserted single spaces, the reply grows by exactly the accepted fragments, in order |
| Reassembly.ProcessLinesAppend | public/index.js:87-107 | processing lines in two batches is processing them in one |
| Reassembly.ProcessLinesIgnoresBuffer | public/index.js:87-107 | the carried-over buffer plays no part in processing complete lines |
| Reassembly.ReassembleIsLineFold | public/index.js:79-107 | the loop over reads is the line loop over the complete lines of the concatenated stream, with the unterminated rest as the buffer |
| Reassembly.ChunkingIrrelevant | public/index.js:79-107 | two chunkings of the same stream end in the same state |
| Reassembly.ReplyIsFragments | public/index.js:79-107 | the final reply is the accepted fragments of the complete lines of the stream, in arrival order, with only single spaces added |

## Left out

- HTTP plumbing (`express`, `res.json`, `res.status`, static serving) is left out. The handler is modelled as a function from the posted messages to a `ChatReply`.
- The calls to the embeddings service and to the responses API are network calls, and so is decoding their answers. The handler's model ends at the message list it would send; chunk embeddings are replaced by the `score` parameter.
- `cosineSimilarity` is floating-point numerics, NaN for a zero vector included. Scores are abstract `real`s.
- With NaN scores the comparator of `sort` would be inconsistent. The model's scores are totally ordered, so that case is not covered.
- Reading `./docs`, the `vectorStore.json` cache and `mammoth`'s extraction are I/O or an opaque library. A document is given as its file name and extracted text, and `Ingest` models a load without the cache file.
- The client's DOM updates, scrolling, speech input, `fetch`, `getReader` and `TextDecoder` are UI or I/O. The stream is given as a sequence of already decoded strings.
- The client's dispatch on the response's content type, and the JSON path it takes for canned replies, are left out.
- A partial line left in the buffer when the stream ends is dropped by the code. The model keeps it in `buffer`, where it is never turned into a fragment.
- The global `historial` and `vectorStore`, and the interleaving of concurrent requests, are left out. The store is a parameter of the handler.
- Retrieval.ChunkText: text with characters outside the Basic Multilingual Plane is cut at different offsets than JavaScript cuts it, because the model counts one unit per scalar value where JavaScript counts two code units; the chunk ids differ accordingly.
- Reassembly.SliceLast: for a reply ending in a character outside the Basic Multilingual Plane, `slice(-1)` gives a lone low surrogate, while the model gives the whole character.
- Text.Lower: lower-cases ASCII and the Latin-1 capitals only. Other scripts' case mappings, and the few that change the length, are not modelled.
- Chat.HandleChat: its own contract states only the shape of the forwarded input. The exact input in each case is stated by `Chat.NoKeywordNoRetrieval` and `Chat.KeywordAddsContext`.
- Retrieval.Context: its contract states only that the context starts with the best chunk's text. That the remaining top chunks follow, joined by "\n", holds by its definition over `Retrieval.TopIndices` and is not restated.
- Message contents that are not strings (`|| ""` on `undefined`) are not modelled: a message's content is always a string.
