# Retrieval memory of the chat backend

The chat backend (`backend/main.py`) keeps a small retrieval memory:

- a faiss `IndexFlatL2` of 384-dimensional sentence embeddings;
- a Python list `text_chunks` that is meant to stay position-aligned with it (vector `i` embeds chunk `i`);
- two files, `faiss_index.index` and `texts.pkl`, that the pair is saved to after every addition.

This project models that memory and proves what its operations do:

- the startup load;
- `add_to_store`;
- `get_relevant_context`;
- `reset_system`;
- the upload route's chunking loop.

Layout:

- `wrappers.dfy`: an `Option` type, for Python operations that either give a value or raise.
- `chunking.dfy`: Python's `str.strip()`, `str.split("\n\n")` and the upload route's filter, as pure functions. Each comes with a reference characterisation (strip is unique up to surrounding whitespace; split is the unique leftmost, separator-free cut that joins back to the input) and lemmas about it.
- `flat_index.dfy`: an exact stand-in for `IndexFlatL2`.
  - Vectors have integer components, compared by squared L2 distance.
  - A search returns the `k` nearest ordinals, nearest first (equal distances in insertion order).
  - Slots past the number of stored vectors hold -1, as in faiss.
  - The index object is a class whose `Add` appends.
- `retrieval.dfy`: the list comprehension that maps search labels back to chunks. `Lookup` is the comprehension as written, with Python's negative indexing and `IndexError`. `Context` is the filter it evidently intends. Lemmas relate the two on faiss's result shape.
- `store.dfy`: the module-level state as a class `Store`.
  - The fields are `index`, `textChunks` and a ghost `persisted` (what the two files hold).
  - The embedder is a constant function field.
  - There is one method per route-level operation. The upload loop carries its invariant in the ghost predicate `Extended`.

Alignment (one vector per chunk) is not a class invariant, because the code does not enforce it. A loaded pair with different counts is accepted as is. Adding and uploading keep alignment exactly when it held before; reset always restores it; startup is aligned exactly when the loaded pair is.

The model follows the code as written, including:

- search labels at or past the end of the chunk list are silently skipped;
- reset empties the index and the list but leaves both files as they were;
- startup loads whatever the two files hold, without comparing their counts or the index dimension;
- upload reports the number of raw segments, counting blank ones that were not stored.

## Model

| member | source | states |
|---|---|---|
| Chunking.IsSpace | backend/main.py:137 | the code points `str.strip()` removes (Python's `str.isspace` table) |
| Chunking.IsSpaceExamples | backend/main.py:137 | space, tab, newline, carriage return and the no-break space are whitespace; a letter and the zero-width space are not |
| Chunking.Strip | backend/main.py:137-138 | `chunk.strip()`: the result neither starts nor ends with whitespace and is no longer than the segment |
| Chunking.StripUnique | backend/main.py:137-138 | strip of any stripped text surrounded by whitespace on both sides gives back exactly that text |
| Chunking.StripIsInfix | backend/main.py:137-138 | strip only removes whitespace: the input is an all-whitespace margin, the result, and another all-whitespace margin |
| Chunking.StripBlank | backend/main.py:137 | strip of whitespace alone is empty |
| Chunking.StripEmptyIffBlank | backend/main.py:137 | `if chunk.strip():` fails exactly when the segment consists only of whitespace |
| Chunking.StripIdempotent | backend/main.py:138 | stripping a stripped chunk changes nothing |
| Chunking.Split | backend/main.py:135 | `contents.split("\n\n")`: always at least one segment |
| Chunking.SplitPrefix | backend/main.py:135 | the first segment is a prefix of the input |
| Chunking.SplitJoin | backend/main.py:135 | the segments joined with the separator give back the input |
| Chunking.SplitNoSep | backend/main.py:135 | no segment contains the separator |
| Chunking.SplitIsLeftmost | backend/main.py:135 | the cuts are leftmost: a segment followed by a separator never ends in a newline |
| Chunking.SplitUnique | backend/main.py:135 | any separator-free, leftmost list of segments that joins to the input is the split of the input |
| Chunking.SplitSingle | backend/main.py:135 | text without a blank line splits into itself alone |
| Chunking.SplitExample | backend/main.py:135 | `"para one\n\npara two\n\n\n"` splits into three raw segments: `"para one"`, `"para two"` and `"\n"` |
| Chunking.Keep | backend/main.py:136-138 | the loop's filter: at most one chunk per segment, every chunk non-empty and stripped |
| Chunking.Chunks | backend/main.py:135-138 | what one upload ingests: at most one chunk per raw segment, each non-empty and stripped |
| Chunking.KeepAppend | backend/main.py:136-138 | the filter keeps segment order: the chunks of two concatenated segment lists are the chunks of the first followed by those of the second |
| Chunking.KeepMembers | backend/main.py:136-138 | a text is ingested exactly when it is non-empty and the strip of some segment |
| Chunking.ChunksExample | backend/main.py:135-138 | the example upload ingests exactly `"para one"` and `"para two"`; the whitespace-only third segment is dropped |
| Chunking.KeepDropsBlank | backend/main.py:137-138 | two kept segments followed by a blank one give exactly the two kept ones |
| FlatIndex.Dist2 | backend/main.py:49 | the squared L2 metric of `IndexFlatL2`: never negative, and zero exactly between equal vectors |
| FlatIndex.Dist2Symmetric | backend/main.py:49 | the distance does not depend on argument order |
| FlatIndex.Insert | backend/main.py:67 | inserting an ordinal into a ranking gives a ranking with the same ordinals plus that one |
| FlatIndex.RankFirst | backend/main.py:67 | the first `n` ordinals ranked nearest first: a ranking holding exactly the ordinals below `n` |
| FlatIndex.Search | backend/main.py:67 | `index.search(..., k)`: exactly `k` labels, the first `min(k, ntotal)` distinct stored ordinals in nearest-first order, -1 in every other slot |
| FlatIndex.SearchIsNearest | backend/main.py:67 | no stored vector left out of the result is closer than any vector returned |
| FlatIndex.SearchReturnsAll | backend/main.py:67 | when `k` covers the index, every stored ordinal is returned |
| FlatIndex.ExactMatchFirst | backend/main.py:67 | if some stored vector equals the query, the first label is at distance zero |
| FlatIndex.IndexFlatL2.constructor | backend/main.py:49 | `faiss.IndexFlatL2(d)`: an empty index of dimension `d` |
| FlatIndex.IndexFlatL2.Read | backend/main.py:46 | `faiss.read_index`: an index of dimension 384 holding the saved vectors |
| FlatIndex.IndexFlatL2.SearchOne | backend/main.py:67 | `index.search` on the index's own vectors: exactly `k` labels, stored ordinals in the first `min(k, ntotal)` slots and -1 in the rest |
| FlatIndex.IndexFlatL2.Add | backend/main.py:58 | `index.add` of one vector: it is appended as the next ordinal and the count grows by one |
| Retrieval.PyIndex | backend/main.py:68 | Python's `text_chunks[i]`: a value exactly when `-len <= i < len` (negative indices count from the end), and then an element of the list; otherwise `IndexError` |
| Retrieval.Lookup | backend/main.py:68 | the comprehension as written: at most one chunk per label, each a stored chunk, and an `IndexError` exactly when a label lies below `-len(text_chunks)` |
| Retrieval.Context | backend/main.py:68 | the intended filter: at most one chunk per label, each a stored chunk |
| Retrieval.LookupAppend | backend/main.py:68 | the comprehension works label by label: over two concatenated label lists it is the two results concatenated, or an error if either errs |
| Retrieval.ContextAppend | backend/main.py:68 | the same for the intended filter |
| Retrieval.LookupOfOrdinals | backend/main.py:68 | on labels that are all valid ordinals, the comprehension returns the chunk of every label, in order, and agrees with the intended filter |
| Retrieval.LookupSkipsPastEnd | backend/main.py:68 | a label at or past `len(text_chunks)` is dropped and changes nothing else |
| Retrieval.LookupOfPadding | backend/main.py:68 | every -1 label reads the last chunk under the comprehension and is dropped by the intended filter |
| Retrieval.ContextOfNegatives | backend/main.py:68 | the intended filter drops every negative label |
| Retrieval.ContextOfPadded | backend/main.py:67-68 | over a faiss result on an aligned store, the intended filter returns the chunk of each of the `min(k, n)` returned ordinals, in the result's order |
| Retrieval.LookupOfPadded | backend/main.py:67-68 | over a faiss result on an aligned non-empty store, the comprehension returns the intended chunks followed by one copy of the last chunk per padded slot |
| Retrieval.PaddedSlotsRepeatLastChunk | backend/main.py:67-68 | with one stored chunk `c` and `k = 3`, the comprehension returns `[c, c, c]` where the intended filter returns `[c]` |
| MemoryStore.Store.Startup | backend/main.py:45-50 | with a saved pair, the index and chunks are the saved ones; otherwise a fresh empty index of dimension 384 and no chunks. The store starts aligned exactly when the saved pair is |
| MemoryStore.Store.AddToStore | backend/main.py:56-61 | the text's embedding becomes the last vector and the text the last chunk, earlier entries unchanged, both counts up by one. Alignment is kept exactly when it held. Both files then hold the in-memory pair |
| MemoryStore.Store.GetRelevantContext | backend/main.py:63-68 | an empty index gives `[]`; otherwise the comprehension over the search result, at most `k` stored chunks. On an aligned store: the chunks of the `min(k, ntotal)` nearest vectors in nearest-first order, then one copy of the last chunk per padded slot |
| MemoryStore.OneChunkChatContext | backend/main.py:63-68 | the chat route's query (`k = 3`, line 89) on a store holding one chunk returns that chunk three times |
| MemoryStore.Store.ResetSystem | backend/main.py:119-124 | a fresh empty index of dimension 384 and no chunks (aligned); the saved files keep their previous contents |
| MemoryStore.ResetIsIdempotent | backend/main.py:119-124 | resetting twice leaves the same empty state as resetting once, and the files untouched |
| MemoryStore.EndsWith | backend/main.py:130 | `str.endswith`: the name's last characters are the suffix |
| MemoryStore.EndsWithIff | backend/main.py:130 | a name ends with `.txt` exactly when it is some text followed by `.txt` |
| MemoryStore.Store.Upload | backend/main.py:130-139 | a name not ending in `.txt` is rejected with nothing changed. Otherwise exactly the non-empty stripped segments of the split are appended in order, with their embeddings. The files hold the new pair unless nothing was ingested. The reply counts every raw segment. Alignment is kept exactly when it held |
| MemoryStore.Store.IngestSegments | backend/main.py:136-138 | the loop appends the chunks of its segments, in order, to the chunk list and their embeddings to the index. It leaves the files as the in-memory pair unless nothing was added |
| MemoryStore.Store.IngestSegment | backend/main.py:137-138 | one iteration adds the segment's strip when non-empty and nothing otherwise, extending the loop's progress by exactly that |
| MemoryStore.UploadScenario | backend/main.py:130-139 | uploading the example to a fresh store reports 3 segments and stores `"para one"` and `"para two"` with their embeddings |

## Left out

- FastAPI routing, CORS, the pydantic request model and the `HTTPException` plumbing are framework glue. Only the `.txt` rejection and the reported segment count are kept, as `UploadReply`.
- The chat route's MongoDB history, the HTTP call to the language model and the joining of the context into a prompt are out of scope: they are network I/O and external services.
- The sentence embedder is a constant function field `embed` of the store. Its model, batching and failures are not modelled. An embedder exception, and the partial commit of an upload it interrupts, is not represented.
- faiss's float32 arithmetic is replaced by exact integer vectors and squared L2 distance.
- The order of ties: faiss's order among equally distant vectors is not specified. The model breaks ties toward the earlier ordinal.
- The faiss and pickle file formats and the file I/O are left out. The two files are one ghost value `persisted`, written as a pair in one step.
  - The code writes the index file and then the chunk file (lines 60-61), as two separate writes with no atomic rename. The model does not represent the moment between them, or a crash there leaving the files out of step.
  - A missing `texts.pkl` next to an existing index file is not represented.
  - Reading the upload and decoding it as UTF-8 is not part of this model. The route's contents arrive as a string.
- MemoryStore.Store.GetRelevantContext: requires `k >= 1`, because faiss rejects a non-positive `k` and the only caller passes 3.
- FlatIndex.IndexFlatL2.Read: the loaded index is given dimension 384 and vectors of that length. A saved index of another dimension is not modelled.
- Concurrency: the routes share the module-level lists without locking. The model runs one operation at a time.
- The frontend (`frontend/src`) is not part of this model.

## Findings

| source | as written | input that shows it | evidently intended | confidence | as-written member | corrected member |
|---|---|---|---|---|---|---|
| backend/main.py:67-68 | `[text_chunks[i] for i in I[0] if i < len(text_chunks)]` keeps faiss's padding label -1, and Python reads `text_chunks[-1]`, the last chunk | one stored chunk `c`, query with `k = 3`: faiss returns `[0, -1, -1]` and the route gets `[c, c, c]` | drop every label that is not an ordinal of a stored chunk, giving `[c]` | high; not executed | Retrieval.PaddedSlotsRepeatLastChunk | Retrieval.ContextOfPadded |
