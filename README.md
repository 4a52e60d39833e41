# doc-qa-bot core, modelled in Dafny

This project models the logic of a document question-answering backend. The backend takes an uploaded PDF's text and cuts it into overlapping chunks. It embeds each chunk, stores the embeddings in a vector index in batches, and answers a question by retrieving matching chunks and handing them to a chat-completion model as context. The embedding, search and completion services, the PDF parser and the id generator are external. Here their results are inputs, and the model covers what the code does with them.

- `shared.dfy`, module `Shared`: the JavaScript built-ins the routes rely on, namely `slice`/`substring` with non-negative bounds, truthiness of an optional string, the cut of an embedding to 768 values and the concatenation of batches. It also holds the outcome of one embedding call: it threw, it returned no `values`, or it returned values.
- `chunker.dfy`, module `Chunker`: `chunkText`. The loop is a method (`ChunkText`) proved equal to a closed form: chunk `k` is the JS slice starting at `k * (chunkSize - overlap)`, and there are `ceil(len / (chunkSize - overlap))` chunks. Lemmas give the count, the start offsets, the window and length of each chunk, the overlap between neighbours and coverage of the text. They also show the non-termination when `overlap >= chunkSize`.
- `upload.dfy`, module `Upload`: the upload route. It covers decimal record ids `${documentId}_${i}` and reading them back, and the chunk-to-vector loop (`BuildVectors`) proved equal to `Vectors`: one record per successfully embedded chunk, in chunk order. It also covers the batching loop (`Batches`), proved to be the same sliding window with size 50 and no overlap, and the handler's 400 / 500 / success decisions.
- `ask.dfy`, module `Ask`: the ask route as pure functions. The handler `HandleAsk` returns an `Exchange`: which service requests were issued (embedding, query, completion) and the response. Around it sit the query filter, the context join, the user prompt, the answer fallback and the source previews.

The embedding outcome of the chunk-`i` call is `embed(i)`, indexed by call order. The model does not take it as a function of the chunk text, so two equal chunks may get different outcomes, as with a real service.

## Model

| member | source | states |
|---|---|---|
| `Shared.Slice` | utils/chunker.js:6 | JavaScript `slice`/`substring` with non-negative bounds, as used at utils/chunker.js:6, routes/upload.js:67 and routes/ask.js:69: when from < to and from < len the result has length min(to, len) − from, otherwise it is empty, and element i of the result is element from + i of the input |
| `Shared.Truncate` | routes/upload.js:40-42 | The cleaned embedding is the first min(n, 768) raw values, so it never has more than 768 entries |
| `Chunker.ChunkText` | utils/chunker.js:1-12 | Under `overlap < chunkSize` the loop terminates and returns exactly `Chunks(text, chunkSize, overlap)`, the closed form whose chunk k is `text.slice(k*step, k*step + chunkSize)` and whose count is ceil(len/step). Empty text gives no chunk and non-empty text at least one |
| `Chunker.ChunkCountIsCeiling` | utils/chunker.js:5-10 | n is the chunk count exactly when n*step reaches len and (n-1)*step does not, i.e. the count is ceil(len / (chunkSize - overlap)) |
| `Chunker.EmptyTextNoChunks` | utils/chunker.js:5 | The chunk list is empty exactly when the text is empty |
| `Chunker.StartsIncrease` | utils/chunker.js:6-9 | Start offsets k*(chunkSize-overlap) strictly increase with k, and every chunk's start is below the text length |
| `Chunker.ChunkIsWindow` | utils/chunker.js:6 | Chunk k is `text[s_k .. min(s_k + chunkSize, len))`, of length min(chunkSize, len - s_k), never more than chunkSize |
| `Chunker.ConsecutiveChunksOverlap` | utils/chunker.js:6-9 | `text[s_{k+1} .. min(s_k + chunkSize, len))` is both a suffix of chunk k and a prefix of chunk k+1, and its length is min(overlap, len - s_{k+1}) |
| `Chunker.LastChunkReachesEnd` | utils/chunker.js:5-9 | For non-empty text the last chunk ends exactly at the end of the text |
| `Chunker.ChunksCoverText` | utils/chunker.js:5-9 | Every position of the text lies inside some chunk |
| `Chunker.IndexNeverReachesEnd` | utils/chunker.js:9 | The source's loop as written: with overlap >= chunkSize the index after any number of rounds is still at most 0, below the length of a non-empty text, so the loop never ends |
| `Chunker.ThousandCharactersGiveTwoChunks` | utils/chunker.js:1-10 | With the defaults (1000, 200), 1000 characters give two chunks, the second being the last 200 characters |
| `Chunker.NonLastChunkMayBeShort` | utils/chunker.js:6-9 | With the defaults, 900 characters give chunks of 900 and 100 characters: a chunk that is not the last can be shorter than chunkSize, and the two chunks share only the last 100 characters, not `overlap` = 200 |
| `Upload.ParseDecimalInvertsDecimal` | routes/upload.js:45 | Reading back the decimal text of a chunk index gives the index |
| `Upload.RecordIdRoundTrip` | routes/upload.js:45 | The chunk index can be read back from the id `${documentId}_${i}` that `Upload.RecordId` builds |
| `Upload.RecordIdsDistinct` | routes/upload.js:45 | Distinct chunk indices give distinct record ids |
| `Upload.KeptIndices` | routes/upload.js:32-37 | The kept chunk indices are strictly increasing and below the chunk count. They are exactly the indices whose embedding call returned values |
| `Upload.BuildVectors` | routes/upload.js:30-56 | One embedding call per chunk, in chunk order, and the records pushed are exactly `Vectors(chunks, embed, documentId, filename)` |
| `Upload.KeptExactlyWhenEmbedded` | routes/upload.js:32-55 | A vector with the id of chunk i exists exactly when chunk i's embedding call returned values. Failed and value-less chunks are skipped |
| `Upload.VectorNamesItsChunk` | routes/upload.js:40-51 | Each vector (built by `Upload.MakeRecord`, routes/upload.js:44-52) has an id that reads back to a successfully embedded chunk i. Its metadata is that chunk's text, the file name and the upload's document id, and its values are the first min(n, 768) raw values |
| `Upload.VectorIdsIncrease` | routes/upload.js:32-52 | Vector ids are pairwise distinct even across skipped chunks, and the chunk indices they name increase with position, so the vectors are an order-preserving subsequence of the chunks |
| `Upload.NoVectorsWhenNothingEmbedded` | routes/upload.js:58-60 | No vector is built exactly when no embedding call returned values |
| `Upload.BatchPrefixes` | routes/upload.js:65-78 | The first m batches, concatenated, are the first min(50m, n) vectors |
| `Upload.BatchesTileVectors` | routes/upload.js:65-78 | The batches, concatenated in order, equal the vectors |
| `Upload.BatchSizes` | routes/upload.js:65-78 | Every batch holds between 1 and 50 records, and all but the last exactly 50 |
| `Upload.Batches` | routes/upload.js:65-78 | The upsert loop produces ceil(n/50) batches. They concatenate to the vectors, and each is non-empty with at most 50 records, all but the last exactly 50. So the `length > 0` guard never skips a batch |
| `Upload.HandleUpload` | routes/upload.js:17-91 | No file gives 400 "No file uploaded" with no embedding call and no upsert. Otherwise the default-size chunks are sent for embedding in order. Zero surviving vectors give 500 "No embeddings generated. Check your API Key." with no upsert. Otherwise the batches of the vectors are upserted and the response carries the document id |
| `Ask.FailureMessage` | routes/ask.js:72-74 | A caught exception's response message is its own message, or "Failed to generate answer." when that is empty; it is never empty |
| `Ask.QueryFilter` | routes/ask.js:35 | The filter is `{docId: d}` exactly when the document id is a non-empty string d; otherwise there is no filter |
| `Ask.JoinLength` | routes/ask.js:42-44 | `Ask.Join` (`.join("\n\n")`) is characterised by this lemma with `Ask.JoinPlacesPart` and `Ask.JoinPlacesSeparator`: the joined context is as long as the texts plus one separator between each pair |
| `Ask.JoinPlacesPart` | routes/ask.js:42-44 | Each match text appears in the context, in order, at the offset of the texts and separators before it |
| `Ask.JoinPlacesSeparator` | routes/ask.js:42-44 | The separator `"\n\n"` follows every match text but the last |
| `Ask.ContextOfTwo` | routes/ask.js:42-44 | Texts "A" and "B" give the context "A\n\nB" |
| `Ask.UserPrompt` | routes/ask.js:57 | The user message is "Context:\n", then the context, then "\n\nQuestion: ", then the question; both can be read back at fixed offsets |
| `Ask.Preview` | routes/ask.js:69 | A preview is the first min(len, 100) characters of the text followed by "...". It is at most 103 characters long, and a text of at most 100 characters is kept whole |
| `Ask.Sources` | routes/ask.js:69 | There is one source per match, in match order, each the match text's first 100 characters plus "..." and at most 103 long |
| `Ask.AnswerText` | routes/ask.js:65 | The answer is the first choice's content when that is a non-empty string, otherwise "No answer generated."; it is never empty |
| `Ask.HandleAsk` | routes/ask.js:10-76 | A falsy question is rejected with 400 before any service call, and nothing else gives 400. A missing embedding gives 500 "Failed to generate embedding" with no search. The query uses the cut embedding, topK 3 and the filter choice. No matches gives the fixed answer with no sources and no completion call. Otherwise one completion call is made with `Ask.CompletionMessages` (routes/ask.js:50-59): the system instruction, then the user prompt over the joined context, and the answer comes with one preview per match. A service call that throws ends with 500 and its message (or "Failed to generate answer.") |

## Findings

| source | as written | input that shows it | evidently intended | confidence | as-written member | corrected member |
|---|---|---|---|---|---|---|
| utils/chunker.js:9 | `index += chunkSize - overlap` with no check that the step is positive | any non-empty text with `overlap >= chunkSize`, e.g. `chunkText("a", 200, 200)` | the loop terminates; configurations with `overlap >= chunkSize` are not meant to be used | not executed; the loop test is proved to hold after every round | `Chunker.IndexNeverReachesEnd` | `Chunker.ChunkText` |

`Chunker.ChunkText` requires `overlap < chunkSize` and proves termination and the closed form of its result. The upload route always calls it with the defaults (1000, 200), which meet that requirement.

A reading of the chunker as giving ceil((len − overlap)/(chunkSize − overlap)) chunks, all but the last of full length, does not match the code. The model follows the code. The count is ceil(len/(chunkSize − overlap)): 1000 characters give two chunks, not one. A chunk that is not the last can be short: 900 characters give chunks of 900 and 100 characters. Neighbouring chunks do not always overlap by exactly `overlap` characters: those two share only 100 characters, and in general they share min(overlap, len − s_{k+1}) (`Chunker.ConsecutiveChunksOverlap`). `Chunker.ThousandCharactersGiveTwoChunks` and `Chunker.NonLastChunkMayBeShort` state these two cases.

## Left out

- Express routing, `multer`, CORS, `server.js`, `config/pinecone.js` and `check-models.js` are plumbing: a server bootstrap, an SDK client construction and a script that lists remote models.
- External calls are inputs, not behaviour: `embedContent`, the vector index `query` and `upsert`, the chat completion, `pdfParse` and `uuidv4`. Upserts are recorded as the list of batches sent.
- Reading the uploaded file, deleting the temporary file on both paths, and all console logging are file-system and I/O side effects.
- `Number(n)` on embedding entries and the floating-point values: the element type is opaque, and only the cut to 768 entries is modelled. The completion request's `temperature: 0.5` is not recorded.
- `JSON.parse(JSON.stringify(batch))` is the identity on these plain records and is omitted.
- `Chunker.ChunkText`: chunkSize and overlap are natural numbers. Negative or fractional arguments, where JavaScript's `slice` counts from the end or truncates, are not modelled.
- `Upload.HandleUpload`: does not model the exceptions thrown by the file read, the PDF parser or an upsert call. Each gives a 500 carrying the exception's message.
- `Ask.HandleAsk`: a match without `metadata`, or a completion answer without a `choices` array, throws a TypeError that becomes a 500. These are not modelled: every match carries a text and every completion answer carries a list of choices.
- `Ask.HandleAsk`: `question` and `documentId` are either missing or strings. Other JSON values (numbers, booleans, objects), whose truthiness and string conversion differ, are not modelled.
- Strings are sequences of Dafny characters. JavaScript's `slice` and `substring` count UTF-16 code units, so text with characters outside the Basic Multilingual Plane may be cut differently.
