# Retrieval core of a document question-answering service

This project models the retrieval core of a small Django application in Dafny. Users upload
PDF, Markdown or plain-text documents. The app splits each document into sentence chunks and
stores each chunk with its embedding. It answers a question with the text of the most relevant
stored chunk, plus a citation `"<document> - Page <n>"`.

The model covers these parts:

- **Parsing** (`Utils`): the three parsers build the full text and the page map from what a
  stored file holds. A stored file carries the page texts PyPDF2 would extract and the file's
  text content.
- **Chunking** (`Utils`): `chunk_text` is `re.split(r'(?<=[.!?]) +')` followed by strip and
  drop-empty; its properties are lemmas about that definition.
- **Records and store** (`Models`): the three record types and their `__str__` forms. A
  `KnowledgeBase` class holds the three tables as sequences in insertion order. It also carries
  the `post_save` receiver that chunks every newly created document.
- **Upload** (`Views`): the upload view's extension dispatch and its own chunk loop. The
  receiver fires inside `Document.objects.create`, so one upload stores the receiver's rows and
  then the view's.
- **Index rebuild** (`Views`): rebuilding the vector index from the store.
- **Answering** (`Views`): the question view. It checks the question, filters the search labels
  (negative labels resolve Python-style), removes chunks with a repeated text, picks the answer
  or the "I don't know." sentinel, formats the citation and logs the answer.

`PyText` models the Python built-ins the code relies on: `str.isspace`/`strip` with Python's
whitespace set, `lower`, `str(int)`, `str.join`, slicing, and POSIX `os.path.splitext`.

External inputs become parameters:

- The embedding model is a function parameter `embed: string -> Vector`.
- The nearest-neighbour search result for the question is an input sequence of labels.
- An upload is an `Option<UploadedFile>`. An upload with an empty name counts as missing,
  because a Django file object is false exactly when its name is empty.

## Model

| member | source | states |
|---|---|---|
| Utils.ParsePdf | api/utils.py:23-33 | the loop builds exactly the page map `PdfPageMap(pages)` and the text made of those page texts, each followed by a newline |
| Utils.PdfPageMapEntries | api/utils.py:28-32 | every page-map entry names a page by its 1-based position, holds that page's text, and that text is non-empty |
| Utils.PdfPageMapIncreasing | api/utils.py:28-32 | page numbers in the page map are strictly increasing |
| Utils.PdfPageMapComplete | api/utils.py:28-32 | every page with non-empty text has its `(i+1, text)` entry in the page map |
| Utils.ParseMarkdown | api/utils.py:35-39 | the text is returned unchanged, as the single page 1 (the HTML is discarded) |
| Utils.ParseText | api/utils.py:41-44 | the text is returned unchanged, and the page map is the single page 1 holding that text |
| Utils.Parse | api/views.py:25-30 | for each parser the result is that parser's output on the stored file; the Markdown and text parsers return the content unchanged |
| Utils.SplitSentences | api/utils.py:49-50 | a split always yields at least one piece |
| Utils.SplitSentencesSplitsAs | api/utils.py:49-50 | the split cuts the text at every maximal run of spaces after `.`, `!` or `?`, drops the run, and cuts nowhere else (reference predicate `SplitsAs`) |
| Utils.SplitsAsUnique | api/utils.py:49-50 | any splitting that meets the reference predicate is the one computed, so the two agree in both directions |
| Utils.SplitsAsBlank | api/utils.py:49-50 | the text is all whitespace exactly when every piece is |
| Utils.SplitsAsPieces | api/utils.py:49-50 | no piece has a sentence end followed by a space; every piece but the last ends with `.`, `!` or `?` |
| Utils.SplitsAsInOrder | api/utils.py:50 | the pieces occur in the text as contiguous, non-overlapping substrings, in order |
| Utils.StripAndDropEmpty | api/utils.py:51 | the comprehension never returns more pieces than it was given |
| Utils.StripAndDropEmptyTrimmed | api/utils.py:51 | every kept piece is non-empty and has no whitespace at either end |
| Utils.StripAndDropEmptyNone | api/utils.py:51 | nothing is kept exactly when every piece is blank |
| Utils.StripAndDropEmptyNoBreak | api/utils.py:51 | stripping keeps the absence of a sentence end followed by a space |
| Utils.StripAndDropEmptyEnds | api/utils.py:51 | if every piece but the last ends a sentence, so does every kept piece but the last |
| Utils.StripAndDropEmptyInOrder | api/utils.py:51 | the stripped pieces still occur in order as substrings of the text |
| Utils.StripAndDropEmptyKeepsTrimmed | api/utils.py:51 | pieces that are already trimmed and non-empty all survive unchanged |
| Utils.ChunkText | api/utils.py:47-51 | `chunk_text` as the split followed by strip-and-drop; its properties are the `Chunks…` lemmas below |
| Utils.ChunksAreTrimmed | api/utils.py:51 | every chunk is non-empty, starts and ends with non-whitespace, and equals its own `strip()` |
| Utils.ChunkTextEmptyIffBlank | api/utils.py:49-51 | `chunk_text` returns nothing exactly when the text is empty or all whitespace |
| Utils.ChunksHaveNoBreak | api/utils.py:49-51 | no chunk contains `.`, `!` or `?` immediately followed by a space |
| Utils.ChunksEndSentences | api/utils.py:49-51 | every chunk but the last ends with `.`, `!` or `?` |
| Utils.ChunksInOrder | api/utils.py:50-51 | the chunks are contiguous substrings of the text, in the text's order |
| Utils.ChunkParametersIgnored | api/utils.py:47-51 | any `chunk_size` and `overlap` give the same chunks |
| Utils.NewlineDoesNotSplit | api/utils.py:49 | `"A.\nB."` stays one chunk: only spaces split |
| Utils.TwoSentenceSplit | api/utils.py:49-50 | the two-sentence text splits into its two sentences |
| Utils.TwoSentenceScenario | api/utils.py:47-51 | the two-sentence text becomes exactly its two sentences as chunks |
| PyText.StripSpec | api/utils.py:51 | `strip()` is the infix left after removing leading and trailing whitespace; it is empty exactly when the string is blank, and otherwise starts and ends with non-whitespace |
| PyText.Strip | api/utils.py:51 | `strip()`; the result lies within the string, and `PyText.StripSpec` characterises it |
| PyText.IntToStrRoundTrip | api/models.py:28 | the decimal form of an integer reads back as that integer |
| PyText.SplitExt | api/views.py:24 | a non-empty extension starts with a dot, is a suffix of the path, and has no later dot or slash |
| PyText.SplitExtSpec | api/views.py:24 | the extension is non-empty exactly when a dot of the final path component follows a non-dot character of that component; with the contract of `SplitExt` it is then the suffix from the last dot |
| PyText.SplitExtOfName | api/views.py:24 | any path ending in `/stem.suffix`, with a non-empty dot-free stem and a dot-free suffix, has the extension `.suffix` |
| PyText.FileExtension | api/views.py:24 | the lower-cased extension, as long as the extension itself |
| Models.SignalParser | api/models.py:47-54 | the receiver's dispatch table; `Views.DispatchTables` states it against the view's |
| Models.ChunkStr | api/models.py:27-28 | the string is `"Chunk "`, the index (which reads back as `chunk_index`), then `" of "` and the document's string form, the name |
| Models.QALogStr | api/models.py:37-38 | `"Q: "`, at most the first 30 characters of the question, three dots, a space, a vertical bar and a space, then the timestamp |
| Models.ChunkRows | api/models.py:56-66 | one row per piece |
| Models.ChunkRowsAt | api/models.py:56-66 | row `k` holds piece `k`, its embedding, the given page number and the index `k` |
| Models.ChunkRowsWellFormed | api/models.py:56-66 | appending rows for trimmed pieces of a stored document keeps every chunk attached to a stored document and trimmed |
| Models.KnowledgeBase.CreateDocument | api/views.py:22 | stores the document under the next id, then the receiver's rows for it; the store invariant holds and the log is unchanged |
| Models.KnowledgeBase.CreateChunksAndEmbeddings | api/models.py:40-66 | with `created` true, appends exactly the receiver's rows; with `created` false, appends nothing; documents and logs are unchanged |
| Models.KnowledgeBase.StoreRows | api/models.py:55-66 | on a well-formed store, the receiver's rows of `chunk_text` output keep the store invariant and are exactly what is appended |
| Models.KnowledgeBase.AppendRows | api/models.py:56-66 | the loop appends exactly one row per piece, in order, with its index; documents and logs are unchanged |
| Models.ResaveAddsNothing | api/models.py:42 | saving an existing document again adds no chunks |
| Models.SignalSkipsMarkdown | api/models.py:46-54 | the receiver creates no rows for a `.markdown` document |
| Views.ViewParser | api/views.py:25-32 | the view's dispatch table; `Views.DispatchTables` states which extension goes to which parser |
| Views.DispatchTables | api/views.py:25-32 | the view accepts exactly `.pdf`, `.md`, `.markdown` and `.txt`, each with its parser; the receiver's table (api/models.py:47-54) is the same without `.markdown` |
| Views.StoredPathExtension | api/views.py:23-29 | the stored path `/media/documents/report.txt` has the extension `.txt` and goes to the text parser |
| Views.ExtensionExamples | api/views.py:24 | `a.PDF` has the extension `.pdf` and goes to the PDF parser; `.md` alone has no extension |
| Views.UploadLoopSkipsNothing | api/views.py:33-47 | when no piece is blank after stripping (true of every `chunk_text` output) the blank-skip never fires: one row per piece, with index equal to its position and page 1 |
| Views.UnsupportedUploadRows | api/views.py:31-32 | an extension the view refuses adds no rows of the view's own |
| Views.UploadRowsByExtension | api/views.py:22-47 | `.pdf`, `.md` and `.txt` uploads store every piece twice (page `None`, then page 1); `.markdown` stores only the page-1 rows; other extensions store none |
| Views.DoubleIngestion | api/views.py:35-47 | the doubled upload has 2n rows; index `i` appears once with page `None` and once with page 1, and no two other rows share an index |
| Views.UploadDocument | api/views.py:17-49 | a missing or unnamed file is refused with nothing stored; otherwise the document is stored under the next id with all its rows, and the reply is the document or the unsupported-type error |
| Views.StoreParsedUpload | api/views.py:25-47 | a parsable upload appends exactly the view's rows and keeps the store invariant |
| Views.StoreUploadedChunks | api/views.py:35-47 | the loop appends exactly the rows of the non-blank pieces, on page 1, in order |
| Views.BuildFaissIndexFromDb | api/views.py:51-62 | an empty store gives no index and no references; otherwise one reference per stored chunk in store order, with vector `i` the embedding of reference `i` |
| Views.KeptLabels | api/views.py:79 | the filter keeps at most the given labels, each below `len(chunk_refs)` |
| Views.KeptLabelsSpec | api/views.py:79 | a label is kept exactly when it is given and below `len(chunk_refs)`, negative labels included |
| Views.KeptLabelsPositions | api/views.py:79 | the filter keeps order and repeats: the kept labels are the labels at increasing positions, and every position with a label below `len(chunk_refs)` is one of them |
| Views.KeptPositionsSelect | api/views.py:79 | the same, for the labels from a given position on |
| Views.ResolveLabel | api/views.py:79 | a kept label indexes within the list: a non-negative label is itself, a negative label `l` is `n + l` |
| Views.SelectTop | api/views.py:79 | the comprehension over the search labels; its contents are stated by `Views.SelectTopSpec` |
| Views.SelectTopSpec | api/views.py:79 | the selection raises `IndexError` exactly when a label is below `-len(chunk_refs)`; otherwise it holds, in order, the chunk each kept label names |
| Views.SelectTopFails | api/views.py:79 | the failure half of `Views.SelectTopSpec` |
| Views.SelectTopKept | api/views.py:79 | the success half of `Views.SelectTopSpec` |
| Views.MinusOneSelectsLast | api/views.py:79 | the labels `[0, -1]` select the first and the last chunk |
| Views.PaddingRepeatsSingleChunk | api/views.py:77-79 | with one stored chunk, the search's `-1` padding repeats that chunk five times |
| Views.DeduplicateByText | api/views.py:81-86 | the loop keeps each chunk whose text was not seen earlier, in order |
| Views.FirstOccurrencesDistinct | api/views.py:81-86 | no two kept chunks share a text |
| Views.FirstOccurrencesFromInit | api/views.py:81-86 | every kept chunk comes from the input |
| Views.FirstOccurrencesPositions | api/views.py:81-86 | the kept chunks are a subsequence of the input made of exactly its first occurrences |
| Views.FirstOccurrencesCover | api/views.py:81-86 | every text of the input is represented after deduplication |
| Views.FirstOccurrencesHead | api/views.py:87-89 | deduplication returns nothing exactly when given nothing, and keeps the first chunk |
| Views.Citation | api/views.py:91-95 | the citation f-string; `Views.CitationNamesPage` and `Views.CitationOfStoredRows` state its forms |
| Views.CitationNamesPage | api/views.py:92-93 | with a truthy page number the citation is the name, `" - Page "`, then a number that reads back as the page |
| Views.CitationOfStoredRows | api/views.py:92-95 | the view's rows cite `"<name> - Page 1"`; the receiver's rows and page 0 cite the name alone |
| Views.AnswerFor | api/views.py:66-96 | the reply of the question view as a function of the store, the question and the labels; the lemmas below state its cases |
| Views.QuestionCheck | api/views.py:67-69 | a question is refused exactly when it is missing or empty; a whitespace question is not refused |
| Views.EmptyStoreRefused | api/views.py:73-75 | an accepted question against an empty store gets the no-knowledge-base error |
| Views.AnswerIsFirstSelected | api/views.py:87-96 | the answer is the first selected chunk's text with its single citation, and the sentinel with no sources comes exactly when nothing was selected |
| Views.SelectsNothingIffNoLabelKept | api/views.py:79 | nothing is selected exactly when every label is at least `len(chunk_refs)` |
| Views.NearestLabelAnswers | api/views.py:78-90 | with labels of at least -1 and a valid nearest label, the answer is the nearest chunk's text |
| Views.AnswerComesFromStore | api/views.py:89-102 | an answer is the trimmed, non-empty text of a stored chunk with that chunk's citation as its only source, and the logged joined sources equal that citation |
| Views.AskQuestion | api/views.py:66-104 | the reply is the one `AnswerFor` defines on the store; documents and chunks are unchanged; exactly one log row with the question, answer, user and joined sources is appended, and only for an answer |

## Left out

- HTTP and framework layer: `Response` bodies, status codes, multipart parsing, token
  authentication, URL routing and the serializers. Replies are modelled as datatypes that carry
  the error strings.
- File input and output: PyPDF2, `markdown.markdown` and file reading. A stored file carries the
  extracted page texts and its content; UTF-8 decode errors and `extract_text` returning `None`
  are not modelled.
- Storage renaming by `FileField`: the stored path is given as part of the upload.
- `get_embedding` and SentenceTransformer: the embedding is a function parameter, with real
  numbers in place of float32 and no `tobytes`/`frombuffer` conversion. The question's own
  embedding is not modelled, because the search result is an input.
- FAISS `IndexFlatL2` build and search with L2 distances: the index is the list of vectors, and
  the search result is an input list of labels, with `-1` meaning no result.
- Views.AskQuestion: does not enforce that the search returns `top_k = 5` labels; any label list
  is accepted.
- Database internals: ids are 1, 2, … in creation order; tables are sequences in insertion order;
  `uploaded_at` and `created_at` are not stored, and `QALog.__str__` takes the rendered timestamp
  as a parameter.
- `QALogListView`, which orders by timestamp and takes 100 rows.
- `query_llm` and the Hugging Face configuration: the stub is disabled and unused.
- The receiver's `print`.
- PyText.LowerChar: lower-cases ASCII and the Kelvin sign only. Those are the only code points
  whose lower case can produce one of the accepted extensions.
- PyText.SplitExt: models POSIX `os.path.splitext`, with `/` as the only separator.
- `Document.__str__` is the name. It has no contract of its own and appears through
  `Models.ChunkStr` and `Views.CitationOfStoredRows`.
