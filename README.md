# A verified model of the indexing and query core of a research-paper RAG tool

The tool builds a local semantic index over a folder of arXiv PDFs and answers
questions by retrieval-augmented generation. This project models, in Dafny, the
deterministic logic of that pipeline and proves what it promises:

- **Chunker** (`src/ingest.py`): `sanitize_text` drops the code points UTF-8
  cannot encode. `split_text` normalises whitespace with `" ".join(t.split())`,
  then slides a window of `chunk_size` characters with step
  `chunk_size - chunk_overlap`. `build_chunks` numbers the records per file and
  per page. `embed_texts` sends the texts to the embedding service in
  consecutive batches. `build_index` decides, in a fixed order, what is removed,
  requested and written.
- **Index store and retriever** (`src/rag_chain.py`): `_load_index` reads the
  chunk lines. `retrieve` checks that the two index files have as many
  entries, `_normalize_rows` normalises the rows, and the top-k choice is
  `np.argsort(scores)[-k:][::-1]`.
- **Answer composer** (`src/rag_chain.py`): `_build_context` builds the context
  string. `answer_question` chooses `k`, falls back when nothing is found, and
  substitutes a placeholder when the reply is empty.
- **Downloader** (`src/download_arxiv.py`): `sanitize_filename` builds the title
  stub. The PDF name is built from the paper id and the stub. The metadata loop
  skips failed downloads and keeps going.

Modules follow the source files. `Ingest` models `src/ingest.py`, `RagChain`
models `src/rag_chain.py`, and `DownloadArxiv` models `src/download_arxiv.py`.
`Config` models `src/config.py`: the settings record and `get_settings`.
`PyText` models the Python string semantics the code relies on: clamped
slicing, `str.isspace`, `split`, `strip`, `join`, `str(int)` and string order.
`Outcomes` holds the exceptions as a `Result` type.

Each loop in the source (`split_text`, the three nested loops of
`build_chunks`, `embed_texts`, `_build_context`, the `norms` update of
`_normalize_rows`, and the loop of `download_papers`) is a `method` with loop
invariants. Each such method's `ensures` ties its result to a specification
function. The lemmas then prove the source's promises about those functions.

The model takes the outside world as inputs:

- page texts;
- the directory listing;
- an embedding function that returns a vector or an error per request;
- a chat function;
- a JSON encoder and parser for one chunk record;
- `np.linalg.norm`;
- a download outcome per arXiv result.

Requests and file-system actions are returned as an ordered trace. That lets
the model state "before any embedding request or write".

Behaviour of the code worth knowing:

- `split_text` keeps a one-character tail such as `"j"` whenever its window,
  once stripped, is non-empty, even when the window lies wholly inside the
  previous chunk. `"abcdefghij"` with size 4 and overlap 1 gives
  `["abcd", "defg", "ghij", "j"]` (`Ingest.SplitExampleTail`).
- `_load_index` checks only that both files exist. The counts of chunks and
  embeddings are compared by `retrieve`, which raises `ValueError` for a
  mismatch before it makes the query request.
- The embeddings file keeps its array shape. `embed_texts` on no texts gives
  the one-dimensional array of shape `(0,)`, and vectors of different lengths
  make `np.asarray` raise `ValueError`. A one-dimensional array fails in
  `_normalize_rows`, and a matrix whose width is not the query's fails at the
  product, both after the query request.
- `retrieve` called with `k = 0` returns every row, not none, because `[-0:]`
  is `[0:]`.
- Whitespace-only text gives `[]` even when `chunk_overlap >= chunk_size`,
  because the emptiness test comes before the configuration check.
- `sanitize_filename` cuts to 90 characters after stripping. The result can
  therefore end in a space, and applying the function again can change it.

## Model

| member | source | states |
|---|---|---|
| `Config.GetSettings` | src/config.py:29-33 | succeeds exactly when the API key is non-empty, returning the settings unchanged; otherwise the fixed ValueError |
| `Ingest.SanitizeText` | src/ingest.py:18-20 | the result is never longer than the input; what it keeps is stated by `SanitizeMembers`, `SanitizeLossless`, `SanitizeKeepsText` and `SanitizeConcat` |
| `Ingest.SanitizeMembers` | src/ingest.py:18-20 | every output character comes from the input, and every code point that is not a lone surrogate is kept |
| `Ingest.SanitizeLossless` | src/ingest.py:18-20 | nothing is dropped exactly when the input holds no surrogate |
| `Ingest.SanitizeKeepsText` | src/ingest.py:18-20 | encodable text comes back unchanged |
| `Ingest.SanitizeConcat` | src/ingest.py:18-20 | sanitising works code point by code point, so it distributes over concatenation |
| `PyText.Normalize` | src/ingest.py:24 | no contract of its own: `NormalizeIsNormal`, `NormalizeIdempotent` and `NormalizeEmpty` state what `" ".join(t.split())` promises |
| `PyText.NormalizeIsNormal` | src/ingest.py:24 | normalised text has no whitespace but `' '`, no leading or trailing whitespace, and no two adjacent spaces |
| `PyText.NormalizeIdempotent` | src/ingest.py:24 | normalising twice gives the result of normalising once |
| `PyText.NormalizeEmpty` | src/ingest.py:24-26 | normalisation gives `""` exactly for whitespace-only text |
| `Ingest.SplitTextSpec` | src/ingest.py:23-38 | no contract of its own: it is the specification the `SplitText` loop is proved equal to; its promises are `SplitBlank`, `SplitOverlapError`, `SplitNothingOnlyWhenBlank`, `WindowsAt`, `SplitChunkShape`, `SplitKeepsEveryWindow` and `SplitExampleTail` |
| `Ingest.SplitText` | src/ingest.py:23-38 | the loop's result equals the specification: `[]` for blank text, the ValueError for overlap ≥ size, else the non-empty stripped windows in start order |
| `Ingest.SplitBlank` | src/ingest.py:24-26 | text that is blank after sanitising gives `[]` even when overlap ≥ size |
| `Ingest.SplitOverlapError` | src/ingest.py:25-28 | the ValueError is raised exactly when the text has content and overlap ≥ size |
| `Ingest.SplitNothingOnlyWhenBlank` | src/ingest.py:24-37 | for size ≥ 1, the result is `[]` exactly when the text is blank |
| `Ingest.WindowStarts` | src/ingest.py:31-37 | the window starts are exactly the multiples of the step below the text length, and there are finitely many |
| `Ingest.WindowsAt` | src/ingest.py:33-34 | window i is `strip(text[i*step : i*step+size])`, with `i*step < len(text)` |
| `Ingest.SplitChunkShape` | src/ingest.py:33-36 | every chunk is non-empty, at most `chunk_size` long, has no whitespace at either end, and is a contiguous piece of the normalised text |
| `Ingest.SplitKeepsEveryWindow` | src/ingest.py:24-37 | with `chunk_size ≥ 2`, no window is dropped: the chunks are all the windows |
| `Ingest.SplitExampleTail` | src/ingest.py:31-37 | any 10-character normalised text with size 4 and overlap 1 gives 4 chunks, the last being `text[9:]` |
| `Ingest.BuildChunksSpec` | src/ingest.py:41-60 | no contract of its own: it is the specification the `BuildChunks` loops are proved equal to; its promises are `SelectFilesPrefix`, `BuildChunksNumbered`, `BuildChunksOrdered` and `BuildChunksFields` |
| `Ingest.BuildChunks` | src/ingest.py:41-60 | the nested loops give the records of the selected files in sorted order, or the first split error |
| `Ingest.FileChunks` | src/ingest.py:48-59 | the page loop gives the records of every page in page order, or the first split error |
| `Ingest.AppendPage` | src/ingest.py:51-59 | the chunk loop appends one record per chunk, numbered from 1, with the file name and page |
| `Ingest.SortByName` | src/ingest.py:42 | the sorted listing holds the same files as the listing, each as often; its order is stated by `SortByNameSorted` and `SortByNameStrict` |
| `Ingest.SortByNameSorted` | src/ingest.py:42 | the files come in order of name |
| `Ingest.SortByNameStrict` | src/ingest.py:42 | distinct file names come in strictly increasing order |
| `Ingest.SelectFilesPrefix` | src/ingest.py:42-44 | the files used are a prefix of the sorted list: all for `None` or `0`, the first N for a positive N, and Python-slice semantics for a negative N |
| `Ingest.BuildChunksNumbered` | src/ingest.py:49-56 | chunk numbers start at 1 and each one above 1 follows its predecessor on the same file and page |
| `Ingest.BuildChunksOrdered` | src/ingest.py:42-60 | for distinct file names, records come by file name, then page, then chunk number, and `(source_file, page, chunk_id)` is unique |
| `Ingest.BuildChunksFields` | src/ingest.py:47-58 | each record names a given file and one of its pages (≥ 1), and holds a non-empty text of at most `chunk_size` |
| `Ingest.EmbedTextsSpec` | src/ingest.py:63-69 | no contract of its own: it is the specification the `EmbedTexts` loop is proved equal to; its promises are `BatchAt`, `BatchesFlatten`, `EmbedAllSucceed`, `EmbedFailureExtends`, `EmbedRunLength`, `EmbedPerText` and `EmbedFixedWidth` |
| `Ingest.EmbedTexts` | src/ingest.py:63-69 | the loop sends the batches in order and turns their vectors into one array, or returns the first error and reports the requests made (none after a failure); batch size 0 is `range`'s ValueError |
| `Ingest.BatchAt` | src/ingest.py:65-66 | batch k is `texts[k*b : k*b+b]`, non-empty and at most b long |
| `Ingest.BatchesFlatten` | src/ingest.py:65-66 | the batches concatenate back to the texts |
| `Ingest.EmbedAllSucceed` | src/ingest.py:65-68 | when no request fails, every batch is sent and the vectors are concatenated in batch order |
| `Ingest.EmbedFailureExtends` | src/ingest.py:65-68 | after a failed request the run keeps that error and sends nothing more |
| `Ingest.EmbedRunLength` | src/ingest.py:65-68 | with one vector per input, the output has one vector per text sent |
| `Ingest.EmbedPerText` | src/ingest.py:63-69 | a service that embeds text by text gives one vector per text, in text order, after one request per batch |
| `Ingest.AsArray` | src/ingest.py:69 | a successful array has one entry per vector; its shapes and its error are stated by `AsArrayShape` |
| `Ingest.AsArrayShape` | src/ingest.py:69 | no vectors give the flat `(0,)` array, vectors of one width the matrix of exactly those rows, vectors of two widths the ValueError |
| `Ingest.EmbedFixedWidth` | src/ingest.py:63-69 | a service whose vectors all have one width gives the matrix of that width with one row per text, or the `(0,)` array for no texts |
| `Ingest.BuildIndexSpec` | src/ingest.py:72-97 | no contract of its own: it is the specification the `BuildIndex` method is proved equal to; its promises are `BuildIndexNoKey`, `BuildIndexMissingPapers`, `BuildIndexReset`, `BuildIndexNoChunks` and `BuildIndexWrites` |
| `Ingest.BuildIndex` | src/ingest.py:72-97 | the function's steps equal the specification: settings, papers directory, reset and mkdir, chunks, embedding, then the two writes |
| `Ingest.BuildIndexNoKey` | src/ingest.py:73 | without an API key the build fails with nothing touched |
| `Ingest.BuildIndexMissingPapers` | src/ingest.py:74-75 | a missing papers directory raises FileNotFoundError before the index directory is touched |
| `Ingest.BuildIndexReset` | src/ingest.py:77-79 | the old index is removed exactly when reset is asked, it exists, and the two guards before it pass |
| `Ingest.BuildIndexNoChunks` | src/ingest.py:81-88 | zero chunks is a ValueError raised before any embedding request or file write |
| `Ingest.BuildIndexWrites` | src/ingest.py:87-97 | a successful build writes the encoded records and then their embeddings, after the directory steps and the requests |
| `RagChain.LoadIndex` | src/rag_chain.py:14-21 | succeeds only when both files exist, and then returns the saved array unchanged; its errors are stated by `LoadIndexErrors` and its parsing by `ParseLinesNonBlank` |
| `RagChain.LoadIndexErrors` | src/rag_chain.py:14-21 | a missing file is FileNotFoundError; otherwise every error is the parser's on a non-blank line |
| `RagChain.ParseLinesNonBlank` | src/rag_chain.py:18-19 | exactly the non-blank lines are parsed, in file order, and blank or whitespace-only lines are skipped |
| `RagChain.LoadWrittenIndex` | src/rag_chain.py:14-21 | a chunks file written one record per line loads back as the same records in the same order |
| `RagChain.BuiltIndexLoads` | src/ingest.py:87-97 | what build_index writes, _load_index reads back; the counts agree exactly when the batch size is positive |
| `RagChain.NormalizeRows` | src/rag_chain.py:24-27 | zero norms are set to 1 in place, other norms are kept, and each row is divided by its entry |
| `RagChain.ZeroNormIffZeroRow` | src/rag_chain.py:25-26 | a row's norm is zero exactly when the row is all zeros |
| `RagChain.NormalizedRowsUnit` | src/rag_chain.py:24-27 | zero rows come back unchanged with no division by zero, and every other row has unit length |
| `RagChain.ScoresAreCosines` | src/rag_chain.py:38-42 | each score is 0 for a zero row, and otherwise the dot product over the row norm times the query divisor |
| `RagChain.ArgSortIsArgSort` | src/rag_chain.py:44 | the modelled argsort is a permutation of the row indices in non-decreasing score order |
| `RagChain.TopIndicesShape` | src/rag_chain.py:44 | `[-k:][::-1]` is the argsort read from its end: `min(k, N)` entries for k ≥ 1, all N for k = 0, `max(N+k, 0)` for k < 0 |
| `RagChain.TopIndicesSelect` | src/rag_chain.py:44 | for any argsort, whatever the tie order, the result has distinct indices, non-increasing scores, and no left-out row scoring above a chosen one |
| `RagChain.RankedZeroKeepsAll` | src/rag_chain.py:44 | with `k = 0`, every row is returned in descending score order |
| `RagChain.Retrieve` | src/rag_chain.py:30-53 | makes no request or exactly the one query-embedding request, and a success made it; `RetrieveChecksFirst`, `RetrieveSelects`, `RetrieveShapeErrors` and `RetrieveEmptyStore` state the rest |
| `RagChain.RetrieveChecksFirst` | src/rag_chain.py:30-37 | no request is made exactly when the key is missing, the index fails to load, or the counts differ; each has its own error, and a mismatch is the ValueError |
| `RagChain.RetrieveSelects` | src/rag_chain.py:30-53 | a successful retrieve makes one query request and returns a top-k choice of chunks, each with its source file, page, text and score |
| `RagChain.RetrieveEmptyStore` | src/rag_chain.py:40-53 | an empty store whose matrix has the query's width yields `[]`, not an error |
| `RagChain.RetrieveShapeErrors` | src/rag_chain.py:25-42 | after the query request, a one-dimensional array is the axis ValueError of `_normalize_rows` and a matrix of another width is the product's ValueError; retrieve succeeds exactly when the matrix has the query's width |
| `RagChain.RetrieveOnlyQueries` | src/rag_chain.py:36-37 | retrieve makes only the query-embedding request |
| `RagChain.BuildContext` | src/rag_chain.py:56-63 | the loop gives, for the i-th doc counting from 1, the header `[i] Source: <source_file>`, then the page, a newline and the text; the blocks are joined by `"\n\n"` |
| `RagChain.ContextEmpty` | src/rag_chain.py:56-63 | the context is `""` exactly when there are no docs |
| `RagChain.ContextStart` | src/rag_chain.py:56-63 | the context opens with the first document's block |
| `RagChain.ContextSnoc` | src/rag_chain.py:56-63 | one more document adds `"\n\n"` and its block, numbered after the others |
| `RagChain.PromptText` | src/rag_chain.py:73-83 | the stripped prompt is the template text from "You are…" to the citation instruction, with the question and context in place |
| `RagChain.AnswerQuestion` | src/rag_chain.py:66-92 | without an API key it fails with the key error before any request, and a successful answer is never empty; `AnswerQuestionRetrieves`, `AnswerChatsOnlyWithDocs`, `AnswerTextChoice` and `AnswerReturnsDocs` state the rest |
| `RagChain.AnswerQuestionRetrieves` | src/rag_chain.py:66-69 | `top_k` is k when k is truthy, else `retrieve_k`; without a key it fails before any request |
| `RagChain.AnswerChatsOnlyWithDocs` | src/rag_chain.py:69-92 | a chat request is made exactly when retrieve finds docs; no docs gives the fallback text and `[]`; retrieve's error propagates |
| `RagChain.AnswerTextChoice` | src/rag_chain.py:91 | the answer is never empty, and it is the reply itself exactly when the reply has text |
| `RagChain.AnswerReturnsDocs` | src/rag_chain.py:91-92 | a successful answer returns exactly the retrieved docs, beside the reply or the placeholder |
| `DownloadArxiv.SanitizeFilename` | src/download_arxiv.py:19-22 | the stub is at most 90 characters long; `SanitizeShape`, `SanitizeEmpty`, `SanitizeStable` and `SanitizeNotIdempotent` state the rest |
| `DownloadArxiv.KeepAllowedChars` | src/download_arxiv.py:20 | a character survives the filter exactly when it is in the input and in `[a-zA-Z0-9._ -]` |
| `DownloadArxiv.CollapseShape` | src/download_arxiv.py:21 | after the collapse the only whitespace is `' '`, no two stand together, and every other character is from the input |
| `DownloadArxiv.CollapseIdempotent` | src/download_arxiv.py:21 | collapsing twice is collapsing once |
| `DownloadArxiv.CollapseStripIsNormalize` | src/download_arxiv.py:21 | `re.sub(r"\s+", " ", s).strip()` equals `" ".join(s.split())` |
| `DownloadArxiv.SanitizeIsNormalize` | src/download_arxiv.py:19-22 | sanitize_filename is the normalised filtered title cut to 90 |
| `DownloadArxiv.SanitizeShape` | src/download_arxiv.py:19-22 | the output has only allowed characters, no double spaces, no leading space, length ≤ 90, and is a prefix of the stripped collapse |
| `DownloadArxiv.SanitizeEmpty` | src/download_arxiv.py:19-22 | the output is `""` exactly when the title has only disallowed characters and whitespace |
| `DownloadArxiv.SanitizeStable` | src/download_arxiv.py:19-22 | re-applying changes nothing when the result does not end in a space |
| `DownloadArxiv.SanitizeNotIdempotent` | src/download_arxiv.py:21-22 | 89 letters, a space and a letter give a result ending in a space, which a second application shortens |
| `DownloadArxiv.PdfName` | src/download_arxiv.py:38-40 | the name starts with the paper id, ends in `.pdf`, and is 5 to 95 characters longer than the raw id |
| `DownloadArxiv.PaperIdReplaces` | src/download_arxiv.py:38 | the id has no `/`, keeps every other character, and an id without `/` is unchanged |
| `DownloadArxiv.PdfNameShape` | src/download_arxiv.py:38-40 | the PDF name has no `/`, starts with the id and `_`, ends in `.pdf`, and is at most 95 characters longer than the id |
| `DownloadArxiv.DownloadPapers` | src/download_arxiv.py:37-56 | the loop's metadata and warnings equal the results that succeeded and failed, each in result order |
| `DownloadArxiv.EveryResultAccounted` | src/download_arxiv.py:37-56 | a successful result has its entry in the metadata, a failed one its id among the warnings, and the two lists together have one item per result |
| `DownloadArxiv.FailedMembers` | src/download_arxiv.py:55-56 | an id is among the warnings exactly when some result with that id failed to download |
| `DownloadArxiv.MetadataAppend` | src/download_arxiv.py:37-56 | a failure never aborts the loop: the metadata of two runs of results concatenate |
| `DownloadArxiv.MetadataAllFetched` | src/download_arxiv.py:37-54 | when every download succeeds, there is one entry per result, in result order |
| `DownloadArxiv.MetadataMembers` | src/download_arxiv.py:43-54 | an entry is present exactly when some result's download succeeded and the entry describes it |
| `DownloadArxiv.MetadataFileNames` | src/download_arxiv.py:38-50 | every entry's `pdf_file` has no `/` and ends in `.pdf`, and its `paper_id` has no `/` |

## Left out

- PDF extraction (`PdfReader`, `extract_text`) is not modelled: each file comes as its name and the extracted text of each page (`None` for none).
- The OpenAI embedding and chat clients, and the arXiv client and its PDF download, are not modelled: they are function parameters that return a value or an error. Retries, delays and timeouts are not modelled.
- JSON and `.npy` serialisation are not modelled: the encoder and parser of one chunk record are parameters. The round-trip lemma assumes in its requires that the encoder writes one non-blank line that the parser reads back.
- A chunk line that is valid JSON but lacks a field fails in the model when the index is loaded, before the query request, because the parser returns a whole record. The program raises `KeyError` later, in the list comprehension of `retrieve`, after the query request and only when that row is among the top k.
- `shutil.rmtree`, `mkdir`, the file writes and the `metadata.json` write are not performed: `build_index` returns them as an ordered trace, and `download_papers` returns the metadata list. The directory creation in `download_papers` is not modelled.
- Floating-point work in `retrieve` is modelled over exact reals: the L2 norms, the dot product, the `1e-12` floor and the `float32` casts. The norm is a parameter, and `IsNorm` states what it means. Rounding, NaN and the `[-1, 1]` bound of cosine scores are not modelled.
- `RagChain.TopIndicesSelect`: the order among equal scores is not specified, because NumPy's default `argsort` is not stable. The lemma holds for any argsort order. `Ranked` fixes one stable order only so that `retrieve` has a value.
- `Ingest.EmbedTexts`: the `float32` cast of `np.asarray` is not modelled; the vectors keep their exact real values. Its shape is modelled, including the ValueError for vectors of different lengths, but not the exact text of that message.
- numpy's errors for a one-dimensional array in `_normalize_rows` (AxisError, a ValueError) and for a query whose width differs from the matrix's are modelled as ValueErrors. Their exact messages are not modelled. Arrays of more than two dimensions are not modelled.
- The whitespace set is the fixed set of characters for which `str.isspace()` holds. It is shared by `split`, `strip` and `\s`. Python's Unicode database is not consulted.
- Reading the environment in `src/config.py` is not modelled: a `Settings` value is passed in. Only `get_settings`'s empty-key check is modelled.
- `app.py` (the Streamlit UI) is not part of this model. Neither are `src/use_sample_dataset.py` (file copying), `argparse` and the `main` functions, `tqdm`, and the `print` output.
- The wording of the prompt is modelled as text; the temperature and model names of the chat request are not modelled.
