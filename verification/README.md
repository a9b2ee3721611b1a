# Local RAG pipeline: a Dafny model

This project models the core of a small retrieval-augmented question
answering system over a folder of PDF files:

- **Retriever** (`retriever.dfy`, after `rag/retriever.py`): every
  non-blank page of every `.pdf` file becomes a page record labelled
  `"<file> - Page <n>"`. Pages are cut into overlapping character windows of
  `CHUNK_SIZE = 500` characters that advance by
  `CHUNK_SIZE - CHUNK_OVERLAP = 450`. The window texts are embedded in one
  batch into an index whose row `i` belongs to chunk `i`. The row labels a
  nearest-neighbour search returns are mapped back to chunk records.
- **Pipeline** (`pipeline.dfy`, after `rag/rag_pipeline.py`): the
  retrieved chunks become a context of `"[source]:\ntext"` entries joined by
  blank lines. Python's `str.format` substitutes the context and the
  question into the prompt template: the template file's contents when the
  file exists, the built-in template otherwise. The model server's reply
  becomes the answer string, and a request failure becomes an
  `"Error connecting to Ollama: ..."` answer.
- **App** (`app.dfy`, after `streamlit_app.py`): the references list
  cuts each retrieved chunk's label at the first `" - Page"` and shows the
  distinct document names in ascending order.
- **Text** (`text.dfy`) and **Results** (`results.dfy`) hold the Python
  string operations the above rely on (`strip`, `lower`/`endswith`,
  `str(n)`, `split(sep)[0]`, code-point order) and the `Option`/`Result`
  types.

Operations that loop and append in the source are methods proved equal to
a recursive specification function:

- `LoadDocuments` is proved equal to `LoadAll`.
- `ChunkText` is proved equal to `ChunkAll`.
- `BuildPrompt` is proved equal to `PromptFor`.

The properties are proved about those functions.

The embedding model, the FAISS search and the model server are parameters:

- `embed: string -> V` stands for the embedding model.
- `search` returns the row labels of the FAISS search.
- `llm` returns the server's reply to a prompt.
- The template file is an `Option` of its contents.

A window shorter than `CHUNK_SIZE` need not be the last window of its
page, and the model follows the code on this.
`Retriever.NineHundredTwentyCharacterPage` shows it: a page of 920
characters gives windows at 0, 450 and 900, of 500, 470 and 20
characters. What does hold for every page:

- Every window is at most `CHUNK_SIZE` characters.
- A window shorter than that runs to the end of its page.
- Each window, from `CHUNK_SIZE - CHUNK_OVERLAP` characters on, is the start of the next window. A full-length window therefore shares `CHUNK_OVERLAP` characters with the next one, and a window near the page end shares fewer (20 in the 920-character case).
- The first window, followed by every later window without its overlap,
  is the page text exactly.

## Model

| member | source | states |
|---|---|---|
| Retriever.LoadDocuments | rag/retriever.py:16-32 | The nested loop over files and pages builds exactly `LoadAll(files)`: the page records file by file in listing order, pages in order |
| Retriever.IsPdfIff | rag/retriever.py:25 | A file is kept exactly when its name has at least four characters and ends in `.pdf` in any mix of upper and lower case |
| Retriever.PageRecordsMembers | rag/retriever.py:28-31 | `Label(name, n)` is `f"{filename} - Page {page_no}"`. A file yields a record exactly for each page whose stripped text is non-empty: the stripped text, labelled with the file name and the 1-based page number |
| Retriever.LoadAllMembers | rag/retriever.py:24-31 | A record is loaded exactly when it is the record of a non-blank page of some listed file that passes the `.pdf` test |
| Text.StripIsTrim | rag/retriever.py:29 | `strip()` returns the slice of the text with whitespace on both sides removed: it neither starts nor ends with whitespace, and it is empty exactly when the page is all whitespace |
| Text.Decimal | rag/retriever.py:31 | The page number is written as non-empty decimal digits with no leading zero |
| Text.DecimalRoundTrip | rag/retriever.py:31 | Reading the digits of a page label back gives the page number |
| Retriever.ChunkText | rag/retriever.py:34-48 | The loop over pages and window starts builds exactly `ChunkAll(pages)`: each page's windows, in page order |
| Retriever.ChunksFromAt | rag/retriever.py:45-47 | Window `k` from start `i` begins at `i + k * step`, below the text length, and is tagged with the page's source |
| Retriever.ChunksFromCount | rag/retriever.py:45 | The `range` stops at the first multiple of the step that reaches the end of the text |
| Retriever.PageChunkCount | rag/retriever.py:45 | A page of `n` characters has `ceil(n / step)` windows, and none exactly when its text is empty |
| Retriever.PageChunkWindow | rag/retriever.py:45-47 | Chunk `k` is `text[k*step : k*step + size]`, clamped to the text, with the page's source |
| Retriever.PageChunkLength | rag/retriever.py:46 | No chunk exceeds `CHUNK_SIZE`, there is no padding, and a shorter chunk ends exactly at the page end |
| Retriever.ChunksOverlap | rag/retriever.py:45-46 | Chunk `k` from offset `step` on is a prefix of chunk `k + 1`. Consecutive chunks share `CHUNK_OVERLAP` characters when chunk `k` has full length, and fewer when it runs to the page end |
| Retriever.ChunksReassemble | rag/retriever.py:42-47 | Coverage: the first chunk followed by each later chunk without its overlap is the page text exactly, so no character is lost |
| Retriever.TwelveHundredCharacterPage | rag/retriever.py:45-46 | With 500/50, a 1200-character page gives the windows [0,500), [450,950) and [900,1200) |
| Retriever.NineHundredTwentyCharacterPage | rag/retriever.py:45-46 | With 500/50, a 920-character page gives windows of 500, 470 and 20 characters, and the last lies inside the one before it |
| Retriever.ChunkAllAppend | rag/retriever.py:42-47 | Chunking a concatenation of page lists is the concatenation of their chunkings, so chunks stay grouped by page in page order |
| Retriever.ChunkAllMembers | rag/retriever.py:42-47 | A chunk is produced exactly when it is one of the windows of one input page; no chunk spans two pages |
| Retriever.PageChunkProvenance | rag/retriever.py:44-47 | Every chunk of a page carries that page's source and is its window at a multiple of the step |
| Retriever.BuildIndex | rag/retriever.py:50-59 | Building fails exactly when there are no chunks (`embeddings[0]` raises). Otherwise the chunk list is stored unchanged and row `i` is the embedding of chunk `i`'s text |
| Retriever.LookUpAsWritten | rag/retriever.py:83 | The comprehension as written gives one record per label, label `l` giving Python's `chunks[l]`, with negative labels counting from the end |
| Retriever.PaddingRepeatsLastChunk | rag/retriever.py:81-83 | When `top_k` exceeds the stored chunks, the as-written result is longer than the store and repeats the last chunk at every padded position |
| Retriever.TwoChunkStore | rag/retriever.py:81-83 | For two chunks and labels `[1, 0, -1]`, the as-written look-up gives the second chunk twice, and the corrected one gives each found chunk once |
| Retriever.LookUp | rag/retriever.py:83 | The corrected look-up returns no more records than labels, and every record is a stored chunk |
| Retriever.LookUpInRange | rag/retriever.py:83 | With every label a row number, the corrected and as-written look-ups agree, and record `j` is `chunks[labels[j]]` |
| Retriever.LookUpSearch | rag/retriever.py:81-83 | On a FAISS result for `k` neighbours among `n` rows, the look-up returns `min(k, n)` records, record `j` being the chunk of label `j` |
| Retriever.LookUpAppend | rag/retriever.py:83 | The look-up of concatenated label lists is the concatenation of their look-ups |
| Retriever.LookUpPadding | rag/retriever.py:81-83 | Padding labels contribute no records |
| Retriever.RetrievalProvenance | rag/retriever.py:50-83 | For an index built from `chunks`, the record returned for label `l` is `chunks[l]`, and its embedding is the very row the search matched |
| Retriever.GetRelevantChunks | rag/retriever.py:75-83 | For a search that behaves like FAISS, the result has `min(top_k, stored)` records, record `j` being the stored chunk of label `j`, in search order |
| Pipeline.QueryLlm | rag/rag_pipeline.py:9-21 | A request failure gives an answer that starts with the Ollama error prefix and carries the message. A decoded reply gives its "response" field. A reply without that field is an error that reaches the caller |
| Pipeline.LoadPromptTemplate | rag/rag_pipeline.py:35-38 | The template is the file's contents when the file exists, the built-in template otherwise |
| Pipeline.RenderLiteral | rag/rag_pipeline.py:51 | `format` copies text without braces to the output unchanged |
| Pipeline.RenderContextField | rag/rag_pipeline.py:51 | `{context}` is replaced by the context, and the rest of the template is formatted after it |
| Pipeline.RenderQuestionField | rag/rag_pipeline.py:51 | `{question}` is replaced by the question, and the rest of the template is formatted after it |
| Pipeline.RenderTwoFields | rag/rag_pipeline.py:51 | `Render` is `template.format(context=..., question=...)`: it replaces `{{` and `}}` with single braces, substitutes `{context}` and `{question}`, and rejects any other brace as an error. A template of brace-free text around `{context}` and `{question}` yields that text with the arguments in place, whatever the arguments contain, braces included |
| Pipeline.PreambleHasNoBraces | rag/rag_pipeline.py:25-28 | The built-in template's text before the context field contains no braces |
| Pipeline.RenderDefault | rag/rag_pipeline.py:25-33 | Formatting the built-in template never fails. It yields the fixed instructions, the context, the question heading, the question and a final newline |
| Pipeline.JoinSplit | rag/rag_pipeline.py:45-49 | `Entry` formats one chunk as `"[" + source + "]:\n" + text`, `Join` is Python's `sep.join`, and `Context` joins the entries of the chunks with `"\n\n"`. The joined context splits at any entry boundary into the two joins with one blank-line separator between them |
| Pipeline.JoinEnds | rag/rag_pipeline.py:49 | The context starts with the first entry and ends with the last, with no leading or trailing separator |
| Pipeline.BuildPrompt | rag/rag_pipeline.py:40-51 | The prompt is the template formatted with the joined entries and the question. With the built-in template it is the instructions, the context, the question heading, the question and a newline |
| Pipeline.RunRag | rag/rag_pipeline.py:53-68 | The answer is returned with the very chunks retrieved for the question. It is the model's reply to the prompt built from those chunks. A template error or a reply without "response" is returned as that error |
| App.DocNameSpec | streamlit_app.py:19 | `DocName` is `source.split(" - Page")[0]`, the text before the first marker. That result is a prefix of the label and contains no marker. It is the whole label exactly when the label has no marker, and otherwise the marker follows it |
| App.LabelRoundTrip | streamlit_app.py:19 | Cutting a loader label gives back the file name, provided the file name does not contain `" - Page"` |
| App.InsertSpec | streamlit_app.py:20 | Inserting into an ascending duplicate-free list keeps it ascending, adds exactly the new name, and adds at most one entry |
| App.SortedUniqueSpec | streamlit_app.py:20 | `sorted(set(names))` is strictly ascending in code-point order, has exactly the members of `names`, and is no longer than `names` |
| App.AscendingUnique | streamlit_app.py:20 | Two strictly ascending lists with the same members are equal, so the result does not depend on how the set is iterated |
| App.UniqueDocsSpec | streamlit_app.py:19-20 | `UniqueDocs` is `sorted(set(sources))` over the chunks' document names. Each listed reference is the document of some retrieved chunk. Each retrieved chunk's document is listed exactly once, in ascending order |
| App.ReferencesAreFiles | streamlit_app.py:19-20 | For chunks from the loaded and chunked documents, each reference is the name of a listed `.pdf` file, provided no file name contains `" - Page"` |
| Text.Find | streamlit_app.py:19 | The search finds the first occurrence of the separator, and reports none exactly when the separator does not occur |
| Text.BelowTransitive | streamlit_app.py:20 | The string order `sorted` uses is transitive |
| Text.BelowTotal | streamlit_app.py:20 | Any two distinct strings are ordered one way or the other |
| Text.BelowIrreflexive | streamlit_app.py:20 | No string is below itself |

## Left out

- Reading the document folder (`os.listdir`) and extracting page text with PyMuPDF are not modelled. The files are given, in listing order, each with the raw text of its pages.
- The embedding model is the parameter `embed`. The FAISS `IndexFlatL2` distance computation and neighbour ordering are the parameter `search`. `Retriever.SearchLabels` states only the shape of FAISS's answer: `k` labels, of which the first `min(k, n)` are rows and the rest are -1.
- Persistence is not modelled: pickling the chunk list, `faiss.write_index`, and `load_faiss_index`. The store that retrieval reads is the store that was built.
- The HTTP exchange with the Ollama server is the parameter `llm`. This covers the payload, the model name from the environment, the URL, and status-code checking. Every `RequestException`, including a body that is not JSON, is a `Failed` reply.
- Pipeline.QueryLlm: a JSON reply is modelled as a map from strings to strings. A non-string "response" value, or a top-level JSON value that is not an object, is not modelled.
- Pipeline.Render: format conversions and specs such as `{context!r}` or `{context:>9}`, attribute and index fields, and positional `{}` are all rejected as `UnsupportedField`. Python accepts some of these in a custom template file. The built-in template uses none of them.
- Text.Lower: only ASCII letters are lower-cased. This does not change the `.pdf` test, because no other character lower-cases to `.`, `p`, `d` or `f`.
- Retriever.ChunkText: requires `CHUNK_OVERLAP < CHUNK_SIZE`. With a step of zero, `range` raises, and with a negative step it yields nothing. The configuration is fixed at 500/50.
- Retriever.GetRelevantChunks: requires that every label is below the stored chunk count, as FAISS guarantees for an index and chunk list built together. A chunk file and an index that come from different builds are not modelled. Padding labels are dropped; see Findings.
- All `print` progress and preview output in `run_rag` and `build_faiss_index` is left out.
- The Streamlit page is left out: page setup, the text input, the spinner, the markdown output, the session state and the expanders. Only the document-name list (lines 19-20) is modelled.
- `rag/build_index.py` is not part of this model. It only calls `load_documents`, `chunk_text` and `build_faiss_index` in sequence.

## Findings

| source | as written | input that shows it | evidently intended | confidence | as-written member | corrected member |
|---|---|---|---|---|---|---|
| rag/retriever.py:81-83 | `[chunks[i] for i in indices[0]]` maps every label FAISS returns, including the padding label -1 that FAISS uses when `top_k` exceeds the stored rows. Python reads `chunks[-1]` as the last chunk | A store of 2 chunks and the default `top_k = 3`: the labels are e.g. `[1, 0, -1]`, and the result is `[chunks[1], chunks[0], chunks[1]]`, with the second chunk listed twice (Retriever.PaddingRepeatsLastChunk, Retriever.TwoChunkStore) | Padding labels are skipped, giving `[chunks[1], chunks[0]]` | not executed; relies on FAISS's documented -1 padding | Retriever.LookUpAsWritten | Retriever.LookUp |
