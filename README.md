# DocuBot core in Dafny

This project models the three core components of DocuBot, a question-answering assistant over uploaded PDF and DOCX files:

- **Document processor** (`src/data/document_processor.py`). It extracts the text of a file, choosing the extractor by the file's extension. It then cuts the text into chunks, and every chunk carries the file's metadata.
- **Vector store** (`src/data/vector_store.py`). It embeds chunks and stores them as rows of a LanceDB table called `documents`. It answers nearest-neighbour queries, counts rows, clears the table and filters rows by source.
- **Chat manager** (`src/llm/chat_manager.py`). It passes a question to a conversational retrieval chain and builds the response: the answer, its sources with 200-character snippets, and a confidence that is the mean of the source scores. It keeps the conversation in a memory and offers a history view and a summary of it.

Modules:

| file | module | contents |
|---|---|---|
| `outcomes.dfy` | `Outcomes` | `Option` (with `GetOr`, Python's `dict.get(key, default)`) and `Result` |
| `text.dfy` | `Text` | Python's `str.isspace` and `str.strip()`, ASCII `str.lower`, and `str(n)` for a natural number |
| `paths.dfy` | `Paths` | `pathlib`'s `Path(p).name` and `Path(p).suffix` for '/'-separated paths |
| `documents.dfy` | `Documents` | LangChain's `Document` and the metadata keys the core uses |
| `document_processor.dfy` | `DocumentProcessing` | extraction, dispatch, chunking, `process_document` |
| `vector_store.dfy` | `VectorStorage` | the row builder, and `class VectorStore` over the table's rows |
| `chat_manager.dfy` | `Chat` | the response builder, confidence, and `class ChatManager` over the memory |

The following external parts are modelled as parameters:

- The file system is a map from path to a `File`. A `File` records the file's size and what each parser would return for it: the page texts or paragraph texts, or the exception message.
- The text splitter is a function from text to chunk texts.
- The embedding model and LanceDB's cosine ranking are functions.
- One call of the conversational chain is given as its outcome: an answer with optional source documents, or an exception message.
- The summarising language model is a function from the history to a text or an error.

The loops of the source are methods with loop invariants. Most loops are proved equal to a recursive specification function (`JoinLines`, `Records`, `BySource`, `SourcesOf`, `HistoryOf`), and the lemmas state their properties over those functions. The result loop of `similarity_search` is specified element by element instead: the length of the result, and what result i holds.

When the `documents` table is missing, `add_documents`, `similarity_search` and `get_documents_by_source` call `open_table` and raise. Only `get_document_count` turns the error into 0. In the model, `AddDocuments`, `SimilaritySearch` and `GetDocumentsBySource` return `TableNotFound`.

## Model

| member | source | states |
|---|---|---|
| Text.IsSpace | src/llm/chat_manager.py:144 | the characters Python's `str.isspace` accepts, which are the ones `strip()` removes; the `Strip*` lemmas below state what it means for `strip` |
| Text.Strip | src/data/document_processor.py:53 | `str.strip()` with no argument: it drops leading and then trailing whitespace, and the result is never longer than the input; the lemmas below characterise it |
| Text.StripEmptyIff | src/llm/chat_manager.py:144 | `question.strip()` is empty exactly when every character of the question is Python whitespace, so "blank" means all whitespace, the empty string included |
| Text.StripTrimmed | src/data/document_processor.py:53 | the stripped text is empty, or its first and last characters are not whitespace |
| Text.StripIsSlice | src/data/document_processor.py:53 | `strip` keeps one contiguous slice of the input, starting right after the leading whitespace |
| Text.StripRemovesLeadingSpace | src/data/document_processor.py:53 | everything cut from the front is whitespace |
| Text.StripRemovesTrailingSpace | src/data/document_processor.py:77 | everything cut from the back is whitespace |
| Text.StripIdempotent | src/data/document_processor.py:77 | stripping twice gives the same text as stripping once |
| Text.Lower | src/data/document_processor.py:99 | lower-casing keeps the length; the ASCII letters A-Z map to a-z and every other character is kept |
| Text.NatToString | src/data/vector_store.py:89 | `str(i)` is a non-empty run of decimal digits, with a leading '0' only for 0 |
| Text.NatToStringInjective | src/data/vector_store.py:89 | different positions print as different digit strings |
| Paths.Name | src/data/document_processor.py:155 | `Path(p).name` contains no '/' and is never "." |
| Paths.NameOfBare | src/data/document_processor.py:155 | a bare file name is its own name |
| Paths.NameOfChild | src/data/document_processor.py:155 | the name of `dir/n` is `n`, whatever the directory part |
| Paths.Suffix | src/data/document_processor.py:99 | the suffix is "" or a dot followed by at least one character and no further dot, and it is a tail of the name |
| Paths.SuffixOfStemExt | src/data/document_processor.py:156 | the suffix of `stem.ext` is `.ext`, with its case kept |
| Paths.NoSuffixWithoutInnerDot | src/data/document_processor.py:99 | a name with no dot after its first character (such as ".bashrc") has no suffix |
| DocumentProcessing.JoinLines | src/data/document_processor.py:45-50 | the text the page and paragraph loops build: every part followed by a newline, in order; `AccumulateLines` and the lemmas below state its properties |
| DocumentProcessing.JoinLinesAppend | src/data/document_processor.py:48-50 | joining the parts with a newline after each distributes over concatenation of the part lists |
| DocumentProcessing.PartInPlace | src/data/document_processor.py:48-50 | part i appears with its newline, right after the joined earlier parts and before the joined later ones |
| DocumentProcessing.JoinLinesOfBlankParts | src/data/document_processor.py:73-74 | blank pages or paragraphs join to a text that is all whitespace |
| DocumentProcessing.ExtractedText | src/data/document_processor.py:44-57 | what an extractor returns for a parser outcome: the stripped joined parts, or the parser's error; shared by the PDF and DOCX extractors (lines 70-81) |
| DocumentProcessing.ExtractedTextTrimmed | src/data/document_processor.py:45-53 | extracted text never starts or ends with whitespace |
| DocumentProcessing.BlankJoinHasBlankParts | src/data/document_processor.py:48-50 | if the joined text is all whitespace, every page or paragraph in it is blank |
| DocumentProcessing.ExtractedTextEmptyIff | src/data/document_processor.py:45-53 | extracted text is "" exactly when every page or paragraph is blank (both directions) |
| DocumentProcessing.AccumulateLines | src/data/document_processor.py:45-50 | the `text += part + "\n"` loop builds exactly the parts, each followed by a newline, in order |
| DocumentProcessing.ExtractTextFromPdf | src/data/document_processor.py:34-57 | the result is the stripped joined page texts, or the parser's exception passed through |
| DocumentProcessing.ExtractTextFromDocx | src/data/document_processor.py:60-81 | the result is the stripped joined paragraph texts, or the parser's exception passed through |
| DocumentProcessing.DispatchExtension | src/data/document_processor.py:99 | `Path(path).suffix.lower()`; `ExtensionOfName` states its value |
| DocumentProcessing.ExtractorFor | src/data/document_processor.py:101-106 | ".pdf" picks the PDF extractor, ".docx" the DOCX one, anything else is refused with that extension; `ExtractorForDotted` states it |
| DocumentProcessing.Dispatch | src/data/document_processor.py:94-106 | an extractor is chosen only for a file that exists |
| DocumentProcessing.FileText | src/data/document_processor.py:84-106 | what `extract_text_from_file` returns or raises; `MissingFileFirst`, `UnsupportedExactly` and `DispatchIgnoresCase` state its cases |
| DocumentProcessing.ExtractTextFromFile | src/data/document_processor.py:84-106 | the file is checked for existence first, then dispatched on its lower-cased suffix to the PDF or DOCX extractor; anything else is refused |
| DocumentProcessing.MissingFileFirst | src/data/document_processor.py:96-97 | a missing path gives `FileNotFound(path)` in every file system that lacks it, whatever its extension |
| DocumentProcessing.UnsupportedExactly | src/data/document_processor.py:99-106 | `UnsupportedFormat` is raised exactly for an existing file whose lower-cased suffix is neither ".pdf" nor ".docx", and the error carries that suffix (both directions) |
| DocumentProcessing.DispatchIgnoresCase | src/data/document_processor.py:99-104 | for an existing file named `stem.ext`, bare or inside a directory, the extension picks the extractor ignoring ASCII case; any other extension is refused with its lower-cased form |
| DocumentProcessing.DispatchOfName | src/data/document_processor.py:99 | an existing file named `stem.ext` is dispatched on ".ext" lower-cased, whatever its directory |
| DocumentProcessing.ExtractorForDotted | src/data/document_processor.py:101-106 | ".x" selects PDF exactly when x is "pdf", DOCX exactly when x is "docx", and otherwise is refused |
| DocumentProcessing.ExtensionOfName | src/data/document_processor.py:99 | the dispatch extension of a file named `stem.ext` is ".ext" lower-cased |
| DocumentProcessing.UpperCasePdfAccepted | src/data/document_processor.py:99-102 | an existing file named `stem.PDF` goes to the PDF extractor |
| DocumentProcessing.UpperCaseDocxAccepted | src/data/document_processor.py:103-104 | an existing file named `stem.DOCX` goes to the DOCX extractor |
| DocumentProcessing.TextFileRefused | tests/test_document_processor.py:45-49 | an existing file named `stem.txt` is refused with `UnsupportedFormat(".txt")` |
| DocumentProcessing.NoExtensionRefused | src/data/document_processor.py:105-106 | an existing file whose name has no inner dot is refused with the empty extension |
| DocumentProcessing.SplitTextIntoChunks | src/data/document_processor.py:109-135 | `split_text_into_chunks`: the splitter's pieces as documents carrying `metadata or {}`; `ChunksCarryMetadata` and `VectorStorage.ChunksRetrievableBySource` state what it guarantees |
| DocumentProcessing.ChunksCarryMetadata | src/data/document_processor.py:120-131 | one document per chunk text, in the splitter's order; each carries the given metadata, or `{}` for `None` |
| DocumentProcessing.FileMetadata | src/data/document_processor.py:153-158 | the four keys `process_document` records (source, filename, file_type, file_size) and no others; `FileTypeKeepsCase` states what the name and type are |
| DocumentProcessing.FileTypeKeepsCase | src/data/document_processor.py:153-158 | for a file named `stem.ext`, the recorded file name is `stem.ext` and the file type is ".ext" with its original case |
| DocumentProcessing.ProcessDocument | src/data/document_processor.py:137-168 | extraction errors propagate unchanged; on success there is one chunk per splitter piece, and each chunk's metadata is exactly the file's four keys (path, name, case-kept suffix, size), with no chunk index and no score |
| VectorStorage.RecordId | src/data/vector_store.py:89 | the id `metadata.get('filename', 'unknown')`, then "_" and `i`; `RecordIdInjective` states that it tells records apart |
| VectorStorage.NewRecord | src/data/vector_store.py:88-96 | the row built for document i: its text, its embedding, its metadata, its source and file name ("" when missing), and i as chunk index; `RecordsShape` states how a batch is built from it |
| VectorStorage.RecordIdInjective | src/data/vector_store.py:89 | the id `filename_i` determines both the file name (or "unknown") and the position i |
| VectorStorage.Records | src/data/vector_store.py:81-98 | the records `add_documents` prepares, or the first embedding error; `RecordsShape` and `RecordsFailure` state what it is |
| VectorStorage.RecordsShape | src/data/vector_store.py:81-98 | a batch is prepared exactly when every document embeds (both directions); record i is then built from document i at chunk index i, with its embedding |
| VectorStorage.RecordsFailure | src/data/vector_store.py:83-85 | a failing batch reports the error of the first document whose embedding fails |
| VectorStorage.RecordIdsDistinct | src/data/vector_store.py:83-96 | ids are pairwise distinct within one batch |
| VectorStorage.PrepareRecords | src/data/vector_store.py:80-98 | the preparation loop yields exactly the specified records, stopping at the first embedding error |
| VectorStorage.RowDocument | src/data/vector_store.py:198-205 | the document rebuilt from a row: its text, with source, filename and chunk_index as metadata |
| VectorStorage.BySource | src/data/vector_store.py:194-207 | the rebuilt documents of the rows with the given source, in row order; `BySourceExactly` states which rows they are |
| VectorStorage.BySourceExactly | src/data/vector_store.py:192-209 | a document is returned exactly when some stored row with that source rebuilds to it (both directions) |
| VectorStorage.BySourceAppend | src/data/vector_store.py:194 | filtering the rows after an append filters the old rows and the new batch separately |
| VectorStorage.BySourceAll | src/data/vector_store.py:194-207 | when every row has the source asked for, all rows come back, in order |
| VectorStorage.RecordsOfOneFile | src/data/vector_store.py:83-98 | when a batch shares one metadata value, record i holds document i's text, the shared source and file name, and chunk index i |
| VectorStorage.ChunksRetrievableBySource | src/data/vector_store.py:182-213 | ingest then look up: the chunks split with a source's metadata, once prepared as records, all come back from the source filter, in order, with their text, file name and batch position |
| VectorStorage.FileChunksRetrievableBySource | src/data/vector_store.py:182-213 | the same for `process_document`'s chunks of a file: looking up its path gives back every chunk, with the file's name and the chunk's position |
| VectorStorage.HitDocument | src/data/vector_store.py:136-144 | the document rebuilt from a search hit: the row's fields, with the distance as its score |
| VectorStorage.VectorStore.constructor | src/data/vector_store.py:22-39 | after construction the table exists; stored rows are kept, and a missing table starts empty |
| VectorStorage.VectorStore.CreateTableIfNotExists | src/data/vector_store.py:42-65 | the table exists afterwards, and an existing table's rows are untouched |
| VectorStorage.VectorStore.DocumentCount | src/data/vector_store.py:155-167 | the count is the number of stored rows (0 when there is no table) |
| VectorStorage.VectorStore.AddDocuments | src/data/vector_store.py:68-108 | an empty batch changes nothing; an embedding error or a missing table changes nothing and is reported; otherwise the batch's records are appended in order and the count grows by the batch size |
| VectorStorage.VectorStore.SimilaritySearch | src/data/vector_store.py:111-152 | `k` is 5 by default; the query's embedding error is reported first, then a missing table; otherwise the result is the first min(k, hits) ranked hits, each a stored row rebuilt with its distance as score and paired with that distance, nearest first, and an empty table answers nothing |
| VectorStorage.VectorStore.ClearDatabase | src/data/vector_store.py:170-179 | afterwards the table holds no rows and exists exactly when it existed before |
| VectorStorage.VectorStore.GetDocumentsBySource | src/data/vector_store.py:182-213 | the result is the documents of the rows with that source, in row order, or `TableNotFound` |
| VectorStorage.ClearThenAdd | src/data/vector_store.py:170-175 | after a clear, adding a batch whose documents all embed leaves exactly that many rows |
| Chat.Snippet | src/llm/chat_manager.py:160 | `page_content[:200] + "..."`; `SnippetShape` states its shape |
| Chat.SourceOf | src/llm/chat_manager.py:158-161 | the source entry for one document, with the defaults for missing keys; `SourceDefaults` states them |
| Chat.SnippetShape | src/llm/chat_manager.py:160 | a snippet is the first min(200, n) characters followed by "...", and "..." is added even when nothing was cut |
| Chat.SourcesOf | src/llm/chat_manager.py:155-162 | the sources built for the source documents, one per document in order, as `SourcesOfShape` states |
| Chat.SourcesOfShape | src/llm/chat_manager.py:155-162 | exactly one source per source document, in order |
| Chat.SourceDefaults | src/llm/chat_manager.py:159-161 | a missing file name becomes "Desconocido" and a missing score 0.0; a score present as `None` stays `None` |
| Chat.BuildSources | src/llm/chat_manager.py:155-162 | the source loop yields exactly the specified source list |
| Chat.Scores | src/llm/chat_manager.py:167 | the scores that are not `None`, in order; `ScoresExactly`, `ScoresCount` and `ScoresSum` state which they are, how many, and what they add up to |
| Chat.Sum | src/llm/chat_manager.py:169 | Python's `sum`; `SumBounds` puts it between the count times the bounds |
| Chat.Confidence | src/llm/chat_manager.py:164-169 | the mean of the present scores, or 0.0 when there is none; the lemmas below state that it is a mean |
| Chat.ScoresExactly | src/llm/chat_manager.py:167 | no score is kept exactly when every score is `None` (both directions); each kept score is the score of some source; every present score is kept; there are as many kept scores as sources with a score |
| Chat.ScoresKeepPresent | src/llm/chat_manager.py:167 | every score that is not `None` is kept |
| Chat.ScoresCount | src/llm/chat_manager.py:167 | the number of kept scores is the number of sources with a score, so the mean divides by exactly that number |
| Chat.ScoresOrZero | src/llm/chat_manager.py:167-169 | every source's score with `None` as 0.0, one per source in order: the reference the kept scores are summed against |
| Chat.ScoresSum | src/llm/chat_manager.py:167-169 | the kept scores add up to the total of all present scores, each counted as often as it occurs, so the mean's numerator is fixed |
| Chat.ConfidenceIsMean | src/llm/chat_manager.py:164-169 | the confidence is the total of the present scores divided by the number of sources with a score, or 0.0 when there is none |
| Chat.ConfidenceBetween | src/llm/chat_manager.py:164-169 | the confidence is a mean: if some score is present and every present score lies in [lo, hi], the confidence lies in [lo, hi] |
| Chat.ConfidenceOfEqualScores | src/llm/chat_manager.py:164-169 | when all present scores equal c, the confidence is c |
| Chat.ConfidenceWithoutScores | src/llm/chat_manager.py:165-169 | with no present score, or no sources at all, the confidence is 0.0 |
| Chat.ConfidenceOfTwoScores | src/llm/chat_manager.py:169 | scores 0.9 and 0.7 give confidence 0.8 |
| Chat.ConfidenceSkipsNone | src/llm/chat_manager.py:167 | a `None` score between 0.9 and 0.7 is left out, and the confidence stays 0.8 |
| Chat.ConfidenceCountsMissingAsZero | src/llm/chat_manager.py:161 | a document without a score key counts as 0.0, so 0.9 and a missing score give 0.45 |
| Chat.Respond | src/llm/chat_manager.py:143-188 | the response `ask_question` builds for a question and the chain's outcome; `BlankQuestion`, `QuestionEchoedUnlessBlank`, `ChainFailure` and `ChainSuccess` state what it is in each case |
| Chat.BlankQuestion | src/llm/chat_manager.py:144-149 | a blank question gets the fixed prompt, no sources, confidence 0.0 and no `question` key, whatever the chain would do |
| Chat.QuestionEchoedUnlessBlank | src/llm/chat_manager.py:143-188 | the response holds the question exactly when the question is not blank |
| Chat.ChainFailure | src/llm/chat_manager.py:181-188 | a chain error becomes the apology followed by the error text, with no sources and confidence 0.0 |
| Chat.ChainSuccess | src/llm/chat_manager.py:171-176 | on success the response has the chain's answer, the echoed question, one source per source document in order, and their mean score |
| Chat.RoleName | src/llm/chat_manager.py:202 | `message.type`: "human", "ai" or "system" |
| Chat.HistoryOf | src/llm/chat_manager.py:199-205 | the `{role, content}` view of the memory; `HistoryOfShape` states it entry by entry |
| Chat.HistoryOfShape | src/llm/chat_manager.py:199-205 | one `{role, content}` entry per message, in order, with the message type as role |
| Chat.ChatManager.constructor | src/llm/chat_manager.py:41-45 | the conversation memory starts empty |
| Chat.ChatManager.AskQuestion | src/llm/chat_manager.py:133-188 | the response is the one specified above; the memory gains the human question and then the AI answer only when the question is not blank and the chain succeeds, and it is unchanged otherwise |
| Chat.ChatManager.GetChatHistory | src/llm/chat_manager.py:191-208 | the history is the specified view of the memory, and it changes nothing |
| Chat.ChatManager.ClearMemory | src/llm/chat_manager.py:211-218 | the memory is empty afterwards |
| Chat.ChatManager.GetConversationSummary | src/llm/chat_manager.py:221-247 | an empty memory gives "No hay historial de conversación."; otherwise the result is the model's summary of the history, or the fixed error text when the model fails |

## Left out

- The following are not part of this model: the Streamlit UI (`streamlit_app.py`), the logger and its `log_function_call` decorator (`src/core/logger.py`), and the settings (`config/settings.py`). The settings values are not needed, because the splitter and the models are parameters.
- LangChain, OpenAI, PyPDF2, python-docx and LanceDB are foreign code. Their behaviour is modelled as parameters:
  - the chain's retrieval, prompt and answer;
  - the contextual-compression retriever;
  - the embeddings and the cosine ranking;
  - the recursive character splitter;
  - the parsers.
- The chain is configured once, at construction: the prompt template and `_setup_retriever` / `_setup_conversation_chain`. This is not modelled beyond its effect on the memory.
- Only the final effect of the memory update is modelled. The chain's `ConversationBufferMemory` saves the question and the answer after a successful call.
- Text.Lower: lower-casing is modelled on ASCII letters only. No non-ASCII character lower-cases to a letter of "pdf" or "docx", so the dispatch decision is exact. Only the text of the extension inside `UnsupportedFormat` can differ for non-ASCII suffixes.
- Paths: paths use '/' only.
- `FileNotFound`: `Path(file_path)` normalises the path (repeated slashes, "." parts) before the existence check and in the error message. The model looks the path up as given and reports it as given.
- Directories are not modelled. A directory passes `exists()`, and the extractor then fails on it.
- `Paths.Suffix`: the rule is the one used by Python before 3.14, where a name ending in a dot has no suffix.
- `str(doc.metadata)`, the Python repr stored in the `metadata` column, is not modelled. A row keeps the metadata value itself.
- Documents.Metadata: `source` and `filename` are either absent or a string. A key that is present with the value `None` is not modelled. For such a key, `get('filename', 'unknown')` returns `None`, and the id becomes `None_i`.
- The row schema's `float32[1536]` embedding and `int32` chunk index are not modelled. Embeddings are sequences of reals, and chunk indexes are naturals.
- VectorStorage.VectorStore.SimilaritySearch: `k` is a natural. LanceDB's treatment of `limit(0)` and of a negative `k` is not visible here. The cap `min(k, hits)` is what the model states.
- Failures inside LanceDB's `create_table` and `drop_table` are not modelled.
- The quoting of `source` inside the `where` clause is not modelled: a source containing a quote alters the filter. The model compares sources exactly.
- VectorStorage.BySourceExactly: `table.search().where(...).to_list()` is subject to LanceDB's default query limit, which the source does not show. The lemma, together with `GetDocumentsBySource`, `BySourceAll` and the `ChunksRetrievableBySource` lemmas, describes the intended filter without that limit: no matching row is missed.
- VectorStorage.VectorStore.SimilaritySearch: the ranking is an oracle. `FromRows` records that every hit is a stored row, and that there are never more hits than rows. `NearestFirst` records that the hits come nearest first. Both are properties of LanceDB that the model assumes as preconditions.
- Confidence is computed on mathematical reals, not floats. The scores are cosine distances, so the confidence is not bounded to [0, 1]. `Chat.ConfidenceBetween` states the bound relative to the scores.
- Exceptions raised while the response is being built are not modelled, for example a malformed source document. `ask_question` would turn such an exception into the error response.
- Outside the chain call, the exception branches of `get_chat_history` and `clear_memory` cannot be reached in the model.
- Exceptions from the splitter are not modelled.
- Concurrency on the shared table is not modelled: clear against add or search.
- `tests/test_vector_store_manager.py` tests a vector-store manager that is not part of this model.
