# A Dafny model of the assistant's index manager, login table and chat-model factory

This project models three small pieces of logic in a chat assistant that uses tools and retrieval over documents:

- **`VectorStoreManager`** (services/vectorstore.py) keeps a FAISS index of document chunks. Its `vectorstore` field holds the index in memory, or `None`. A copy of the index is persisted in the configured index directory. `VectorStore.VectorStoreManager` models the field. `VectorStore.Disk` models the persisted copy as either absent or some index, and several managers can share one disk. An index is modelled as its sequence of chunks in insertion order. The methods follow the source branch for branch:
  - the lazy load in `add_document_to_vectorstore` and `search_documents`;
  - "build or append, then always save" in `add_document_to_vectorstore`;
  - `reset_vectorstore` clears memory only when a disk copy exists;
  - the sentinel reply of `search`.
- **The file-type check** of `load_and_split_document` is a pure classifier, `VectorStore.DocumentFormat`. It lower-cases the path and checks `.pdf` first, then `.html`/`.htm`. Anything else is refused with the ValueError message.
- **`AuthManager`** (services/auth.py) is a fixed table of two accounts. It has a guarded lookup and an identity session id.
- **`LLMFactory`** (models/llm.py) turns a model name into a client. The match on the name ignores case. A Gemini client needs an API key and falls back to the configured one. The client is modelled as a tagged record of the constructor arguments (`Llm.ChatModel`).

The application builds two managers over one index directory. The interface has one (ui/app.py:9) and the tool module has another (tools/tools.py:10). `VectorStore.StaleSearchAfterReset` and `VectorStore.StaleSearchAfterAdd` model this wiring. They prove that the tools' manager keeps answering from the index it loaded first. A reset or an upload through the interface does not change its answers.

Foreign calls appear only as parameters:
- `split` is the chunk sequence that the loader and splitter produce for a file.
- `rank(index, query)` is the list of index positions the similarity retriever returns, best first. Positions outside the index are dropped.
- `Llm.Settings` holds the values that `Config` reads from the environment.

Errors raised as `ValueError` become `Wrappers.Result.Err` carrying the same message.

A FAISS object defines no length, so Python's truthiness tests on `self.vectorstore` mean "is not `None`". An index that is present but has no chunks is therefore treated as an index. In that case `search_documents` returns the empty join `""`, not the sentinel. The sentinel is returned only when no index exists after the lazy load.

## Model

| member | source | states |
|---|---|---|
| `Text.LowerChar` | services/vectorstore.py:50 | a lower-cased character is never an ASCII capital; an ASCII capital maps to its small letter; every other character is kept (non-ASCII capitals too, see Left out) |
| `Text.EndsWith` | services/vectorstore.py:50-52 | true exactly when the string is some prefix of it followed by the suffix |
| `Text.Join` | services/vectorstore.py:86 | no parts give ""; otherwise the result starts with the first part (every later part at its offset is `Text.JoinHoldsPart`) |
| `Text.Lower` | services/vectorstore.py:50 | the lower-cased string has the same length, and each character is that character lower-cased |
| `Text.LowerIdempotent` | services/vectorstore.py:50-52 | the result of lower-casing holds no capital, and lower-casing it again changes nothing |
| `Text.LowerAppend` | services/vectorstore.py:50-52 | lower-casing a concatenation lower-cases each piece |
| `Text.PartOffsetStep` | services/vectorstore.py:86 | the next part starts after this part and one separator |
| `Text.JoinSeparates` | services/vectorstore.py:86 | the separator stands right after every part but the last |
| `Text.JoinLength` | services/vectorstore.py:86 | the join ends where the last part ends: nothing follows the last part |
| `Text.JoinHoldsPart` | services/vectorstore.py:86 | every part appears unchanged at its computed offset in the joined string |
| `VectorStore.SuffixOfLower` | services/vectorstore.py:50-52 | "the lower-cased path ends with s" holds exactly when the path's last characters, each lower-cased, spell s |
| `VectorStore.DocumentFormat` | services/vectorstore.py:50-55 | PDF iff the path ends in `.pdf` in any case; HTML iff it does not, but ends in `.html` or `.htm`; the unsupported-format error iff it ends in none of them |
| `VectorStore.DocumentFormatIgnoresCase` | services/vectorstore.py:50-52 | paths that are equal once lower-cased get the same loader or the same error |
| `VectorStore.DocumentFormatOfExtension` | services/vectorstore.py:50-53 | any stem followed by any casing of `.pdf` gives PDF; followed by any casing of `.html` or `.htm` it gives HTML |
| `VectorStore.DocumentFormatRefusesLastChar` | services/vectorstore.py:54-55 | a path whose lower-cased last character is not f, l or m is refused with the unsupported-format message |
| `VectorStore.DocumentFormatAcceptsPdfExample` | services/vectorstore.py:50-51 | `Report.PDF` gives PDF |
| `VectorStore.DocumentFormatAcceptsHtmlExample` | services/vectorstore.py:52-53 | `page.HtM` gives HTML |
| `VectorStore.DocumentFormatRefusesExamples` | services/vectorstore.py:54-55 | `notes.txt` and `scan.pdf.zip` are refused |
| `VectorStore.LoadAndSplitDocument` | services/vectorstore.py:48-59 | fails, with the unsupported-format message, exactly when the format check fails; otherwise yields the splitter's chunks |
| `VectorStore.AddedMessage` | services/vectorstore.py:74 | the reply is "Added ", then the file path verbatim, then " to vectorstore." |
| `VectorStore.AfterAdd` | services/vectorstore.py:65-71 | a chunk is in the index after the add exactly when it is one of the new chunks or was in the index found after the lazy load |
| `VectorStore.AfterAddExtends` | services/vectorstore.py:65-71 | starting from no index, the result is just the new chunks; otherwise it is the old index unchanged as a prefix, followed by the new chunks |
| `VectorStore.AfterAddTwice` | services/vectorstore.py:65-71 | two adds in a row give the same index as one add of both chunk sequences |
| `VectorStore.Hits` | services/vectorstore.py:84-85 | the retrieved chunks all come from the index, there are at most as many as ranked positions, and when every position is in range they are exactly the chunks at those positions, in rank order |
| `VectorStore.Texts` | services/vectorstore.py:86 | one text per hit: that hit's `page_content`, in order |
| `VectorStore.SearchReply` | services/vectorstore.py:81-86 | no index gives the no-documents sentinel; an index with no hits gives ""; a single hit gives its page content; otherwise the reply starts with the best hit's page content |
| `VectorStore.SearchReplyHoldsHits` | services/vectorstore.py:84-86 | the reply holds each hit's page content, in rank order, at its place in the "\n\n"-joined list |
| `VectorStore.SearchReplySeparatesHits` | services/vectorstore.py:86 | between the texts of neighbouring hits the reply holds exactly "\n\n" |
| `VectorStore.SearchReplyEndsWithLastHit` | services/vectorstore.py:86 | the reply ends with the last hit's page content, with nothing after it |
| `VectorStore.Disk.constructor` | config.py:17 | the persisted copy at the configured path starts as given: absent or some index |
| `VectorStore.VectorStoreManager.constructor` | services/vectorstore.py:17-20 | a new manager sits on the given disk with no index in memory |
| `VectorStore.VectorStoreManager.CreateOrLoadVectorstore` | services/vectorstore.py:22-32 | the in-memory index becomes the persisted copy, or None when there is none; returns it; the disk is unchanged; so a second call leaves the same state |
| `VectorStore.VectorStoreManager.SaveVectorstore` | services/vectorstore.py:34-37 | the disk copy becomes the in-memory index when one is present; otherwise the disk is left as it was |
| `VectorStore.VectorStoreManager.ResetVectorstore` | services/vectorstore.py:39-46 | with a disk copy: deletes it, clears memory, returns "Vectorstore reset complete."; without one: returns "No vectorstore to reset." and leaves memory as it was, even when an index is loaded |
| `VectorStore.VectorStoreManager.AddDocumentToVectorstore` | services/vectorstore.py:61-74 | an unsupported extension fails before memory or disk is touched; otherwise memory becomes the lazily loaded index with the new chunks appended (just the new chunks from nothing), the disk copy equals it, and the reply is "Added {file_path} to vectorstore." |
| `VectorStore.VectorStoreManager.SearchDocuments` | services/vectorstore.py:76-86 | reloads only when memory is None, so a loaded index is never refreshed; never writes the disk; no index after the load gives exactly the no-documents sentinel; otherwise gives the hit texts joined with "\n\n" |
| `VectorStore.LoadTwice` | services/vectorstore.py:22-32 | loading twice with no mutation in between returns the persisted copy both times |
| `VectorStore.StaleSearchAfterReset` | tools/tools.py:10 | with the interface's and the tools' managers over one disk: the reset deletes the disk copy, yet the tools' next search repeats the reply it gave from the deleted index |
| `VectorStore.StaleSearchAfterResetWitness` | tools/tools.py:10 | one chunk "x" on disk, a retriever returning it: after the interface's reset has deleted the disk copy, the tools' search still replies "x", not the no-documents sentinel |
| `VectorStore.StaleSearchAfterAdd` | services/vectorstore.py:78-79 | after the interface's manager adds a document, the disk holds the old index plus the new chunks, but the tools' manager, having loaded before, answers from the old index |
| `VectorStore.StaleSearchAfterAddWitness` | services/vectorstore.py:78-79 | "a" on disk, "b" uploaded through the interface, a retriever picking the newest chunk: the tools' manager answers "a" while a manager loading the new disk copy answers "b" |
| `VectorStore.NewestChunkReplies` | services/vectorstore.py:84-86 | with one hit, the reply is exactly that hit's page content: "a" from the index [a], "b" from [a, b] when the newest position is ranked |
| `VectorStore.FirstSearchSeesUpload` | services/vectorstore.py:78-79 | whatever was stored before, a tools' manager that had not loaded yet answers from the stored index with the other manager's upload appended |
| `VectorStore.SharedManagerSearchAfterReset` | services/vectorstore.py:39-46 | with a single shared manager, a search after a reset returns the no-documents sentinel |
| `VectorStore.UnsupportedUploadChangesNothing` | services/vectorstore.py:61-63 | an upload with an unsupported extension returns the error and leaves memory empty and the disk as it was |
| `Auth.AuthManager.AuthenticateUser` | services/auth.py:11-23 | true exactly when (username, password) is one of the credential table's entries; a function of the table, so it cannot modify it |
| `Auth.AuthManager.GetUserSessionId` | services/auth.py:25-35 | the session id is the user name, unchanged |
| `Auth.NewAuthManager` | services/auth.py:4-9 | the table has exactly the keys alice and bob, with passwords password123 and secure456 |
| `Auth.UnknownUserRejected` | services/auth.py:22 | a user name not in the table is refused, whatever the password, and the lookup is never reached |
| `Auth.WrongPasswordRejected` | services/auth.py:23 | a known user with a password other than the stored one is refused |
| `Auth.AcceptedPasswordUnique` | services/auth.py:22-23 | a user has at most one accepted password |
| `Auth.DemoAccountsAccepted` | services/auth.py:6-9 | the built-in manager accepts exactly (alice, password123) and (bob, secure456) |
| `Auth.SessionIdsDistinct` | services/auth.py:35 | distinct users get distinct session ids |
| `Llm.EffectiveApiKey` | models/llm.py:24 | the key is the given one when that is non-empty and the configured one otherwise; it is empty exactly when both are empty |
| `Llm.GetAvailableModels` | models/llm.py:40-43 | exactly ["llama", "gemini"] |
| `Llm.CreateLlm` | models/llm.py:9-38 | a success means the lower-cased name is one of the available models; a failure carries either the missing-key or the unsupported-model message |
| `Llm.CreateLlmIgnoresCase` | models/llm.py:20-23 | names equal up to letter case give the same client or the same error |
| `Llm.LlamaIgnoresKey` | models/llm.py:20-21 | any casing of "llama" builds the Ollama client with the configured Llama model, whatever the key |
| `Llm.GeminiNeedsKey` | models/llm.py:23-35 | any casing of "gemini" fails with the missing-key error exactly when both keys are empty; otherwise it succeeds, also when only the configured key is set, and builds the Gemini client with the configured model, the effective key, temperature 0, no token limit, no timeout and 2 retries |
| `Llm.OtherNamesUnsupported` | models/llm.py:37-38 | any name that is neither "llama" nor "gemini" once lower-cased is refused as unsupported |
| `Llm.AvailableModelsAccepted` | models/llm.py:43 | each listed name is already lower-case, and `create_llm` accepts it, gemini only when the effective key is non-empty |

## Findings

| source | as written | input that shows it | evidently intended | confidence | as-written member | corrected member |
|---|---|---|---|---|---|---|
| tools/tools.py:10 | the tools build their own `VectorStoreManager`, separate from the interface's one (ui/app.py:9); `search_documents` reloads only when its field is `None` | index on disk; a document search through the tool; "Reset Vectorstore" in the interface; another document search | the reset deletes the index and later searches report that there are no documents; the comment at tools/tools.py:9 calls the tools' manager global | medium, not executed | `VectorStore.StaleSearchAfterReset` | `VectorStore.SharedManagerSearchAfterReset` |

The same wiring means the tools never see uploads made after their first search (`VectorStore.StaleSearchAfterAdd`). A manager that has not searched yet does see them (`VectorStore.FirstSearchSeesUpload`). A manager alone over its disk keeps `InSync`: when it has an index in memory, that index equals the persisted one. Every method preserves this, so with one shared manager a search after a reset gives the sentinel.

## Left out

- Loading, splitting and embedding (`PyPDFLoader`, `UnstructuredHTMLLoader`, `RecursiveCharacterTextSplitter`, `HuggingFaceEmbeddings`) are foreign. The chunks a file yields are a parameter. No chunk-size or overlap guarantee is claimed, since 250 and 50 are only arguments passed to the splitter.
- Similarity search is foreign floating-point code. The ranked positions are a parameter, and no bound of 3 results is claimed. `k=3` is passed to `as_retriever` as a top-level keyword, not through `search_kwargs`.
- `FAISS.from_documents` with an empty chunk list is foreign behaviour. The model builds an index with no chunks.
- Building the loader after the format check, `shutil.rmtree`, and the reads and writes of the index directory are I/O. The model keeps only the presence and contents of the persisted copy.
- `load_dataframe` (`pd.read_csv`) is foreign I/O and is not modelled.
- `Text.LowerChar`, `Text.Lower`: fold only ASCII capitals and keep every other character, while Python's `str.lower` folds all of Unicode. The names and suffixes compared are ASCII, but the model does not establish whether non-ASCII input could lower-case to `.pdf`, `.html`, `.htm`, `llama` or `gemini`.
- The values of `Config` (config.py) come from the environment, so they are passed in as `Llm.Settings`. The directory creation in config.py is not modelled.
- `create_llm`'s default argument `google_api_key=""` is not modelled as a default. Callers pass the key explicitly, and "" means none.
- The chat clients themselves (`ChatOllama`, `ChatGoogleGenerativeAI`) are not modelled. Only their constructor arguments are.
- The agent loop and checkpointing (models/agents.py), the tools other than document search (tools/tools.py), OCR (services/ocr.py) and the Streamlit interface (ui/app.py) are glue around foreign libraries and are not part of this model.
