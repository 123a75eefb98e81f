# Chunk identity, ingestion metadata and prompt assembly of a RAG pipeline

This project models the deterministic core of a small retrieval-augmented
generation pipeline written in Python, and proves properties of that model.

On the ingestion side (`backend/ingest.py`), a document path and a chunk
position become a chunk ID. The path's `/`, `\` and `.` are rewritten to
`_`, then `-chunk-` and the position rendered as `04d` are appended. Every
chunk gets a metadata record: text files record the path, the chunk index
and `doc_type "txt"`; PDFs record the loader's `source` and `page`, or the
path and `"N/A"` when the loader gave none, and `doc_type "pdf"`. The PDF
branch is chosen by the substring test `".pdf" in path`.

On the query side (`backend/core.py`), the neighbors returned for one
query become `{chunk_id, distance, metadata_restricts}` records. The
prompt builder looks up each chunk's source and page citations in its
restricts and accumulates a context of citation blocks. It then wraps the
context and the user's query in a fixed instruction template.

Modules:

- `Strings` (`strings.dfy`): one-character `str.replace`, the substring
  test `in`, and Python's lexicographic string order.
- `Decimal` (`decimal.dfy`): Python's `04d` rendering of an integer. This
  includes the sign rule for negative numbers (`-5` gives `"-005"`) and
  the absence of truncation (`12345` gives `"12345"`). A reader is proved
  to be a left inverse of the rendering: reading back a rendering gives
  the number.
- `Ingest` (`ingest.dfy`): the ID, the list comprehensions of `ingest` as
  functions, the branch test, and the batch handed to the store.
- `Core` (`core.dfy`): the two loops of `backend/core.py` as methods
  proved against specification functions, the citation lookups, the
  context accumulation and the template.

External collaborators are parameters. The file reader, the text splitter
and the PDF loader-and-splitter are function parameters of
`Ingest.IngestBatch`. `lookup_chunk_text`, which the source calls but does
not define, is a parameter of `Core.GenerateAugmentedPrompt`. The neighbor
list of the first query result is an input of
`Core.RetrieveRelevantChunks`. Distances have an opaque type parameter `D`.

Facts about the code that the model keeps:
- The neighbors are not sorted by distance, and IDs whose text cannot be
  found are not dropped.
- There is no "no context" sentinel, so an empty retrieval still yields the
  template with an empty context section (`Core.EmptyRetrievalPrompt`).
- Chunk indices start at `0000`.
- IDs are unique only per path. Two paths that differ only in their
  separators collide (`Ingest.PositionalIdCollidesAcrossPaths`).
- The string order of IDs follows the index order only up to index 9999
  (`Decimal.Format04dOrderBreaksAtTenThousand`).

## Model

| member | source | states |
|---|---|---|
| `Strings.ReplaceAll` | backend/ingest.py:13 | `replace` with one-character arguments keeps the length, changes every occurrence of the target to the replacement, and keeps every other character |
| `Strings.ContainsIffOccurs` | backend/ingest.py:28 | a left-to-right scan that decides `needle in haystack` succeeds exactly when the needle occurs at some position |
| `Decimal.Format04d` | backend/ingest.py:14 | the `04d` rendering is at least four characters long and consists of digits and minus signs only; it is all digits for non-negative numbers |
| `Decimal.Format04dRoundTrip` | backend/ingest.py:14 | reading back the `04d` rendering of any integer, negative ones included, gives that integer |
| `Decimal.Format04dInjective` | backend/ingest.py:14 | two integers with the same `04d` rendering are equal |
| `Decimal.FourDigits` | backend/ingest.py:14 | for 0 to 9999 the rendering is exactly four digits denoting the number |
| `Decimal.Format04dOrder` | backend/ingest.py:14 | for 0 to 9999, one rendering is lexicographically smaller than another exactly when its number is smaller |
| `Decimal.Format04dOrderBreaksAtTenThousand` | backend/ingest.py:14 | at 10000 the rendering grows to five digits, and `"10000"` sorts before `"9999"` |
| `Ingest.SafePath` | backend/ingest.py:13 | the cleaned path has the path's length, has `_` wherever the path has `/`, `\` or `.`, and agrees with the path everywhere else |
| `Ingest.PositionalId` | backend/ingest.py:10-14 | the ID contains no `/`, `\` or `.`; its length is at least the path's length plus 11, and exactly that for indices 0 to 9999 |
| `Ingest.PositionalIdParts` | backend/ingest.py:13-14 | the ID starts with the cleaned path followed by `-chunk-`, and ends with the `04d` rendering of the index |
| `Ingest.PositionalIdInjective` | backend/ingest.py:14 | for a fixed path, equal IDs come from equal indices |
| `Ingest.PositionalIdOrder` | backend/ingest.py:14 | for a fixed path and indices 0 to 9999, one ID is lexicographically smaller than another exactly when its index is smaller |
| `Ingest.PositionalIdCollidesAcrossPaths` | backend/ingest.py:13 | `"a/b"` and `"a.b"` give the same ID, so IDs are not unique across paths |
| `Ingest.ChunkIds` | backend/ingest.py:64-67 | there is one ID per chunk text, and ID `i` is the positional ID of the path and `i` |
| `Ingest.ChunkIdsDistinct` | backend/ingest.py:64-67 | the IDs of one document's chunks are pairwise distinct |
| `Ingest.ChunkIdsSorted` | backend/ingest.py:64-67 | with at most 10000 chunks, the IDs are in strictly increasing lexicographic order |
| `Ingest.TextMetadatas` | backend/ingest.py:51-58 | there is one record per chunk; record `i` has exactly the keys `source`, `chunk_index` and `doc_type`, with the path, `i` and `"txt"` |
| `Ingest.PdfMetadatas` | backend/ingest.py:34-41 | there is one record per chunk, with exactly the keys `source`, `page` and `doc_type`; `source` and `page` are the loader's values when present, otherwise the path and `"N/A"`; `doc_type` is `"pdf"` |
| `Ingest.IsPdfPathAnywhere` | backend/ingest.py:28 | the PDF branch is taken exactly when `".pdf"` occurs at some position of the path, not only at its end |
| `Ingest.PdfInMiddleIsPdfPath` | backend/ingest.py:28 | `"notes.pdf.txt"` takes the PDF branch although it does not end in `.pdf` |
| `Ingest.UpperCasePdfIsNotPdfPath` | backend/ingest.py:28 | `"report.PDF"` takes the text branch, because the test is case-sensitive |
| `Ingest.IngestBatch` | backend/ingest.py:28-67 | documents, metadatas and IDs have equal length, and the IDs are the positional IDs of the documents; a `.pdf` path uses the loader's page contents and PDF records, any other path uses the split file text and text records |
| `Ingest.IngestBatchPdfChunks` | backend/ingest.py:28-67 | for a `.pdf` path there is exactly one document, one record and one ID per loaded chunk; document `i` is chunk `i`'s page content, record `i` carries chunk `i`'s `source` and `page` or the defaults, and ID `i` is the positional ID of the path and `i` |
| `Ingest.IngestBatchConsistent` | backend/ingest.py:28-67 | in every batch the IDs are pairwise distinct and every record's `doc_type` names the branch taken; for a text file, the ID of chunk `i` is the cleaned path, `-chunk-`, and the rendering of the record's own `chunk_index`, which is `i` |
| `Core.RetrieveRelevantChunks` | backend/core.py:33-57 | one record per neighbor, in the same order; each record's `chunk_id` is the neighbor's datapoint ID, and its distance and restricts are copied unchanged |
| `Core.FirstAllowDefinedIff` | backend/core.py:79-80 | the citation lookup cannot fail exactly when the first restrict with the namespace, if any, has a non-empty allow list |
| `Core.FirstAllow` | backend/core.py:79-80 | with no restrict in the namespace the field is `"N/A"`; otherwise it is `allow[0]` of the first restrict in the namespace |
| `Core.ConcatSplit` | backend/core.py:70-83 | joining two lists of blocks one after the other gives the join of the first list followed by the join of the second |
| `Core.ContextTextSplit` | backend/core.py:70-83 | the context of a chunk list is the context of any prefix followed by the context of the remaining chunks |
| `Core.ContextTextAppend` | backend/core.py:71-83 | appending a chunk extends the context by exactly that chunk's citation block; the earlier blocks stay as a prefix |
| `Core.AugmentedPromptShape` | backend/core.py:85-89 | the prompt is the instruction head (system instruction and context heading), the context unchanged, then the query heading and the query verbatim at the end |
| `Core.ExtractContextRoundTrip` | backend/core.py:85-89 | the context can be read back from the prompt of a known query, so the template loses nothing |
| `Core.EmptyRetrievalPrompt` | backend/core.py:70-89 | with no chunks the context is empty and the prompt is the bare template |
| `Core.GenerateAugmentedPrompt` | backend/core.py:59-90 | the prompt is the template around the in-order concatenation of `"[SOURCE: s, page p]\n" + text + "\n\n"` over the chunks, with the citations found by the lookup above |

## Left out

- The embedding model, the PyPDF loader, the recursive text splitter and file reading (backend/ingest.py:17-23, 29-31, 45-47, 60-61): library and I/O code. The splitter and loader enter `Ingest.IngestBatch` as function parameters, and no chunk-count or chunk-boundary property is claimed.
- The persistent Chroma client, `get_or_create_collection`, `collection.add` and the final `print` (backend/ingest.py:8, 69-78): storage and output. The model stops at the batch those calls receive.
- The vector search endpoint and `find_neighbors` (backend/core.py:21-29), including the `results[0]` indexing: network calls. The neighbor list of the first query is an input.
- `process_query` (backend/core.py:92-129): embedding and generative-model calls. It also refers to a name the file never defines.
- `lookup_chunk_text`: the source calls it but does not define it. It is an uninterpreted function parameter.
- Environment variables (backend/core.py:6-11), frontend/app.py and main.py: configuration, UI and launcher code with no logic of the core.
- Distances and embedding vectors as floating point: distance has an opaque type parameter. The code neither compares nor computes with it.
- Metadata values other than strings and integers: the loader's metadata is modelled as a map to strings and integers only. Python's key insertion order in a dictionary is not modelled (a Dafny map is unordered).
- Restricts are records with a namespace and an allow list, as the subscripts `r['namespace']` and `r['allow'][0]` in backend/core.py:79-80 treat them. Numeric restricts do not appear in the code.
- Core.GenerateAugmentedPrompt: the `IndexError` Python raises when the first matching restrict has an empty allow list is a precondition (`Core.AllCitable`), not a modelled error result.
