/**
  The deterministic part of document ingestion: the positional chunk ID,
  the `ids` list, the per-chunk metadata records for text and PDF files,
  and the choice between the two by a substring test on the path. The
  splitter, the PDF loader and file reading are not visible here and enter
  as function parameters; the embedding call and the vector store are left
  out.
*/
module Ingest {
  import opened Strings
  import opened Decimal

  /** A value in a metadata dictionary: the records built here hold strings
      and integers only. */
  datatype MetaValue = Str(s: string) | Int(i: int)

  /** A Python dictionary of metadata. */
  type Metadata = map<string, MetaValue>

  /** A chunk produced by splitting loaded PDF pages: its text and the
      metadata the loader attached to it. */
  datatype LoadedChunk = LoadedChunk(pageContent: string, metadata: Metadata)

  /** What is handed to the vector store's `add`: documents, metadatas and
      ids, one entry per chunk in each. */
  datatype Batch = Batch(documents: seq<string>, metadatas: seq<Metadata>, ids: seq<string>)

  const ChunkInfix: string := "-chunk-"
  const NotAvailable: string := "N/A"

  /** The characters the ID must not contain. */
  predicate IsSeparator(c: char)
  {
    c == '/' || c == '\\' || c == '.'
  }

  /** `path.replace("/", "_").replace("\\", "_").replace(".", "_")`. */
  function SafePath(path: string): (safe: string)
    ensures |safe| == |path|
    ensures forall k :: 0 <= k < |path| ==> safe[k] == if IsSeparator(path[k]) then '_' else path[k]
  {
    ReplaceAll(ReplaceAll(ReplaceAll(path, '/', '_'), '\\', '_'), '.', '_')
  }

  /** `generate_positional_id(path, chunk_index)`. */
  function PositionalId(path: string, chunkIndex: int): (id: string)
    ensures forall k :: 0 <= k < |id| ==> !IsSeparator(id[k])
    ensures |id| >= |path| + |ChunkInfix| + 4
    ensures 0 <= chunkIndex < 10000 ==> |id| == |path| + |ChunkInfix| + 4
  {
    FourDigitsLength(chunkIndex);
    SafePath(path) + ChunkInfix + Format04d(chunkIndex)
  }

  lemma FourDigitsLength(n: int)
    ensures 0 <= n < 10000 ==> |Format04d(n)| == 4
  {
    if 0 <= n < 10000 {
      FourDigits(n);
    }
  }

  /** The ID is the cleaned path, the infix, and the index rendered as `04d`,
      so it starts with the cleaned path and ends with the rendered index. */
  lemma PositionalIdParts(path: string, chunkIndex: int)
    ensures SafePath(path) + ChunkInfix <= PositionalId(path, chunkIndex)
    ensures PositionalId(path, chunkIndex)[|path| + |ChunkInfix|..] == Format04d(chunkIndex)
  {
  }

  /** For one path, distinct indices (negative ones included) give distinct IDs. */
  lemma PositionalIdInjective(path: string, i: int, j: int)
    requires PositionalId(path, i) == PositionalId(path, j)
    ensures i == j
  {
    var n := |path| + |ChunkInfix|;
    assert PositionalId(path, i)[n..] == Format04d(i);
    assert PositionalId(path, j)[n..] == Format04d(j);
    Format04dInjective(i, j);
  }

  /** For one path and indices 0 to 9999, string order of the IDs is the
      numeric order of the indices. */
  lemma PositionalIdOrder(path: string, i: int, j: int)
    requires 0 <= i < 10000 && 0 <= j < 10000
    ensures LexLess(PositionalId(path, i), PositionalId(path, j)) <==> i < j
  {
    LexLessCommonPrefix(SafePath(path) + ChunkInfix, Format04d(i), Format04d(j));
    Format04dOrder(i, j);
  }

  /** IDs are not unique across paths: two paths that differ only in which
      separator they use share every ID. */
  lemma PositionalIdCollidesAcrossPaths()
    ensures PositionalId("a/b", 0) == PositionalId("a.b", 0)
  {
    assert SafePath("a/b") == SafePath("a.b");
  }

  /** The `ids` comprehension: `[generate_positional_id(path, i) for i, _ in enumerate(chunk_texts)]`. */
  function ChunkIds(path: string, chunkTexts: seq<string>): (ids: seq<string>)
    ensures |ids| == |chunkTexts|
    ensures forall i :: 0 <= i < |ids| ==> ids[i] == PositionalId(path, i)
  {
    seq(|chunkTexts|, i requires 0 <= i < |chunkTexts| => PositionalId(path, i))
  }

  /** No two chunks of one document share an ID. */
  lemma ChunkIdsDistinct(path: string, chunkTexts: seq<string>)
    ensures forall i, j :: 0 <= i < j < |ChunkIds(path, chunkTexts)| ==> ChunkIds(path, chunkTexts)[i] != ChunkIds(path, chunkTexts)[j]
  {
    var ids := ChunkIds(path, chunkTexts);
    forall i, j | 0 <= i < j < |ids|
      ensures ids[i] != ids[j]
    {
      if ids[i] == ids[j] {
        PositionalIdInjective(path, i, j);
      }
    }
  }

  /** Up to 10000 chunks, the IDs come out in strictly increasing string order. */
  lemma ChunkIdsSorted(path: string, chunkTexts: seq<string>)
    requires |chunkTexts| <= 10000
    ensures forall i, j :: 0 <= i < j < |ChunkIds(path, chunkTexts)| ==> LexLess(ChunkIds(path, chunkTexts)[i], ChunkIds(path, chunkTexts)[j])
  {
    var ids := ChunkIds(path, chunkTexts);
    forall i, j | 0 <= i < j < |ids|
      ensures LexLess(ids[i], ids[j])
    {
      PositionalIdOrder(path, i, j);
    }
  }

  /** `d.get(key, default)`. */
  function Get(d: Metadata, key: string, default: MetaValue): (v: MetaValue)
    ensures key in d ==> v == d[key]
    ensures key !in d ==> v == default
  {
    if key in d then d[key] else default
  }

  /** The record of one text-file chunk. */
  function TextRecord(path: string, i: int): Metadata
  {
    map["source" := Str(path), "chunk_index" := Int(i), "doc_type" := Str("txt")]
  }

  /** The text-file metadata comprehension, one record per chunk. */
  function TextMetadatas(path: string, chunkTexts: seq<string>): (ms: seq<Metadata>)
    ensures |ms| == |chunkTexts|
    ensures forall i :: 0 <= i < |ms| ==>
      ms[i].Keys == {"source", "chunk_index", "doc_type"} &&
      ms[i]["source"] == Str(path) && ms[i]["chunk_index"] == Int(i) && ms[i]["doc_type"] == Str("txt")
  {
    seq(|chunkTexts|, i requires 0 <= i < |chunkTexts| => TextRecord(path, i))
  }

  /** The record of one PDF chunk: the loader's `source` and `page` when it
      supplied them, the path and "N/A" when it did not. */
  function PdfRecord(path: string, chunk: LoadedChunk): Metadata
  {
    map[
      "source" := Get(chunk.metadata, "source", Str(path)),
      "page" := Get(chunk.metadata, "page", Str(NotAvailable)),
      "doc_type" := Str("pdf")]
  }

  /** The PDF metadata comprehension, one record per chunk. */
  function PdfMetadatas(path: string, chunks: seq<LoadedChunk>): (ms: seq<Metadata>)
    ensures |ms| == |chunks|
    ensures forall i :: 0 <= i < |ms| ==>
      ms[i].Keys == {"source", "page", "doc_type"} &&
      ms[i]["source"] == (if "source" in chunks[i].metadata then chunks[i].metadata["source"] else Str(path)) &&
      ms[i]["page"] == (if "page" in chunks[i].metadata then chunks[i].metadata["page"] else Str(NotAvailable)) &&
      ms[i]["doc_type"] == Str("pdf")
  {
    seq(|chunks|, i requires 0 <= i < |chunks| => PdfRecord(path, chunks[i]))
  }

  /** `[chunk.page_content for chunk in chunks]`. */
  function PageContents(chunks: seq<LoadedChunk>): (texts: seq<string>)
    ensures |texts| == |chunks|
    ensures forall i :: 0 <= i < |chunks| ==> texts[i] == chunks[i].pageContent
  {
    seq(|chunks|, i requires 0 <= i < |chunks| => chunks[i].pageContent)
  }

  /** The branch test `".pdf" in path`. */
  predicate IsPdfPath(path: string)
  {
    Contains(path, ".pdf")
  }

  /** The PDF branch is taken whenever ".pdf" occurs anywhere in the path,
      not only at its end. */
  lemma IsPdfPathAnywhere(path: string)
    ensures IsPdfPath(path) <==> exists i: nat :: OccursAt(path, ".pdf", i)
  {
    ContainsIffOccurs(path, ".pdf");
  }

  /** A path with ".pdf" in its middle takes the PDF branch. */
  lemma PdfInMiddleIsPdfPath()
    ensures IsPdfPath("notes.pdf.txt")
  {
    var p := "notes.pdf.txt";
    IsPdfPathAnywhere(p);
    assert p == "notes" + ".pdf" + ".txt";
    assert p[5..9] == ".pdf";
    assert OccursAt(p, ".pdf", 5);
  }

  /** A path ending in ".PDF" does not: the test is case-sensitive. */
  lemma UpperCasePdfIsNotPdfPath()
    ensures !IsPdfPath("report.PDF")
  {
    var p := "report.PDF";
    IsPdfPathAnywhere(p);
    forall i: nat | i + 4 <= |p|
      ensures !OccursAt(p, ".pdf", i)
    {
      assert p[i..i + 4][0] == p[i] && p[i..i + 4][1] == p[i + 1];
      if i < 6 {
        assert p[i] != '.';
      } else {
        assert p[i + 1] == 'P';
      }
    }
  }

  /** The arguments that `ingest` passes to the vector store's `add`, given
      the file reader, the text splitter and the PDF loader-and-splitter. */
  function IngestBatch(
    path: string,
    readFile: string -> string,
    splitText: string -> seq<string>,
    loadAndSplitPdf: string -> seq<LoadedChunk>): (b: Batch)
    ensures |b.documents| == |b.metadatas| == |b.ids|
    ensures b.ids == ChunkIds(path, b.documents)
    ensures IsPdfPath(path) ==>
      b.documents == PageContents(loadAndSplitPdf(path)) && b.metadatas == PdfMetadatas(path, loadAndSplitPdf(path))
    ensures !IsPdfPath(path) ==>
      b.documents == splitText(readFile(path)) && b.metadatas == TextMetadatas(path, b.documents)
  {
    if IsPdfPath(path) then
      var chunks := loadAndSplitPdf(path);
      var chunkTexts := PageContents(chunks);
      Batch(chunkTexts, PdfMetadatas(path, chunks), ChunkIds(path, chunkTexts))
    else
      var chunkTexts := splitText(readFile(path));
      Batch(chunkTexts, TextMetadatas(path, chunkTexts), ChunkIds(path, chunkTexts))
  }

  /** For a PDF, the batch has one entry per loaded chunk, and text, record
      and ID `i` all come from chunk `i`: no chunk is dropped, reordered or
      paired with another chunk's metadata. */
  lemma IngestBatchPdfChunks(
    path: string,
    readFile: string -> string,
    splitText: string -> seq<string>,
    loadAndSplitPdf: string -> seq<LoadedChunk>)
    requires IsPdfPath(path)
    ensures var b, chunks := IngestBatch(path, readFile, splitText, loadAndSplitPdf), loadAndSplitPdf(path);
      |b.documents| == |b.metadatas| == |b.ids| == |chunks| &&
      forall i :: 0 <= i < |chunks| ==>
        b.documents[i] == chunks[i].pageContent &&
        b.metadatas[i]["source"] == Get(chunks[i].metadata, "source", Str(path)) &&
        b.metadatas[i]["page"] == Get(chunks[i].metadata, "page", Str(NotAvailable)) &&
        b.ids[i] == PositionalId(path, i)
  {
    var b, chunks := IngestBatch(path, readFile, splitText, loadAndSplitPdf), loadAndSplitPdf(path);
    assert b.documents == PageContents(chunks);
    assert b.metadatas == PdfMetadatas(path, chunks);
  }

  /** In every batch the IDs are pairwise distinct, each record's
      `doc_type` names the branch taken, and a text record's `chunk_index`
      is the index its ID encodes. */
  lemma IngestBatchConsistent(
    path: string,
    readFile: string -> string,
    splitText: string -> seq<string>,
    loadAndSplitPdf: string -> seq<LoadedChunk>)
    ensures var b := IngestBatch(path, readFile, splitText, loadAndSplitPdf);
      (forall i, j :: 0 <= i < j < |b.ids| ==> b.ids[i] != b.ids[j]) &&
      (forall i :: 0 <= i < |b.metadatas| ==>
        "doc_type" in b.metadatas[i] &&
        b.metadatas[i]["doc_type"] == Str(if IsPdfPath(path) then "pdf" else "txt")) &&
      (!IsPdfPath(path) ==> forall i :: 0 <= i < |b.ids| ==>
        b.metadatas[i]["chunk_index"] == Int(i) &&
        b.ids[i] == SafePath(path) + ChunkInfix + Format04d(b.metadatas[i]["chunk_index"].i))
  {
    var b := IngestBatch(path, readFile, splitText, loadAndSplitPdf);
    ChunkIdsDistinct(path, b.documents);
  }
}
