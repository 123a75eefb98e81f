/**
  The query side: reshaping the nearest-neighbor results of one query into
  plain records, and assembling the citation-annotated context and the
  final prompt. The vector search call itself, the chunk-text store and
  the generative model are not modelled; the neighbor list is an input and
  the text lookup is a function parameter. Distances are carried as an
  opaque type `D`: nothing here compares or computes with them.
*/
module Core {

  datatype Option<T> = None | Some(value: T)

  /** A categorical restrict attached to an indexed datapoint. */
  datatype Restrict = Restrict(namespace: string, allow: seq<string>)

  datatype Datapoint = Datapoint(datapointId: string, restricts: seq<Restrict>)

  /** One neighbor of a query: the matched datapoint and its distance. */
  datatype Neighbor<D> = Neighbor(datapoint: Datapoint, distance: D)

  /** The record `{chunk_id, distance, metadata_restricts}` built per neighbor. */
  datatype RetrievedChunk<D> = RetrievedChunk(chunkId: string, distance: D, metadataRestricts: seq<Restrict>)

  /** The reshaping loop of `retrieve_relevant_chunks` over the neighbors of
      the first (and only) query: one record per neighbor, in order, each
      copying the datapoint's ID, the distance and the restricts. */
  method RetrieveRelevantChunks<D>(neighbors: seq<Neighbor<D>>) returns (retrievedContext: seq<RetrievedChunk<D>>)
    ensures |retrievedContext| == |neighbors|
    ensures forall i :: 0 <= i < |neighbors| ==>
      retrievedContext[i].chunkId == neighbors[i].datapoint.datapointId &&
      retrievedContext[i].distance == neighbors[i].distance &&
      retrievedContext[i].metadataRestricts == neighbors[i].datapoint.restricts
  {
    retrievedContext := [];
    for n := 0 to |neighbors|
      invariant |retrievedContext| == n
      invariant forall i :: 0 <= i < n ==>
        retrievedContext[i].chunkId == neighbors[i].datapoint.datapointId &&
        retrievedContext[i].distance == neighbors[i].distance &&
        retrievedContext[i].metadataRestricts == neighbors[i].datapoint.restricts
    {
      var neighbor := neighbors[n];
      var chunkId := neighbor.datapoint.datapointId;
      retrievedContext := retrievedContext + [RetrievedChunk(chunkId, neighbor.distance, neighbor.datapoint.restricts)];
    }
  }

  const SystemPrompt: string :=
    "You are an expert Q&A system. Answer the user's question ONLY based on "
    + "the context provided below. If the context does not contain the answer, "
    + "state clearly that the answer is not available in the provided documents. "
    + "Do not use external knowledge."

  const NotAvailable: string := "N/A"

  /** No restrict before position `k` has the namespace `namespace`. */
  predicate NoneBefore(restricts: seq<Restrict>, namespace: string, k: nat)
    requires k <= |restricts|
  {
    forall j :: 0 <= j < k ==> restricts[j].namespace != namespace
  }

  /** The lookup `next((r['allow'][0] for r in restricts if r['namespace'] == namespace), 'N/A')`
      does not fail: the first restrict with that namespace, if any, has a
      non-empty allow list. (The generator is lazy, so later ones are never read.) */
  predicate FirstAllowDefined(restricts: seq<Restrict>, namespace: string)
  {
    restricts != [] ==>
      if restricts[0].namespace == namespace then restricts[0].allow != []
      else FirstAllowDefined(restricts[1..], namespace)
  }

  /** The lookup is defined exactly when every restrict that is the first
      with the namespace has a non-empty allow list. */
  lemma {:induction false} FirstAllowDefinedIff(restricts: seq<Restrict>, namespace: string)
    ensures FirstAllowDefined(restricts, namespace) <==>
      forall k :: 0 <= k < |restricts| && restricts[k].namespace == namespace && NoneBefore(restricts, namespace, k) ==>
        restricts[k].allow != []
  {
    if restricts != [] && restricts[0].namespace != namespace {
      var tail := restricts[1..];
      FirstAllowDefinedIff(tail, namespace);
      forall k | 0 < k < |restricts|
        ensures NoneBefore(restricts, namespace, k) <==> NoneBefore(tail, namespace, k - 1)
      {
        if NoneBefore(tail, namespace, k - 1) {
          forall j | 0 <= j < k
            ensures restricts[j].namespace != namespace
          {
            if j > 0 {
              assert restricts[j] == tail[j - 1];
            }
          }
        }
        if NoneBefore(restricts, namespace, k) {
          forall j | 0 <= j < k - 1
            ensures tail[j].namespace != namespace
          {
            assert tail[j] == restricts[j + 1];
          }
        }
      }
      if FirstAllowDefined(restricts, namespace) {
        forall k | 0 <= k < |restricts| && restricts[k].namespace == namespace && NoneBefore(restricts, namespace, k)
          ensures restricts[k].allow != []
        {
          assert k > 0;
          assert tail[k - 1] == restricts[k];
        }
      } else {
        var k :| 0 <= k < |tail| && tail[k].namespace == namespace && NoneBefore(tail, namespace, k) && tail[k].allow == [];
        assert restricts[k + 1] == tail[k];
      }
    } else if restricts != [] {
      assert NoneBefore(restricts, namespace, 0);
    }
  }

  /** The citation field for `namespace`: `allow[0]` of the first restrict
      with that namespace, or "N/A" when none has it. */
  function FirstAllow(restricts: seq<Restrict>, namespace: string): (field: string)
    requires FirstAllowDefined(restricts, namespace)
    ensures (forall k :: 0 <= k < |restricts| ==> restricts[k].namespace != namespace) ==> field == NotAvailable
    ensures forall k :: 0 <= k < |restricts| && restricts[k].namespace == namespace && NoneBefore(restricts, namespace, k) ==>
      restricts[k].allow != [] && field == restricts[k].allow[0]
  {
    if restricts == [] then NotAvailable
    else if restricts[0].namespace == namespace then
      assert NoneBefore(restricts, namespace, 0);
      restricts[0].allow[0]
    else
      var tail := restricts[1..];
      assert forall k :: 0 < k < |restricts| && NoneBefore(restricts, namespace, k) ==> NoneBefore(tail, namespace, k - 1);
      FirstAllow(tail, namespace)
  }

  /** Both citation lookups of a chunk succeed. */
  predicate Citable(restricts: seq<Restrict>)
  {
    FirstAllowDefined(restricts, "source") && FirstAllowDefined(restricts, "page")
  }

  predicate AllCitable<D>(chunks: seq<RetrievedChunk<D>>)
  {
    forall i :: 0 <= i < |chunks| ==> Citable(chunks[i].metadataRestricts)
  }

  /** `f"[SOURCE: {source_doc}, page {page_num}]\n{chunk_text}\n\n"`. */
  function CitationBlock(sourceDoc: string, pageNum: string, chunkText: string): string
  {
    "[SOURCE: " + sourceDoc + ", page " + pageNum + "]\n" + chunkText + "\n\n"
  }

  /** The block one retrieved chunk contributes to the context. */
  function ContextBlock<D>(chunk: RetrievedChunk<D>, lookupChunkText: string -> string): string
    requires Citable(chunk.metadataRestricts)
  {
    CitationBlock(
      FirstAllow(chunk.metadataRestricts, "source"),
      FirstAllow(chunk.metadataRestricts, "page"),
      lookupChunkText(chunk.chunkId))
  }

  /** The block of every chunk, in the order the chunks were retrieved. */
  function Blocks<D>(chunks: seq<RetrievedChunk<D>>, lookupChunkText: string -> string): (blocks: seq<string>)
    requires AllCitable(chunks)
    ensures |blocks| == |chunks|
    ensures forall i :: 0 <= i < |chunks| ==> blocks[i] == ContextBlock(chunks[i], lookupChunkText)
  {
    seq(|chunks|, i requires 0 <= i < |chunks| => ContextBlock(chunks[i], lookupChunkText))
  }

  /** `"".join(parts)`. */
  function Concat(parts: seq<string>): string
  {
    if parts == [] then "" else parts[0] + Concat(parts[1..])
  }

  lemma {:induction false} ConcatSplit(a: seq<string>, b: seq<string>)
    ensures Concat(a + b) == Concat(a) + Concat(b)
  {
    if a == [] {
      assert a + b == b;
    } else {
      var ab := a + b;
      assert ab != [] && ab[0] == a[0] && ab[1..] == a[1..] + b;
      ConcatSplit(a[1..], b);
      calc {
        Concat(ab);
        a[0] + Concat(a[1..] + b);
        a[0] + (Concat(a[1..]) + Concat(b));
        (a[0] + Concat(a[1..])) + Concat(b);
      }
    }
  }

  /** The context: the blocks of all chunks, joined in retrieval order. */
  function ContextText<D>(chunks: seq<RetrievedChunk<D>>, lookupChunkText: string -> string): string
    requires AllCitable(chunks)
  {
    Concat(Blocks(chunks, lookupChunkText))
  }

  /** The context of a list is the context of any prefix followed by the
      context of the rest. */
  lemma ContextTextSplit<D>(chunks: seq<RetrievedChunk<D>>, k: nat, lookupChunkText: string -> string)
    requires AllCitable(chunks) && k <= |chunks|
    ensures AllCitable(chunks[..k]) && AllCitable(chunks[k..])
    ensures ContextText(chunks, lookupChunkText) == ContextText(chunks[..k], lookupChunkText) + ContextText(chunks[k..], lookupChunkText)
  {
    var head, rest := chunks[..k], chunks[k..];
    assert AllCitable(head) && AllCitable(rest);
    assert Blocks(chunks, lookupChunkText) == Blocks(head, lookupChunkText) + Blocks(rest, lookupChunkText);
    ConcatSplit(Blocks(head, lookupChunkText), Blocks(rest, lookupChunkText));
  }

  /** Appending one chunk appends exactly its block; the earlier context is
      left unchanged as a prefix. */
  lemma ContextTextAppend<D>(chunks: seq<RetrievedChunk<D>>, chunk: RetrievedChunk<D>, lookupChunkText: string -> string)
    requires AllCitable(chunks) && Citable(chunk.metadataRestricts)
    ensures AllCitable(chunks + [chunk])
    ensures ContextText(chunks + [chunk], lookupChunkText) == ContextText(chunks, lookupChunkText) + ContextBlock(chunk, lookupChunkText)
  {
    var all := chunks + [chunk];
    assert AllCitable(all);
    assert Blocks(all, lookupChunkText) == Blocks(chunks, lookupChunkText) + [ContextBlock(chunk, lookupChunkText)];
    ConcatSplit(Blocks(chunks, lookupChunkText), [ContextBlock(chunk, lookupChunkText)]);
    assert Concat([ContextBlock(chunk, lookupChunkText)]) == ContextBlock(chunk, lookupChunkText) + Concat([]);
  }

  const PromptHead: string := "<<SYSTEM INSTRUCTION>>\n" + SystemPrompt + "\n\n" + "<<CONTEXT>>\n"

  function QuerySection(userQuery: string): string
  {
    "\n" + "<<USER QUERY>>\n" + userQuery
  }

  /** The fixed template around the context and the user's query. */
  function AugmentedPrompt(contextText: string, userQuery: string): (prompt: string)
  {
    "<<SYSTEM INSTRUCTION>>\n" + SystemPrompt + "\n\n"
    + "<<CONTEXT>>\n" + contextText + "\n"
    + "<<USER QUERY>>\n" + userQuery
  }

  /** The prompt opens with the instruction and the context heading, carries
      the context unchanged, and closes with the query heading and the query
      verbatim. */
  lemma AugmentedPromptShape(contextText: string, userQuery: string)
    ensures AugmentedPrompt(contextText, userQuery) == PromptHead + contextText + QuerySection(userQuery)
    ensures PromptHead <= AugmentedPrompt(contextText, userQuery)
    ensures var p := AugmentedPrompt(contextText, userQuery);
      |p| >= |userQuery| && p[|p| - |userQuery|..] == userQuery
  {
  }

  /** Reads the context back out of a prompt built for `userQuery`. */
  function ExtractContext(prompt: string, userQuery: string): Option<string>
  {
    var tail := QuerySection(userQuery);
    if |prompt| >= |PromptHead| + |tail| && PromptHead <= prompt && prompt[|prompt| - |tail|..] == tail
    then Some(prompt[|PromptHead|..|prompt| - |tail|])
    else None
  }

  /** The template loses nothing: the context can be read back, so
      different contexts give different prompts for the same query. */
  lemma ExtractContextRoundTrip(contextText: string, userQuery: string)
    ensures ExtractContext(AugmentedPrompt(contextText, userQuery), userQuery) == Some(contextText)
  {
    AugmentedPromptShape(contextText, userQuery);
    var p := AugmentedPrompt(contextText, userQuery);
    var tail := QuerySection(userQuery);
    assert p[|p| - |tail|..] == tail;
    assert p[|PromptHead|..|p| - |tail|] == contextText;
  }

  /** With nothing retrieved, the context is empty and the prompt is the
      bare template. */
  lemma EmptyRetrievalPrompt<D>(userQuery: string, lookupChunkText: string -> string)
    ensures var none: seq<RetrievedChunk<D>> := []; ContextText(none, lookupChunkText) == ""
    ensures var none: seq<RetrievedChunk<D>> := [];
      AugmentedPrompt(ContextText(none, lookupChunkText), userQuery) == PromptHead + QuerySection(userQuery)
  {
  }

  /** `generate_augmented_prompt`: the context is accumulated block by block,
      in the order of the retrieved chunks, and wrapped in the template. */
  method GenerateAugmentedPrompt<D>(retrievedChunks: seq<RetrievedChunk<D>>, userQuery: string, lookupChunkText: string -> string)
    returns (augmentedPrompt: string)
    requires AllCitable(retrievedChunks)
    ensures augmentedPrompt == AugmentedPrompt(ContextText(retrievedChunks, lookupChunkText), userQuery)
  {
    var contextText := "";
    for n := 0 to |retrievedChunks|
      invariant AllCitable(retrievedChunks[..n])
      invariant contextText == ContextText(retrievedChunks[..n], lookupChunkText)
    {
      var chunk := retrievedChunks[n];
      var chunkText := lookupChunkText(chunk.chunkId);
      var sourceDoc := FirstAllow(chunk.metadataRestricts, "source");
      var pageNum := FirstAllow(chunk.metadataRestricts, "page");
      ContextTextAppend(retrievedChunks[..n], chunk, lookupChunkText);
      assert retrievedChunks[..n + 1] == retrievedChunks[..n] + [chunk];
      contextText := contextText + CitationBlock(sourceDoc, pageNum, chunkText);
    }
    assert retrievedChunks[..|retrievedChunks|] == retrievedChunks;
    augmentedPrompt := AugmentedPrompt(contextText, userQuery);
  }
}
