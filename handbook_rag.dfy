/**
 * The handbook retrieval stage: the guard clauses around the vector search, the fusion of
 * the returned chunks into one context, a similarity and the cited pages, and the test
 * for questions about handbook topics.
 */
module HandbookRag {
  import opened Wrappers
  import opened Text

  /** One search hit: the chunk's text, its distance to the query (lower is closer) and its page, when recorded. */
  datatype Hit = Hit(text: string, distance: real, page: Option<int>)

  /** What the vector search did for the query: raised, or returned its hits. */
  datatype SearchOutcome = SearchRaised | SearchReturned(hits: seq<Hit>)

  /** The stage's answer: the fused context (if any), its similarity and the pages it cites. */
  datatype RagContext = RagContext(context: Option<string>, confidence: real, pages: seq<int>)

  /** The answer of every guard clause and of every caught error. */
  const NoContext: RagContext := RagContext(None, 0.0, [])

  /** The separator between chunks in the fused context. */
  const ChunkSeparator: string := "\n\n"

  // ---------------------------------------------------------------------------
  // Specification of the fusion
  // ---------------------------------------------------------------------------

  /** The texts of the hits, in search order. */
  function Texts(hits: seq<Hit>): (r: seq<string>)
    ensures |r| == |hits|
    ensures forall i :: 0 <= i < |hits| ==> r[i] == hits[i].text
  {
    seq(|hits|, i requires 0 <= i < |hits| => hits[i].text)
  }

  /** The distances of the hits, in search order. */
  function Distances(hits: seq<Hit>): (r: seq<real>)
    ensures |r| == |hits|
    ensures forall i :: 0 <= i < |hits| ==> r[i] == hits[i].distance
  {
    seq(|hits|, i requires 0 <= i < |hits| => hits[i].distance)
  }

  /** `sum(xs)` */
  function Sum(xs: seq<real>): real
    decreases |xs|
  {
    if xs == [] then 0.0 else Sum(xs[..|xs| - 1]) + xs[|xs| - 1]
  }

  /** A sum of non-negative terms is non-negative. */
  lemma {:induction false} SumNonNegative(xs: seq<real>)
    requires forall i :: 0 <= i < |xs| ==> xs[i] >= 0.0
    ensures Sum(xs) >= 0.0
    decreases |xs|
  {
    if xs != [] {
      SumNonNegative(xs[..|xs| - 1]);
    }
  }

  /** The pages recorded on the hits. */
  function PageSet(hits: seq<Hit>): set<int>
    decreases |hits|
  {
    if hits == [] then {}
    else
      var last := hits[|hits| - 1];
      PageSet(hits[..|hits| - 1]) + (if last.page.Some? then {last.page.value} else {})
  }

  /** A page is collected exactly when some hit records it. */
  lemma {:induction false} PageSetMembers(hits: seq<Hit>, p: int)
    ensures p in PageSet(hits) <==> exists i :: 0 <= i < |hits| && hits[i].page == Some(p)
    decreases |hits|
  {
    if hits != [] {
      var n := |hits|;
      PageSetMembers(hits[..n - 1], p);
      if p in PageSet(hits[..n - 1]) {
        var i :| 0 <= i < n - 1 && hits[..n - 1][i].page == Some(p);
        assert hits[i].page == Some(p);
      }
      if exists i :: 0 <= i < n && hits[i].page == Some(p) {
        var i :| 0 <= i < n && hits[i].page == Some(p);
        if i < n - 1 {
          assert hits[..n - 1][i].page == Some(p);
        }
      }
    }
  }

  /** The distance-to-similarity map `1 / (1 + d)`, defined wherever `1 + d` is not zero. */
  function Similarity(meanDistance: real): real
    requires meanDistance != -1.0
  {
    1.0 / (1.0 + meanDistance)
  }

  /** For non-negative distances the similarity lies in (0, 1], and equals 1 exactly at distance 0. */
  lemma SimilarityRange(d: real)
    requires d >= 0.0
    ensures 0.0 < Similarity(d) <= 1.0
    ensures Similarity(d) == 1.0 <==> d == 0.0
  {
    assert Similarity(d) * (1.0 + d) == 1.0;
  }

  /** A closer match scores higher: the similarity strictly decreases with the distance. */
  lemma SimilarityDecreasing(d: real, e: real)
    requires 0.0 <= d < e
    ensures Similarity(e) < Similarity(d)
  {
    SimilarityRange(d);
    SimilarityRange(e);
    var s, t := Similarity(d), Similarity(e);
    assert s * (1.0 + d) == 1.0 && t * (1.0 + e) == 1.0;
    assert t * (1.0 + e) - t * (1.0 + d) == t * (e - d);
    assert t * (e - d) > 0.0;
    assert (s - t) * (1.0 + d) == s * (1.0 + d) - t * (1.0 + d);
    assert (s - t) * (1.0 + d) > 0.0;
  }

  /** The fusion of a non-empty list of hits (specification of the fusion loop). */
  function Fuse(hits: seq<Hit>): RagContext
    requires hits != []
  {
    var meanDistance := Sum(Distances(hits)) / (|hits| as real);
    if meanDistance == -1.0 then NoContext  // the division by zero is caught
    else RagContext(Some(Join(Texts(hits), ChunkSeparator)), Similarity(meanDistance), SortedSet(PageSet(hits)))
  }

  /** The whole stage: guard clauses, then the search, then the fusion. */
  function Retrieve(indexReady: bool, chunkCount: nat, search: SearchOutcome): RagContext {
    if !indexReady || chunkCount == 0 then NoContext
    else match search
      case SearchRaised => NoContext
      case SearchReturned(hits) => if hits == [] then NoContext else Fuse(hits)
  }

  // ---------------------------------------------------------------------------
  // The stage
  // ---------------------------------------------------------------------------

  /**
   * Retrieval for one query. `indexReady` says whether the vector store was built,
   * `chunkCount` how many chunks it holds, and `search` what the nearest-neighbour search
   * returned for the query.
   */
  method GetRagContext(indexReady: bool, chunkCount: nat, search: SearchOutcome) returns (result: RagContext)
    ensures result == Retrieve(indexReady, chunkCount, search)
  {
    if !indexReady {
      return NoContext;
    }
    if chunkCount == 0 {
      return NoContext;
    }
    if search.SearchRaised? {
      return NoContext;
    }
    var results := search.hits;
    if results == [] {
      return NoContext;
    }
    var contextParts: seq<string> := [];
    var pages: set<int> := {};
    var scores: seq<real> := [];
    for i := 0 to |results|
      invariant contextParts == Texts(results[..i])
      invariant scores == Distances(results[..i])
      invariant pages == PageSet(results[..i])
    {
      var hit := results[i];
      assert results[..i + 1][..i] == results[..i];
      contextParts := contextParts + [hit.text];
      scores := scores + [hit.distance];
      if hit.page.Some? {
        pages := pages + {hit.page.value};
      }
    }
    assert results[..|results|] == results;
    var context := Join(contextParts, ChunkSeparator);
    var avgDistance := Sum(scores) / (|scores| as real);
    if 1.0 + avgDistance == 0.0 {
      return NoContext;
    }
    var avgSimilarity := 1.0 / (1.0 + avgDistance);
    result := RagContext(Some(context), avgSimilarity, SortedSet(pages));
  }

  // ---------------------------------------------------------------------------
  // Properties of the stage
  // ---------------------------------------------------------------------------

  /** Without an index, or with an empty one, the search result does not matter. */
  lemma GuardsIgnoreSearch(indexReady: bool, chunkCount: nat, s: SearchOutcome, t: SearchOutcome)
    requires !indexReady || chunkCount == 0
    ensures Retrieve(indexReady, chunkCount, s) == Retrieve(indexReady, chunkCount, t) == NoContext
  {
  }

  /** Every outcome is either the empty answer or a context with its confidence and pages. */
  lemma RetrieveNoContextOrFused(indexReady: bool, chunkCount: nat, search: SearchOutcome)
    ensures var r := Retrieve(indexReady, chunkCount, search);
      r.context.None? ==> r == NoContext
    ensures var r := Retrieve(indexReady, chunkCount, search);
      r.context.Some? <==>
        indexReady && chunkCount > 0 && search.SearchReturned? && search.hits != []
        && Sum(Distances(search.hits)) / (|search.hits| as real) != -1.0
  {
  }

  /** A fused answer holds the text of every hit. */
  lemma FusedContextHoldsHits(hits: seq<Hit>, i: nat)
    requires i < |hits| && Fuse(hits).context.Some?
    ensures Contains(Fuse(hits).context.value, hits[i].text)
  {
    JoinContainsParts(Texts(hits), ChunkSeparator, i);
  }

  /** With non-negative distances (which L2 distances are) a fused answer exists and its confidence lies in (0, 1]. */
  lemma FusedConfidence(hits: seq<Hit>)
    requires hits != []
    requires forall i :: 0 <= i < |hits| ==> hits[i].distance >= 0.0
    ensures Fuse(hits).context.Some?
    ensures 0.0 < Fuse(hits).confidence <= 1.0
  {
    SumNonNegative(Distances(hits));
    var meanDistance := Sum(Distances(hits)) / (|hits| as real);
    assert meanDistance >= 0.0;
    SimilarityRange(meanDistance);
  }

  /** The cited pages are exactly the recorded ones, each once, in ascending order. */
  lemma FusedPages(hits: seq<Hit>, p: int)
    requires hits != [] && Fuse(hits).context.Some?
    ensures StrictlyAscending(Fuse(hits).pages)
    ensures p in Fuse(hits).pages <==> exists i :: 0 <= i < |hits| && hits[i].page == Some(p)
  {
    PageSetMembers(hits, p);
  }

  /** Closer hits give a higher confidence: the confidence falls as the mean distance grows. */
  lemma CloserHitsScoreHigher(hits: seq<Hit>, others: seq<Hit>)
    requires hits != [] && others != []
    requires forall i :: 0 <= i < |hits| ==> hits[i].distance >= 0.0
    requires Sum(Distances(hits)) / (|hits| as real) < Sum(Distances(others)) / (|others| as real)
    ensures Fuse(others).confidence < Fuse(hits).confidence
  {
    hide Join, Texts, PageSet, SortedSet;
    SumNonNegative(Distances(hits));
    SimilarityDecreasing(Sum(Distances(hits)) / (|hits| as real), Sum(Distances(others)) / (|others| as real));
  }

  // ---------------------------------------------------------------------------
  // Handbook topics
  // ---------------------------------------------------------------------------

  /** The phrases that mark a question as a handbook topic. */
  const HandbookKeywords: seq<string> := [
    "handbook", "policy", "procedure", "rule", "regulation",
    "staff", "employee", "uniform", "dress code", "conduct",
    "working hours", "leave", "attire", "behavior", "guidelines"
  ]

  /** Whether the lower-cased question contains one of the handbook phrases. */
  predicate IsHandbookQuestion(question: string) {
    ContainsAny(Lower(question), HandbookKeywords)
  }

  /** The topic test ignores letter case. */
  lemma HandbookQuestionIgnoresCase(question: string)
    ensures IsHandbookQuestion(Lower(question)) == IsHandbookQuestion(question)
  {
    LowerIsLowerCase(question);
  }

  /** A question that mentions a handbook phrase, in any letter case, is a handbook question. */
  lemma MentionIsHandbookQuestion(before: string, mention: string, after: string, keyword: string)
    requires keyword in HandbookKeywords && Lower(mention) == keyword
    ensures IsHandbookQuestion(before + mention + after)
  {
    LowerAppend(before, mention, after);
    ContainsInfix(Lower(before), keyword, Lower(after));
  }
}
