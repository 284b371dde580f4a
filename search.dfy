/**
 * `MSMarcoSearchEngine.search`: pairs the retrieved indices with their
 * scores, looks up each passage's metadata and numbers the results from 1.
 */
module Search {
  import opened Wrappers

  /** One `doc_metadata` entry; `isSelected` is the dataset's integer flag. */
  datatype PassageMetadata = PassageMetadata(id: string, queryId: int, passage: string, isSelected: int)

  /** One result dictionary; the score type is left abstract. */
  datatype SearchResult<S> = SearchResult(rank: nat, id: string, queryId: int, score: S,
                                          passage: string, isSelected: bool)

  /**
   * Python's `IndexError` for `doc_metadata[idx]`. Python's message is only
   * "list index out of range"; the model records the offending index.
   */
  datatype IndexError = IndexError(index: int)

  /** Python's list indexing: a negative index counts from the end. */
  function ListIndex(len: nat, idx: int): (r: Option<nat>)
    ensures r.Some? <==> -(len as int) <= idx < len
    ensures r.Some? ==> r.value < len && (r.value == idx || r.value == len + idx)
  {
    if 0 <= idx < len then Some(idx)
    else if -(len as int) <= idx < 0 then Some(len + idx)
    else None
  }

  /** `zip` stops at the shorter sequence. */
  function ZipLength<A, B>(a: seq<A>, b: seq<B>): (n: nat)
    ensures n <= |a| && n <= |b|
    ensures n == |a| || n == |b|
  {
    if |a| < |b| then |a| else |b|
  }

  /** The indices `search` looks up, all of them valid for `n` passages. */
  predicate AllIndexable(topIndices: seq<int>, count: nat, n: nat)
    requires count <= |topIndices|
  {
    forall i | 0 <= i < count :: ListIndex(n, topIndices[i]).Some?
  }

  /** The result `search` builds for the `i`-th pair. */
  function ResultFor<S>(meta: PassageMetadata, i: nat, score: S): (r: SearchResult<S>)
    ensures r.rank == i + 1 && r.score == score
    ensures r.id == meta.id && r.queryId == meta.queryId && r.passage == meta.passage
    ensures r.isSelected <==> meta.isSelected != 0
  {
    SearchResult(i + 1, meta.id, meta.queryId, score, meta.passage, meta.isSelected != 0)
  }

  class MSMarcoSearchEngine {
    const docMetadata: seq<PassageMetadata>

    constructor (docMetadata: seq<PassageMetadata>)
      ensures this.docMetadata == docMetadata
    {
      this.docMetadata := docMetadata;
    }

    /**
     * The loop of `search` over `zip(top_indices, scores)`: one result per
     * pair, in order, ranked 1, 2, 3, ..., each carrying its passage's
     * metadata and its score. The first index outside `doc_metadata` raises
     * an `IndexError` and no results are returned.
     */
    method Search<S>(topIndices: seq<int>, scores: seq<S>) returns (r: Result<seq<SearchResult<S>>, IndexError>)
      ensures var count := ZipLength(topIndices, scores);
              r.Success? <==> AllIndexable(topIndices, count, |docMetadata|)
      ensures r.Success? ==>
                && |r.value| == ZipLength(topIndices, scores)
                && forall i | 0 <= i < |r.value| ::
                     && ListIndex(|docMetadata|, topIndices[i]).Some?
                     && r.value[i] == ResultFor(docMetadata[ListIndex(|docMetadata|, topIndices[i]).value], i, scores[i])
      ensures r.Failure? ==>
                exists i | 0 <= i < ZipLength(topIndices, scores) ::
                  && AllIndexable(topIndices, i, |docMetadata|)
                  && ListIndex(|docMetadata|, topIndices[i]).None?
                  && r.error == IndexError(topIndices[i])
    {
      var results: seq<SearchResult<S>> := [];
      var count := ZipLength(topIndices, scores);
      for i := 0 to count
        invariant |results| == i
        invariant AllIndexable(topIndices, i, |docMetadata|)
        invariant forall j | 0 <= j < i ::
                    && ListIndex(|docMetadata|, topIndices[j]).Some?
                    && results[j] == ResultFor(docMetadata[ListIndex(|docMetadata|, topIndices[j]).value], j, scores[j])
      {
        var idx := topIndices[i];
        var position := ListIndex(|docMetadata|, idx);
        if position.None? {
          return Failure(IndexError(idx));
        }
        var docInfo := docMetadata[position.value];
        results := results + [ResultFor(docInfo, i, scores[i])];
      }
      r := Success(results);
    }
  }
}
