/**
 * `BM25Retriever`: the integer part of the index build (document lengths,
 * per-document term counts, document frequencies) and the length of the
 * top-k selection. Scores, IDF and the average length are floating point
 * and are not part of this model.
 */
module Bm25 {

  type Document = seq<string>
  type Corpus = seq<Document>

  /** doc id -> number of occurrences of a term in that document */
  type Postings = map<int, nat>

  /** term -> postings, the shape of `term_frequencies` */
  type TermIndex = map<string, Postings>

  // -----------------------------------------------------------------------
  // The index as a definition

  /** Every term occurring somewhere in the corpus. */
  function Vocabulary(corpus: Corpus): set<string>
  {
    set d, t | 0 <= d < |corpus| && t in corpus[d] :: t
  }

  /** The documents containing `term`, each with its number of occurrences. */
  function PostingsOf(corpus: Corpus, term: string): Postings
  {
    map d: nat | d < |corpus| && term in corpus[d] :: multiset(corpus[d])[term]
  }

  /** The term-frequency index of a corpus. */
  function TermFrequencies(corpus: Corpus): TermIndex
  {
    map t | t in Vocabulary(corpus) :: PostingsOf(corpus, t)
  }

  /** The documents that contain `term`. */
  function DocsContaining(corpus: Corpus, term: string): set<nat>
  {
    set d: nat | d < |corpus| && term in corpus[d]
  }

  /** `doc_lengths`: the token count of each document. */
  function DocLengths(corpus: Corpus): (lengths: seq<nat>)
    ensures |lengths| == |corpus|
    ensures forall d | 0 <= d < |corpus| :: lengths[d] == |corpus[d]|
  {
    seq(|corpus|, d requires 0 <= d < |corpus| => |corpus[d]|)
  }

  /** `doc_frequencies`: for each term, the number of documents in its postings. */
  function DocFrequencies(tf: TermIndex): (df: map<string, nat>)
    ensures df.Keys == tf.Keys
    ensures forall t | t in tf :: df[t] == |tf[t]|
  {
    map t | t in tf :: |tf[t]|
  }

  /** `tf[t]`, or no postings when the index lacks `t`. */
  function PostingsIn(tf: TermIndex, t: string): Postings
  {
    if t in tf then tf[t] else map[]
  }

  /** `tf[t][d]`, or 0 when the index has no such entry. */
  function Frequency(tf: TermIndex, t: string, d: nat): nat
  {
    if d in PostingsIn(tf, t) then tf[t][d] else 0
  }

  /** The index after one more occurrence of `term` in document `d`. */
  function Bump(tf: TermIndex, term: string, d: nat): (r: TermIndex)
    ensures r.Keys == tf.Keys + {term}
    ensures forall t | t in tf && t != term :: r[t] == tf[t]
    ensures r[term].Keys == PostingsIn(tf, term).Keys + {d}
    ensures r[term][d] == Frequency(tf, term, d) + 1
    ensures forall e | e in PostingsIn(tf, term) && e != d :: r[term][e] == tf[term][e]
  {
    tf[term := PostingsIn(tf, term)[d := Frequency(tf, term, d) + 1]]
  }

  // -----------------------------------------------------------------------
  // How the index grows, token by token

  lemma EmptyDocumentAddsNothing(docs: Corpus)
    ensures TermFrequencies(docs + [[]]) == TermFrequencies(docs)
  {
    var after := docs + [[]];
    assert forall d | 0 <= d < |docs| :: after[d] == docs[d];
    assert Vocabulary(after) == Vocabulary(docs);
    forall t | t in Vocabulary(docs)
      ensures PostingsOf(after, t) == PostingsOf(docs, t)
    {
    }
  }

  lemma VocabularyAppend(docs: Corpus, doc: Document, w: string)
    ensures Vocabulary(docs + [doc + [w]]) == Vocabulary(docs + [doc]) + {w}
  {
    var n := |docs|;
    var before := docs + [doc];
    var after := docs + [doc + [w]];
    forall t | t in Vocabulary(after)
      ensures t in Vocabulary(before) + {w}
    {
      var d :| 0 <= d < |after| && t in after[d];
      if d < n {
        assert after[d] == before[d];
      } else if t != w {
        assert t in before[n];
      }
    }
    forall t | t in Vocabulary(before) + {w}
      ensures t in Vocabulary(after)
    {
      if t == w {
        assert w in after[n];
      } else {
        var d :| 0 <= d < |before| && t in before[d];
        if d < n { assert after[d] == before[d]; } else { assert t in after[n]; }
      }
    }
  }

  lemma PostingsOfOtherTerm(docs: Corpus, doc: Document, w: string, t: string)
    requires t != w
    ensures PostingsOf(docs + [doc + [w]], t) == PostingsOf(docs + [doc], t)
  {
    var before := docs + [doc];
    var after := docs + [doc + [w]];
    assert multiset(doc + [w]) == multiset(doc) + multiset{w};
    forall d: nat | d < |after|
      ensures (t in after[d] <==> t in before[d])
      ensures multiset(after[d])[t] == multiset(before[d])[t]
    {
      if d < |docs| { assert after[d] == before[d]; }
    }
  }

  lemma PostingsOfSameTerm(docs: Corpus, doc: Document, w: string)
    ensures PostingsOf(docs + [doc + [w]], w)
         == PostingsOf(docs + [doc], w)[|docs| := multiset(doc)[w] + 1]
  {
    var n := |docs|;
    var before := docs + [doc];
    var after := docs + [doc + [w]];
    assert multiset(doc + [w]) == multiset(doc) + multiset{w};
    forall d: nat | d < n
      ensures after[d] == before[d]
    {
    }
    assert after[n] == doc + [w] && before[n] == doc;
  }

  /** The postings of one term after one more token in the last document. */
  lemma AppendTokenAt(docs: Corpus, doc: Document, w: string, t: string)
    requires t in Vocabulary(docs + [doc + [w]])
    ensures t in Bump(TermFrequencies(docs + [doc]), w, |docs|)
    ensures PostingsOf(docs + [doc + [w]], t) == Bump(TermFrequencies(docs + [doc]), w, |docs|)[t]
  {
    var before := docs + [doc];
    var tf := TermFrequencies(before);
    VocabularyAppend(docs, doc, w);
    if t != w {
      PostingsOfOtherTerm(docs, doc, w, t);
    } else {
      FrequencyIsOccurrenceCount(before, w, |docs|);
      assert PostingsIn(tf, w) == PostingsOf(before, w);
      PostingsOfSameTerm(docs, doc, w);
    }
  }

  /** Appending one token to the last document counts one more occurrence of it there. */
  lemma AppendToken(docs: Corpus, doc: Document, w: string)
    ensures TermFrequencies(docs + [doc + [w]]) == Bump(TermFrequencies(docs + [doc]), w, |docs|)
  {
    var after := docs + [doc + [w]];
    var bumped := Bump(TermFrequencies(docs + [doc]), w, |docs|);
    VocabularyAppend(docs, doc, w);
    assert TermFrequencies(after).Keys == bumped.Keys;
    forall t | t in Vocabulary(after)
      ensures TermFrequencies(after)[t] == bumped[t]
    {
      AppendTokenAt(docs, doc, w, t);
    }
  }

  /** The loop body's three updates add one occurrence of `term` in document `d`. */
  lemma CountingStepIsBump(before: TermIndex, created: TermIndex, zeroed: TermIndex, after: TermIndex,
                           term: string, d: nat)
    requires created == if term !in before then before[term := map[]] else before
    requires term in created
    requires zeroed == if d !in created[term] then created[term := created[term][d := 0]] else created
    requires term in zeroed && d in zeroed[term]
    requires after == zeroed[term := zeroed[term][d := zeroed[term][d] + 1]]
    ensures after == Bump(before, term, d)
  {
    var postings := PostingsIn(before, term);
    var count := Frequency(before, term, d);
    assert created == before[term := postings] by {
      if term in before {
        assert before[term := before[term]] == before;
      }
    }
    if d in postings {
      assert zeroed == created;
      assert postings[d := count] == postings;
    } else {
      assert count == 0;
    }
    assert zeroed == before[term := postings[d := count]];
    assert postings[d := count][d := count + 1] == postings[d := count + 1];
  }

  /** Counting the tokens of `doc`, in order, as occurrences in document `d`. */
  function BumpAll(tf: TermIndex, doc: Document, d: nat): TermIndex
  {
    if doc == [] then tf else Bump(BumpAll(tf, doc[..|doc| - 1], d), doc[|doc| - 1], d)
  }

  /** Indexing one more document counts each of its tokens once, under its id. */
  lemma {:induction false} AppendDocument(docs: Corpus, doc: Document)
    ensures TermFrequencies(docs + [doc]) == BumpAll(TermFrequencies(docs), doc, |docs|)
  {
    if doc == [] {
      EmptyDocumentAddsNothing(docs);
    } else {
      var n := |docs|;
      var init := doc[..|doc| - 1];
      var last := doc[|doc| - 1];
      assert init + [last] == doc;
      calc {
        TermFrequencies(docs + [doc]);
        TermFrequencies(docs + [init + [last]]);
        { AppendToken(docs, init, last); }
        Bump(TermFrequencies(docs + [init]), last, n);
        { AppendDocument(docs, init); }
        Bump(BumpAll(TermFrequencies(docs), init, n), last, n);
        BumpAll(TermFrequencies(docs), doc, n);
      }
    }
  }

  /**
   * The inner loop of the index build, over the tokens of document `docId`:
   * create the term's postings and the document's counter if missing, then
   * add one. Each token is counted once, in order.
   */
  method CountDocument(index: TermIndex, doc: Document, docId: nat) returns (tf: TermIndex)
    ensures tf == BumpAll(index, doc, docId)
  {
    tf := index;
    for j := 0 to |doc|
      invariant tf == BumpAll(index, doc[..j], docId)
    {
      var term := doc[j];
      ghost var before := tf;
      if term !in tf {
        tf := tf[term := map[]];
      }
      ghost var created := tf;
      if docId !in tf[term] {
        tf := tf[term := tf[term][docId := 0]];
      }
      ghost var zeroed := tf;
      tf := tf[term := tf[term][docId := tf[term][docId] + 1]];
      CountingStepIsBump(before, created, zeroed, tf, term, docId);
      assert doc[..j + 1][..j] == doc[..j];
    }
    assert doc[..|doc|] == doc;
  }

  /**
   * The outer loop of the index build, over the documents in order. The
   * result is the term-frequency index of the corpus: for every term and
   * every document containing it, the number of its occurrences there.
   */
  method CountTermFrequencies(corpus: Corpus) returns (tf: TermIndex)
    ensures tf == TermFrequencies(corpus)
  {
    tf := map[];
    assert corpus[..0] == [];
    for docId := 0 to |corpus|
      invariant tf == TermFrequencies(corpus[..docId])
    {
      var doc := corpus[docId];
      AppendDocument(corpus[..docId], doc);
      tf := CountDocument(tf, doc, docId);
      assert corpus[..docId] + [doc] == corpus[..docId + 1];
    }
    assert corpus[..|corpus|] == corpus;
  }

  // -----------------------------------------------------------------------
  // What the index means

  /**
   * `term_frequencies[t][d]` is the number of occurrences of `t` in document
   * `d`, and `d` is a key exactly when that number is positive.
   */
  lemma FrequencyIsOccurrenceCount(corpus: Corpus, t: string, d: nat)
    requires d < |corpus|
    ensures var tf := TermFrequencies(corpus);
            && (t in tf && d in tf[t] <==> multiset(corpus[d])[t] > 0)
            && (t in tf && d in tf[t] ==> tf[t][d] == multiset(corpus[d])[t])
  {
    var tf := TermFrequencies(corpus);
    if multiset(corpus[d])[t] > 0 {
      assert t in corpus[d];
      assert t in Vocabulary(corpus);
    }
  }

  /** The terms of the index, and of the document frequencies, are exactly the corpus's terms. */
  lemma IndexTermsAreCorpusTerms(corpus: Corpus, t: string)
    ensures t in TermFrequencies(corpus) <==> exists d | 0 <= d < |corpus| :: t in corpus[d]
    ensures t in DocFrequencies(TermFrequencies(corpus)) <==> t in TermFrequencies(corpus)
  {
  }

  lemma {:induction false} DocsContainingBound(corpus: Corpus, t: string)
    ensures |DocsContaining(corpus, t)| <= |corpus|
  {
    if corpus != [] {
      var n := |corpus| - 1;
      var init := corpus[..n];
      DocsContainingBound(init, t);
      var earlier := DocsContaining(init, t);
      assert forall d | 0 <= d < n :: init[d] == corpus[d];
      assert n !in earlier;
      if t in corpus[n] {
        assert DocsContaining(corpus, t) == earlier + {n};
      } else {
        assert DocsContaining(corpus, t) == earlier;
      }
    }
  }

  /**
   * `doc_frequencies[t]` is the number of distinct documents containing `t`,
   * between 1 and the corpus size.
   */
  lemma DocFrequencyBounds(corpus: Corpus, t: string)
    requires t in TermFrequencies(corpus)
    ensures var df := DocFrequencies(TermFrequencies(corpus));
            && df[t] == |DocsContaining(corpus, t)|
            && 1 <= df[t] <= |corpus|
  {
    var tf := TermFrequencies(corpus);
    assert tf[t].Keys == DocsContaining(corpus, t);
    var d :| 0 <= d < |corpus| && t in corpus[d];
    assert d in DocsContaining(corpus, t);
    DocsContainingBound(corpus, t);
  }

  // -----------------------------------------------------------------------
  // Document length as a sum of term frequencies

  /** The sum of `tf[t][d]` over the listed terms. */
  function FrequencySum(tf: TermIndex, terms: seq<string>, d: nat): nat
  {
    if terms == [] then 0
    else FrequencySum(tf, terms[..|terms| - 1], d) + Frequency(tf, terms[|terms| - 1], d)
  }

  /** The sum of a multiset's counts over the listed terms. */
  function CountSum(m: multiset<string>, terms: seq<string>): nat
  {
    if terms == [] then 0 else CountSum(m, terms[..|terms| - 1]) + m[terms[|terms| - 1]]
  }

  predicate Distinct(terms: seq<string>)
  {
    forall i, j | 0 <= i < j < |terms| :: terms[i] != terms[j]
  }

  lemma {:induction false} CountSumAddOne(m: multiset<string>, w: string, terms: seq<string>)
    ensures CountSum(m + multiset{w}, terms) == CountSum(m, terms) + multiset(terms)[w]
  {
    if terms != [] {
      var init := terms[..|terms| - 1];
      CountSumAddOne(m, w, init);
      assert terms == init + [terms[|terms| - 1]];
    }
  }

  lemma {:induction false} DistinctCountsOnce(terms: seq<string>, w: string)
    requires Distinct(terms) && w in terms
    ensures multiset(terms)[w] == 1
  {
    var init := terms[..|terms| - 1];
    var last := terms[|terms| - 1];
    assert terms == init + [last];
    if last == w {
      assert w !in init;
    } else {
      DistinctCountsOnce(init, w);
    }
  }

  /** Summing a document's counts over distinct terms that cover it gives its length. */
  lemma {:induction false} CountSumIsLength(doc: Document, terms: seq<string>)
    requires Distinct(terms)
    requires forall t | t in doc :: t in terms
    ensures CountSum(multiset(doc), terms) == |doc|
  {
    if doc == [] {
      CountSumEmpty(terms);
    } else {
      var init := doc[..|doc| - 1];
      var w := doc[|doc| - 1];
      assert doc == init + [w];
      CountSumIsLength(init, terms);
      CountSumAddOne(multiset(init), w, terms);
      DistinctCountsOnce(terms, w);
    }
  }

  lemma {:induction false} CountSumEmpty(terms: seq<string>)
    ensures CountSum(multiset{}, terms) == 0
  {
    if terms != [] {
      CountSumEmpty(terms[..|terms| - 1]);
    }
  }

  lemma {:induction false} FrequencySumIsCountSum(corpus: Corpus, terms: seq<string>, d: nat)
    requires d < |corpus|
    ensures FrequencySum(TermFrequencies(corpus), terms, d) == CountSum(multiset(corpus[d]), terms)
  {
    if terms != [] {
      FrequencySumIsCountSum(corpus, terms[..|terms| - 1], d);
      FrequencyIsOccurrenceCount(corpus, terms[|terms| - 1], d);
    }
  }

  /**
   * For every document, the sum over the index's terms (listed once each)
   * of `term_frequencies[t][d]` is the document's length.
   */
  lemma FrequenciesSumToLength(corpus: Corpus, terms: seq<string>, d: nat)
    requires d < |corpus|
    requires Distinct(terms)
    requires forall t | t in TermFrequencies(corpus) :: t in terms
    ensures FrequencySum(TermFrequencies(corpus), terms, d) == DocLengths(corpus)[d]
  {
    forall t | t in corpus[d]
      ensures t in terms
    {
      assert t in Vocabulary(corpus);
    }
    FrequencySumIsCountSum(corpus, terms, d);
    CountSumIsLength(corpus[d], terms);
  }

  // -----------------------------------------------------------------------
  // The retriever

  /**
   * A ranking of `n` documents: each index below `n` exactly once. This is
   * what `np.argsort(scores)[::-1]` yields for `n` scores.
   */
  predicate IsRanking(ranking: seq<nat>, n: nat)
  {
    && |ranking| == n
    && (forall i | 0 <= i < n :: ranking[i] < n)
    && (forall i, j | 0 <= i < j < n :: ranking[i] != ranking[j])
  }

  /** Python's `s[:stop]`: a negative stop counts from the end. */
  function SliceTo<T>(s: seq<T>, stop: int): (r: seq<T>)
    ensures stop >= 0 ==> |r| == if stop < |s| then stop else |s|
    ensures stop < 0 ==> |r| == if |s| + stop > 0 then |s| + stop else 0
    ensures r == s[..|r|]
  {
    if stop >= 0 then (if stop < |s| then s[..stop] else s)
    else if |s| + stop > 0 then s[..|s| + stop]
    else []
  }

  class BM25Retriever {
    const corpus: Corpus
    const corpusSize: nat
    const docLengths: seq<nat>
    const termFrequencies: TermIndex
    const docFrequencies: map<string, nat>

    /** `__init__`: sizes and lengths, then the counting loop, then document frequencies. */
    constructor (corpus: Corpus)
      ensures this.corpus == corpus && corpusSize == |corpus|
      ensures docLengths == DocLengths(corpus)
      ensures termFrequencies == TermFrequencies(corpus)
      ensures docFrequencies == DocFrequencies(termFrequencies)
    {
      this.corpus := corpus;
      corpusSize := |corpus|;
      docLengths := DocLengths(corpus);
      var tf := CountTermFrequencies(corpus);
      termFrequencies := tf;
      docFrequencies := DocFrequencies(tf);
    }

    /**
     * `get_top_k`, given the scores and their ranking: the first
     * `min(k, corpus_size)` ranked indices (with Python's slicing for a
     * negative `k`) and their scores. For `k >= 0` that is `min(k, corpus_size)`
     * distinct document indices, each paired with its own score.
     */
    function GetTopK<S>(scores: seq<S>, ranking: seq<nat>, k: int): (top: (seq<nat>, seq<S>))
      requires |scores| == corpusSize && IsRanking(ranking, corpusSize)
      ensures k >= 0 ==> |top.0| == if k < corpusSize then k else corpusSize
      ensures k < 0 ==> |top.0| == if corpusSize + k > 0 then corpusSize + k else 0
      ensures top.0 == ranking[..|top.0|]
      ensures forall i | 0 <= i < |top.0| :: top.0[i] < corpusSize
      ensures forall i, j | 0 <= i < j < |top.0| :: top.0[i] != top.0[j]
      ensures |top.1| == |top.0| && forall i | 0 <= i < |top.0| :: top.1[i] == scores[top.0[i]]
    {
      var topK := if k < |scores| then k else |scores|;
      var topIndices := SliceTo(ranking, topK);
      (topIndices, seq(|topIndices|, i requires 0 <= i < |topIndices| => scores[topIndices[i]]))
    }
  }
}
