/**
 * `keywords_tfidf.generate_keywords`: each term id's TF-IDF scores are
 * summed over all documents into a dictionary, whose items are then ranked
 * by their sums and cut to the first `num_keywords`.
 */
module KeywordsTfidf {
  import opened Ranking

  /** One document as the TF-IDF model scores it: (term id, score) pairs. */
  type ScoredDoc = seq<(int, real)>

  /** Every pair of every document, document by document: the order in which
      the nested loop visits them. */
  function Flatten(docs: seq<ScoredDoc>): seq<(int, real)> {
    if docs == [] then [] else Flatten(docs[..|docs| - 1]) + docs[|docs| - 1]
  }

  /** The term ids that occur in at least one document. */
  function AllKeys(docs: seq<ScoredDoc>): set<int> {
    set d, j | 0 <= d < |docs| && 0 <= j < |docs[d]| :: docs[d][j].0
  }

  /** Document by document, the score of `key` in each, summed; a document
      without `key` adds nothing. */
  function DocSum(docs: seq<ScoredDoc>, key: int): real {
    if docs == [] then 0.0 else DocSum(docs[..|docs| - 1], key) + Total(docs[|docs| - 1], key)
  }

  /** The first loop of `generate_keywords`: `keywords[key] += score` for
      every pair of every document. */
  method SumScores(tfidfScores: seq<ScoredDoc>) returns (keywords: map<int, real>)
    ensures keywords.Keys == AllKeys(tfidfScores)
    ensures forall k :: k in keywords ==> keywords[k] == DocSum(tfidfScores, k)
  {
    keywords := map[];
    for i := 0 to |tfidfScores|
      invariant keywords == Accumulate(Flatten(tfidfScores[..i]))
    {
      var doc := tfidfScores[i];
      assert Flatten(tfidfScores[..i]) + doc[..0] == Flatten(tfidfScores[..i]);
      for j := 0 to |doc|
        invariant keywords == Accumulate(Flatten(tfidfScores[..i]) + doc[..j])
      {
        var key := doc[j].0;
        var score := doc[j].1;
        AccumulateSnoc(Flatten(tfidfScores[..i]), doc, j);
        if key in keywords {
          keywords := keywords[key := keywords[key] + score];
        } else {
          keywords := keywords[key := score];
        }
      }
      assert doc[..|doc|] == doc;
      assert tfidfScores[..i + 1][..i] == tfidfScores[..i];
    }
    assert tfidfScores[..|tfidfScores|] == tfidfScores;
    SumScoresMeaning(tfidfScores);
  }

  lemma SumScoresMeaning(docs: seq<ScoredDoc>)
    ensures Accumulate(Flatten(docs)).Keys == AllKeys(docs)
    ensures forall k :: k in Accumulate(Flatten(docs)) ==> Accumulate(Flatten(docs))[k] == DocSum(docs, k)
  {
    AccumulateTotals(Flatten(docs));
    FlattenKeys(docs);
    forall k | k in Accumulate(Flatten(docs)) ensures Accumulate(Flatten(docs))[k] == DocSum(docs, k) {
      FlattenTotal(docs, k);
    }
  }

  /** `generate_keywords(tfidf_scores, num_keywords)`: the `num_keywords`
      term ids with the highest summed scores, highest first. */
  method GenerateKeywords(tfidfScores: seq<ScoredDoc>, numKeywords: int) returns (r: seq<(int, real)>)
    ensures SortedDesc(r) && DistinctKeys(r)
    ensures |r| == SliceLength(|AllKeys(tfidfScores)|, numKeywords)
    ensures forall i :: 0 <= i < |r| ==>
      r[i].0 in AllKeys(tfidfScores) && r[i].1 == DocSum(tfidfScores, r[i].0)
    ensures forall k, j :: k in AllKeys(tfidfScores) && k !in KeySet(r) && 0 <= j < |r| ==>
      DocSum(tfidfScores, k) <= r[j].1
  {
    var keywords := SumScores(tfidfScores);
    var ranked := Rank(keywords);
    TopOfRanking(ranked, keywords, numKeywords);
    r := Prefix(ranked, numKeywords);
    assert KeySet(r) <= KeySet(ranked);
  }

  // ---------------------------------------------------------------------
  // Lemmas

  /** Summing over the visited pairs is summing document by document. */
  lemma {:induction false} FlattenTotal(docs: seq<ScoredDoc>, key: int)
    ensures Total(Flatten(docs), key) == DocSum(docs, key)
  {
    if docs != [] {
      var init := docs[..|docs| - 1];
      FlattenTotal(init, key);
      TotalAppend(Flatten(init), docs[|docs| - 1], key);
    }
  }

  /** The visited pairs carry exactly the ids of the documents. */
  lemma {:induction false} FlattenKeys(docs: seq<ScoredDoc>)
    ensures KeySet(Flatten(docs)) == AllKeys(docs)
  {
    if docs != [] {
      var init := docs[..|docs| - 1];
      var last := docs[|docs| - 1];
      FlattenKeys(init);
      KeySetAppend(Flatten(init), last);
      forall k | k in AllKeys(docs) ensures k in AllKeys(init) + KeySet(last) {
        var d, j :| 0 <= d < |docs| && 0 <= j < |docs[d]| && docs[d][j].0 == k;
        if d < |init| {
          assert init[d][j].0 == k;
        } else {
          assert last[j].0 == k;
        }
      }
      forall k | k in AllKeys(init) + KeySet(last) ensures k in AllKeys(docs) {
        if k in AllKeys(init) {
          var d, j :| 0 <= d < |init| && 0 <= j < |init[d]| && init[d][j].0 == k;
          assert docs[d][j].0 == k;
        } else {
          var j :| 0 <= j < |last| && last[j].0 == k;
          assert docs[|docs| - 1][j].0 == k;
        }
      }
    }
  }

  lemma {:induction false} DocSumAppend(a: seq<ScoredDoc>, b: seq<ScoredDoc>, key: int)
    ensures DocSum(a + b, key) == DocSum(a, key) + DocSum(b, key)
    decreases |b|
  {
    if b == [] {
      assert a + b == a;
    } else {
      var init := b[..|b| - 1];
      assert (a + b)[..|a + b| - 1] == a + init;
      DocSumAppend(a, init, key);
    }
  }

  /** A document in which `key` does not occur contributes nothing to its sum:
      dropping it leaves the sum unchanged. */
  lemma DocSumSkipsAbsent(docs: seq<ScoredDoc>, i: nat, key: int)
    requires i < |docs| && key !in KeySet(docs[i])
    ensures DocSum(docs, key) == DocSum(docs[..i] + docs[i + 1..], key)
  {
    assert docs == docs[..i] + ([docs[i]] + docs[i + 1..]);
    DocSumAppend(docs[..i], [docs[i]] + docs[i + 1..], key);
    DocSumAppend([docs[i]], docs[i + 1..], key);
    DocSumAppend(docs[..i], docs[i + 1..], key);
    TotalAbsent(docs[i], key);
    assert [docs[i]][..0] == [];
  }

  /** A term id that occurs in no document sums to zero. */
  lemma DocSumOfUnknown(docs: seq<ScoredDoc>, key: int)
    requires key !in AllKeys(docs)
    ensures DocSum(docs, key) == 0.0
  {
    FlattenKeys(docs);
    TotalAbsent(Flatten(docs), key);
    FlattenTotal(docs, key);
  }
}
