/**
 * Topic-based keyword scoring (keywords_lda.py): removing the topics the
 * user names, scoring every topic term by its summed topic weight times the
 * logarithm of its corpus frequency, keeping the best `num_keywords`, and
 * the text written to the keyword export file.
 *
 * The topics, the dictionary and the corpus come from gensim; they are
 * inputs here. `math.log` is the function parameter `log`.
 */
module KeywordsLda {
  import opened Wrappers
  import opened Text
  import opened Ranking
  import opened Corpus

  /** A topic as the topic model reports it: (weight, term) pairs. */
  type Topic = seq<(real, string)>

  /** A gensim dictionary in iteration order: (id, term) pairs. */
  type Dictionary = seq<(int, string)>

  /** The exceptions `exclude_topics` can raise. */
  datatype ExcludeError =
    | NotAnInteger(entry: string)  // `int(entry)` raised ValueError
    | NoSuchTopic(index: int)      // `del topics[index-1]` raised IndexError

  /** Scoring `term` failed because its corpus frequency is not positive:
      `math.log(freq)` raises ValueError, or, for a zero frequency,
      `corpus2csc(...).getrow(token_index)` may raise IndexError first when
      the id lies at or past the matrix's last row. */
  datatype ScoreError = LogDomain(term: string)

  // ---------------------------------------------------------------------
  // exclude_topics

  /** Python's `del xs[k]`: a negative `k` counts from the end; `None` is
      IndexError. The element at position `k` goes, the ones before it stay
      where they are and the ones after it move down by one. */
  function DeleteAt<T>(xs: seq<T>, k: int): (r: Option<seq<T>>)
    ensures r.Some? <==> -|xs| <= k < |xs|
    ensures r.Some? ==> |r.value| == |xs| - 1
    ensures r.Some? ==>
      var j := if k >= 0 then k else |xs| + k;
      forall i :: 0 <= i < |r.value| ==> r.value[i] == if i < j then xs[i] else xs[i + 1]
  {
    if 0 <= k < |xs| then Some(xs[..k] + xs[k + 1..])
    else if -|xs| <= k < 0 then Some(xs[..|xs| + k] + xs[|xs| + k + 1..])
    else None
  }

  /** `for i in indices: del topics[i-1]`, stopping at the first IndexError. */
  function DeleteAll<T>(topics: seq<T>, indices: seq<int>): Result<seq<T>, ExcludeError> {
    if indices == [] then Ok(topics)
    else match DeleteAt(topics, indices[0] - 1)
      case None => Err(NoSuchTopic(indices[0]))
      case Some(rest) => DeleteAll(rest, indices[1..])
  }

  /** `int(e)` for every entry, failing at the first entry that is not an integer. */
  function ParseEntries(entries: seq<string>): (r: Result<seq<int>, ExcludeError>)
    ensures r.Ok? ==> |r.value| == |entries|
    ensures r.Ok? ==> forall i :: 0 <= i < |entries| ==> ParseInt(entries[i]) == Some(r.value[i])
    ensures r.Err? ==> exists i :: 0 <= i < |entries| && FirstRejected(entries, i) && r.error == NotAnInteger(entries[i])
  {
    if entries == [] then Ok([])
    else
      var init, last := entries[..|entries| - 1], entries[|entries| - 1];
      assert forall i :: 0 <= i < |init| ==> init[i] == entries[i];
      match ParseEntries(init)
      case Err(e) =>
        PrefixRejected(init, entries);
        Err(e)
      case Ok(values) =>
        match ParseInt(last)
        case None =>
          assert FirstRejected(entries, |entries| - 1);
          Err(NotAnInteger(last))
        case Some(v) =>
          assert forall i :: 0 <= i < |init| ==> (values + [v])[i] == values[i];
          Ok(values + [v])
  }

  /** Entry `i` is the first one `int()` rejects. */
  predicate FirstRejected(entries: seq<string>, i: int)
    requires 0 <= i < |entries|
  {
    ParseInt(entries[i]).None? && forall j :: 0 <= j < i ==> ParseInt(entries[j]).Some?
  }

  lemma PrefixRejected(init: seq<string>, entries: seq<string>)
    requires init <= entries
    ensures forall i :: 0 <= i < |init| && FirstRejected(init, i) ==> FirstRejected(entries, i)
  {
    forall i | 0 <= i < |init| && FirstRejected(init, i) ensures FirstRejected(entries, i) {
      assert forall j :: 0 <= j <= i ==> init[j] == entries[j];
    }
  }

  /** Each element is at least as large as every later one. */
  predicate NonIncreasing(xs: seq<int>) {
    forall i, j :: 0 <= i < j < |xs| ==> xs[i] >= xs[j]
  }

  /** `x` inserted into the non-increasing `xs` after every larger element. */
  function InsertDesc(x: int, xs: seq<int>): (r: seq<int>)
    requires NonIncreasing(xs)
    ensures multiset(r) == multiset(xs) + multiset{x}
    ensures NonIncreasing(r)
    ensures |r| == |xs| + 1 && (r[0] == x || (xs != [] && r[0] == xs[0]))
  {
    if xs == [] || x >= xs[0] then
      ConsDescending(x, xs);
      [x] + xs
    else
      var rest := InsertDesc(x, xs[1..]);
      ConsDescending(xs[0], rest);
      ConsMultiset(xs[0], xs[1..], rest);
      assert xs == [xs[0]] + xs[1..];
      [xs[0]] + rest
  }

  lemma ConsMultiset(h: int, tail: seq<int>, rest: seq<int>)
    ensures multiset([h] + rest) == multiset{h} + multiset(rest)
    ensures multiset([h] + tail) == multiset{h} + multiset(tail)
  {
  }

  /** A head no smaller than the first element keeps a non-increasing list
      non-increasing. */
  lemma ConsDescending(h: int, rest: seq<int>)
    requires NonIncreasing(rest)
    requires rest != [] ==> h >= rest[0]
    ensures NonIncreasing([h] + rest)
  {
    var r := [h] + rest;
    forall i, j | 0 <= i < j < |r| ensures r[i] >= r[j] {
      if i == 0 {
        assert r[j] == rest[j - 1];
        assert rest[0] >= rest[j - 1] || j == 1;
      } else {
        assert r[i] == rest[i - 1] && r[j] == rest[j - 1];
      }
    }
  }

  /** `xs.sort(reverse=True)`: the same integers, largest first. */
  function SortDescending(xs: seq<int>): (r: seq<int>)
    ensures multiset(r) == multiset(xs)
    ensures NonIncreasing(r)
  {
    if xs == [] then []
    else
      assert xs == [xs[0]] + xs[1..];
      InsertDesc(xs[0], SortDescending(xs[1..]))
  }

  /** What `exclude_topics(topics)` returns when the user answers `input`. */
  function Exclude<T>(topics: seq<T>, input: string): Result<seq<T>, ExcludeError> {
    var cleaned := RemoveChar(input, ' ');
    if cleaned == [] then Ok(topics)
    else match ParseEntries(SplitOn(cleaned, ','))
      case Err(e) => Err(e)
      case Ok(indices) => DeleteAll(topics, SortDescending(indices))
  }

  /** `exclude_topics(topics)`, the answer to the prompt given as `input`:
      parse the comma-separated 1-based indices, sort them largest first and
      delete those topics one by one. */
  method ExcludeTopics<T>(topics: seq<T>, input: string) returns (result: Result<seq<T>, ExcludeError>)
    ensures result == Exclude(topics, input)
  {
    var cleaned := RemoveChar(input, ' ');
    if cleaned == [] {
      return Ok(topics);
    }
    var entries := SplitOn(cleaned, ',');
    var excl: seq<int> := [];
    for i := 0 to |entries|
      invariant ParseEntries(entries[..i]) == Ok(excl)
    {
      var v := ParseInt(entries[i]);
      ParseStep(entries, i, excl);
      if v.None? {
        ParseEntriesFailure(entries, i + 1);
        return Err(NotAnInteger(entries[i]));
      }
      excl := excl + [v.value];
    }
    assert entries[..|entries|] == entries;
    excl := SortDescending(excl);
    var current := topics;
    for k := 0 to |excl|
      invariant DeleteAll(topics, excl) == DeleteAll(current, excl[k..])
    {
      DeleteStep(current, excl, k);
      var r := DeleteAt(current, excl[k] - 1);
      if r.None? {
        return Err(NoSuchTopic(excl[k]));
      }
      current := r.value;
    }
    result := Ok(current);
  }

  // ---------------------------------------------------------------------
  // generate_keywords

  /** A topic's pairs as (term, weight). */
  function Swapped(topic: Topic): seq<(string, real)> {
    if topic == [] then []
    else Swapped(topic[..|topic| - 1]) + [(topic[|topic| - 1].1, topic[|topic| - 1].0)]
  }

  /** Every (term, weight) pair of every topic, topic by topic. */
  function TermWeights(topics: seq<Topic>): seq<(string, real)> {
    if topics == [] then [] else TermWeights(topics[..|topics| - 1]) + Swapped(topics[|topics| - 1])
  }

  predicate InDictionary(dictionary: Dictionary, term: string) {
    exists i :: 0 <= i < |dictionary| && dictionary[i].1 == term
  }

  /** The id of the first dictionary entry whose term is `term`. */
  function IdOf(dictionary: Dictionary, term: string): (id: int)
    requires InDictionary(dictionary, term)
    ensures exists i :: (0 <= i < |dictionary| && dictionary[i] == (id, term)
      && forall m :: 0 <= m < i ==> dictionary[m].1 != term)
  {
    if dictionary[0].1 == term then dictionary[0].0 else IdOf(dictionary[1..], term)
  }

  /** The counts of term id `id` in one document vector, summed. */
  function BagCount(bag: Bag, id: int): (c: int)
    ensures (forall j :: 0 <= j < |bag| ==> bag[j].0 != id) ==> c == 0
    ensures (forall j :: 0 <= j < |bag| ==> bag[j].1 >= 0) ==> c >= 0
  {
    if bag == [] then 0
    else BagCount(bag[..|bag| - 1], id) + (if bag[|bag| - 1].0 == id then bag[|bag| - 1].1 else 0)
  }

  /** The row sum of `corpus2csc(corpus)` for `id`: its counts over every
      document. It is zero for an id that occurs in no bag, and never
      negative when no count is. */
  function Frequency(corpus: seq<Bag>, id: int): (f: int)
    ensures (forall d, j :: 0 <= d < |corpus| && 0 <= j < |corpus[d]| ==> corpus[d][j].0 != id) ==> f == 0
    ensures (forall d, j :: 0 <= d < |corpus| && 0 <= j < |corpus[d]| ==> corpus[d][j].1 >= 0) ==> f >= 0
  {
    if corpus == [] then 0 else Frequency(corpus[..|corpus| - 1], id) + BagCount(corpus[|corpus| - 1], id)
  }

  /** The total corpus frequency of a dictionary term. */
  function TermFrequency(corpus: seq<Bag>, dictionary: Dictionary, term: string): int
    requires InDictionary(dictionary, term)
  {
    Frequency(corpus, IdOf(dictionary, term))
  }

  /** Every term of every topic is in the dictionary (the topic model was
      built over it). */
  predicate TopicsInDictionary(topics: seq<Topic>, dictionary: Dictionary) {
    forall i, j :: 0 <= i < |topics| && 0 <= j < |topics[i]| ==> InDictionary(dictionary, topics[i][j].1)
  }

  /** The score `generate_keywords` gives a topic term: the sum of its weights
      over every topic, times the log of its corpus frequency. */
  function KeywordScore(corpus: seq<Bag>, dictionary: Dictionary, topics: seq<Topic>,
                        log: real -> real, term: string): real
    requires InDictionary(dictionary, term)
  {
    Score(Total(TermWeights(topics), term), TermFrequency(corpus, dictionary, term), log)
  }

  /** `pr * math.log(token_freq)`. */
  function Score(weight: real, freq: int, log: real -> real): real {
    weight * log(freq as real)
  }

  /** The first loop of `generate_keywords`: each term's weights summed over
      all topics. */
  method SumWeights(topics: seq<Topic>) returns (keywords: map<string, real>)
    ensures keywords.Keys == AllTopicTerms(topics)
    ensures forall t :: t in keywords ==> keywords[t] == Total(TermWeights(topics), t)
  {
    keywords := map[];
    for i := 0 to |topics|
      invariant keywords == Accumulate(TermWeights(topics[..i]))
    {
      var topic := topics[i];
      ghost var done := TermWeights(topics[..i]);
      TopicStart(done, topic);
      for j := 0 to |topic|
        invariant keywords == Accumulate(done + Swapped(topic[..j]))
      {
        var token := topic[j].1;
        var pr := topic[j].0;
        AccumulateTopicStep(done, topic, j);
        if token in keywords {
          keywords := keywords[token := keywords[token] + pr];
        } else {
          keywords := keywords[token := pr];
        }
      }
      TopicEnd(topics, i);
    }
    assert topics[..|topics|] == topics;
    SumWeightsMeaning(topics);
  }

  lemma TopicStart(done: seq<(string, real)>, topic: Topic)
    ensures done + Swapped(topic[..0]) == done
  {
    assert Swapped(topic[..0]) == [];
  }

  /** After the inner loop over topic `i`, the pairs visited are those of the
      first i + 1 topics. */
  lemma TopicEnd(topics: seq<Topic>, i: nat)
    requires i < |topics|
    ensures TermWeights(topics[..i]) + Swapped(topics[i][..|topics[i]|]) == TermWeights(topics[..i + 1])
  {
    assert topics[..i + 1][..i] == topics[..i];
    assert topics[i][..|topics[i]|] == topics[i];
  }

  lemma SumWeightsMeaning(topics: seq<Topic>)
    ensures Accumulate(TermWeights(topics)).Keys == AllTopicTerms(topics)
    ensures forall t :: t in Accumulate(TermWeights(topics)) ==> Accumulate(TermWeights(topics))[t] == Total(TermWeights(topics), t)
  {
    AccumulateTotals(TermWeights(topics));
    TermWeightsKeys(topics);
  }

  /** The search for `token_index`: the id of the first dictionary entry whose
      term is `token`. */
  method FindTokenIndex(dictionary: Dictionary, token: string) returns (tokenIndex: int)
    requires InDictionary(dictionary, token)
    ensures tokenIndex == IdOf(dictionary, token)
    ensures exists k :: 0 <= k < |dictionary| && dictionary[k] == (tokenIndex, token)
  {
    var k := 0;
    tokenIndex := 0;
    while k < |dictionary|
      invariant 0 <= k <= |dictionary|
      invariant forall m :: 0 <= m < k ==> dictionary[m].1 != token
    {
      if dictionary[k].1 == token {
        tokenIndex := dictionary[k].0;
        break;
      }
      k := k + 1;
    }
    assert k < |dictionary| && dictionary[k].1 == token && tokenIndex == dictionary[k].0;
    IdOfFirst(dictionary, token, k);
  }

  /** `term` has been reweighted in `keywords`: its frequency is positive and
      its entry is its score. */
  predicate Reweighted(corpus: seq<Bag>, dictionary: Dictionary, topics: seq<Topic>,
                       log: real -> real, keywords: map<string, real>, term: string) {
    && term in keywords
    && InDictionary(dictionary, term)
    && TermFrequency(corpus, dictionary, term) > 0
    && keywords[term] == KeywordScore(corpus, dictionary, topics, log, term)
  }

  /** The second loop of `generate_keywords`: every summed weight multiplied
      by the log of the term's corpus frequency, in the dictionary's own
      (unspecified) key order; a frequency that is not positive makes
      `math.log` raise. */
  method Reweight(corpus: seq<Bag>, dictionary: Dictionary, topics: seq<Topic>,
                  sums: map<string, real>, log: real -> real)
    returns (result: Result<map<string, real>, ScoreError>)
    requires forall t :: t in sums ==> InDictionary(dictionary, t)
    requires forall t :: t in sums ==> sums[t] == Total(TermWeights(topics), t)
    ensures result.Err? <==> exists t :: t in sums && TermFrequency(corpus, dictionary, t) <= 0
    ensures result.Err? ==>
      (result.error.term in sums && TermFrequency(corpus, dictionary, result.error.term) <= 0)
    ensures result.Ok? ==>
      (result.value.Keys == sums.Keys
       && forall t :: t in sums ==> result.value[t] == KeywordScore(corpus, dictionary, topics, log, t))
  {
    var keywords := sums;
    var pending := sums.Keys;
    while pending != {}
      invariant pending <= sums.Keys && keywords.Keys == sums.Keys
      invariant forall t :: t in sums.Keys - pending ==> Reweighted(corpus, dictionary, topics, log, keywords, t)
      decreases |pending|
    {
      var token :| token in pending;
      var tokenIndex := FindTokenIndex(dictionary, token);
      var tokenFreq := Frequency(corpus, tokenIndex);
      if tokenFreq <= 0 {
        return Err(LogDomain(token));
      }
      ghost var before := keywords;
      keywords := keywords[token := Score(sums[token], tokenFreq, log)];
      assert Reweighted(corpus, dictionary, topics, log, keywords, token);
      forall t | t in sums.Keys - pending
        ensures Reweighted(corpus, dictionary, topics, log, keywords, t)
      {
        assert Reweighted(corpus, dictionary, topics, log, before, t);
        assert t != token ==> keywords[t] == before[t];
      }
      pending := pending - {token};
    }
    forall t | t in sums
      ensures TermFrequency(corpus, dictionary, t) > 0
      ensures keywords[t] == KeywordScore(corpus, dictionary, topics, log, t)
    {
      assert Reweighted(corpus, dictionary, topics, log, keywords, t);
    }
    result := Ok(keywords);
  }

  /** `generate_keywords(corpus, dictionary, topics, num_keywords)`: the topic
      terms with the highest scores, best first. */
  method GenerateKeywords(corpus: seq<Bag>, dictionary: Dictionary, topics: seq<Topic>,
                          numKeywords: int, log: real -> real)
    returns (result: Result<seq<(string, real)>, ScoreError>)
    requires TopicsInDictionary(topics, dictionary)
    ensures result.Err? <==>
      exists t :: t in AllTopicTerms(topics) && TermFrequency(corpus, dictionary, t) <= 0
    ensures result.Err? ==>
      (result.error.term in AllTopicTerms(topics)
       && TermFrequency(corpus, dictionary, result.error.term) <= 0)
    ensures result.Ok? ==>
      var r := result.value;
      && SortedDesc(r) && DistinctKeys(r)
      && |r| == SliceLength(|AllTopicTerms(topics)|, numKeywords)
      && (forall i :: 0 <= i < |r| ==>
            (r[i].0 in AllTopicTerms(topics)
             && r[i].1 == KeywordScore(corpus, dictionary, topics, log, r[i].0)))
      && (forall t, j :: t in AllTopicTerms(topics) && t !in KeySet(r) && 0 <= j < |r| ==>
            KeywordScore(corpus, dictionary, topics, log, t) <= r[j].1)
  {
    var sums := SumWeights(topics);
    TermsInDictionary(topics, dictionary);
    var scored := Reweight(corpus, dictionary, topics, sums, log);
    NonPositiveOverKeys(corpus, dictionary, topics, sums);
    if scored.Err? {
      return Err(scored.error);
    }
    var keywords := scored.value;
    var ranked := Rank(keywords);
    TopKeywords(corpus, dictionary, topics, log, keywords, ranked, numKeywords);
    result := Ok(Prefix(ranked, numKeywords));
  }

  /** The first `numKeywords` items of a ranking of the scored topic terms. */
  /** Some term of `sums` has a non-positive frequency exactly when some
      topic term has, as the two have the same keys. */
  lemma NonPositiveOverKeys(corpus: seq<Bag>, dictionary: Dictionary, topics: seq<Topic>,
                            sums: map<string, real>)
    requires sums.Keys == AllTopicTerms(topics)
    requires forall t :: t in sums ==> InDictionary(dictionary, t)
    ensures (exists t :: t in sums && TermFrequency(corpus, dictionary, t) <= 0)
        <==> (exists t :: t in AllTopicTerms(topics) && TermFrequency(corpus, dictionary, t) <= 0)
  {
  }

  lemma TopKeywords(corpus: seq<Bag>, dictionary: Dictionary, topics: seq<Topic>, log: real -> real,
                    keywords: map<string, real>, ranked: seq<(string, real)>, numKeywords: int)
    requires forall t :: t in AllTopicTerms(topics) ==> InDictionary(dictionary, t)
    requires keywords.Keys == AllTopicTerms(topics)
    requires forall t :: t in keywords ==> keywords[t] == KeywordScore(corpus, dictionary, topics, log, t)
    requires IsRanking(ranked, keywords) && |ranked| == |keywords|
    ensures var r := Prefix(ranked, numKeywords);
      && SortedDesc(r) && DistinctKeys(r)
      && |r| == SliceLength(|AllTopicTerms(topics)|, numKeywords)
      && (forall i :: 0 <= i < |r| ==>
            (r[i].0 in AllTopicTerms(topics)
             && r[i].1 == KeywordScore(corpus, dictionary, topics, log, r[i].0)))
      && (forall t, j :: t in AllTopicTerms(topics) && t !in KeySet(r) && 0 <= j < |r| ==>
            KeywordScore(corpus, dictionary, topics, log, t) <= r[j].1)
  {
    TopOfRanking(ranked, keywords, numKeywords);
    var r := Prefix(ranked, numKeywords);
    assert |keywords| == |AllTopicTerms(topics)|;
    forall i | 0 <= i < |r|
      ensures r[i].0 in AllTopicTerms(topics)
      ensures r[i].1 == KeywordScore(corpus, dictionary, topics, log, r[i].0)
    {
      assert r[i] == ranked[i];
    }
  }

  // ---------------------------------------------------------------------
  // export_keywords

  function Terms(keywords: seq<(string, real)>): (ts: seq<string>)
    ensures |ts| == |keywords| && forall i :: 0 <= i < |ts| ==> ts[i] == keywords[i].0
  {
    if keywords == [] then [] else [keywords[0].0] + Terms(keywords[1..])
  }

  /** Each line followed by a line feed. */
  function Lines(ts: seq<string>): string {
    if ts == [] then [] else ts[0] + "\n" + Lines(ts[1..])
  }

  /** The number of leading terms that are ASCII text. */
  function AsciiRun(ts: seq<string>): (n: nat)
    ensures n <= |ts|
    ensures forall i :: 0 <= i < n ==> IsAscii(ts[i])
    ensures n < |ts| ==> !IsAscii(ts[n])
  {
    if ts == [] || !IsAscii(ts[0]) then 0
    else
      var n := 1 + AsciiRun(ts[1..]);
      assert forall i :: 1 <= i < n ==> ts[i] == ts[1..][i - 1];
      n
  }

  /**
   * `export_keywords(keywords)`: the text written to the export file, and
   * whether writing stopped with a `UnicodeEncodeError`. The file is opened
   * without an encoding, so writing a term that holds a non-ASCII character
   * raises; the lines written before it stay. Otherwise the text is one
   * keyword per line, a blank line, the keywords joined by " OR ", another
   * blank line, and the keywords joined by spaces.
   */
  method ExportBody(keywords: seq<(string, real)>) returns (body: string, failed: bool)
    ensures var ts := Terms(keywords); failed <==> AsciiRun(ts) < |ts|
    ensures var ts := Terms(keywords);
      failed ==> body == Lines(ts[..AsciiRun(ts)])
    ensures var ts := Terms(keywords);
      !failed ==> body == Lines(ts) + "\n" + Join(" OR ", ts) + "\n\n" + Join(" ", ts)
  {
    var ts := Terms(keywords);
    body := "";
    var i := 1;
    var query := "";
    var query2 := "";
    for n := 0 to |keywords|
      invariant i == n + 1
      invariant ExportedSoFar(ts, n, body, query, query2)
    {
      var term := keywords[n].0;
      if !IsAscii(term) {
        AsciiRunIs(ts, n);
        return body, true;
      }
      ExportStep(ts, n, body, query, query2);
      body := body + term + "\n";
      if i > 1 {
        query := query + " OR " + term;
        query2 := query2 + " " + term;
      } else {
        query := query + term;
        query2 := query2 + term;
      }
      i := i + 1;
    }
    assert ts[..|keywords|] == ts;
    body := body + "\n" + query + "\n\n" + query2;
    failed := false;
  }

  lemma AsciiRunGrows(ts: seq<string>, n: nat)
    requires n < |ts| && IsAscii(ts[n]) && n <= AsciiRun(ts)
    ensures n + 1 <= AsciiRun(ts)
  {
  }

  /** The ASCII run ends at the first non-ASCII term. */
  lemma AsciiRunIs(ts: seq<string>, n: nat)
    requires n < |ts| && !IsAscii(ts[n]) && n <= AsciiRun(ts)
    ensures AsciiRun(ts) == n
  {
  }


  // ---------------------------------------------------------------------
  // Lemmas used by the methods

  /** One pass of the parsing loop: entry i parsed after the first i. */
  lemma ParseStep(entries: seq<string>, i: nat, excl: seq<int>)
    requires i < |entries| && ParseEntries(entries[..i]) == Ok(excl)
    ensures ParseInt(entries[i]).None? ==> ParseEntries(entries[..i + 1]) == Err(NotAnInteger(entries[i]))
    ensures ParseInt(entries[i]).Some? ==> ParseEntries(entries[..i + 1]) == Ok(excl + [ParseInt(entries[i]).value])
  {
    var e := entries[..i + 1];
    assert e != [] && e[..|e| - 1] == entries[..i] && e[|e| - 1] == entries[i];
  }

  /** One pass of the deletion loop. */
  lemma DeleteStep<T>(current: seq<T>, excl: seq<int>, k: nat)
    requires k < |excl|
    ensures DeleteAt(current, excl[k] - 1).None? ==> DeleteAll(current, excl[k..]) == Err(NoSuchTopic(excl[k]))
    ensures DeleteAt(current, excl[k] - 1).Some? ==>
      DeleteAll(current, excl[k..]) == DeleteAll(DeleteAt(current, excl[k] - 1).value, excl[k + 1..])
  {
    assert excl[k..][0] == excl[k];
    assert excl[k..][1..] == excl[k + 1..];
  }

  /** Once an entry fails to parse, the whole list fails with that entry. */
  lemma {:induction false} ParseEntriesFailure(entries: seq<string>, i: nat)
    requires i <= |entries| && ParseEntries(entries[..i]).Err?
    ensures ParseEntries(entries) == ParseEntries(entries[..i])
    decreases |entries|
  {
    if i < |entries| {
      var init := entries[..|entries| - 1];
      assert init[..i] == entries[..i];
      ParseEntriesFailure(init, i);
    } else {
      assert entries[..i] == entries;
    }
  }

  /** One pass of the inner loop of `SumWeights` is one `AddScore` step. */
  lemma AccumulateTopicStep(done: seq<(string, real)>, topic: Topic, j: nat)
    requires j < |topic|
    ensures Accumulate(done + Swapped(topic[..j + 1]))
      == AddScore(Accumulate(done + Swapped(topic[..j])), topic[j].1, topic[j].0)
  {
    assert topic[..j + 1][..j] == topic[..j];
    assert done + Swapped(topic[..j + 1]) == (done + Swapped(topic[..j])) + [(topic[j].1, topic[j].0)];
  }

  /** The terms of one topic. */
  function TopicTerms(topic: Topic): set<string> {
    set j | 0 <= j < |topic| :: topic[j].1
  }

  /** The terms of all topics. */
  function AllTopicTerms(topics: seq<Topic>): set<string> {
    set i, j | 0 <= i < |topics| && 0 <= j < |topics[i]| :: topics[i][j].1
  }

  lemma {:induction false} SwappedKeys(topic: Topic)
    ensures KeySet(Swapped(topic)) == TopicTerms(topic)
  {
    if topic != [] {
      var init := topic[..|topic| - 1];
      var last := topic[|topic| - 1];
      SwappedKeys(init);
      KeySetAppend(Swapped(init), [(last.1, last.0)]);
      assert [(last.1, last.0)][0].0 == last.1;
      assert KeySet([(last.1, last.0)]) == {last.1};
      assert TopicTerms(topic) == TopicTerms(init) + {last.1} by {
        forall y | y in TopicTerms(topic) ensures y in TopicTerms(init) + {last.1} {
          var j :| 0 <= j < |topic| && topic[j].1 == y;
          if j < |init| { assert init[j].1 == y; }
        }
        forall y | y in TopicTerms(init) ensures y in TopicTerms(topic) {
          var j :| 0 <= j < |init| && init[j].1 == y;
          assert topic[j].1 == y;
        }
      }
    }
  }

  /** The accumulated dictionary's keys are exactly the terms of the topics. */
  lemma {:induction false} TermWeightsKeys(topics: seq<Topic>)
    ensures KeySet(TermWeights(topics)) == AllTopicTerms(topics)
  {
    if topics != [] {
      var init := topics[..|topics| - 1];
      var last := topics[|topics| - 1];
      TermWeightsKeys(init);
      SwappedKeys(last);
      KeySetAppend(TermWeights(init), Swapped(last));
      assert AllTopicTerms(topics) == AllTopicTerms(init) + TopicTerms(last) by {
        forall y | y in AllTopicTerms(topics) ensures y in AllTopicTerms(init) + TopicTerms(last) {
          var i, j :| 0 <= i < |topics| && 0 <= j < |topics[i]| && topics[i][j].1 == y;
          if i < |init| { assert init[i][j].1 == y; }
        }
        forall y | y in AllTopicTerms(init) ensures y in AllTopicTerms(topics) {
          var i, j :| 0 <= i < |init| && 0 <= j < |init[i]| && init[i][j].1 == y;
          assert topics[i][j].1 == y;
        }
        forall y | y in TopicTerms(last) ensures y in AllTopicTerms(topics) {
          var j :| 0 <= j < |last| && last[j].1 == y;
          assert topics[|topics| - 1][j].1 == y;
        }
      }
    }
  }

  lemma TermsInDictionary(topics: seq<Topic>, dictionary: Dictionary)
    requires TopicsInDictionary(topics, dictionary)
    ensures forall t :: t in AllTopicTerms(topics) ==> InDictionary(dictionary, t)
  {
  }

  /** The search loop stops at the first entry holding the term. */
  lemma {:induction false} IdOfFirst(dictionary: Dictionary, term: string, k: nat)
    requires k < |dictionary| && dictionary[k].1 == term
    requires forall m :: 0 <= m < k ==> dictionary[m].1 != term
    ensures InDictionary(dictionary, term) && IdOf(dictionary, term) == dictionary[k].0
  {
    if k > 0 {
      IdOfFirst(dictionary[1..], term, k - 1);
    }
  }

  /** After `n` keywords the three texts hold the lines, the " OR " query and
      the space-separated query of the first `n` terms. */
  predicate ExportedSoFar(ts: seq<string>, n: nat, body: string, query: string, query2: string) {
    n <= AsciiRun(ts) && body == Lines(ts[..n])
    && query == Join(" OR ", ts[..n]) && query2 == Join(" ", ts[..n])
  }

  lemma ExportStep(ts: seq<string>, n: nat, body: string, query: string, query2: string)
    requires n < |ts| && IsAscii(ts[n]) && ExportedSoFar(ts, n, body, query, query2)
    ensures ExportedSoFar(ts, n + 1, body + ts[n] + "\n",
      if n > 0 then query + " OR " + ts[n] else query + ts[n],
      if n > 0 then query2 + " " + ts[n] else query2 + ts[n])
  {
    var done, term := ts[..n], ts[n];
    AsciiRunGrows(ts, n);
    assert ts[..n + 1] == done + [term];
    LinesSnoc(done, term);
    JoinSnoc(" OR ", done, term);
    JoinSnoc(" ", done, term);
  }

  lemma {:induction false} LinesSnoc(ts: seq<string>, x: string)
    ensures Lines(ts + [x]) == Lines(ts) + x + "\n"
  {
    if ts != [] {
      assert (ts + [x])[1..] == ts[1..] + [x];
      LinesSnoc(ts[1..], x);
    }
  }

  // ---------------------------------------------------------------------
  // Properties of exclude_topics

  /** `topics` without the topics at the 1-based positions in `positions`,
      the others in their original order. */
  function KeepPositions<T>(topics: seq<T>, positions: set<int>): seq<T> {
    if topics == [] then []
    else
      KeepPositions(topics[..|topics| - 1], positions)
        + (if |topics| in positions then [] else [topics[|topics| - 1]])
  }

  predicate Distinct(xs: seq<int>) {
    forall i, j :: 0 <= i < j < |xs| ==> xs[i] != xs[j]
  }

  /** A reply of spaces only keeps every topic. */
  lemma {:induction false} ExcludeBlank<T>(topics: seq<T>, input: string)
    requires forall i :: 0 <= i < |input| ==> input[i] == ' '
    ensures Exclude(topics, input) == Ok(topics)
  {
    AllSpacesRemoved(input);
  }

  lemma {:induction false} AllSpacesRemoved(s: string)
    requires forall i :: 0 <= i < |s| ==> s[i] == ' '
    ensures RemoveChar(s, ' ') == []
  {
    if s != [] {
      AllSpacesRemoved(s[1..]);
    }
  }

  /** Every deletion that succeeds removes exactly one topic. */
  lemma {:induction false} DeleteAllLength<T>(topics: seq<T>, indices: seq<int>)
    requires DeleteAll(topics, indices).Ok?
    ensures |DeleteAll(topics, indices).value| == |topics| - |indices|
  {
    if indices != [] {
      var rest := DeleteAt(topics, indices[0] - 1).value;
      DeleteAllLength(rest, indices[1..]);
    }
  }

  lemma {:induction false} KeepAgree<T>(a: seq<T>, s: set<int>, s': set<int>)
    requires forall p :: 1 <= p <= |a| ==> (p in s <==> p in s')
    ensures KeepPositions(a, s) == KeepPositions(a, s')
  {
    if a != [] {
      KeepAgree(a[..|a| - 1], s, s');
    }
  }

  lemma {:induction false} KeepAppendFree<T>(a: seq<T>, b: seq<T>, s: set<int>)
    requires forall p :: |a| < p <= |a| + |b| ==> p !in s
    ensures KeepPositions(a + b, s) == KeepPositions(a, s) + b
    decreases |b|
  {
    if b == [] {
      assert a + b == a;
    } else {
      var init := b[..|b| - 1];
      assert (a + b)[..|a + b| - 1] == a + init;
      KeepAppendFree(a, init, s);
      assert init + [b[|b| - 1]] == b;
    }
  }

  /** Deleting topic i leaves what keeping all but positions R + {i} leaves,
      when every position in R lies below i. */
  lemma KeepDrop<T>(t: seq<T>, i: int, r: set<int>)
    requires 1 <= i <= |t|
    requires forall x :: x in r ==> x < i
    ensures KeepPositions(t[..i - 1] + t[i..], r) == KeepPositions(t, r + {i})
  {
    var before, upTo, after := t[..i - 1], t[..i], t[i..];
    var ri := r + {i};
    KeepAppendFree(before, after, r);
    assert upTo + after == t;
    KeepAppendFree(upTo, after, ri);
    KeepSkipLast(upTo, ri);
    assert upTo[..|upTo| - 1] == before;
    KeepAgree(before, ri, r);
  }

  /** A last position that is excluded contributes nothing: the step of
      `KeepDrop` that drops topic `i` itself. */
  lemma KeepSkipLast<T>(a: seq<T>, s: set<int>)
    requires a != [] && |a| in s
    ensures KeepPositions(a, s) == KeepPositions(a[..|a| - 1], s)
  {
  }

  /** Deleting strictly descending valid positions one by one removes exactly
      those positions: the indices of the survivors never shift. */
  lemma {:induction false} DeleteDescending<T>(t: seq<T>, desc: seq<int>)
    requires forall i, j :: 0 <= i < j < |desc| ==> desc[i] > desc[j]
    requires forall i :: 0 <= i < |desc| ==> 1 <= desc[i] <= |t|
    ensures DeleteAll(t, desc) == Ok(KeepPositions(t, set x | x in desc))
  {
    if desc == [] {
      KeepAgree(t, {}, set x | x in desc);
      assert KeepPositions(t, {}) == t by {
        KeepAppendFree([], t, {});
        assert [] + t == t;
      }
    } else {
      var i := desc[0];
      var rest := desc[1..];
      var t' := t[..i - 1] + t[i..];
      assert forall k :: 0 <= k < |rest| ==> rest[k] < i;
      DeleteDescending(t', rest);
      KeepDrop(t, i, set x | x in rest);
      assert (set x | x in rest) + {i} == set x | x in desc;
    }
  }

  lemma TwoPositions(xs: seq<int>, i: nat, j: nat)
    requires i < j < |xs| && xs[i] == xs[j]
    ensures multiset(xs)[xs[i]] >= 2
  {
    assert xs == xs[..j] + [xs[j]] + xs[j + 1..];
    assert xs[i] == xs[..j][i];
  }

  lemma {:induction false} DistinctOnce(xs: seq<int>, v: int)
    requires Distinct(xs)
    ensures multiset(xs)[v] <= 1
  {
    if xs != [] {
      var init := xs[..|xs| - 1];
      DistinctOnce(init, v);
      assert xs == init + [xs[|xs| - 1]];
      if xs[|xs| - 1] == v {
        assert v !in init;
      }
    }
  }

  /** Sorting distinct indices largest first gives a strictly descending list
      of the same indices. */
  lemma SortDistinct(xs: seq<int>)
    requires Distinct(xs)
    ensures var r := SortDescending(xs);
      && (forall i, j :: 0 <= i < j < |r| ==> r[i] > r[j])
      && (set x | x in r) == (set x | x in xs)
  {
    var r := SortDescending(xs);
    forall i, j | 0 <= i < j < |r| ensures r[i] > r[j] {
      if r[i] == r[j] {
        TwoPositions(r, i, j);
        DistinctOnce(xs, r[i]);
        assert false;
      }
    }
    assert forall x :: x in r <==> x in multiset(r);
  }

  lemma EmptyReplyFails()
    ensures ParseEntries(SplitOn([], ',')).Err?
  {
    assert SplitOn([], ',') == [[]];
    assert ParseInt([]) == None;
  }

  /** For distinct indices within 1..len(topics), the result is the topic
      list without exactly those 1-based positions, survivors in their
      original order, one topic fewer per index. */
  lemma ExcludeDistinct<T>(topics: seq<T>, input: string, indices: seq<int>)
    requires ParseEntries(SplitOn(RemoveChar(input, ' '), ',')) == Ok(indices)
    requires Distinct(indices)
    requires forall i :: 0 <= i < |indices| ==> 1 <= indices[i] <= |topics|
    ensures Exclude(topics, input) == Ok(KeepPositions(topics, set x | x in indices))
    ensures |Exclude(topics, input).value| == |topics| - |indices|
  {
    EmptyReplyFails();
    var sorted := SortDescending(indices);
    SortDistinct(indices);
    assert forall i :: 0 <= i < |sorted| ==> sorted[i] in multiset(indices);
    DeleteDescending(topics, sorted);
    DeleteAllLength(topics, sorted);
  }

  /** An index above the number of topics makes the first deletion fail. */
  lemma ExcludeTooLarge<T>(topics: seq<T>, input: string, indices: seq<int>, k: nat)
    requires ParseEntries(SplitOn(RemoveChar(input, ' '), ',')) == Ok(indices)
    requires k < |indices| && indices[k] > |topics|
    ensures Exclude(topics, input).Err?
    ensures Exclude(topics, input).error.NoSuchTopic?
  {
    EmptyReplyFails();
    var sorted := SortDescending(indices);
    assert indices[k] in multiset(sorted);
    var m :| 0 <= m < |sorted| && sorted[m] == indices[k];
    assert sorted[0] >= sorted[m];
  }

  /** An entry that is not an integer makes the whole reply fail. */
  lemma ExcludeNotInteger<T>(topics: seq<T>, input: string, k: nat)
    requires RemoveChar(input, ' ') != []
    requires k < |SplitOn(RemoveChar(input, ' '), ',')|
    requires ParseInt(SplitOn(RemoveChar(input, ' '), ',')[k]) == None
    ensures Exclude(topics, input).Err? && Exclude(topics, input).error.NotAnInteger?
  {
  }

  /** A reply that is one integer parses to that integer alone. */
  lemma ParseOne(entry: string, v: int)
    requires ParseInt(entry) == Some(v)
    ensures ParseEntries([entry]) == Ok([v])
  {
    var entries := [entry];
    assert entries[..|entries| - 1] == [];
    assert ParseEntries([]) == Ok([]);
    assert entries[|entries| - 1] == entry;
    assert ParseInt(entries[|entries| - 1]) == Some(v);
    assert ParseEntries(entries[..|entries| - 1]) == Ok([]);
    assert ParseEntries(entries) == Ok([] + [v]);
    assert [] + [v] == [v];
    assert ParseEntries(entries) == Ok([v]);
  }

  lemma ParseDigit(n: nat)
    requires n < 10
    ensures ParseInt(['0' + n as char]) == Some(n)
  {
    ParseIntOfDecimal(n);
  }

  /** A reply that is one digit deletes that one index. */
  lemma DigitReply<T>(topics: seq<T>, n: nat)
    requires n < 10
    ensures Exclude(topics, ['0' + n as char]) == DeleteAll(topics, [n])
  {
    var d := ['0' + n as char];
    assert RemoveChar(d, ' ') == d;
    assert SplitOn(d, ',') == [d];
    ParseDigit(n);
    ParseOne(d, n);
    assert SortDescending([n]) == [n];
  }

  /** Deleting the single index i, a valid 1-based position. */
  lemma DeleteOne<T>(topics: seq<T>, i: int)
    requires 1 <= i <= |topics|
    ensures DeleteAll(topics, [i]) == Ok(topics[..i - 1] + topics[i..])
  {
    assert [i][1..] == [];
  }

  /** A trailing comma leaves an empty last entry, which `int` rejects. */
  lemma ExcludeTrailingComma<T>(topics: seq<T>)
    ensures Exclude(topics, "1,") == Err(NotAnInteger(""))
  {
    assert RemoveChar("1,", ' ') == "1,";
    assert SplitOn("1,", ',') == ["1", ""] by {
      assert SplitOn("", ',') == [[]];
      assert ","[1..] == "";
      assert SplitOn(",", ',') == [[], []];
      assert "1,"[1..] == ",";
      var rest := SplitOn(",", ',');
      assert rest[1..] == [[]];
      assert "1,"[0] == '1' && ['1'] + rest[0] == "1";
      assert [['1'] + rest[0]] + rest[1..] == ["1", ""];
    }
    ParseDigit(1);
    ParseOne("1", 1);
    assert ["1", ""][..1] == ["1"];
  }

  /** Index 0 deletes the last topic, as `del topics[-1]` does. */
  lemma ExcludeZero<T>(topics: seq<T>)
    requires |topics| > 0
    ensures Exclude(topics, "0") == Ok(topics[..|topics| - 1])
  {
    DigitReply(topics, 0);
    DeleteLast(topics);
  }

  lemma DeleteLast<T>(topics: seq<T>)
    requires |topics| > 0
    ensures DeleteAll(topics, [0]) == Ok(topics[..|topics| - 1])
  {
    assert topics[..|topics| - 1] + topics[|topics|..] == topics[..|topics| - 1];
    assert DeleteAt(topics, -1) == Some(topics[..|topics| - 1]);
    assert [0][1..] == [];
  }

  /** Excluding "2" from three topics leaves the first and the third, in order. */
  lemma ExcludeSecondOfThree<T>(a: T, b: T, c: T)
    ensures Exclude([a, b, c], "2") == Ok([a, c])
  {
    DigitReply([a, b, c], 2);
    DeleteOne([a, b, c], 2);
    assert [a, b, c][..1] + [a, b, c][2..] == [a, c];
  }

  // ---------------------------------------------------------------------
  // Properties of generate_keywords

  /** A term's corpus frequency over consecutive document runs adds up. */
  lemma {:induction false} FrequencyAppend(a: seq<Bag>, b: seq<Bag>, id: int)
    ensures Frequency(a + b, id) == Frequency(a, id) + Frequency(b, id)
    decreases |b|
  {
    if b == [] {
      assert a + b == a;
    } else {
      var init := b[..|b| - 1];
      assert (a + b)[..|a + b| - 1] == a + init;
      FrequencyAppend(a, init, id);
    }
  }

  /** A term found in two topics with weights 0.3 and 0.2 and counted four
      times in the corpus scores (0.3 + 0.2) * log(4). */
  lemma ScoreTwoTopics(log: real -> real)
    ensures var topics := [[(0.3, "x")], [(0.2, "x")]];
      InDictionary([(0, "x")], "x")
      && KeywordScore([[(0, 4)]], [(0, "x")], topics, log, "x") == (0.3 + 0.2) * log(4.0)
  {
    var topics: seq<Topic> := [[(0.3, "x")], [(0.2, "x")]];
    assert [(0, "x")][0].1 == "x";
    assert topics[..1] == [[(0.3, "x")]];
    assert topics[..1][..0] == [];
    assert Swapped([(0.3, "x")]) == [("x", 0.3)] by {
      assert [(0.3, "x")][..0] == [];
    }
    assert Swapped([(0.2, "x")]) == [("x", 0.2)] by {
      assert [(0.2, "x")][..0] == [];
    }
    assert TermWeights(topics) == [("x", 0.3), ("x", 0.2)];
    assert [("x", 0.3), ("x", 0.2)][..1] == [("x", 0.3)];
    assert [("x", 0.3)][..0] == [];
    assert Total(TermWeights(topics), "x") == 0.3 + 0.2;
    var corpus: seq<Bag> := [[(0, 4)]];
    assert corpus[..0] == [];
    assert [(0, 4)][..0] == [];
    assert Frequency(corpus, 0) == 4;
  }

  // ---------------------------------------------------------------------
  // Properties of export_keywords

  lemma {:induction false} LinesThenJoin(ts: seq<string>, rest: seq<string>)
    requires |rest| >= 1
    ensures Lines(ts) + Join("\n", rest) == Join("\n", ts + rest)
  {
    if ts != [] {
      LinesThenJoin(ts[1..], rest);
      var all := ts + rest;
      assert all[0] == ts[0] && |all| >= 2;
      assert all[1..] == ts[1..] + rest;
      calc {
        Lines(ts) + Join("\n", rest);
        ts[0] + "\n" + Lines(ts[1..]) + Join("\n", rest);
        ts[0] + "\n" + (Lines(ts[1..]) + Join("\n", rest));
        ts[0] + "\n" + Join("\n", all[1..]);
        Join("\n", all);
      }
    } else {
      assert ts + rest == rest;
    }
  }

  /** The four lines after the keywords, joined by line feeds. */
  lemma QueryTail(q: string, q2: string)
    ensures Join("\n", ["", q, "", q2]) == "\n" + q + "\n\n" + q2
  {
    var tail := ["", q, "", q2];
    assert tail[1..] == [q, "", q2];
    assert tail[1..][1..] == ["", q2];
    assert tail[1..][1..][1..] == [q2];
    assert Join("\n", ["", q2]) == "\n" + q2;
    assert Join("\n", [q, "", q2]) == q + "\n" + "\n" + q2;
  }

  lemma LinesThenTail(ts: seq<string>, q: string, q2: string)
    ensures Lines(ts) + "\n" + q + "\n\n" + q2 == Join("\n", ts + ["", q, "", q2])
  {
    QueryTail(q, q2);
    LinesThenJoin(ts, ["", q, "", q2]);
    assert Lines(ts) + "\n" + q + "\n\n" + q2 == Lines(ts) + ("\n" + q + "\n\n" + q2);
  }

  /** The four lines after the keywords hold no line feed of their own: the
      precondition `SplitExport` needs for the tail of the export. */
  lemma TailFree(q: string, q2: string)
    requires '\n' !in q && '\n' !in q2
    ensures forall i :: 0 <= i < 4 ==> '\n' !in ["", q, "", q2][i]
  {
  }

  lemma SplitExport(ts: seq<string>, q: string, q2: string)
    requires forall i :: 0 <= i < |ts| ==> '\n' !in ts[i]
    requires '\n' !in q && '\n' !in q2
    ensures SplitOn(Lines(ts) + "\n" + q + "\n\n" + q2, '\n') == ts + ["", q, "", q2]
  {
    var tail := ["", q, "", q2];
    TailFree(q, q2);
    assert forall i :: 0 <= i < |ts + tail| ==> '\n' !in (ts + tail)[i] by {
      forall i | 0 <= i < |ts + tail| ensures '\n' !in (ts + tail)[i] {
        if i < |ts| {
          assert (ts + tail)[i] == ts[i];
        } else {
          assert (ts + tail)[i] == tail[i - |ts|];
        }
      }
    }
    SplitOnJoin(ts + tail, '\n');
    LinesThenTail(ts, q, q2);
  }

  /** Read back line by line, the export file holds each keyword on its own
      line, an empty line, the " OR " query, an empty line and the
      space-separated query. */
  lemma ExportBodyLines(keywords: seq<(string, real)>)
    requires forall i :: 0 <= i < |keywords| ==> '\n' !in keywords[i].0
    ensures var ts := Terms(keywords);
      var q := Join(" OR ", ts);
      var q2 := Join(" ", ts);
      SplitOn(Lines(ts) + "\n" + q + "\n\n" + q2, '\n') == ts + ["", q, "", q2]
  {
    var ts := Terms(keywords);
    JoinExcludes(" OR ", ts, '\n');
    JoinExcludes(" ", ts, '\n');
    SplitExport(ts, Join(" OR ", ts), Join(" ", ts));
  }

  /** The space-separated query splits back into the keywords when each
      keyword is a single word. */
  lemma ExportQueryWords(keywords: seq<(string, real)>)
    requires AllWords(Terms(keywords))
    ensures Words(Join(" ", Terms(keywords))) == Terms(keywords)
  {
    WordsOfJoin(Terms(keywords));
  }
}
