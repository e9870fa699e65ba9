/**
 * The dictionary-and-sort pattern both keyword scorers share:
 * accumulate `d[key] += score` over (key, score) pairs, then
 * `sorted(d.items(), key=operator.itemgetter(1), reverse=True)[:k]`.
 */
module Ranking {

  /** The sum of the scores paired with `k` in `pairs`: zero when `k` never occurs. */
  function Total<K(==)>(pairs: seq<(K, real)>, k: K): real {
    if pairs == [] then 0.0
    else Total(pairs[..|pairs| - 1], k) + (if pairs[|pairs| - 1].0 == k then pairs[|pairs| - 1].1 else 0.0)
  }

  /** The keys occurring in `pairs`. */
  function KeySet<K(==)>(pairs: seq<(K, real)>): set<K> {
    set i | 0 <= i < |pairs| :: pairs[i].0
  }

  /** One step of `if key in d: d[key] += score else: d[key] = score`. */
  function AddScore<K(==)>(d: map<K, real>, key: K, score: real): map<K, real> {
    d[key := if key in d then d[key] + score else score]
  }

  /** The dictionary left by running that step over `pairs` from left to right. */
  function Accumulate<K(==)>(pairs: seq<(K, real)>): map<K, real> {
    if pairs == [] then map[]
    else AddScore(Accumulate(pairs[..|pairs| - 1]), pairs[|pairs| - 1].0, pairs[|pairs| - 1].1)
  }

  /** Scores never increase along `items`. */
  predicate SortedDesc<K(==)>(items: seq<(K, real)>) {
    forall i, j :: 0 <= i < j < |items| ==> items[i].1 >= items[j].1
  }

  predicate DistinctKeys<K(==)>(items: seq<(K, real)>) {
    forall i, j :: 0 <= i < j < |items| ==> items[i].0 != items[j].0
  }

  /** Every item of `items` is an entry of `d`. */
  predicate EntriesOf<K>(items: seq<(K, real)>, d: map<K, real>) {
    forall i :: 0 <= i < |items| ==> items[i].0 in d && items[i].1 == d[items[i].0]
  }

  /** `items` lists every entry of `d` exactly once, by non-increasing score. */
  predicate IsRanking<K(==)>(items: seq<(K, real)>, d: map<K, real>) {
    && SortedDesc(items)
    && DistinctKeys(items)
    && KeySet(items) == d.Keys
    && EntriesOf(items, d)
  }

  /** The length of `xs[:k]` for a list of length `n`; a negative `k` counts from the end. */
  function SliceLength(n: nat, k: int): (m: nat)
    ensures m <= n
  {
    if k >= 0 then (if k < n then k else n)
    else if n + k > 0 then n + k else 0
  }

  /** Python's `xs[:k]`. */
  function Prefix<T>(xs: seq<T>, k: int): seq<T> {
    xs[..SliceLength(|xs|, k)]
  }

  /** A negative bound counts from the end: `xs[:k] == xs[:len(xs) + k]`
      for `-len(xs) <= k < 0`. */
  lemma PrefixNegative<T>(xs: seq<T>, k: int)
    requires -|xs| <= k < 0
    ensures Prefix(xs, k) == Prefix(xs, |xs| + k)
    ensures |Prefix(xs, k)| == |xs| + k
  {
  }

  /** A bound at or past either end takes everything or nothing, and any
      bound takes an initial part of `xs`. */
  lemma PrefixBounds<T>(xs: seq<T>, k: int)
    ensures k >= |xs| ==> Prefix(xs, k) == xs
    ensures k <= -|xs| ==> Prefix(xs, k) == []
    ensures 0 <= k <= |xs| ==> |Prefix(xs, k)| == k
    ensures Prefix(xs, k) <= xs
  {
  }

  // ---------------------------------------------------------------------
  // Sorting

  /**
   * `sorted(d.items(), key=operator.itemgetter(1), reverse=True)`. The items
   * are taken from the dictionary in an unspecified order (the choice `:|`),
   * as Python 2 iterates a dict; equal scores may come out in any order.
   */
  method Rank<K(==)>(d: map<K, real>) returns (items: seq<(K, real)>)
    ensures IsRanking(items, d)
    ensures |items| == |d|
  {
    var rest := d.Keys;
    items := [];
    while rest != {}
      invariant RankedSoFar(items, d, rest)
      decreases |rest|
    {
      var k :| k in rest;
      var x := (k, d[k]);
      var p := 0;
      while p < |items| && items[p].1 >= x.1
        invariant 0 <= p <= |items|
        invariant forall i :: 0 <= i < p ==> items[i].1 >= x.1
      {
        p := p + 1;
      }
      InsertStep(items, d, rest, p, k);
      items := InsertAt(items, p, x);
      rest := rest - {k};
    }
  }

  /** The loop invariant of `Rank`: `items` ranks the entries of `d` whose
      keys are not in `rest`. */
  predicate RankedSoFar<K(==)>(items: seq<(K, real)>, d: map<K, real>, rest: set<K>) {
    && rest <= d.Keys
    && KeySet(items) == d.Keys - rest
    && |items| + |rest| == |d.Keys|
    && SortedDesc(items) && DistinctKeys(items)
    && EntriesOf(items, d)
  }

  /** Inserting the entry for `k` at the first position whose score is lower
      ranks one more entry. */
  lemma InsertStep<K>(items: seq<(K, real)>, d: map<K, real>, rest: set<K>, p: nat, k: K)
    requires RankedSoFar(items, d, rest) && k in rest
    requires p <= |items|
    requires forall i :: 0 <= i < p ==> items[i].1 >= d[k]
    requires p < |items| ==> items[p].1 < d[k]
    ensures RankedSoFar(InsertAt(items, p, (k, d[k])), d, rest - {k})
  {
    var x := (k, d[k]);
    InsertKeySet(items, p, x);
    InsertSorted(items, p, x);
    InsertDistinct(items, p, x);
    InsertEntries(items, p, x, d);
  }

  /** `items` with `x` inserted at position `p`. */
  function InsertAt<T>(items: seq<T>, p: nat, x: T): (r: seq<T>)
    requires p <= |items|
    ensures |r| == |items| + 1
    ensures forall i :: 0 <= i < p ==> r[i] == items[i]
    ensures r[p] == x
    ensures forall i :: p < i < |r| ==> r[i] == items[i - 1]
  {
    items[..p] + [x] + items[p..]
  }

  lemma InsertKeySet<K>(items: seq<(K, real)>, p: nat, x: (K, real))
    requires p <= |items|
    ensures KeySet(InsertAt(items, p, x)) == KeySet(items) + {x.0}
  {
    var r := InsertAt(items, p, x);
    forall y | y in KeySet(r) ensures y in KeySet(items) + {x.0} {
      var i :| 0 <= i < |r| && r[i].0 == y;
      if i > p { assert items[i - 1].0 == y; }
      if i < p { assert items[i].0 == y; }
    }
    forall y | y in KeySet(items) ensures y in KeySet(r) {
      var i :| 0 <= i < |items| && items[i].0 == y;
      if i < p { assert r[i].0 == y; } else { assert r[i + 1].0 == y; }
    }
    assert r[p].0 == x.0;
  }

  /** Inserting `x` after every higher score and before every lower one keeps
      the scores non-increasing. */
  lemma InsertSorted<K>(items: seq<(K, real)>, p: nat, x: (K, real))
    requires p <= |items| && SortedDesc(items)
    requires forall i :: 0 <= i < p ==> items[i].1 >= x.1
    requires p < |items| ==> items[p].1 < x.1
    ensures SortedDesc(InsertAt(items, p, x))
  {
    var r := InsertAt(items, p, x);
    forall i, j | 0 <= i < j < |r| ensures r[i].1 >= r[j].1 {
      if j > p {
        assert r[j] == items[j - 1];
        assert items[p].1 >= items[j - 1].1 || p == j - 1;
      }
    }
  }

  lemma InsertEntries<K>(items: seq<(K, real)>, p: nat, x: (K, real), d: map<K, real>)
    requires p <= |items| && EntriesOf(items, d) && x.0 in d && x.1 == d[x.0]
    ensures EntriesOf(InsertAt(items, p, x), d)
  {
  }

  /** Inserting a key not yet present keeps the keys distinct. */
  lemma InsertDistinct<K>(items: seq<(K, real)>, p: nat, x: (K, real))
    requires p <= |items| && DistinctKeys(items) && x.0 !in KeySet(items)
    ensures DistinctKeys(InsertAt(items, p, x))
  {
    var r := InsertAt(items, p, x);
    forall i, j | 0 <= i < j < |r| ensures r[i].0 != r[j].0 {
      if i == p {
        assert r[j] == items[j - 1];
        assert items[j - 1].0 in KeySet(items);
      } else if j == p {
        assert r[i] == items[i];
        assert items[i].0 in KeySet(items);
      } else {
        var i' := if i < p then i else i - 1;
        var j' := if j < p then j else j - 1;
        assert r[i] == items[i'] && r[j] == items[j'];
      }
    }
  }

  // ---------------------------------------------------------------------
  // Lemmas

  /** Scores over a concatenation add up. */
  lemma {:induction false} TotalAppend<K>(a: seq<(K, real)>, b: seq<(K, real)>, k: K)
    ensures Total(a + b, k) == Total(a, k) + Total(b, k)
    decreases |b|
  {
    if b != [] {
      assert (a + b)[..|a + b| - 1] == a + b[..|b| - 1];
      TotalAppend(a, b[..|b| - 1], k);
    } else {
      assert a + b == a;
    }
  }

  /** A key that never occurs adds nothing. */
  lemma {:induction false} TotalAbsent<K>(pairs: seq<(K, real)>, k: K)
    requires k !in KeySet(pairs)
    ensures Total(pairs, k) == 0.0
  {
    if pairs != [] {
      assert KeySet(pairs[..|pairs| - 1]) <= KeySet(pairs) by {
        forall y | y in KeySet(pairs[..|pairs| - 1]) ensures y in KeySet(pairs) {
          var i :| 0 <= i < |pairs| - 1 && pairs[..|pairs| - 1][i].0 == y;
          assert pairs[i].0 == y;
        }
      }
      TotalAbsent(pairs[..|pairs| - 1], k);
    }
  }

  /** The keys of two runs of pairs together are the keys of each. */
  lemma {:induction false} KeySetAppend<K>(a: seq<(K, real)>, b: seq<(K, real)>)
    ensures KeySet(a + b) == KeySet(a) + KeySet(b)
  {
    forall y | y in KeySet(a + b) ensures y in KeySet(a) + KeySet(b) {
      var i :| 0 <= i < |a + b| && (a + b)[i].0 == y;
      if i < |a| { assert a[i].0 == y; } else { assert b[i - |a|].0 == y; }
    }
    forall y | y in KeySet(a) + KeySet(b) ensures y in KeySet(a + b) {
      if y in KeySet(a) {
        var i :| 0 <= i < |a| && a[i].0 == y;
        assert (a + b)[i].0 == y;
      } else {
        var i :| 0 <= i < |b| && b[i].0 == y;
        assert (a + b)[|a| + i].0 == y;
      }
    }
  }

  /** One more pair of `pairs` accumulated after `done`. */
  lemma AccumulateSnoc<K>(done: seq<(K, real)>, pairs: seq<(K, real)>, j: nat)
    requires j < |pairs|
    ensures Accumulate(done + pairs[..j + 1]) == AddScore(Accumulate(done + pairs[..j]), pairs[j].0, pairs[j].1)
  {
    assert pairs[..j + 1] == pairs[..j] + [pairs[j]];
    assert done + pairs[..j + 1] == (done + pairs[..j]) + [pairs[j]];
  }

  /** The accumulated dictionary has exactly the keys that occur, and each
      key maps to the sum of all its scores. */
  lemma {:induction false} AccumulateTotals<K>(pairs: seq<(K, real)>)
    ensures Accumulate(pairs).Keys == KeySet(pairs)
    ensures forall k :: k in Accumulate(pairs) ==> Accumulate(pairs)[k] == Total(pairs, k)
  {
    if pairs != [] {
      var init := pairs[..|pairs| - 1];
      var last := pairs[|pairs| - 1];
      AccumulateTotals(init);
      assert KeySet(pairs) == KeySet(init) + {last.0} by {
        forall y | y in KeySet(pairs) ensures y in KeySet(init) + {last.0} {
          var i :| 0 <= i < |pairs| && pairs[i].0 == y;
          if i < |pairs| - 1 { assert init[i].0 == y; }
        }
        forall y | y in KeySet(init) ensures y in KeySet(pairs) {
          var i :| 0 <= i < |init| && init[i].0 == y;
          assert pairs[i].0 == y;
        }
      }
      if last.0 !in KeySet(init) {
        TotalAbsent(init, last.0);
      }
    }
  }

  /** `xs[:k]` is the top of a ranking: whatever is left out scores no higher
      than anything kept, and nothing kept appears twice. */
  lemma TopOfRanking<K>(items: seq<(K, real)>, d: map<K, real>, k: int)
    requires IsRanking(items, d)
    ensures var top := Prefix(items, k);
      && top == items[..|top|]
      && SortedDesc(top) && DistinctKeys(top)
      && forall key, j :: key in d && key !in KeySet(top) && 0 <= j < |top| ==> d[key] <= top[j].1
  {
    var top := Prefix(items, k);
    assert forall i :: 0 <= i < |top| ==> top[i].0 in KeySet(top);
    forall key, j | key in d && key !in KeySet(top) && 0 <= j < |top| ensures d[key] <= top[j].1 {
      assert key in KeySet(items);
      var i :| 0 <= i < |items| && items[i].0 == key;
    }
  }
}
