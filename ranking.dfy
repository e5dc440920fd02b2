/**
 * Top-N crop ranking of the recommendation agent (`predict_crops`).
 *
 * The classifier's probability row is a sequence of scores; `int` stands for
 * any totally ordered score (the percentage formatting of the source is not
 * modelled, so a recommendation carries its raw score). `np.argsort` is not
 * stable, so its output is an input `order` that is only required to be some
 * ascending argsort of the row (`IsArgsort`); the order among equal scores is
 * therefore left open, as it is in the source.
 */
module Ranking {
  import opened Wrappers

  /** No value occurs twice in `xs`. */
  predicate Distinct<T(==)>(xs: seq<T>) {
    forall i, j :: 0 <= i < j < |xs| ==> xs[i] != xs[j]
  }

  /** Every element of `xs` is an index into `p`. */
  predicate IndicesOf<T>(p: seq<T>, xs: seq<int>) {
    forall i :: 0 <= i < |xs| ==> 0 <= xs[i] < |p|
  }

  /** The indices `xs` list scores of `p` in ascending order. */
  predicate AscendingBy(p: seq<int>, xs: seq<int>)
    requires IndicesOf(p, xs)
  {
    forall i, j :: 0 <= i < j < |xs| ==> p[xs[i]] <= p[xs[j]]
  }

  /**
   * `order` is a possible result of `np.argsort(p)`: a permutation of the
   * indices of `p` that lists the scores in ascending order.
   */
  predicate IsArgsort(p: seq<int>, order: seq<int>) {
    && |order| == |p|
    && IndicesOf(p, order)
    && Distinct(order)
    && (forall j :: 0 <= j < |p| ==> j in order)
    && AscendingBy(p, order)
  }

  /** Python's normalisation of the start of a slice `a[start:]` over `n` elements. */
  function PySliceStart(start: int, n: nat): (r: nat)
    ensures r <= n
    ensures n - r == ExpectedCount(-start, n)
  {
    if start < 0 then (if start + n < 0 then 0 else start + n)
    else if start > n then n
    else start
  }

  /** `xs[::-1]`. */
  function Reverse<T>(xs: seq<T>): (r: seq<T>)
    ensures |r| == |xs|
    ensures forall i :: 0 <= i < |xs| ==> r[i] == xs[|xs| - 1 - i]
  {
    seq(|xs|, i requires 0 <= i < |xs| => xs[|xs| - 1 - i])
  }

  /** `np.argsort(probabilities[0])[-top_n:][::-1]`, given the argsort `order`. */
  function TopNIndices(order: seq<int>, topN: int): (r: seq<int>)
    ensures |r| == ExpectedCount(topN, |order|)
    ensures forall i :: 0 <= i < |r| ==> r[i] == order[|order| - 1 - i]
  {
    Reverse(order[PySliceStart(-topN, |order|)..])
  }

  /** The number of recommendations `top_n` yields over `n` labels, written out case by case. */
  function ExpectedCount(topN: int, n: nat): nat {
    if topN >= 1 then (if topN < n then topN else n)
    else if topN == 0 then n
    else if n + topN > 0 then n + topN
    else 0
  }

  /** The keys of an insertion-ordered dict held as a list of pairs. */
  function Keys<V>(d: seq<(string, V)>): (ks: seq<string>)
    ensures |ks| == |d|
  {
    seq(|d|, i requires 0 <= i < |d| => d[i].0)
  }

  /** The first position at or after `i` where `d` holds `key`, or `|d|` when there is none. */
  function KeyIndex<V>(d: seq<(string, V)>, key: string, i: nat): (k: nat)
    requires i <= |d|
    ensures i <= k <= |d|
    ensures k < |d| ==> d[k].0 == key
    ensures forall j :: i <= j < k ==> d[j].0 != key
    decreases |d| - i
  {
    if i == |d| then i
    else if d[i].0 == key then i
    else KeyIndex(d, key, i + 1)
  }

  /**
   * `d[key] = value` on an insertion-ordered Python dict: a new key is
   * appended; an existing key keeps its place and only its value changes.
   */
  function DictSet<V>(d: seq<(string, V)>, key: string, value: V): (r: seq<(string, V)>)
    ensures key !in Keys(d) ==> r == d + [(key, value)]
    ensures key in Keys(d) ==> |r| == |d| && Keys(r) == Keys(d)
    ensures key in Keys(d) && Distinct(Keys(d)) ==>
      forall i :: 0 <= i < |d| ==> r[i] == (if d[i].0 == key then (key, value) else d[i])
    ensures Distinct(Keys(d)) ==> Distinct(Keys(r))
  {
    var k := KeyIndex(d, key, 0);
    assert forall j :: 0 <= j < |d| ==> Keys(d)[j] == d[j].0;
    if k == |d| then
      assert Keys(d + [(key, value)]) == Keys(d) + [key];
      d + [(key, value)]
    else
      var r := d[k := (key, value)];
      assert Keys(r) == Keys(d);
      r
  }

  /**
   * `{k: v for k, v in pairs}`: the pairs inserted one after another. The
   * result has each key of `pairs` once, and holds for it the value of the
   * last pair with that key.
   */
  function DictFromPairs<V>(pairs: seq<(string, V)>): (r: seq<(string, V)>)
    ensures |r| <= |pairs| && Distinct(Keys(r))
    ensures forall k :: k in Keys(r) <==> k in Keys(pairs)
    ensures forall i :: 0 <= i < |r| ==> LastPairWith(pairs, r[i])
    ensures FirstAppearanceOrder(pairs, r)
  {
    if pairs == [] then []
    else
      var init, last := pairs[..|pairs| - 1], pairs[|pairs| - 1];
      assert pairs == init + [last];
      var d := DictFromPairs(init);
      InsertLastPair(init, d, last);
      DictSet(d, last.0, last.1)
  }

  /** `e` is in `pairs`, and no later pair of `pairs` has its key. */
  predicate LastPairWith<V(==)>(pairs: seq<(string, V)>, e: (string, V)) {
    exists j :: 0 <= j < |pairs| && pairs[j] == e && forall k :: j < k < |pairs| ==> pairs[k].0 != e.0
  }

  /** The keys of `d` come in the order in which they first appear in `pairs`. */
  predicate FirstAppearanceOrder<V>(pairs: seq<(string, V)>, d: seq<(string, V)>) {
    forall i, j :: 0 <= i < j < |d| ==> KeyIndex(pairs, d[i].0, 0) < KeyIndex(pairs, d[j].0, 0)
  }

  /** Appending a pair does not move the first position of a key already present. */
  lemma KeyIndexAppend<V>(init: seq<(string, V)>, last: (string, V), key: string)
    ensures KeyIndex(init, key, 0) < |init| ==> KeyIndex(init + [last], key, 0) == KeyIndex(init, key, 0)
    ensures KeyIndex(init, key, 0) == |init| && last.0 == key ==> KeyIndex(init + [last], key, 0) == |init|
  {
    var pairs := init + [last];
    assert forall j :: 0 <= j < |init| ==> pairs[j] == init[j];
    assert pairs[|init|] == last;
  }

  /** One step of the comprehension keeps what `DictFromPairs` promises. */
  lemma InsertLastPair<V>(init: seq<(string, V)>, d: seq<(string, V)>, last: (string, V))
    requires |d| <= |init| && Distinct(Keys(d))
    requires forall k :: k in Keys(d) <==> k in Keys(init)
    requires forall i :: 0 <= i < |d| ==> LastPairWith(init, d[i])
    requires FirstAppearanceOrder(init, d)
    ensures var r := DictSet(d, last.0, last.1);
      && |r| <= |init + [last]| && Distinct(Keys(r))
      && (forall k :: k in Keys(r) <==> k in Keys(init + [last]))
      && (forall i :: 0 <= i < |r| ==> LastPairWith(init + [last], r[i]))
      && FirstAppearanceOrder(init + [last], r)
  {
    InsertKeepsFirstAppearanceOrder(init, d, last);
    var pairs := init + [last];
    var r := DictSet(d, last.0, last.1);
    assert Keys(pairs) == Keys(init) + [last.0];
    assert Keys(d + [last]) == Keys(d) + [last.0];
    forall i | 0 <= i < |r| ensures LastPairWith(pairs, r[i]) {
      assert forall k :: 0 <= k < |d| ==> Keys(d)[k] == d[k].0;
      if r[i].0 == last.0 {
        assert pairs[|init|] == last;
      } else {
        assert r[i] == d[i];
        var j :| 0 <= j < |init| && init[j] == d[i] && forall k :: j < k < |init| ==> init[k].0 != d[i].0;
        assert pairs[j] == r[i];
      }
    }
  }

  /** One step of the comprehension keeps the keys in order of first appearance. */
  lemma InsertKeepsFirstAppearanceOrder<V>(init: seq<(string, V)>, d: seq<(string, V)>, last: (string, V))
    requires Distinct(Keys(d))
    requires forall k :: k in Keys(d) <==> k in Keys(init)
    requires FirstAppearanceOrder(init, d)
    ensures FirstAppearanceOrder(init + [last], DictSet(d, last.0, last.1))
  {
    var pairs := init + [last];
    var r := DictSet(d, last.0, last.1);
    forall i | 0 <= i < |d|
      ensures KeyIndex(init, d[i].0, 0) < |init|
      ensures KeyIndex(pairs, d[i].0, 0) == KeyIndex(init, d[i].0, 0)
    {
      assert Keys(d)[i] == d[i].0;
      assert d[i].0 in Keys(init);
      var j :| 0 <= j < |init| && Keys(init)[j] == d[i].0;
      assert init[j].0 == d[i].0;
      KeyIndexAppend(init, last, d[i].0);
    }
    if last.0 !in Keys(d) {
      assert last.0 !in Keys(init);
      forall j | 0 <= j < |init| ensures init[j].0 != last.0 {
        assert Keys(init)[j] == init[j].0;
      }
      KeyIndexAppend(init, last, last.0);
    }
  }

  /** With distinct keys the comprehension keeps every pair, in order. */
  lemma {:induction false} DictFromDistinctPairs<V>(pairs: seq<(string, V)>)
    requires Distinct(Keys(pairs))
    ensures DictFromPairs(pairs) == pairs
  {
    if pairs != [] {
      var init := pairs[..|pairs| - 1];
      var last := pairs[|pairs| - 1];
      assert Keys(init) == Keys(pairs)[..|pairs| - 1];
      DictFromDistinctPairs(init);
      forall k | 0 <= k < |init| ensures Keys(init)[k] != last.0 {
        assert Keys(pairs)[k] != Keys(pairs)[|pairs| - 1];
      }
      assert init + [last] == pairs;
    }
  }

  /** The detail of the 500 raised when the pipeline or the encoder did not load. */
  const ArtifactsDetail := "Model artifacts not loaded correctly."

  /** The fixed start of the detail of the 500 raised when the prediction itself fails. */
  const PredictionFailedDetail := "Prediction failed: "

  /** (label, score) for each chosen index. */
  function Pairs(labels: seq<string>, probs: seq<int>, idx: seq<int>): (r: seq<(string, int)>)
    requires IndicesOf(labels, idx) && IndicesOf(probs, idx)
    ensures |r| == |idx|
    ensures forall i :: 0 <= i < |idx| ==> r[i] == (labels[idx[i]], probs[idx[i]])
    ensures Distinct(labels) && Distinct(idx) ==> Distinct(Keys(r))
  {
    var r := seq(|idx|, i requires 0 <= i < |idx| => (labels[idx[i]], probs[idx[i]]));
    assert forall i :: 0 <= i < |idx| ==> Keys(r)[i] == labels[idx[i]];
    r
  }

  /**
   * `predict_crops`: the artifact guard, then the top-N selection.
   * `classes` is `label_encoder.classes_` (None when the encoder failed to
   * load); `probs` is `pipeline.predict_proba(...)[0]` and `order` its
   * argsort. Indexing `classes` with an index it does not have raises, and
   * the endpoint answers with status 500.
   */
  function PredictCrops(pipelineLoaded: bool, classes: Option<seq<string>>, probs: seq<int>, order: seq<int>, topN: int)
    : (r: Result<seq<(string, int)>, HttpError>)
    requires IsArgsort(probs, order)
    ensures r.Failure? ==> r.error.statusCode == 500
    ensures !pipelineLoaded || classes.None? ==> r == Failure(HttpError(500, ArtifactsDetail))
    ensures pipelineLoaded && classes.Some? && |classes.value| >= |probs| ==> r.Success?
    ensures r == Failure(HttpError(500, PredictionFailedDetail)) <==>
      pipelineLoaded && classes.Some? &&
      exists i :: 0 <= i < |TopNIndices(order, topN)| && TopNIndices(order, topN)[i] >= |classes.value|
  {
    if !pipelineLoaded || classes.None? then Failure(HttpError(500, ArtifactsDetail))
    else
      var labels := classes.value;
      var idx := TopNIndices(order, topN);
      if exists i :: 0 <= i < |idx| && idx[i] >= |labels| then Failure(HttpError(500, PredictionFailedDetail))
      else Success(DictFromPairs(Pairs(labels, probs, idx)))
  }

  /** The facts about the chosen indices that every ranking property rests on. */
  lemma TopNIndicesFacts(probs: seq<int>, order: seq<int>, topN: int)
    requires IsArgsort(probs, order)
    ensures var idx := TopNIndices(order, topN); var s := PySliceStart(-topN, |order|);
      && |idx| == |order| - s
      && (forall i :: 0 <= i < |idx| ==> idx[i] == order[|order| - 1 - i])
      && IndicesOf(probs, idx)
      && Distinct(idx)
  {
    var idx := TopNIndices(order, topN);
    var s := PySliceStart(-topN, |order|);
    var n := |order|;
    forall i, j | 0 <= i < j < |idx| ensures idx[i] != idx[j] {
      assert idx[i] == order[n - 1 - i] && idx[j] == order[n - 1 - j];
    }
  }

  /** Under the encoder's guarantees, the answer is exactly the (label, score) pairs of the chosen indices. */
  lemma {:induction false} RankingIsPairs(labels: seq<string>, probs: seq<int>, order: seq<int>, topN: int)
    requires IsArgsort(probs, order) && |labels| == |probs| && Distinct(labels)
    ensures IndicesOf(labels, TopNIndices(order, topN)) && IndicesOf(probs, TopNIndices(order, topN))
    ensures PredictCrops(true, Some(labels), probs, order, topN)
      == Success(Pairs(labels, probs, TopNIndices(order, topN)))
  {
    var idx := TopNIndices(order, topN);
    TopNIndicesFacts(probs, order, topN);
    var pairs := Pairs(labels, probs, idx);
    forall i, j | 0 <= i < j < |pairs| ensures Keys(pairs)[i] != Keys(pairs)[j] {
      assert idx[i] != idx[j];
    }
    DictFromDistinctPairs(pairs);
  }

  /**
   * How many crops are recommended: `min(top_n, n)` for `top_n >= 1`, all of
   * them for `top_n == 0` (`[-0:]` is the whole array), and the `n - m`
   * highest for `top_n == -m`.
   */
  lemma RecommendationCount(labels: seq<string>, probs: seq<int>, order: seq<int>, topN: int)
    requires IsArgsort(probs, order) && |labels| == |probs| && Distinct(labels)
    ensures var r := PredictCrops(true, Some(labels), probs, order, topN);
      r.Success? && |r.value| == ExpectedCount(topN, |labels|)
  {
    RankingIsPairs(labels, probs, order, topN);
    TopNIndicesFacts(probs, order, topN);
  }

  /** The chosen indices list their scores from the highest down. */
  lemma ChosenIndicesDescending(probs: seq<int>, order: seq<int>, topN: int)
    requires IsArgsort(probs, order)
    ensures var idx := TopNIndices(order, topN);
      && IndicesOf(probs, idx)
      && (forall i, j :: 0 <= i < j < |idx| ==> probs[idx[i]] >= probs[idx[j]])
  {
    TopNIndicesFacts(probs, order, topN);
    var idx := TopNIndices(order, topN);
    var n := |order|;
    forall i, j | 0 <= i < j < |idx| ensures probs[idx[i]] >= probs[idx[j]] {
      assert idx[i] == order[n - 1 - i] && idx[j] == order[n - 1 - j];
    }
  }

  /** Scores never increase along the recommendations. */
  lemma RecommendationsDescending(labels: seq<string>, probs: seq<int>, order: seq<int>, topN: int)
    requires IsArgsort(probs, order) && |labels| == |probs| && Distinct(labels)
    ensures var r := PredictCrops(true, Some(labels), probs, order, topN);
      r.Success? && (forall i, j :: 0 <= i < j < |r.value| ==> r.value[i].1 >= r.value[j].1)
  {
    RankingIsPairs(labels, probs, order, topN);
    ChosenIndicesDescending(probs, order, topN);
  }

  /**
   * Each recommendation is a label with its own score, and no label is
   * recommended twice.
   */
  lemma RecommendationsOwnScores(labels: seq<string>, probs: seq<int>, order: seq<int>, topN: int)
    requires IsArgsort(probs, order) && |labels| == |probs| && Distinct(labels)
    ensures var r := PredictCrops(true, Some(labels), probs, order, topN);
      && r.Success?
      && (forall i :: 0 <= i < |r.value| ==> exists j :: 0 <= j < |labels| && r.value[i] == (labels[j], probs[j]))
      && Distinct(Keys(r.value))
  {
    RankingIsPairs(labels, probs, order, topN);
    TopNIndicesFacts(probs, order, topN);
    var idx := TopNIndices(order, topN);
    var pairs := Pairs(labels, probs, idx);
    forall i | 0 <= i < |pairs| ensures exists j :: 0 <= j < |labels| && pairs[i] == (labels[j], probs[j]) {
      var j := idx[i];
      assert pairs[i] == (labels[j], probs[j]);
    }
    forall i, j | 0 <= i < j < |pairs| ensures Keys(pairs)[i] != Keys(pairs)[j] {
      assert idx[i] != idx[j];
    }
  }

  /** The chosen indices are the top of the argsort: any index left out scores at most any chosen one. */
  lemma {:induction false} ChosenIndicesAreTop(labels: seq<string>, probs: seq<int>, order: seq<int>, topN: int)
    requires IsArgsort(probs, order) && |labels| == |probs|
    ensures var idx := TopNIndices(order, topN);
      && IndicesOf(labels, idx) && IndicesOf(probs, idx)
      && (forall i, j :: 0 <= i < |idx| && 0 <= j < |labels| && labels[j] !in Keys(Pairs(labels, probs, idx))
            ==> probs[j] <= probs[idx[i]])
  {
    TopNIndicesFacts(probs, order, topN);
    var idx := TopNIndices(order, topN);
    var keys := Keys(Pairs(labels, probs, idx));
    var n := |order|;
    var s := PySliceStart(-topN, n);
    forall q | s <= q < n ensures labels[order[q]] in keys {
      var t := n - 1 - q;
      assert idx[t] == order[q];
      assert keys[t] == labels[order[q]];
    }
    forall i, j | 0 <= i < |idx| && 0 <= j < |labels| && labels[j] !in keys
      ensures probs[j] <= probs[idx[i]]
    {
      assert j in order;
      var q :| 0 <= q < n && order[q] == j;
      assert q < s;
      assert idx[i] == order[n - 1 - i];
    }
  }

  /**
   * Top-k selection: a label that is not recommended scores no higher than
   * any label that is.
   */
  lemma RecommendationsAreTop(labels: seq<string>, probs: seq<int>, order: seq<int>, topN: int)
    requires IsArgsort(probs, order) && |labels| == |probs| && Distinct(labels)
    ensures var r := PredictCrops(true, Some(labels), probs, order, topN);
      && r.Success?
      && (forall i, j ::
            0 <= i < |r.value| && 0 <= j < |labels| && labels[j] !in Keys(r.value) ==> probs[j] <= r.value[i].1)
  {
    RankingIsPairs(labels, probs, order, topN);
    ChosenIndicesAreTop(labels, probs, order, topN);
  }

  /** Inserts index `j` into `xs` after every index whose score is at most `p[j]`. */
  function InsertByScore(p: seq<int>, xs: seq<int>, j: int): (r: seq<int>)
    requires IndicesOf(p, xs) && 0 <= j < |p|
    ensures |r| == |xs| + 1 && IndicesOf(p, r)
    ensures forall x :: x in r <==> x in xs || x == j
    ensures multiset(r) == multiset(xs) + multiset{j}
  {
    if xs == [] then [j]
    else if p[j] < p[xs[0]] then [j] + xs
    else
      var rest := InsertByScore(p, xs[1..], j);
      assert xs == [xs[0]] + xs[1..];
      assert forall x :: x in xs <==> x == xs[0] || x in xs[1..];
      [xs[0]] + rest
  }

  /** Inserting a new index keeps the indices distinct. */
  lemma {:induction false} InsertByScoreDistinct(p: seq<int>, xs: seq<int>, j: int)
    requires IndicesOf(p, xs) && 0 <= j < |p| && Distinct(xs) && j !in xs
    ensures Distinct(InsertByScore(p, xs, j))
  {
    if xs != [] && p[xs[0]] <= p[j] {
      assert j !in xs[1..];
      InsertByScoreDistinct(p, xs[1..], j);
      var rest := InsertByScore(p, xs[1..], j);
      forall k | 0 <= k < |rest| ensures rest[k] != xs[0] {
        assert rest[k] in rest;
        if rest[k] != j {
          var q :| 0 <= q < |xs| - 1 && xs[1..][q] == rest[k];
          assert xs[q + 1] == rest[k];
        }
      }
    }
  }

  /** Inserting by score keeps the indices in ascending order of score. */
  lemma {:induction false} InsertByScoreAscending(p: seq<int>, xs: seq<int>, j: int)
    requires IndicesOf(p, xs) && 0 <= j < |p| && AscendingBy(p, xs)
    ensures AscendingBy(p, InsertByScore(p, xs, j))
  {
    if xs != [] && p[xs[0]] <= p[j] {
      InsertByScoreAscending(p, xs[1..], j);
      var rest := InsertByScore(p, xs[1..], j);
      forall k | 0 <= k < |rest| ensures p[xs[0]] <= p[rest[k]] {
        assert rest[k] in rest;
        if rest[k] != j {
          var q :| 0 <= q < |xs| - 1 && xs[1..][q] == rest[k];
          assert xs[q + 1] == rest[k];
        }
      }
    }
  }

  /** An ascending argsort of the first `m` indices of `p`, built by insertion. */
  function InsertionArgsort(p: seq<int>, m: nat): (r: seq<int>)
    requires m <= |p|
    ensures |r| == m && IndicesOf(p, r) && Distinct(r) && AscendingBy(p, r)
    ensures forall x :: x in r <==> 0 <= x < m
  {
    if m == 0 then []
    else
      var prev := InsertionArgsort(p, m - 1);
      InsertByScoreDistinct(p, prev, m - 1);
      InsertByScoreAscending(p, prev, m - 1);
      InsertByScore(p, prev, m - 1)
  }

  /**
   * What the tail slice relies on: an argsort starts at a lowest score and
   * ends at a highest one.
   */
  lemma ArgsortEnds(p: seq<int>, order: seq<int>)
    requires IsArgsort(p, order) && |p| > 0
    ensures forall j :: 0 <= j < |p| ==> p[order[0]] <= p[j] <= p[order[|p| - 1]]
  {
    forall j | 0 <= j < |p| ensures p[order[0]] <= p[j] <= p[order[|p| - 1]] {
      assert j in order;
      var k :| 0 <= k < |order| && order[k] == j;
    }
  }

  /** Every score row has an argsort, so `PredictCrops` can be called on any row. */
  lemma ArgsortExists(p: seq<int>)
    ensures IsArgsort(p, InsertionArgsort(p, |p|))
  {
  }

  /** With distinct scores the argsort is unique; the example row `[0.1, 0.5, 0.4]` as scores 10, 50, 40. */
  lemma ExampleArgsortIsForced(order: seq<int>)
    requires IsArgsort([10, 50, 40], order)
    ensures order == [0, 2, 1]
  {
    var p := [10, 50, 40];
    assert 0 in order && 1 in order && 2 in order;
    var a :| 0 <= a < 3 && order[a] == 0;
    var b :| 0 <= b < 3 && order[b] == 1;
    assert p[order[0]] <= p[order[a]] && p[order[b]] <= p[order[2]];
  }

  /** On the example argsort, `top_n` of 2 and of -1 choose indices 1 and 2. */
  lemma ExampleChosenTwo(order: seq<int>, topN: int)
    requires order == [0, 2, 1] && (topN == 2 || topN == -1)
    ensures TopNIndices(order, topN) == [1, 2]
  {
    assert PySliceStart(-topN, |order|) == 1;
    assert order[1..] == [2, 1];
  }

  /** On the example argsort, `top_n` of 10 and of 0 choose every index. */
  lemma ExampleChosenAll(order: seq<int>, topN: int)
    requires order == [0, 2, 1] && (topN == 10 || topN == 0)
    ensures TopNIndices(order, topN) == [1, 2, 0]
  {
    assert PySliceStart(-topN, |order|) == 0;
    assert order[0..] == order;
  }

  /** The example labels are distinct, as the label encoder's classes are. */
  lemma ExampleLabelsDistinct(labels: seq<string>)
    requires labels == ["rice", "wheat", "maize"]
    ensures Distinct(labels)
  {
    assert labels[0][0] == 'r' && labels[1][0] == 'w' && labels[2][0] == 'm';
  }

  /** The (label, score) pairs of indices 1 and 2 of the example row. */
  lemma ExamplePairsTwo(labels: seq<string>, p: seq<int>, idx: seq<int>)
    requires labels == ["rice", "wheat", "maize"] && p == [10, 50, 40] && idx == [1, 2]
    ensures IndicesOf(labels, idx) && IndicesOf(p, idx)
    ensures Pairs(labels, p, idx) == [("wheat", 50), ("maize", 40)]
  {
  }

  /** The (label, score) pairs of indices 1, 2 and 0 of the example row. */
  lemma ExamplePairsAll(labels: seq<string>, p: seq<int>, idx: seq<int>)
    requires labels == ["rice", "wheat", "maize"] && p == [10, 50, 40] && idx == [1, 2, 0]
    ensures IndicesOf(labels, idx) && IndicesOf(p, idx)
    ensures Pairs(labels, p, idx) == [("wheat", 50), ("maize", 40), ("rice", 10)]
  {
  }

  /** `top_n` of 2 and of -1 both keep the two highest scores of the example row. */
  lemma ExampleTopTwo(labels: seq<string>, p: seq<int>, order: seq<int>, topN: int)
    requires labels == ["rice", "wheat", "maize"] && p == [10, 50, 40]
    requires IsArgsort(p, order) && order == [0, 2, 1] && (topN == 2 || topN == -1)
    ensures PredictCrops(true, Some(labels), p, order, topN) == Success([("wheat", 50), ("maize", 40)])
  {
    ExampleLabelsDistinct(labels);
    RankingIsPairs(labels, p, order, topN);
    ExampleChosenTwo(order, topN);
    ExamplePairsTwo(labels, p, TopNIndices(order, topN));
  }

  /** `top_n` of 10 (clamped) and of 0 (`[-0:]`) both keep the whole example row. */
  lemma ExampleAllThree(labels: seq<string>, p: seq<int>, order: seq<int>, topN: int)
    requires labels == ["rice", "wheat", "maize"] && p == [10, 50, 40]
    requires IsArgsort(p, order) && order == [0, 2, 1] && (topN == 10 || topN == 0)
    ensures PredictCrops(true, Some(labels), p, order, topN)
      == Success([("wheat", 50), ("maize", 40), ("rice", 10)])
  {
    ExampleLabelsDistinct(labels);
    RankingIsPairs(labels, p, order, topN);
    ExampleChosenAll(order, topN);
    ExamplePairsAll(labels, p, TopNIndices(order, topN));
  }

  /**
   * The worked example over `["rice", "wheat", "maize"]`: `top_n = 2` gives
   * wheat then maize, `top_n = 10` clamps to all three, `top_n = 0` also gives
   * all three, and `top_n = -1` drops the lowest.
   */
  lemma ExampleRanking(order: seq<int>)
    requires IsArgsort([10, 50, 40], order)
    ensures PredictCrops(true, Some(["rice", "wheat", "maize"]), [10, 50, 40], order, 2)
      == Success([("wheat", 50), ("maize", 40)])
    ensures PredictCrops(true, Some(["rice", "wheat", "maize"]), [10, 50, 40], order, 10)
      == Success([("wheat", 50), ("maize", 40), ("rice", 10)])
    ensures PredictCrops(true, Some(["rice", "wheat", "maize"]), [10, 50, 40], order, 0)
      == Success([("wheat", 50), ("maize", 40), ("rice", 10)])
    ensures PredictCrops(true, Some(["rice", "wheat", "maize"]), [10, 50, 40], order, -1)
      == Success([("wheat", 50), ("maize", 40)])
  {
    ExampleArgsortIsForced(order);
    ExampleTopTwo(["rice", "wheat", "maize"], [10, 50, 40], order, 2);
    ExampleAllThree(["rice", "wheat", "maize"], [10, 50, 40], order, 10);
    ExampleAllThree(["rice", "wheat", "maize"], [10, 50, 40], order, 0);
    ExampleTopTwo(["rice", "wheat", "maize"], [10, 50, 40], order, -1);
  }
}
