/** The post-processing `TextClusterer` does around scikit-learn
    (src/clustering/clustering.py): labelling documents by position, ranking
    each reconstructed centroid's term weights, and cutting the rankings to
    the top k terms per cluster.

    TF-IDF, truncated SVD, normalisation, k-means and the inverse projection
    are library calls; their results enter here as inputs: the label array
    (`labels`) and the centroid matrix mapped back into term space
    (`centroids`, one row per cluster, one column per vocabulary term). */
module Clustering {
  import opened Common
  import opened Strings
  import opened Dicts
  import opened Documents

  /** The k `generate_stats` passes to `_generate_stats_json`. */
  const StatsTopTerms: nat := 20
  /** The default k of `_generate_stats_json`. */
  const DefaultTopTerms: nat := 10

  // ---------------------------------------------------------------------
  // Labelling documents

  /** The raw texts of a labelled dict, keyed as before. */
  function RawTexts(docs: Dict<string, LabeledDoc>): (r: Dict<string, string>)
    ensures |r| == |docs|
    ensures forall i :: 0 <= i < |docs| ==> r[i] == (docs[i].0, docs[i].1.raw)
  {
    if |docs| == 0 then [] else [(docs[0].0, docs[0].1.raw)] + RawTexts(docs[1..])
  }

  /** The labels of a labelled dict, in iteration order. */
  function LabelsOf(docs: Dict<string, LabeledDoc>): (r: seq<nat>)
    ensures |r| == |docs|
    ensures forall i :: 0 <= i < |docs| ==> r[i] == docs[i].1.cluster
  {
    if |docs| == 0 then [] else [docs[0].1.cluster] + LabelsOf(docs[1..])
  }

  /** `classify_documents_by_cluster`: the i-th document in iteration order
      gets the i-th label. Indexing past the end of the label array raises. */
  method ClassifyDocuments(rawText: Dict<string, string>, labels: seq<nat>)
    returns (r: Result<Dict<string, LabeledDoc>>)
    requires DistinctKeys(rawText)
    ensures r.Err? <==> |labels| < |rawText|
    ensures r.Err? ==> r.error == IndexError
    ensures r.Ok? ==> RawTexts(r.value) == rawText
    ensures r.Ok? ==> LabelsOf(r.value) == labels[..|rawText|]
    ensures r.Ok? ==> DistinctKeys(r.value)
  {
    var output: Dict<string, LabeledDoc> := [];
    for i := 0 to |rawText|
      invariant i <= |labels|
      invariant |output| == i
      invariant forall j :: 0 <= j < i ==> output[j] == (rawText[j].0, LabeledDoc(labels[j], rawText[j].1))
    {
      if i >= |labels| {
        return Err(IndexError);
      }
      var doc := LabeledDoc(labels[i], rawText[i].1);
      PutNewKey(output, rawText, i, doc);
      ClassifyStep(output, rawText, labels, i);
      output := Put(output, rawText[i].0, doc);
    }
    ClassifiedParts(output, rawText, labels);
    return Ok(output);
  }

  /** A dict pairing each key and text with the label at its position
      splits back into those texts and labels. */
  lemma ClassifiedParts(output: Dict<string, LabeledDoc>, rawText: Dict<string, string>, labels: seq<nat>)
    requires DistinctKeys(rawText)
    requires |output| == |rawText| <= |labels|
    requires forall j :: 0 <= j < |rawText| ==> output[j] == (rawText[j].0, LabeledDoc(labels[j], rawText[j].1))
    ensures RawTexts(output) == rawText
    ensures LabelsOf(output) == labels[..|rawText|]
    ensures DistinctKeys(output)
  {
  }

  /** One pass of the loop keeps every entry paired with its label. */
  lemma ClassifyStep(output: Dict<string, LabeledDoc>, rawText: Dict<string, string>, labels: seq<nat>, i: nat)
    requires DistinctKeys(rawText) && i < |rawText| && i < |labels|
    requires |output| == i
    requires forall j :: 0 <= j < i ==> output[j] == (rawText[j].0, LabeledDoc(labels[j], rawText[j].1))
    ensures forall j :: 0 <= j < i + 1 ==>
      (output + [(rawText[i].0, LabeledDoc(labels[i], rawText[i].1))])[j] == (rawText[j].0, LabeledDoc(labels[j], rawText[j].1))
  {
  }

  /** The i-th key of a dict with distinct keys is new to a dict holding
      the keys before it, so assigning it appends. */
  lemma PutNewKey<V, W>(output: Dict<string, V>, rawText: Dict<string, W>, i: nat, v: V)
    requires DistinctKeys(rawText) && i < |rawText|
    requires |output| == i && forall j :: 0 <= j < i ==> output[j].0 == rawText[j].0
    ensures Put(output, rawText[i].0, v) == output + [(rawText[i].0, v)]
  {
    KeySetMembers(output);
  }

  // ---------------------------------------------------------------------
  // Ranking a centroid's term weights

  predicate Distinct<T(==)>(s: seq<T>) {
    forall p, q :: 0 <= p < q < |s| ==> s[p] != s[q]
  }

  /** `order` lists every term index of `w` exactly once, heaviest first.
      This is all `argsort()[::-1]` promises: numpy's default sort is not
      stable, so the order among equal weights is unspecified. */
  predicate IsRanking(w: seq<real>, order: seq<nat>) {
    && |order| == |w|
    && (forall p :: 0 <= p < |order| ==> order[p] < |w|)
    && (forall j :: 0 <= j < |w| ==> j in order)
    && Distinct(order)
    && (forall p, q :: 0 <= p < q < |order| ==> w[order[p]] >= w[order[q]])
  }

  predicate NonIncreasing(w: seq<real>, s: seq<nat>)
    requires forall p :: 0 <= p < |s| ==> s[p] < |w|
  {
    forall p, q :: 0 <= p < q < |s| ==> w[s[p]] >= w[s[q]]
  }

  /** Inserts index `x` in front of the first index that is not heavier. */
  function InsertIndex(w: seq<real>, x: nat, s: seq<nat>): (r: seq<nat>)
    requires x < |w| && forall p :: 0 <= p < |s| ==> s[p] < |w|
    ensures |r| == |s| + 1
    ensures multiset(r) == multiset(s) + multiset{x}
    ensures forall p :: 0 <= p < |r| ==> r[p] < |w|
  {
    if |s| == 0 then [x]
    else if w[x] >= w[s[0]] then [x] + s
    else
      assert s == [s[0]] + s[1..];
      [s[0]] + InsertIndex(w, x, s[1..])
  }

  lemma InsertIndexMembers(w: seq<real>, x: nat, s: seq<nat>)
    requires x < |w| && forall p :: 0 <= p < |s| ==> s[p] < |w|
    ensures forall y :: y in InsertIndex(w, x, s) <==> y in s || y == x
  {
    var r := InsertIndex(w, x, s);
    assert forall y :: y in r <==> y in multiset(r);
    assert forall y :: y in s <==> y in multiset(s);
  }

  lemma {:induction false} InsertIndexSorted(w: seq<real>, x: nat, s: seq<nat>)
    requires x < |w| && forall p :: 0 <= p < |s| ==> s[p] < |w|
    requires NonIncreasing(w, s)
    ensures NonIncreasing(w, InsertIndex(w, x, s))
  {
    if |s| == 0 {
    } else if w[x] >= w[s[0]] {
      forall y | y in s ensures w[x] >= w[y] {
        var t :| 0 <= t < |s| && s[t] == y;
      }
      ConsHeavier(w, x, s);
    } else {
      var rest := InsertIndex(w, x, s[1..]);
      assert NonIncreasing(w, s[1..]) by {
        forall p, q | 0 <= p < q < |s[1..]| ensures w[s[1..][p]] >= w[s[1..][q]] {
          assert s[1..][p] == s[p + 1] && s[1..][q] == s[q + 1];
        }
      }
      InsertIndexSorted(w, x, s[1..]);
      InsertIndexMembers(w, x, s[1..]);
      forall y | y in rest ensures w[s[0]] >= w[y] {
        if y != x {
          var t :| 0 <= t < |s[1..]| && s[1..][t] == y;
          assert s[t + 1] == y;
        }
      }
      ConsHeavier(w, s[0], rest);
    }
  }

  /** An index at least as heavy as every index of a ranked list may go in front. */
  lemma ConsHeavier(w: seq<real>, x: nat, s: seq<nat>)
    requires x < |w| && forall p :: 0 <= p < |s| ==> s[p] < |w|
    requires NonIncreasing(w, s)
    requires forall y :: y in s ==> w[x] >= w[y]
    ensures NonIncreasing(w, [x] + s)
  {
    var r := [x] + s;
    forall p, q | 0 <= p < q < |r| ensures w[r[p]] >= w[r[q]] {
      assert r[q] == s[q - 1];
      if p > 0 {
        assert r[p] == s[p - 1];
      }
    }
  }

  lemma {:induction false} InsertIndexDistinct(w: seq<real>, x: nat, s: seq<nat>)
    requires x < |w| && forall p :: 0 <= p < |s| ==> s[p] < |w|
    requires Distinct(s) && x !in s
    ensures Distinct(InsertIndex(w, x, s))
  {
    if |s| > 0 && w[x] < w[s[0]] {
      var rest := InsertIndex(w, x, s[1..]);
      assert x !in s[1..];
      InsertIndexDistinct(w, x, s[1..]);
      InsertIndexMembers(w, x, s[1..]);
      var r := [s[0]] + rest;
      assert s[0] !in s[1..];
      forall p, q | 0 <= p < q < |r| ensures r[p] != r[q] {
        if p == 0 {
          assert r[q] == rest[q - 1] && r[q] in rest;
        } else {
          assert r[p] == rest[p - 1] && r[q] == rest[q - 1];
        }
      }
    }
  }

  /** The first `m` term indices, ranked. */
  function RankPrefix(w: seq<real>, m: nat): (r: seq<nat>)
    requires m <= |w|
    ensures |r| == m
    ensures forall p :: 0 <= p < |r| ==> r[p] < m
    ensures forall j :: 0 <= j < m ==> j in r
    ensures Distinct(r)
    ensures NonIncreasing(w, r)
  {
    if m == 0 then []
    else
      var s := RankPrefix(w, m - 1);
      RankStep(w, m, s);
      InsertIndex(w, m - 1, s)
  }

  lemma RankStep(w: seq<real>, m: nat, s: seq<nat>)
    requires 0 < m <= |w|
    requires |s| == m - 1
    requires forall p :: 0 <= p < |s| ==> s[p] < m - 1
    requires forall j :: 0 <= j < m - 1 ==> j in s
    requires Distinct(s) && NonIncreasing(w, s)
    ensures var r := InsertIndex(w, m - 1, s);
      && |r| == m
      && (forall p :: 0 <= p < |r| ==> r[p] < m)
      && (forall j :: 0 <= j < m ==> j in r)
      && Distinct(r)
      && NonIncreasing(w, r)
  {
    var r := InsertIndex(w, m - 1, s);
    InsertIndexMembers(w, m - 1, s);
    InsertIndexSorted(w, m - 1, s);
    InsertIndexDistinct(w, m - 1, s);
    forall p | 0 <= p < |r| ensures r[p] < m {
      assert r[p] in r;
      if r[p] != m - 1 {
        var q :| 0 <= q < |s| && s[q] == r[p];
      }
    }
  }

  /** One row of `_generate_ordered_centroids`. */
  function RankDescending(w: seq<real>): (order: seq<nat>)
    ensures IsRanking(w, order)
  {
    RankPrefix(w, |w|)
  }

  /** `_generate_ordered_centroids`: one ranking per cluster. */
  function OrderedCentroids(centroids: seq<seq<real>>): (ordered: seq<seq<nat>>)
    ensures |ordered| == |centroids|
    ensures forall i :: 0 <= i < |centroids| ==> IsRanking(centroids[i], ordered[i])
  {
    seq(|centroids|, i requires 0 <= i < |centroids| => RankDescending(centroids[i]))
  }

  /** The first term of a ranking is as heavy as any term. */
  lemma RankingHeadIsMaximal(w: seq<real>, order: seq<nat>, j: nat)
    requires IsRanking(w, order) && j < |w|
    ensures w[order[0]] >= w[j]
  {
    assert j in order;
    var q :| 0 <= q < |order| && order[q] == j;
  }

  // ---------------------------------------------------------------------
  // Top k terms per cluster

  /** The terms at the first k positions of a ranking (`order[:k]` maps
      through the vocabulary; a slice past the end stops at the end). */
  function TopTerms(order: seq<nat>, terms: seq<string>, k: nat): (top: seq<string>)
    requires forall p :: 0 <= p < |order| ==> order[p] < |terms|
    ensures |top| == Min(k, |order|)
    ensures forall p :: 0 <= p < |top| ==> top[p] == terms[order[p]]
  {
    seq(Min(k, |order|), p requires 0 <= p < Min(k, |order|) => terms[order[p]])
  }

  /** `_generate_stats_json(k)`: `cluster_i` maps to the top k terms of the
      i-th centroid, for every cluster i in order. */
  function StatsJson(centroids: seq<seq<real>>, terms: seq<string>, k: nat): (r: Dict<string, seq<string>>)
    requires forall i :: 0 <= i < |centroids| ==> |centroids[i]| == |terms|
    ensures |r| == |centroids|
    ensures forall i :: 0 <= i < |r| ==> r[i].0 == ClusterKey(i)
    ensures forall i :: 0 <= i < |r| ==> |r[i].1| == Min(k, |terms|)
    ensures forall i, p :: 0 <= i < |r| && 0 <= p < Min(k, |terms|) ==>
      r[i].1[p] == terms[OrderedCentroids(centroids)[i][p]]
  {
    var ordered := OrderedCentroids(centroids);
    seq(|centroids|, i requires 0 <= i < |centroids| => (ClusterKey(i), TopTerms(ordered[i], terms, k)))
  }

  /** `generate_stats`: the stats with k = 20. */
  function GenerateStats(centroids: seq<seq<real>>, terms: seq<string>): (r: Dict<string, seq<string>>)
    requires forall i :: 0 <= i < |centroids| ==> |centroids[i]| == |terms|
    ensures |r| == |centroids|
    ensures forall i :: 0 <= i < |r| ==> r[i].0 == ClusterKey(i)
    ensures forall i :: 0 <= i < |r| ==> |r[i].1| == Min(StatsTopTerms, |terms|)
    ensures forall i, p :: 0 <= i < |r| && 0 <= p < Min(StatsTopTerms, |terms|) ==>
      r[i].1[p] == terms[OrderedCentroids(centroids)[i][p]]
  {
    StatsJson(centroids, terms, StatsTopTerms)
  }

  /** With a vocabulary of at least 20 terms, `generate_stats` lists 20
      terms per cluster where the default k lists 10, and the default lists
      are the first half of those. */
  lemma StatsListMoreThanDefault(centroids: seq<seq<real>>, terms: seq<string>, i: nat)
    requires forall c :: 0 <= c < |centroids| ==> |centroids[c]| == |terms|
    requires |terms| >= StatsTopTerms && i < |centroids|
    ensures |GenerateStats(centroids, terms)[i].1| == 20
    ensures |StatsJson(centroids, terms, DefaultTopTerms)[i].1| == 10
    ensures StatsJson(centroids, terms, DefaultTopTerms)[i].1 == GenerateStats(centroids, terms)[i].1[..10]
  {
  }

  /** The stats have one key per cluster, `cluster_0` to `cluster_{n-1}`, all distinct. */
  lemma StatsKeys(centroids: seq<seq<real>>, terms: seq<string>, k: nat)
    requires forall i :: 0 <= i < |centroids| ==> |centroids[i]| == |terms|
    ensures DistinctKeys(StatsJson(centroids, terms, k))
    ensures forall key :: key in KeySet(StatsJson(centroids, terms, k)) <==>
      exists i :: 0 <= i < |centroids| && key == ClusterKey(i)
  {
    var r := StatsJson(centroids, terms, k);
    forall i, j | 0 <= i < j < |r| ensures r[i].0 != r[j].0 {
      ClusterKeyInjective(i, j);
    }
    KeySetMembers(r);
  }

  /** A listed term outweighs, in its cluster's centroid, every term index
      that did not make the list, and the list runs heaviest first. */
  lemma TopTermsAreHeaviest(centroids: seq<seq<real>>, terms: seq<string>, k: nat, i: nat, p: nat, j: nat)
    requires forall c :: 0 <= c < |centroids| ==> |centroids[c]| == |terms|
    requires i < |centroids| && p < Min(k, |terms|) && j < |terms|
    ensures var order := OrderedCentroids(centroids)[i];
      j !in order[..Min(k, |terms|)] ==> centroids[i][order[p]] >= centroids[i][j]
    ensures var order := OrderedCentroids(centroids)[i];
      forall q :: p < q < Min(k, |terms|) ==> centroids[i][order[p]] >= centroids[i][order[q]]
  {
    var order := OrderedCentroids(centroids)[i];
    var top := Min(k, |terms|);
    if j !in order[..top] {
      assert j in order;
      var q :| 0 <= q < |order| && order[q] == j;
    }
  }

  /** With a vocabulary of distinct terms (as TF-IDF produces) no cluster lists a term twice. */
  lemma TopTermsDistinct(centroids: seq<seq<real>>, terms: seq<string>, k: nat, i: nat)
    requires forall c :: 0 <= c < |centroids| ==> |centroids[c]| == |terms|
    requires Distinct(terms) && i < |centroids|
    ensures Distinct(StatsJson(centroids, terms, k)[i].1)
  {
  }

  /** The first listed term of a non-empty list has the largest weight in its centroid. */
  lemma FirstTermIsHeaviest(centroids: seq<seq<real>>, terms: seq<string>, k: nat, i: nat, j: nat)
    requires forall c :: 0 <= c < |centroids| ==> |centroids[c]| == |terms|
    requires i < |centroids| && j < |terms| && k > 0
    ensures StatsJson(centroids, terms, k)[i].1[0] == terms[OrderedCentroids(centroids)[i][0]]
    ensures centroids[i][OrderedCentroids(centroids)[i][0]] >= centroids[i][j]
  {
    RankingHeadIsMaximal(centroids[i], OrderedCentroids(centroids)[i], j);
  }
}
