/** `SentimentAnalyzer` (src/sentiment/sentiment_analysis.py): scoring each
    labelled document with the AFINN lexicon, then averaging the scores per
    cluster and attaching each cluster's descriptor terms.

    The lexicon is an uninterpreted `score` function from text to polarity.
    The descriptor terms, which the code reads from the k-means stats file,
    are the `descriptors` parameter. */
module Sentiment {
  import opened Common
  import opened Strings
  import opened Dicts
  import opened Sorting
  import opened Documents

  /** A labelled document with its AFINN score attached. */
  datatype ScoredDoc = ScoredDoc(cluster: nat, raw: string, afinn: real)

  /** One entry of the per-cluster report. */
  datatype ClusterSummary = ClusterSummary(avgScore: real, count: nat, topTerms: seq<string>)

  /** The running total and document count the first loop keeps per cluster key. */
  datatype Tally = Tally(total: real, count: nat)

  // ---------------------------------------------------------------------
  // Scoring documents

  /** Drops the score again: what the document was before scoring. */
  function Unscored(docs: Dict<string, ScoredDoc>): (r: Dict<string, LabeledDoc>)
    ensures |r| == |docs|
    ensures forall i :: 0 <= i < |docs| ==>
      r[i] == (docs[i].0, LabeledDoc(docs[i].1.cluster, docs[i].1.raw))
  {
    if |docs| == 0 then []
    else [(docs[0].0, LabeledDoc(docs[0].1.cluster, docs[0].1.raw))] + Unscored(docs[1..])
  }

  /** `generate_afinn_scores_per_doc`: every document gains `afinn = score(raw)`;
      keys, order, labels and texts are untouched. */
  function ScoresPerDoc(docs: Dict<string, LabeledDoc>, score: string -> real): (r: Dict<string, ScoredDoc>)
    ensures Unscored(r) == docs
    ensures Keys(r) == Keys(docs)
    ensures forall i :: 0 <= i < |r| ==> r[i].1.afinn == score(r[i].1.raw)
  {
    if |docs| == 0 then []
    else
      var d := docs[0].1;
      var rest := ScoresPerDoc(docs[1..], score);
      var r := [(docs[0].0, ScoredDoc(d.cluster, d.raw, score(d.raw)))] + rest;
      assert Unscored(r) == [(docs[0].0, d)] + Unscored(rest);
      assert docs == [docs[0]] + docs[1..];
      r
  }

  // ---------------------------------------------------------------------
  // Reference definitions: what a cluster's entry should hold

  function Sum(xs: seq<real>): real {
    if |xs| == 0 then 0.0 else Sum(xs[..|xs| - 1]) + xs[|xs| - 1]
  }

  function Mean(xs: seq<real>): real
    requires |xs| > 0
  {
    Sum(xs) / (|xs| as real)
  }

  /** The labels that occur in the documents. */
  function LabelSet(docs: Dict<string, ScoredDoc>): set<nat> {
    set i | 0 <= i < |docs| :: docs[i].1.cluster
  }

  /** The scores of the documents labelled `c`, in document order. */
  function LabelScores(docs: Dict<string, ScoredDoc>, c: nat): seq<real> {
    if |docs| == 0 then []
    else
      var last := docs[|docs| - 1].1;
      LabelScores(docs[..|docs| - 1], c) + (if last.cluster == c then [last.afinn] else [])
  }

  /** The cluster keys the documents' labels give. */
  function LabelKeys(docs: Dict<string, ScoredDoc>): set<string> {
    set c | c in LabelSet(docs) :: ClusterKey(c)
  }

  lemma LabelSetSnoc(docs: Dict<string, ScoredDoc>)
    requires |docs| > 0
    ensures LabelSet(docs) == LabelSet(docs[..|docs| - 1]) + {docs[|docs| - 1].1.cluster}
  {
    var pre := docs[..|docs| - 1];
    forall l | l in LabelSet(docs) ensures l in LabelSet(pre) + {docs[|docs| - 1].1.cluster} {
      var i :| 0 <= i < |docs| && docs[i].1.cluster == l;
      if i < |docs| - 1 { assert pre[i] == docs[i]; }
    }
    forall l | l in LabelSet(pre) ensures l in LabelSet(docs) {
      var i :| 0 <= i < |pre| && pre[i].1.cluster == l;
      assert docs[i] == pre[i];
    }
  }

  /** A label's scores are the scores of the documents carrying it: there
      are some exactly when the label occurs, and each is one of theirs. */
  lemma {:induction false} LabelScoresMembers(docs: Dict<string, ScoredDoc>, c: nat)
    ensures |LabelScores(docs, c)| > 0 <==> c in LabelSet(docs)
    ensures forall x :: x in LabelScores(docs, c) ==>
      exists i :: 0 <= i < |docs| && docs[i].1.cluster == c && docs[i].1.afinn == x
    decreases |docs|
  {
    if |docs| > 0 {
      var pre := docs[..|docs| - 1];
      LabelScoresMembers(pre, c);
      LabelSetSnoc(docs);
      forall x | x in LabelScores(docs, c)
        ensures exists i :: 0 <= i < |docs| && docs[i].1.cluster == c && docs[i].1.afinn == x
      {
        if x in LabelScores(pre, c) {
          var i :| 0 <= i < |pre| && pre[i].1.cluster == c && pre[i].1.afinn == x;
          assert docs[i] == pre[i];
        }
      }
    }
  }

  // ---------------------------------------------------------------------
  // The first loop: sums and counts per cluster key

  /** One iteration of the first loop: create the entry at zero if the key
      is new, then add the score and count the document. */
  function AddScore(t: Dict<string, Tally>, d: ScoredDoc): Dict<string, Tally> {
    var key := ClusterKey(d.cluster);
    var prior := Get(t, key).GetOr(Tally(0.0, 0));
    Put(t, key, Tally(prior.total + d.afinn, prior.count + 1))
  }

  /** The first loop over the documents, in iteration order. */
  function Tallies(docs: Dict<string, ScoredDoc>): Dict<string, Tally> {
    if |docs| == 0 then [] else AddScore(Tallies(docs[..|docs| - 1]), docs[|docs| - 1].1)
  }

  predicate TalliesMatch(docs: Dict<string, ScoredDoc>, t: Dict<string, Tally>) {
    && DistinctKeys(t)
    && KeySet(t) == LabelKeys(docs)
    && forall c :: c in LabelSet(docs) ==>
         Get(t, ClusterKey(c)) == Some(Tally(Sum(LabelScores(docs, c)), |LabelScores(docs, c)|))
  }

  /** After the first loop, each label that occurs has exactly one entry,
      holding the sum and the number of its documents' scores. */
  lemma {:induction false} TalliesCorrect(docs: Dict<string, ScoredDoc>)
    ensures TalliesMatch(docs, Tallies(docs))
    decreases |docs|
  {
    if |docs| > 0 {
      TalliesCorrect(docs[..|docs| - 1]);
      TallyStepKeys(docs, Tallies(docs[..|docs| - 1]));
      TallyStepValues(docs, Tallies(docs[..|docs| - 1]));
    }
  }

  /** The entry the step starts from: the label's sums so far, or zero. */
  lemma TallyPrior(docs: Dict<string, ScoredDoc>, t: Dict<string, Tally>, c: nat)
    requires TalliesMatch(docs, t)
    ensures Get(t, ClusterKey(c)).GetOr(Tally(0.0, 0)) ==
      Tally(Sum(LabelScores(docs, c)), |LabelScores(docs, c)|)
  {
    LabelScoresMembers(docs, c);
    if c !in LabelSet(docs) && ClusterKey(c) in KeySet(t) {
      var c' :| c' in LabelSet(docs) && ClusterKey(c') == ClusterKey(c);
      ClusterKeyInjective(c, c');
    }
  }

  lemma TallyStepKeys(docs: Dict<string, ScoredDoc>, t: Dict<string, Tally>)
    requires |docs| > 0 && TalliesMatch(docs[..|docs| - 1], t)
    ensures DistinctKeys(AddScore(t, docs[|docs| - 1].1))
    ensures KeySet(AddScore(t, docs[|docs| - 1].1)) == LabelKeys(docs)
  {
    AddScoreKeys(t, docs[|docs| - 1].1);
    LabelKeysSnoc(docs);
  }

  /** The step adds the document's key and keeps the keys distinct. */
  lemma AddScoreKeys(t: Dict<string, Tally>, d: ScoredDoc)
    ensures KeySet(AddScore(t, d)) == KeySet(t) + {ClusterKey(d.cluster)}
    ensures DistinctKeys(t) ==> DistinctKeys(AddScore(t, d))
  {
    var key := ClusterKey(d.cluster);
    var prior := Get(t, key).GetOr(Tally(0.0, 0));
    if DistinctKeys(t) {
      PutDistinct(t, key, Tally(prior.total + d.afinn, prior.count + 1));
    }
  }

  lemma LabelKeysSnoc(docs: Dict<string, ScoredDoc>)
    requires |docs| > 0
    ensures LabelKeys(docs) == LabelKeys(docs[..|docs| - 1]) + {ClusterKey(docs[|docs| - 1].1.cluster)}
  {
    LabelSetSnoc(docs);
  }

  lemma TallyStepValues(docs: Dict<string, ScoredDoc>, t: Dict<string, Tally>)
    requires |docs| > 0 && TalliesMatch(docs[..|docs| - 1], t)
    ensures forall c :: c in LabelSet(docs) ==>
      Get(AddScore(t, docs[|docs| - 1].1), ClusterKey(c)) ==
        Some(Tally(Sum(LabelScores(docs, c)), |LabelScores(docs, c)|))
  {
    forall c | c in LabelSet(docs)
      ensures Get(AddScore(t, docs[|docs| - 1].1), ClusterKey(c)) ==
        Some(Tally(Sum(LabelScores(docs, c)), |LabelScores(docs, c)|))
    {
      TallyPrior(docs[..|docs| - 1], t, c);
      TallyStepAt(docs, t, c);
      LabelScoresMembers(docs, c);
    }
  }

  lemma SumSnoc(xs: seq<real>, x: real)
    ensures Sum(xs + [x]) == Sum(xs) + x
  {
    assert (xs + [x])[..|xs|] == xs;
  }

  /** One step of the first loop brings a label's entry from its sums over
      the documents before the last one to its sums over all of them. */
  lemma TallyStepAt(docs: Dict<string, ScoredDoc>, t: Dict<string, Tally>, c: nat)
    requires |docs| > 0
    requires var before := LabelScores(docs[..|docs| - 1], c);
      Get(t, ClusterKey(c)).GetOr(Tally(0.0, 0)) == Tally(Sum(before), |before|)
    ensures Get(AddScore(t, docs[|docs| - 1].1), ClusterKey(c)) ==
      if |LabelScores(docs, c)| == 0 then Get(t, ClusterKey(c))
      else Some(Tally(Sum(LabelScores(docs, c)), |LabelScores(docs, c)|))
  {
    var d := docs[|docs| - 1].1;
    var before := LabelScores(docs[..|docs| - 1], c);
    if c == d.cluster {
      assert LabelScores(docs, c) == before + [d.afinn];
      SumSnoc(before, d.afinn);
      AddScoreSame(t, d, Sum(before), |before|);
    } else {
      assert LabelScores(docs, c) == before + [] == before;
      assert |before| > 0 ==> Get(t, ClusterKey(c)) == Some(Tally(Sum(before), |before|));
      AddScoreOther(t, d, c);
    }
  }

  /** The step adds the score to the entry of the document's own label. */
  lemma AddScoreSame(t: Dict<string, Tally>, d: ScoredDoc, total: real, count: nat)
    requires Get(t, ClusterKey(d.cluster)).GetOr(Tally(0.0, 0)) == Tally(total, count)
    ensures Get(AddScore(t, d), ClusterKey(d.cluster)) == Some(Tally(total + d.afinn, count + 1))
  {
  }

  /** The step leaves every other label's entry alone. */
  lemma AddScoreOther(t: Dict<string, Tally>, d: ScoredDoc, c: nat)
    requires c != d.cluster
    ensures Get(AddScore(t, d), ClusterKey(c)) == Get(t, ClusterKey(c))
  {
    var key := ClusterKey(d.cluster);
    var prior := Get(t, key).GetOr(Tally(0.0, 0));
    ClusterKeyInjective(c, d.cluster);
    PutOther(t, key, Tally(prior.total + d.afinn, prior.count + 1), ClusterKey(c));
  }

  function TallyTotalCount(t: Dict<string, Tally>): nat {
    if |t| == 0 then 0 else t[0].1.count + TallyTotalCount(t[1..])
  }

  lemma {:induction false} PutTallyCount(t: Dict<string, Tally>, key: string, v: Tally)
    ensures TallyTotalCount(Put(t, key, v)) ==
      TallyTotalCount(t) - Get(t, key).GetOr(Tally(0.0, 0)).count + v.count
  {
    if |t| > 0 && t[0].0 != key {
      assert ([t[0]] + Put(t[1..], key, v))[1..] == Put(t[1..], key, v);
      PutTallyCount(t[1..], key, v);
    } else if |t| > 0 {
      assert ([(key, v)] + t[1..])[1..] == t[1..];
    }
  }

  /** The first loop counts every document exactly once. */
  lemma {:induction false} TalliesCountAll(docs: Dict<string, ScoredDoc>)
    ensures TallyTotalCount(Tallies(docs)) == |docs|
    decreases |docs|
  {
    if |docs| > 0 {
      var pre := docs[..|docs| - 1];
      TalliesCountAll(pre);
      AddScoreCount(Tallies(pre), docs[|docs| - 1].1);
    }
  }

  /** One step of the first loop counts one more document. */
  lemma AddScoreCount(t: Dict<string, Tally>, d: ScoredDoc)
    ensures TallyTotalCount(AddScore(t, d)) == TallyTotalCount(t) + 1
  {
    var key := ClusterKey(d.cluster);
    var prior := Get(t, key).GetOr(Tally(0.0, 0));
    PutTallyCount(t, key, Tally(prior.total + d.afinn, prior.count + 1));
  }

  // ---------------------------------------------------------------------
  // The second loop: averages and descriptor terms

  predicate AllCounted(t: Dict<string, Tally>) {
    forall i :: 0 <= i < |t| ==> t[i].1.count > 0
  }

  /** `t[i]` is the first entry, in iteration order, whose key has no
      descriptor terms. */
  predicate FirstMissing(t: Dict<string, Tally>, descriptors: map<string, seq<string>>, i: int) {
    && 0 <= i < |t|
    && t[i].0 !in descriptors
    && forall j :: 0 <= j < i ==> t[j].0 in descriptors
  }

  /** The first missing entry of the tail is the first missing entry of the
      whole when the head has descriptor terms. */
  lemma MissingShift(t: Dict<string, Tally>, descriptors: map<string, seq<string>>, i: int)
    requires |t| > 0 && t[0].0 in descriptors
    requires FirstMissing(t[1..], descriptors, i)
    ensures FirstMissing(t, descriptors, i + 1) && t[i + 1] == t[1..][i]
  {
    assert forall j :: 1 <= j < i + 1 ==> t[j] == t[1..][j - 1];
  }

  /** The second loop, in iteration order. The divisor is never zero: an
      entry exists only once a document has been counted in it. The first
      key with no descriptor terms raises `KeyError`. */
  function Summaries(t: Dict<string, Tally>, descriptors: map<string, seq<string>>)
    : (r: Result<Dict<string, ClusterSummary>>)
    requires AllCounted(t)
    ensures r.Err? <==> exists i :: 0 <= i < |t| && t[i].0 !in descriptors
    ensures r.Err? ==> r.error.KeyError?
    ensures r.Err? ==> exists i :: FirstMissing(t, descriptors, i) && t[i].0 == r.error.key
    ensures r.Ok? ==> Keys(r.value) == Keys(t)
    ensures r.Ok? ==> forall i :: 0 <= i < |t| ==>
      r.value[i].1 == ClusterSummary(t[i].1.total / (t[i].1.count as real), t[i].1.count, descriptors[t[i].0])
  {
    if |t| == 0 then Ok([])
    else
      var key := t[0].0;
      var tally := t[0].1;
      if key !in descriptors then
        assert FirstMissing(t, descriptors, 0);
        Err(KeyError(key))
      else
        var rest := Summaries(t[1..], descriptors);
        if rest.Err? then
          assert exists i :: FirstMissing(t, descriptors, i) && t[i].0 == rest.error.key by {
            var i :| FirstMissing(t[1..], descriptors, i) && t[1..][i].0 == rest.error.key;
            MissingShift(t, descriptors, i);
          }
          rest
        else
          var r := [(key, ClusterSummary(tally.total / (tally.count as real), tally.count, descriptors[key]))] + rest.value;
          assert forall i :: 1 <= i < |t| ==> t[i] == t[1..][i - 1];
          assert Keys(r) == [key] + Keys(rest.value);
          assert Keys(t) == [key] + Keys(t[1..]);
          Ok(r)
  }

  function ItemKey(e: (string, ClusterSummary)): string {
    e.0
  }

  // ---------------------------------------------------------------------
  // The whole operation

  /** `generate_average_afinn_scores_per_cluster`: per-cluster averages,
      counts and descriptor terms, sorted by key (`dict(sorted(...items()))`). */
  function AverageScoresPerCluster(docs: Dict<string, ScoredDoc>, descriptors: map<string, seq<string>>)
    : (r: Result<Dict<string, ClusterSummary>>)
    ensures r.Err? ==> r.error.KeyError? && r.error.key !in descriptors
    ensures r.Ok? ==> SortedBy(r.value, ItemKey)
  {
    var t := Tallies(docs);
    TalliesCounted(docs);
    var s :- Summaries(t, descriptors);
    Ok(SortBy(s, ItemKey))
  }

  /** No entry of the first loop has count zero, so the division is safe. */
  lemma TalliesCounted(docs: Dict<string, ScoredDoc>)
    ensures AllCounted(Tallies(docs))
  {
    var t := Tallies(docs);
    TalliesCorrect(docs);
    KeySetMembers(t);
    forall i | 0 <= i < |t| ensures t[i].1.count > 0 {
      assert t[i].0 in LabelKeys(docs);
      var c :| c in LabelSet(docs) && ClusterKey(c) == t[i].0;
      GetAt(t, i);
      LabelScoresMembers(docs, c);
    }
  }

  /** The report is the sorted summaries, or the summaries' failure. */
  lemma AverageScoresUnfold(docs: Dict<string, ScoredDoc>, descriptors: map<string, seq<string>>)
    ensures AllCounted(Tallies(docs))
    ensures var s := Summaries(Tallies(docs), descriptors);
      AverageScoresPerCluster(docs, descriptors) ==
        if s.Ok? then Ok(SortBy(s.value, ItemKey)) else Err(s.error)
  {
    TalliesCounted(docs);
  }

  /** Sorting a dict's items keeps its keys distinct, its key set and every lookup. */
  lemma SortedItems(s: Dict<string, ClusterSummary>)
    requires DistinctKeys(s)
    ensures var sorted := SortBy(s, ItemKey);
      && DistinctKeys(sorted)
      && KeySet(sorted) == KeySet(s)
      && (forall k :: Get(sorted, k) == Get(s, k))
      && (forall i, j :: 0 <= i < j < |sorted| ==> StrLt(sorted[i].0, sorted[j].0))
  {
    var sorted := SortBy(s, ItemKey);
    assert DistinctBy(s, ItemKey);
    assert DistinctKeys(sorted) by {
      assert DistinctBy(sorted, ItemKey);
    }
    SortedDistinctIsStrict(sorted, ItemKey);
    SameItems(s, sorted);
  }

  /** Two dicts holding the same pairs have the same keys and lookups. */
  lemma SameItems<V>(a: Dict<string, V>, b: Dict<string, V>)
    requires DistinctKeys(a) && DistinctKeys(b)
    requires multiset(a) == multiset(b)
    ensures KeySet(a) == KeySet(b)
    ensures forall k :: Get(a, k) == Get(b, k)
  {
    assert forall e :: e in a <==> e in b by {
      forall e ensures e in a <==> e in b {
        assert e in a <==> e in multiset(a);
        assert e in b <==> e in multiset(b);
      }
    }
    forall k ensures Get(a, k) == Get(b, k) {
      if k in KeySet(a) {
        GetFound(a, k);
        GetIffMember(b, k, Get(a, k).value);
      } else if k in KeySet(b) {
        GetFound(b, k);
        GetIffMember(a, k, Get(b, k).value);
      }
    }
    forall k ensures k in KeySet(a) <==> k in KeySet(b) {
      assert Get(a, k) == Get(b, k);
    }
  }

  /** The tallies and the summaries built from them share their keys. */
  lemma SummaryKeys(t: Dict<string, Tally>, s: Dict<string, ClusterSummary>)
    requires Keys(s) == Keys(t) && DistinctKeys(t)
    ensures DistinctKeys(s) && KeySet(s) == KeySet(t)
    ensures forall i :: 0 <= i < |t| ==> s[i].0 == t[i].0
  {
    assert forall i :: 0 <= i < |s| ==> s[i].0 == Keys(s)[i] == Keys(t)[i] == t[i].0;
    SameKeysSameKeySet(s, t);
  }

  /** What the report holds: one entry per label that occurs, keyed
      `cluster_<label>`, holding the mean and number of that label's scores
      and exactly its descriptor terms, entries in ascending key order. */
  lemma AverageScoresCorrect(docs: Dict<string, ScoredDoc>, descriptors: map<string, seq<string>>)
    requires AverageScoresPerCluster(docs, descriptors).Ok?
    ensures var r := AverageScoresPerCluster(docs, descriptors).value;
      && KeySet(r) == LabelKeys(docs)
      && DistinctKeys(r)
      && (forall i, j :: 0 <= i < j < |r| ==> StrLt(r[i].0, r[j].0))
    ensures var r := AverageScoresPerCluster(docs, descriptors).value;
      forall c :: c in LabelSet(docs) ==>
        && |LabelScores(docs, c)| > 0
        && ClusterKey(c) in descriptors
        && Get(r, ClusterKey(c)) == Some(ClusterSummary(
             Mean(LabelScores(docs, c)), |LabelScores(docs, c)|, descriptors[ClusterKey(c)]))
  {
    AverageScoresUnfold(docs, descriptors);
    var s := Summaries(Tallies(docs), descriptors).value;
    SummariesMatch(docs, descriptors, s);
    SortedItems(s);
  }

  /** Before sorting, the summaries already hold the right entries. */
  lemma SummariesMatch(docs: Dict<string, ScoredDoc>, descriptors: map<string, seq<string>>,
                       s: Dict<string, ClusterSummary>)
    requires AllCounted(Tallies(docs))
    requires Summaries(Tallies(docs), descriptors) == Ok(s)
    ensures DistinctKeys(s) && KeySet(s) == LabelKeys(docs)
    ensures forall c :: c in LabelSet(docs) ==>
      && |LabelScores(docs, c)| > 0
      && ClusterKey(c) in descriptors
      && Get(s, ClusterKey(c)) == Some(ClusterSummary(
           Mean(LabelScores(docs, c)), |LabelScores(docs, c)|, descriptors[ClusterKey(c)]))
  {
    var t := Tallies(docs);
    TalliesCorrect(docs);
    SummaryKeys(t, s);
    forall c | c in LabelSet(docs)
      ensures |LabelScores(docs, c)| > 0
      ensures ClusterKey(c) in descriptors
      ensures Get(s, ClusterKey(c)) == Some(ClusterSummary(
          Mean(LabelScores(docs, c)), |LabelScores(docs, c)|, descriptors[ClusterKey(c)]))
    {
      LabelScoresMembers(docs, c);
      var key := ClusterKey(c);
      GetFound(t, key);
      var i :| 0 <= i < |t| && t[i] == (key, Get(t, key).value);
      GetAt(s, i);
    }
  }

  /** Document `i` is the first, in iteration order, whose label has no
      descriptor terms. */
  predicate FirstUndescribed(docs: Dict<string, ScoredDoc>, descriptors: map<string, seq<string>>, i: int) {
    && 0 <= i < |docs|
    && ClusterKey(docs[i].1.cluster) !in descriptors
    && forall j :: 0 <= j < i ==> ClusterKey(docs[j].1.cluster) in descriptors
  }

  /** The report fails exactly when some label that occurs has no
      descriptor terms, and then with the `KeyError` of the label of the
      first document that has none. */
  lemma AverageScoresFailure(docs: Dict<string, ScoredDoc>, descriptors: map<string, seq<string>>)
    ensures var r := AverageScoresPerCluster(docs, descriptors);
      r.Err? <==> exists c :: c in LabelSet(docs) && ClusterKey(c) !in descriptors
    ensures var r := AverageScoresPerCluster(docs, descriptors);
      r.Err? ==> r.error.KeyError? && r.error.key in LabelKeys(docs) && r.error.key !in descriptors
    ensures var r := AverageScoresPerCluster(docs, descriptors);
      r.Err? ==> exists i :: FirstUndescribed(docs, descriptors, i) && r.error.key == ClusterKey(docs[i].1.cluster)
  {
    var t := Tallies(docs);
    TalliesCorrect(docs);
    AverageScoresUnfold(docs, descriptors);
    KeySetMembers(t);
    var r := AverageScoresPerCluster(docs, descriptors);
    if r.Err? {
      var p :| FirstMissing(t, descriptors, p) && t[p].0 == r.error.key;
      assert t[p].0 in KeySet(t);
      FailureKeyIsFirst(docs, descriptors, p);
    }
    if exists c :: c in LabelSet(docs) && ClusterKey(c) !in descriptors {
      var c :| c in LabelSet(docs) && ClusterKey(c) !in descriptors;
      assert ClusterKey(c) in KeySet(t);
    }
  }

  /** The first tally entry without descriptor terms belongs to the label
      of the first document without them: entries are created in the order
      their labels first occur. */
  lemma FailureKeyIsFirst(docs: Dict<string, ScoredDoc>, descriptors: map<string, seq<string>>, p: int)
    requires FirstMissing(Tallies(docs), descriptors, p)
    ensures exists i :: FirstUndescribed(docs, descriptors, i) && Tallies(docs)[p].0 == ClusterKey(docs[i].1.cluster)
  {
    var k := EntryLabel(docs, p);
    var i := LeastUndescribed(docs, descriptors, k);
    var key := ClusterKey(docs[i].1.cluster);
    TalliesStep(docs, i);
    DescribedPrefix(docs, descriptors, i);
    AddScoreNew(Tallies(docs[..i]), docs[i].1);
    TalliesPrefix(docs, i + 1);
    KeyAtBoundary(Tallies(docs), Tallies(docs[..i]), Tallies(docs[..i + 1]), descriptors, key, p);
  }

  /** Each tally entry's key is the cluster key of some document. */
  lemma EntryLabel(docs: Dict<string, ScoredDoc>, p: int) returns (k: int)
    requires 0 <= p < |Tallies(docs)|
    ensures 0 <= k < |docs| && ClusterKey(docs[k].1.cluster) == Tallies(docs)[p].0
  {
    var t := Tallies(docs);
    TalliesCorrect(docs);
    KeySetMembers(t);
    assert t[p].0 in LabelKeys(docs);
    var c :| c in LabelSet(docs) && ClusterKey(c) == t[p].0;
    k :| 0 <= k < |docs| && docs[k].1.cluster == c;
  }

  /** Entries that all have descriptor terms, followed by one for `key`,
      which has none, start `t`; so the first entry of `t` without
      descriptor terms is the one for `key`. */
  lemma KeyAtBoundary(t: Dict<string, Tally>, before: Dict<string, Tally>, next: Dict<string, Tally>,
                      descriptors: map<string, seq<string>>, key: string, p: int)
    requires |next| == |before| + 1 && |next| <= |t|
    requires forall q :: 0 <= q < |next| ==> next[q].0 == t[q].0
    requires forall q :: 0 <= q < |before| ==> next[q].0 == before[q].0
    requires next[|before|].0 == key && key !in descriptors
    requires forall q :: 0 <= q < |before| ==> before[q].0 in descriptors
    requires FirstMissing(t, descriptors, p)
    ensures t[p].0 == key
  {
    var m := |before|;
    assert forall q :: 0 <= q < m ==> t[q].0 in descriptors;
    assert t[m].0 == key;
  }

  /** The first undescribed document at or before `k`. */
  lemma LeastUndescribed(docs: Dict<string, ScoredDoc>, descriptors: map<string, seq<string>>, k: int)
    returns (i: int)
    requires 0 <= k < |docs| && ClusterKey(docs[k].1.cluster) !in descriptors
    ensures FirstUndescribed(docs, descriptors, i)
    decreases k
  {
    if exists j :: 0 <= j < k && ClusterKey(docs[j].1.cluster) !in descriptors {
      var j :| 0 <= j < k && ClusterKey(docs[j].1.cluster) !in descriptors;
      i := LeastUndescribed(docs, descriptors, j);
    } else {
      i := k;
    }
  }

  /** The tallies of the first i + 1 documents are those of the first i,
      stepped by document i. */
  lemma TalliesStep(docs: Dict<string, ScoredDoc>, i: nat)
    requires i < |docs|
    ensures Tallies(docs[..i + 1]) == AddScore(Tallies(docs[..i]), docs[i].1)
  {
    assert docs[..i + 1][..i] == docs[..i];
  }

  /** Before the first undescribed document, every key created has descriptor terms. */
  lemma DescribedPrefix(docs: Dict<string, ScoredDoc>, descriptors: map<string, seq<string>>, i: int)
    requires FirstUndescribed(docs, descriptors, i)
    ensures forall q :: 0 <= q < |Tallies(docs[..i])| ==> Tallies(docs[..i])[q].0 in descriptors
    ensures ClusterKey(docs[i].1.cluster) !in KeySet(Tallies(docs[..i]))
  {
    var pre := docs[..i];
    assert forall j :: 0 <= j < |pre| ==> pre[j] == docs[j];
    TalliesCorrect(pre);
    KeysDescribed(Tallies(pre), pre, descriptors);
  }

  /** Tallies over documents whose labels all have descriptor terms hold
      only keys with descriptor terms. */
  lemma KeysDescribed(t: Dict<string, Tally>, docs: Dict<string, ScoredDoc>, descriptors: map<string, seq<string>>)
    requires KeySet(t) == LabelKeys(docs)
    requires forall j :: 0 <= j < |docs| ==> ClusterKey(docs[j].1.cluster) in descriptors
    ensures forall q :: 0 <= q < |t| ==> t[q].0 in descriptors
    ensures forall key :: key in KeySet(t) ==> key in descriptors
  {
    KeySetMembers(t);
    forall key | key in KeySet(t) ensures key in descriptors {
      var c :| c in LabelSet(docs) && ClusterKey(c) == key;
      var j :| 0 <= j < |docs| && docs[j].1.cluster == c;
    }
  }

  /** A step for a new key appends that key. */
  lemma AddScoreNew(t: Dict<string, Tally>, d: ScoredDoc)
    requires ClusterKey(d.cluster) !in KeySet(t)
    ensures |AddScore(t, d)| == |t| + 1 && AddScore(t, d)[|t|].0 == ClusterKey(d.cluster)
    ensures forall q :: 0 <= q < |t| ==> AddScore(t, d)[q].0 == t[q].0
  {
  }

  /** A step keeps every existing key in its position. */
  lemma AddScorePrefix(t: Dict<string, Tally>, d: ScoredDoc)
    ensures |t| <= |AddScore(t, d)|
    ensures forall q :: 0 <= q < |t| ==> AddScore(t, d)[q].0 == t[q].0
  {
    var key := ClusterKey(d.cluster);
    var prior := Get(t, key).GetOr(Tally(0.0, 0));
    var r := Put(t, key, Tally(prior.total + d.afinn, prior.count + 1));
    if key in KeySet(t) {
      assert forall q :: 0 <= q < |t| ==> r[q].0 == Keys(r)[q] == Keys(t)[q];
    }
  }

  /** The tallies of a prefix of the documents list their keys in the same
      positions as the tallies of all of them. */
  lemma {:induction false} TalliesPrefix(docs: Dict<string, ScoredDoc>, m: nat)
    requires m <= |docs|
    ensures |Tallies(docs[..m])| <= |Tallies(docs)|
    ensures forall q :: 0 <= q < |Tallies(docs[..m])| ==> Tallies(docs[..m])[q].0 == Tallies(docs)[q].0
    decreases |docs|
  {
    if m < |docs| {
      var pre := docs[..|docs| - 1];
      assert pre[..m] == docs[..m];
      TalliesPrefix(pre, m);
      AddScorePrefix(Tallies(pre), docs[|docs| - 1].1);
    } else {
      assert docs[..m] == docs;
    }
  }

  // ---------------------------------------------------------------------
  // Counts, bounds and key order of the report

  /** The documents a report accounts for: the sum of its counts. */
  function TotalCount(r: Dict<string, ClusterSummary>): nat {
    if |r| == 0 then 0 else r[0].1.count + TotalCount(r[1..])
  }

  lemma {:induction false} TotalCountInsert(x: (string, ClusterSummary), s: Dict<string, ClusterSummary>)
    ensures TotalCount(Insert(x, s, ItemKey)) == x.1.count + TotalCount(s)
  {
    if |s| > 0 && !StrLe(ItemKey(x), ItemKey(s[0])) {
      var rest := Insert(x, s[1..], ItemKey);
      TotalCountInsert(x, s[1..]);
      assert ([s[0]] + rest)[1..] == rest;
    } else if |s| > 0 {
      assert ([x] + s)[1..] == s;
    }
  }

  /** Sorting the entries does not change the total count. */
  lemma {:induction false} TotalCountSorted(s: Dict<string, ClusterSummary>)
    ensures TotalCount(SortBy(s, ItemKey)) == TotalCount(s)
  {
    if |s| > 0 {
      TotalCountSorted(s[1..]);
      TotalCountInsert(s[0], SortBy(s[1..], ItemKey));
    }
  }

  lemma {:induction false} SummariesCount(t: Dict<string, Tally>, s: Dict<string, ClusterSummary>)
    requires |s| == |t|
    requires forall i :: 0 <= i < |t| ==> s[i].1.count == t[i].1.count
    ensures TotalCount(s) == TallyTotalCount(t)
  {
    if |t| > 0 {
      SummariesCount(t[1..], s[1..]);
    }
  }

  /** Every document is counted in exactly one entry of the report. */
  lemma CountsSumToDocuments(docs: Dict<string, ScoredDoc>, descriptors: map<string, seq<string>>)
    requires AverageScoresPerCluster(docs, descriptors).Ok?
    ensures TotalCount(AverageScoresPerCluster(docs, descriptors).value) == |docs|
  {
    AverageScoresUnfold(docs, descriptors);
    var t := Tallies(docs);
    var s := Summaries(t, descriptors).value;
    assert |s| == |t| by {
      assert |Keys(s)| == |Keys(t)|;
    }
    SummariesCount(t, s);
    TalliesCountAll(docs);
    TotalCountSorted(s);
  }

  /** `xs` has `lo` below and `hi` above every element. */
  predicate Between(xs: seq<real>, lo: real, hi: real) {
    forall i :: 0 <= i < |xs| ==> lo <= xs[i] <= hi
  }

  lemma {:induction false} SumBetween(xs: seq<real>, lo: real, hi: real)
    requires Between(xs, lo, hi)
    ensures (|xs| as real) * lo <= Sum(xs) <= (|xs| as real) * hi
  {
    if |xs| > 0 {
      var pre := xs[..|xs| - 1];
      SumBetween(pre, lo, hi);
      assert (|xs| as real) * lo == (|pre| as real) * lo + lo;
      assert (|xs| as real) * hi == (|pre| as real) * hi + hi;
    }
  }

  /** A mean lies between any lower and upper bound of its values. */
  lemma MeanBetween(xs: seq<real>, lo: real, hi: real)
    requires |xs| > 0 && Between(xs, lo, hi)
    ensures lo <= Mean(xs) <= hi
  {
    var n := |xs| as real;
    SumBetween(xs, lo, hi);
    assert Mean(xs) - lo == (Sum(xs) - n * lo) / n;
    assert hi - Mean(xs) == (n * hi - Sum(xs)) / n;
  }

  function SeqMin(xs: seq<real>): (m: real)
    requires |xs| > 0
    ensures m in xs && forall i :: 0 <= i < |xs| ==> m <= xs[i]
  {
    if |xs| == 1 then xs[0]
    else
      var m := SeqMin(xs[1..]);
      assert forall i :: 1 <= i < |xs| ==> xs[i] == xs[1..][i - 1];
      if xs[0] <= m then xs[0] else m
  }

  function SeqMax(xs: seq<real>): (m: real)
    requires |xs| > 0
    ensures m in xs && forall i :: 0 <= i < |xs| ==> xs[i] <= m
  {
    if |xs| == 1 then xs[0]
    else
      var m := SeqMax(xs[1..]);
      assert forall i :: 1 <= i < |xs| ==> xs[i] == xs[1..][i - 1];
      if m <= xs[0] then xs[0] else m
  }

  /** Every label carried by a document has descriptors, so the report is
      built without a `KeyError`. */
  predicate Described(docs: Dict<string, ScoredDoc>, descriptors: map<string, seq<string>>) {
    forall c :: c in LabelSet(docs) ==> ClusterKey(c) in descriptors
  }

  /** Each entry's average lies between the lowest and the highest score of
      the documents with that label. */
  lemma AverageWithinMemberScores(docs: Dict<string, ScoredDoc>, descriptors: map<string, seq<string>>, c: nat)
    requires Described(docs, descriptors)
    requires c in LabelSet(docs)
    ensures AverageScoresPerCluster(docs, descriptors).Ok?
    ensures var e := Get(AverageScoresPerCluster(docs, descriptors).value, ClusterKey(c));
      && e.Some?
      && exists i, j ::
           && 0 <= i < |docs| && docs[i].1.cluster == c
           && 0 <= j < |docs| && docs[j].1.cluster == c
           && docs[i].1.afinn <= e.value.avgScore <= docs[j].1.afinn
  {
    var avg := AverageIsMean(docs, descriptors, c);
    var lo, hi := MeanWithinExtremes(LabelScores(docs, c));
    ScoresAround(docs, c, lo, hi, avg);
  }

  /** A value between two of a label's scores lies between the scores of
      two documents carrying that label. */
  lemma ScoresAround(docs: Dict<string, ScoredDoc>, c: nat, lo: real, hi: real, avg: real)
    requires lo in LabelScores(docs, c) && hi in LabelScores(docs, c) && lo <= avg <= hi
    ensures exists i, j ::
      && 0 <= i < |docs| && docs[i].1.cluster == c
      && 0 <= j < |docs| && docs[j].1.cluster == c
      && docs[i].1.afinn <= avg <= docs[j].1.afinn
  {
    LabelScoresMembers(docs, c);
    var i :| 0 <= i < |docs| && docs[i].1.cluster == c && docs[i].1.afinn == lo;
    var j :| 0 <= j < |docs| && docs[j].1.cluster == c && docs[j].1.afinn == hi;
  }

  /** A mean lies between its smallest and its largest value. */
  lemma MeanWithinExtremes(xs: seq<real>) returns (lo: real, hi: real)
    requires |xs| > 0
    ensures lo in xs && hi in xs && lo <= Mean(xs) <= hi
  {
    lo, hi := SeqMin(xs), SeqMax(xs);
    MeanBetween(xs, lo, hi);
  }

  /** The average of label `c`'s entry, which is the mean of its scores. */
  lemma AverageIsMean(docs: Dict<string, ScoredDoc>, descriptors: map<string, seq<string>>, c: nat)
    returns (avg: real)
    requires Described(docs, descriptors)
    requires c in LabelSet(docs)
    ensures |LabelScores(docs, c)| > 0 && avg == Mean(LabelScores(docs, c))
    ensures AverageScoresPerCluster(docs, descriptors).Ok?
    ensures var e := Get(AverageScoresPerCluster(docs, descriptors).value, ClusterKey(c));
      e.Some? && e.value.avgScore == avg
  {
    AverageScoresFailure(docs, descriptors);
    AverageScoresCorrect(docs, descriptors);
    avg := Mean(LabelScores(docs, c));
  }

  /** Keys sort as strings, so `cluster_10` comes before `cluster_2`. */
  lemma TenSortsBeforeTwo()
    ensures StrLt(ClusterKey(10), ClusterKey(2))
  {
    assert NatToString(10) == "10";
    assert NatToString(2) == "2";
    assert ClusterKey(10) == "cluster_10";
    assert ClusterKey(2) == "cluster_2";
    var a := "cluster_10";
    var b := "cluster_2";
    assert StrLt(a[8..], b[8..]);
    assert StrLt(a[7..], b[7..]);
    assert StrLt(a[6..], b[6..]);
    assert StrLt(a[5..], b[5..]);
    assert StrLt(a[4..], b[4..]);
    assert StrLt(a[3..], b[3..]);
    assert StrLt(a[2..], b[2..]);
    assert StrLt(a[1..], b[1..]);
  }

  /** In a report holding both clusters 2 and 10, cluster 10's entry comes first. */
  lemma ReportListsTenBeforeTwo(docs: Dict<string, ScoredDoc>, descriptors: map<string, seq<string>>)
    requires Described(docs, descriptors)
    requires 2 in LabelSet(docs) && 10 in LabelSet(docs)
    ensures AverageScoresPerCluster(docs, descriptors).Ok?
    ensures var r := AverageScoresPerCluster(docs, descriptors).value;
      exists i, j :: 0 <= i < j < |r| && r[i].0 == ClusterKey(10) && r[j].0 == ClusterKey(2)
  {
    AverageScoresFailure(docs, descriptors);
    var r := AverageScoresPerCluster(docs, descriptors).value;
    AverageScoresCorrect(docs, descriptors);
    assert ClusterKey(10) in LabelKeys(docs) && ClusterKey(2) in LabelKeys(docs);
    TenSortsBeforeTwo();
    OrderedPositions(r, ClusterKey(10), ClusterKey(2));
  }

  /** In a dict whose keys strictly ascend, a smaller key sits before a larger one. */
  lemma OrderedPositions<V>(r: Dict<string, V>, a: string, b: string)
    requires forall i, j :: 0 <= i < j < |r| ==> StrLt(r[i].0, r[j].0)
    requires a in KeySet(r) && b in KeySet(r) && StrLt(a, b)
    ensures exists i, j :: 0 <= i < j < |r| && r[i].0 == a && r[j].0 == b
  {
    KeySetMembers(r);
    var i :| 0 <= i < |r| && r[i].0 == a;
    var j :| 0 <= j < |r| && r[j].0 == b;
    StrLtAsymmetric(a, b);
    StrLtIrreflexive(a);
    assert !StrLt(r[j].0, r[i].0);
  }
}
