/** The records that flow from the clustering stage to the sentiment stage,
    and the `"cluster_<label>"` keys both stages write. */
module Documents {
  import opened Common
  import opened Strings

  /** One labelled document, `{"cluster": label, "raw": text}`. */
  datatype LabeledDoc = LabeledDoc(cluster: nat, raw: string)

  const ClusterPrefix: string := "cluster_"

  /** The f-string `f"cluster_{n}"` for the cluster label `n`. */
  function ClusterKey(n: nat): (key: string)
    ensures StartsWith(key, ClusterPrefix)
    ensures IsCanonicalDecimal(key[|ClusterPrefix|..])
  {
    var key := ClusterPrefix + NatToString(n);
    assert key[|ClusterPrefix|..] == NatToString(n);
    key
  }

  /** Reads the label back out of a cluster key. */
  function LabelOfKey(key: string): (r: Option<nat>)
    ensures r.Some? <==> StartsWith(key, ClusterPrefix) && IsCanonicalDecimal(key[|ClusterPrefix|..])
  {
    if StartsWith(key, ClusterPrefix) && IsCanonicalDecimal(key[|ClusterPrefix|..])
    then Some(DigitsValue(key[|ClusterPrefix|..]))
    else None
  }

  /** Reading a key gives back its label, so distinct labels have distinct keys. */
  lemma ClusterKeyRoundTrip(n: nat)
    ensures LabelOfKey(ClusterKey(n)) == Some(n)
  {
    var key := ClusterKey(n);
    assert key[|ClusterPrefix|..] == NatToString(n);
    NatToStringRoundTrip(n);
  }

  /** Every key that reads as a label is that label's key. */
  lemma LabelOfKeyRoundTrip(key: string)
    requires LabelOfKey(key).Some?
    ensures ClusterKey(LabelOfKey(key).value) == key
  {
    var digits := key[|ClusterPrefix|..];
    DigitsValueRoundTrip(digits);
    assert key == ClusterPrefix + digits;
  }

  lemma ClusterKeyInjective(a: nat, b: nat)
    ensures ClusterKey(a) == ClusterKey(b) <==> a == b
  {
    ClusterKeyRoundTrip(a);
    ClusterKeyRoundTrip(b);
  }
}
