/** Python's `sorted` on values ordered by a string key (a string itself,
    or the key of a dict item): a stable insertion sort under the
    code-point order of `Strings.StrLt`. */
module Sorting {
  import opened Strings

  predicate SortedBy<T>(s: seq<T>, key: T -> string) {
    forall i, j :: 0 <= i < j < |s| ==> StrLe(key(s[i]), key(s[j]))
  }

  /** Inserts `x` before the first element whose key is not smaller. */
  function Insert<T>(x: T, s: seq<T>, key: T -> string): (r: seq<T>)
    ensures multiset(r) == multiset(s) + multiset{x}
    ensures SortedBy(s, key) ==> SortedBy(r, key)
  {
    if |s| == 0 then [x]
    else if StrLe(key(x), key(s[0])) then
      InsertFront(x, s, key);
      [x] + s
    else
      var rest := Insert(x, s[1..], key);
      assert s == [s[0]] + s[1..];
      StrLtTotal(key(x), key(s[0]));
      InsertBehind(x, s, rest, key);
      [s[0]] + rest
  }

  lemma InsertBehind<T>(x: T, s: seq<T>, rest: seq<T>, key: T -> string)
    requires |s| > 0 && StrLt(key(s[0]), key(x))
    requires multiset(rest) == multiset(s[1..]) + multiset{x}
    requires SortedBy(s[1..], key) ==> SortedBy(rest, key)
    ensures SortedBy(s, key) ==> SortedBy([s[0]] + rest, key)
  {
    if SortedBy(s, key) {
      forall y | y in rest
        ensures StrLe(key(s[0]), key(y))
      {
        assert y in multiset(rest);
        if y != x {
          var j :| 0 <= j < |s[1..]| && s[1..][j] == y;
          assert s[j + 1] == y;
        }
      }
      ConsSorted(s[0], rest, key);
    }
  }

  lemma InsertFront<T>(x: T, s: seq<T>, key: T -> string)
    requires |s| > 0 && StrLe(key(x), key(s[0]))
    ensures SortedBy(s, key) ==> SortedBy([x] + s, key)
  {
    if SortedBy(s, key) {
      forall j | 0 <= j < |s|
        ensures StrLe(key(x), key(s[j]))
      {
        if j > 0 {
          StrLeTransitive(key(x), key(s[0]), key(s[j]));
        }
      }
      ConsSorted(x, s, key);
    }
  }

  lemma ConsSorted<T>(x: T, s: seq<T>, key: T -> string)
    requires SortedBy(s, key)
    requires forall y :: y in s ==> StrLe(key(x), key(y))
    ensures SortedBy([x] + s, key)
  {
    var r := [x] + s;
    forall i, j | 0 <= i < j < |r|
      ensures StrLe(key(r[i]), key(r[j]))
    {
      if i == 0 {
        assert r[j] == s[j - 1];
      } else {
        assert r[i] == s[i - 1] && r[j] == s[j - 1];
      }
    }
  }

  predicate DistinctBy<T>(s: seq<T>, key: T -> string) {
    forall i, j :: 0 <= i < j < |s| ==> key(s[i]) != key(s[j])
  }

  lemma {:induction false} InsertDistinct<T>(x: T, s: seq<T>, key: T -> string)
    requires DistinctBy(s, key)
    requires forall y :: y in s ==> key(y) != key(x)
    ensures DistinctBy(Insert(x, s, key), key)
  {
    if |s| == 0 {
    } else if StrLe(key(x), key(s[0])) {
      ConsDistinct(x, s, key);
    } else {
      var rest := Insert(x, s[1..], key);
      assert DistinctBy(s[1..], key) by {
        forall i, j | 0 <= i < j < |s[1..]| ensures key(s[1..][i]) != key(s[1..][j]) {
          assert s[1..][i] == s[i + 1] && s[1..][j] == s[j + 1];
        }
      }
      InsertDistinct(x, s[1..], key);
      forall y | y in rest ensures key(y) != key(s[0]) {
        assert y in multiset(rest);
        if y != x {
          var t :| 0 <= t < |s[1..]| && s[1..][t] == y;
          assert s[t + 1] == y;
        }
      }
      ConsDistinct(s[0], rest, key);
    }
  }

  lemma ConsDistinct<T>(x: T, s: seq<T>, key: T -> string)
    requires DistinctBy(s, key)
    requires forall y :: y in s ==> key(y) != key(x)
    ensures DistinctBy([x] + s, key)
  {
    var r := [x] + s;
    forall i, j | 0 <= i < j < |r| ensures key(r[i]) != key(r[j]) {
      assert r[j] == s[j - 1];
      if i > 0 {
        assert r[i] == s[i - 1];
      }
    }
  }

  /** Python's `sorted(s, key=key)`. */
  function SortBy<T>(s: seq<T>, key: T -> string): (r: seq<T>)
    ensures multiset(r) == multiset(s)
    ensures SortedBy(r, key)
    ensures DistinctBy(s, key) ==> DistinctBy(r, key)
  {
    if |s| == 0 then []
    else
      assert s == [s[0]] + s[1..];
      var rest := SortBy(s[1..], key);
      SortStep(s, rest, key);
      Insert(s[0], rest, key)
  }

  lemma SortStep<T>(s: seq<T>, rest: seq<T>, key: T -> string)
    requires |s| > 0 && multiset(rest) == multiset(s[1..])
    requires DistinctBy(s[1..], key) ==> DistinctBy(rest, key)
    ensures DistinctBy(s, key) ==> DistinctBy(Insert(s[0], rest, key), key)
  {
    if DistinctBy(s, key) {
      forall y | y in rest ensures key(y) != key(s[0]) {
        assert y in multiset(rest);
        var t :| 0 <= t < |s[1..]| && s[1..][t] == y;
        assert s[t + 1] == y;
      }
      InsertDistinct(s[0], rest, key);
    }
  }

  /** A sorted sequence whose keys are pairwise distinct is strictly increasing. */
  lemma SortedDistinctIsStrict<T>(s: seq<T>, key: T -> string)
    requires SortedBy(s, key) && DistinctBy(s, key)
    ensures forall i, j :: 0 <= i < j < |s| ==> StrLt(key(s[i]), key(s[j]))
  {
  }
}
