/**
 * Ranking by score, as both scripts do it with `sort_values(ascending=False)`,
 * `head(n)` and `argsort()[:-n-1:-1]`: a descending sort followed by a prefix.
 * The libraries leave the order of tied scores open; the sort below settles it
 * one way (stable), and no lemma depends on that choice.
 */
module Ranking {

  /** A key (a term or a column index) with its score. */
  datatype Entry<K> = Entry(key: K, score: real)

  ghost predicate NonIncreasing<K>(s: seq<Entry<K>>) {
    forall i, j | 0 <= i < j < |s| :: s[i].score >= s[j].score
  }

  ghost predicate DistinctKeys<K>(s: seq<Entry<K>>) {
    forall i, j | 0 <= i < j < |s| :: s[i].key != s[j].key
  }

  ghost predicate Distinct<T>(s: seq<T>) {
    forall i, j | 0 <= i < j < |s| :: s[i] != s[j]
  }

  function Min(a: nat, b: nat): nat {
    if a <= b then a else b
  }

  /** Inserts `e` after every entry scoring at least as much. */
  function Insert<K>(e: Entry<K>, s: seq<Entry<K>>): (r: seq<Entry<K>>)
    requires NonIncreasing(s)
    ensures |r| == |s| + 1
    ensures NonIncreasing(r)
    ensures multiset(r) == multiset(s) + multiset{e}
  {
    if s == [] || s[0].score < e.score then [e] + s
    else
      var t := Insert(e, s[1..]);
      HeadDominates(s, e, t);
      [s[0]] + t
  }

  lemma HeadDominates<K>(s: seq<Entry<K>>, e: Entry<K>, t: seq<Entry<K>>)
    requires s != [] && NonIncreasing(s) && s[0].score >= e.score
    requires multiset(t) == multiset(s[1..]) + multiset{e}
    ensures s == [s[0]] + s[1..]
    ensures forall j | 0 <= j < |t| :: s[0].score >= t[j].score
  {
    forall j | 0 <= j < |t| ensures s[0].score >= t[j].score {
      assert t[j] in multiset(t);
      if t[j] != e {
        assert t[j] in s[1..];
      }
    }
  }

  /** A descending sort by score: a permutation of its input in non-increasing order. */
  function SortDesc<K>(s: seq<Entry<K>>): (r: seq<Entry<K>>)
    ensures |r| == |s|
    ensures NonIncreasing(r)
    ensures multiset(r) == multiset(s)
  {
    if s == [] then []
    else
      var last := |s| - 1;
      assert s == s[..last] + [s[last]];
      Insert(s[last], SortDesc(s[..last]))
  }

  lemma {:induction false} InsertDistinct<K>(e: Entry<K>, s: seq<Entry<K>>)
    requires NonIncreasing(s) && DistinctKeys(s)
    requires forall x | x in s :: x.key != e.key
    ensures DistinctKeys(Insert(e, s))
  {
    if s == [] || s[0].score < e.score {
    } else {
      assert forall x | x in s[1..] :: x in s;
      InsertDistinct(e, s[1..]);
      var t := Insert(e, s[1..]);
      forall x | x in t ensures x.key != s[0].key {
        assert x in multiset(s[1..]) + multiset{e};
      }
    }
  }

  lemma {:induction false} SortDistinct<K>(s: seq<Entry<K>>)
    requires DistinctKeys(s)
    ensures DistinctKeys(SortDesc(s))
  {
    if s != [] {
      var last := |s| - 1;
      SortDistinct(s[..last]);
      forall x | x in SortDesc(s[..last]) ensures x.key != s[last].key {
        assert x in multiset(s[..last]);
      }
      InsertDistinct(s[last], SortDesc(s[..last]));
    }
  }

  /** `sort_values(ascending=False).head(n)`: the first `n` entries of the descending sort. */
  function TopN<K>(s: seq<Entry<K>>, n: nat): (r: seq<Entry<K>>)
    ensures |r| == Min(n, |s|)
    ensures NonIncreasing(r)
  {
    SortDesc(s)[..Min(n, |s|)]
  }

  /** `TopN` splits the sorted input into the entries taken and the entries left. */
  lemma TopNSplit<K>(s: seq<Entry<K>>, n: nat)
    ensures TopN(s, n) == SortDesc(s)[..Min(n, |s|)]
    ensures multiset(TopN(s, n)) + multiset(SortDesc(s)[Min(n, |s|)..]) == multiset(s)
  {
    SplitMultiset(SortDesc(s), Min(n, |s|));
  }

  lemma SplitMultiset<T>(a: seq<T>, k: nat)
    requires k <= |a|
    ensures multiset(a[..k]) + multiset(a[k..]) == multiset(a)
  {
    assert a == a[..k] + a[k..];
  }

  /**
   * What `TopN` selects: `n` entries of the input (all of them when there are
   * fewer), best first, none twice when the keys are distinct, and every
   * entry left out scores no more than any entry taken.
   */
  lemma TopNSelects<K>(s: seq<Entry<K>>, n: nat)
    ensures multiset(TopN(s, n)) <= multiset(s)
    ensures n >= |s| ==> multiset(TopN(s, n)) == multiset(s)
    ensures forall e | e in s && e !in TopN(s, n) :: forall t | t in TopN(s, n) :: t.score >= e.score
    ensures DistinctKeys(s) ==> DistinctKeys(TopN(s, n))
  {
    TopNSplit(s, n);
    PrefixSelects(s, SortDesc(s), Min(n, |s|));
    if DistinctKeys(s) {
      SortDistinct(s);
    }
  }

  /** The prefix of any descending permutation of `s` dominates what it leaves out. */
  lemma PrefixSelects<K>(s: seq<Entry<K>>, sorted: seq<Entry<K>>, k: nat)
    requires NonIncreasing(sorted) && multiset(sorted) == multiset(s) && k <= |sorted|
    ensures forall e | e in s && e !in sorted[..k] :: forall t | t in sorted[..k] :: t.score >= e.score
  {
    var top, rest := sorted[..k], sorted[k..];
    SplitMultiset(sorted, k);
    forall e | e in s && e !in top ensures forall t | t in top :: t.score >= e.score {
      assert e in multiset(s);
      assert e in multiset(rest);
      var j :| 0 <= j < |rest| && rest[j] == e;
      forall t | t in top ensures t.score >= e.score {
        var i :| 0 <= i < |top| && top[i] == t;
        assert sorted[i] == t && sorted[k + j] == e;
      }
    }
  }

  /** The keys of a ranking, in order. */
  function Keys<K>(s: seq<Entry<K>>): (r: seq<K>)
    ensures |r| == |s|
  {
    seq(|s|, i requires 0 <= i < |s| => s[i].key)
  }

  /** The scores of a ranking, in order. */
  function Scores<K>(s: seq<Entry<K>>): (r: seq<real>)
    ensures |r| == |s|
  {
    seq(|s|, i requires 0 <= i < |s| => s[i].score)
  }

  /** Pairs each key with the score at the same position (a pandas Series indexed by `keys`). */
  function Zip<K>(keys: seq<K>, scores: seq<real>): (r: seq<Entry<K>>)
    requires |keys| == |scores|
    ensures |r| == |keys|
    ensures Distinct(keys) ==> DistinctKeys(r)
  {
    seq(|keys|, j requires 0 <= j < |keys| => Entry(keys[j], scores[j]))
  }

  /**
   * The best `n` entries of a score table with distinct keys, read back by
   * position: distinct keys of the table, each with its own score, and no
   * key left out scores more than a key taken.
   */
  lemma TopOfZip<K>(keys: seq<K>, scores: seq<real>, n: nat)
    requires |keys| == |scores| && Distinct(keys)
    ensures var top := TopN(Zip(keys, scores), n);
      && Distinct(Keys(top))
      && (forall k | 0 <= k < |top| :: top[k].key in keys)
      && (forall k, j | 0 <= k < |top| && 0 <= j < |keys| && keys[j] == top[k].key :: top[k].score == scores[j])
      && (forall k, j | 0 <= k < |top| && 0 <= j < |keys| && keys[j] !in Keys(top) :: top[k].score >= scores[j])
  {
    TopNSelects(Zip(keys, scores), n);
    ZipSelection(keys, scores, TopN(Zip(keys, scores), n));
  }

  lemma ZipSelection<K>(keys: seq<K>, scores: seq<real>, top: seq<Entry<K>>)
    requires |keys| == |scores| && Distinct(keys)
    requires multiset(top) <= multiset(Zip(keys, scores))
    requires forall e | e in Zip(keys, scores) && e !in top :: forall t | t in top :: t.score >= e.score
    requires DistinctKeys(top)
    ensures Distinct(Keys(top))
    ensures forall k | 0 <= k < |top| :: top[k].key in keys
    ensures forall k, j | 0 <= k < |top| && 0 <= j < |keys| && keys[j] == top[k].key :: top[k].score == scores[j]
    ensures forall k, j | 0 <= k < |top| && 0 <= j < |keys| && keys[j] !in Keys(top) :: top[k].score >= scores[j]
  {
    var table := Zip(keys, scores);
    forall k | 0 <= k < |top| ensures exists j | 0 <= j < |keys| :: top[k] == table[j] {
      assert top[k] in multiset(table);
    }
    forall k, j | 0 <= k < |top| && 0 <= j < |keys| && keys[j] == top[k].key
      ensures top[k].score == scores[j]
    {
      var j' :| 0 <= j' < |keys| && top[k] == table[j'];
      assert keys[j'] == keys[j];
    }
    forall k, j | 0 <= k < |top| && 0 <= j < |keys| && keys[j] !in Keys(top)
      ensures top[k].score >= scores[j]
    {
      assert table[j] in table;
      assert forall l | 0 <= l < |top| :: Keys(top)[l] == top[l].key;
      assert top[k] in top;
    }
  }
}
