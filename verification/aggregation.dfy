/**
  Frequency tables over one column, as pandas computes them: `value_counts()`
  (NaN excluded), the `> 10` filter on a counts series, `reindex` onto a fixed
  key order (missing keys become NaN), and `idxmax()` (the key of a largest
  count; it raises on an empty series).
 */
module Aggregation {
  import opened Wrappers

  /** The distinct non-null keys of a column, in the order they first occur. */
  function FirstSeen<K(==,!new)>(xs: seq<Option<K>>): (ks: seq<K>)
    ensures forall k :: k in ks <==> Some(k) in xs
    ensures forall i, j :: 0 <= i < j < |ks| ==> ks[i] != ks[j]
  {
    if |xs| == 0 then []
    else
      var front := xs[..|xs| - 1];
      var ks := FirstSeen(front);
      assert xs == front + [xs[|xs| - 1]];
      match xs[|xs| - 1]
      case Some(k) => if k in ks then ks else ks + [k]
      case None => ks
  }

  /** `value_counts()`: each non-null key with the number of rows that hold it. */
  function ValueCounts<K(==,!new)>(xs: seq<Option<K>>): (m: map<K, nat>)
    ensures forall k :: k in m <==> Some(k) in xs
    ensures forall k :: k in m ==> m[k] == multiset(xs)[Some(k)] && m[k] > 0
  {
    if |xs| == 0 then map[]
    else
      var front := xs[..|xs| - 1];
      var m := ValueCounts(front);
      assert xs == front + [xs[|xs| - 1]];
      match xs[|xs| - 1]
      case Some(k) => m[k := if k in m then m[k] + 1 else 1]
      case None => m
  }

  /** The sum of the counts of the keys ks. */
  function Total<K(==,!new)>(m: map<K, nat>, ks: seq<K>): nat
    requires forall i :: 0 <= i < |ks| ==> ks[i] in m
  {
    if |ks| == 0 then 0 else Total(m, ks[..|ks| - 1]) + m[ks[|ks| - 1]]
  }

  /** Changing the count of a key outside ks does not change their total. */
  lemma {:induction false} TotalIgnoresOtherKeys<K(!new)>(m: map<K, nat>, ks: seq<K>, k: K, v: nat)
    requires forall i :: 0 <= i < |ks| ==> ks[i] in m
    requires k !in ks
    ensures Total(m[k := v], ks) == Total(m, ks)
    decreases |ks|
  {
    if |ks| > 0 {
      var front := ks[..|ks| - 1];
      assert forall x :: x in front ==> x in ks;
      TotalIgnoresOtherKeys(m, front, k, v);
    }
  }

  /** Adding one to the count of a key that occurs once in ks adds one to their total. */
  lemma {:induction false} TotalOfIncrement<K(!new)>(m: map<K, nat>, ks: seq<K>, k: K)
    requires forall i :: 0 <= i < |ks| ==> ks[i] in m
    requires forall i, j :: 0 <= i < j < |ks| ==> ks[i] != ks[j]
    requires k in ks
    ensures Total(m[k := m[k] + 1], ks) == Total(m, ks) + 1
    decreases |ks|
  {
    var front := ks[..|ks| - 1];
    if ks[|ks| - 1] == k {
      assert k !in front;
      TotalIgnoresOtherKeys(m, front, k, m[k] + 1);
    } else {
      assert k in front by {
        var i :| 0 <= i < |ks| && ks[i] == k;
        assert front[i] == k;
      }
      TotalOfIncrement(m, front, k);
    }
  }

  /** Appending one cell adds one to its own count and nothing to any other. */
  lemma CountAfterAppend<T>(xs: seq<T>, x: T, y: T)
    ensures multiset(xs + [x])[y] == multiset(xs)[y] + (if y == x then 1 else 0)
  {
    assert multiset(xs + [x]) == multiset(xs) + multiset{x};
  }

  /** How the distinct keys and the counts change when a non-null cell is appended. */
  lemma CountsOfAppend<K(!new)>(front: seq<Option<K>>, k: K)
    ensures var m, ks := ValueCounts(front), FirstSeen(front);
      && ValueCounts(front + [Some(k)]) == m[k := if k in m then m[k] + 1 else 1]
      && FirstSeen(front + [Some(k)]) == if k in ks then ks else ks + [k]
  {
    assert (front + [Some(k)])[..|front|] == front;
  }

  /** Appending a null cell changes neither the distinct keys nor the counts. */
  lemma CountsOfAppendNull<K(!new)>(front: seq<Option<K>>)
    ensures ValueCounts(front + [None]) == ValueCounts(front)
    ensures FirstSeen(front + [None]) == FirstSeen(front)
  {
    assert (front + [None])[..|front|] == front;
  }

  /** Appending a non-null key adds one to the total of the counts. */
  lemma TotalOfAppend<K(!new)>(front: seq<Option<K>>, k: K)
    ensures Total(ValueCounts(front + [Some(k)]), FirstSeen(front + [Some(k)])) ==
      Total(ValueCounts(front), FirstSeen(front)) + 1
  {
    var m, ks := ValueCounts(front), FirstSeen(front);
    CountsOfAppend(front, k);
    assert forall i :: 0 <= i < |ks| ==> ks[i] in m by {
      forall i | 0 <= i < |ks| ensures ks[i] in m {
        assert ks[i] in ks;
      }
    }
    if k in ks {
      assert k in m;
      TotalOfIncrement(m, ks, k);
    } else {
      TotalIgnoresOtherKeys(m, ks, k, 1);
      assert (ks + [k])[..|ks|] == ks;
    }
  }

  /** Appending any cell adds one to the non-null total or to the null count. */
  lemma CountsStep<K(!new)>(front: seq<Option<K>>, x: Option<K>)
    ensures Total(ValueCounts(front + [x]), FirstSeen(front + [x])) + multiset(front + [x])[None] ==
      Total(ValueCounts(front), FirstSeen(front)) + multiset(front)[None] + 1
  {
    CountAfterAppend(front, x, None);
    match x
    case None => CountsOfAppendNull(front);
    case Some(k) => TotalOfAppend(front, k);
  }

  /**
    Counting conserves rows: the counts of the distinct keys add up to the
    number of non-null cells, and with the null cells to the number of rows.
   */
  lemma {:induction false} CountsAddUpToRows<K(!new)>(xs: seq<Option<K>>)
    ensures Total(ValueCounts(xs), FirstSeen(xs)) + multiset(xs)[None] == |xs|
    decreases |xs|
  {
    if |xs| > 0 {
      var front, x := xs[..|xs| - 1], xs[|xs| - 1];
      CountsAddUpToRows(front);
      assert xs == front + [x];
      CountsStep(front, x);
    }
  }

  /** Only types with more than this many occurrences are drawn in the type chart. */
  const SignificanceThreshold := 10

  /** `counts[counts > 10]`: the keys that occur more than ten times, with their counts. */
  function Significant<K(==,!new)>(xs: seq<Option<K>>): (r: map<K, nat>)
    ensures forall k :: k in r <==> multiset(xs)[Some(k)] > SignificanceThreshold
    ensures forall k :: k in r ==> r[k] == multiset(xs)[Some(k)]
  {
    var counts := ValueCounts(xs);
    map k | k in counts && counts[k] > SignificanceThreshold :: counts[k]
  }

  /**
    `value_counts().reindex(order)`: one entry per key of `order`, in that
    order; a key that never occurs gets NaN (None), not zero.
   */
  function Reindex<K(==,!new)>(xs: seq<Option<K>>, order: seq<K>): (t: seq<Option<nat>>)
    ensures |t| == |order|
    ensures forall i :: 0 <= i < |order| ==> (t[i].Some? <==> Some(order[i]) in xs)
    ensures forall i :: 0 <= i < |order| && t[i].Some? ==> t[i].value == multiset(xs)[Some(order[i])]
  {
    var counts := ValueCounts(xs);
    seq(|order|, i requires 0 <= i < |order| => if order[i] in counts then Some(counts[order[i]]) else None)
  }

  /** A key of ks with the largest count (the first such, in the order of ks). */
  function PeakAmong<K(==,!new)>(m: map<K, nat>, ks: seq<K>): (r: Option<K>)
    requires forall i :: 0 <= i < |ks| ==> ks[i] in m
    ensures r.None? <==> |ks| == 0
    ensures r.Some? ==> r.value in ks && forall i :: 0 <= i < |ks| ==> m[ks[i]] <= m[r.value]
  {
    if |ks| == 0 then None
    else
      var best := PeakAmong(m, ks[..|ks| - 1]);
      var k := ks[|ks| - 1];
      if best.None? || m[k] > m[best.value] then Some(k) else best
  }

  /**
    `value_counts().idxmax()`: a most frequent non-null key. None stands for
    the ValueError idxmax raises when every cell is null.
   */
  function Peak<K(==,!new)>(xs: seq<Option<K>>): (r: Option<K>)
    ensures r.None? <==> forall i :: 0 <= i < |xs| ==> xs[i].None?
    ensures r.Some? ==> Some(r.value) in xs
    ensures r.Some? ==> forall k :: multiset(xs)[Some(k)] <= multiset(xs)[Some(r.value)]
  {
    var counts := ValueCounts(xs);
    var ks := FirstSeen(xs);
    var r := PeakAmong(counts, ks);
    assert r.Some? ==> forall k :: multiset(xs)[Some(k)] <= multiset(xs)[Some(r.value)] by {
      if r.Some? {
        forall k ensures multiset(xs)[Some(k)] <= multiset(xs)[Some(r.value)] {
          if Some(k) in xs {
            var i :| 0 <= i < |ks| && ks[i] == k;
          }
        }
      }
    }
    r
  }

}
