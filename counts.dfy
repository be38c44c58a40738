/**
 * pandas `Series.value_counts()` on a categorical column and `.head(n)` of
 * its result: one entry per distinct present value with the number of rows
 * holding it, most frequent first.  Values are tallied in order of first
 * appearance and then sorted stably by count, so ties keep that order.
 */
module Counts {

  /** One bar of a count chart: a category and how many rows hold it. */
  datatype Entry = Entry(key: string, count: nat)

  /** Sum of the counts. */
  function Total(r: seq<Entry>): nat
  {
    if r == [] then 0 else r[0].count + Total(r[1..])
  }

  /** The categories the entries name, in list order. */
  function Keys(r: seq<Entry>): (k: seq<string>)
    ensures |k| == |r| && forall i :: 0 <= i < |r| ==> k[i] == r[i].key
  {
    if r == [] then [] else [r[0].key] + Keys(r[1..])
  }

  /** No category is listed twice. */
  predicate DistinctKeys(r: seq<Entry>)
  {
    forall i, j :: 0 <= i < j < |r| ==> r[i].key != r[j].key
  }

  /** Every entry's count is the number of occurrences of its key in `xs`. */
  predicate Accurate(r: seq<Entry>, xs: seq<string>)
  {
    forall e :: e in r ==> e.count == multiset(xs)[e.key] && e.count > 0
  }

  /** Counts never increase along the list. */
  predicate NonIncreasing(r: seq<Entry>)
  {
    forall i, j :: 0 <= i < j < |r| ==> r[i].count >= r[j].count
  }

  /** Adding an entry in front keeps keys distinct exactly when its key is new. */
  lemma ConsDistinct(x: Entry, r: seq<Entry>)
    ensures DistinctKeys([x] + r) <==> x.key !in Keys(r) && DistinctKeys(r)
  {
    if x.key !in Keys(r) && DistinctKeys(r) {
      ConsDistinctNew(x, r);
    }
    if DistinctKeys([x] + r) {
      ConsDistinctParts(x, r);
    }
  }

  lemma ConsDistinctNew(x: Entry, r: seq<Entry>)
    requires x.key !in Keys(r) && DistinctKeys(r)
    ensures DistinctKeys([x] + r)
  {
    var c := [x] + r;
    forall i, j | 0 <= i < j < |c|
      ensures c[i].key != c[j].key
    {
      assert c[j] == r[j - 1];
      if i > 0 {
        assert c[i] == r[i - 1];
      } else {
        assert Keys(r)[j - 1] == c[j].key;
      }
    }
  }

  lemma ConsDistinctParts(x: Entry, r: seq<Entry>)
    requires DistinctKeys([x] + r)
    ensures x.key !in Keys(r) && DistinctKeys(r)
  {
    var c := [x] + r;
    assert forall i :: 0 <= i < |r| ==> c[i + 1] == r[i];
    forall k | 0 <= k < |r|
      ensures Keys(r)[k] != x.key
    {
      assert c[0].key != c[k + 1].key;
    }
  }

  // ---------------------------------------------------------------------
  // Tallying, in order of first appearance
  // ---------------------------------------------------------------------

  /** Counts one more occurrence of `v`: its entry goes up by one, or a new entry is appended. */
  function Bump(r: seq<Entry>, v: string): seq<Entry>
  {
    if r == [] then [Entry(v, 1)]
    else if r[0].key == v then [Entry(v, r[0].count + 1)] + r[1..]
    else [r[0]] + Bump(r[1..], v)
  }

  /** The count recorded for `v`: that of the first entry with key `v`, or 0. */
  function Lookup(r: seq<Entry>, v: string): nat
  {
    if r == [] then 0 else if r[0].key == v then r[0].count else Lookup(r[1..], v)
  }

  /**
   * Bumping adds one to the count of `v` and to the total, leaves every
   * other count alone, and appends `v` to the keys if it was new.
   */
  lemma BumpSpec(r: seq<Entry>, v: string)
    ensures Keys(Bump(r, v)) == if v in Keys(r) then Keys(r) else Keys(r) + [v]
    ensures forall w :: Lookup(Bump(r, v), w) == Lookup(r, w) + (if w == v then 1 else 0)
    ensures Total(Bump(r, v)) == Total(r) + 1
    ensures (forall e :: e in r ==> e.count > 0) ==> forall e :: e in Bump(r, v) ==> e.count > 0
  {
    BumpKeys(r, v);
    forall w {
      BumpLookup(r, v, w);
    }
    BumpTotal(r, v);
    BumpPositive(r, v);
  }

  lemma {:induction false} BumpKeys(r: seq<Entry>, v: string)
    ensures Keys(Bump(r, v)) == if v in Keys(r) then Keys(r) else Keys(r) + [v]
  {
    if r != [] {
      assert Keys(r) == [r[0].key] + Keys(r[1..]);
      if r[0].key != v {
        BumpKeys(r[1..], v);
        assert Keys(Bump(r, v)) == [r[0].key] + Keys(Bump(r[1..], v));
      } else {
        assert Keys(Bump(r, v)) == [v] + Keys(r[1..]);
      }
    }
  }

  lemma {:induction false} BumpLookup(r: seq<Entry>, v: string, w: string)
    ensures Lookup(Bump(r, v), w) == Lookup(r, w) + (if w == v then 1 else 0)
  {
    if r != [] && r[0].key != v {
      BumpLookup(r[1..], v, w);
    }
  }

  lemma {:induction false} BumpTotal(r: seq<Entry>, v: string)
    ensures Total(Bump(r, v)) == Total(r) + 1
  {
    if r != [] {
      if r[0].key != v {
        BumpTotal(r[1..], v);
        assert Bump(r, v)[1..] == Bump(r[1..], v);
      } else {
        assert Bump(r, v)[1..] == r[1..];
      }
    }
  }

  lemma {:induction false} BumpPositive(r: seq<Entry>, v: string)
    ensures (forall e :: e in r ==> e.count > 0) ==> forall e :: e in Bump(r, v) ==> e.count > 0
  {
    if r != [] && forall e :: e in r ==> e.count > 0 {
      assert r[0] in r;
      assert forall e :: e in r[1..] ==> e in r;
      if r[0].key != v {
        BumpPositive(r[1..], v);
        assert Bump(r, v) == [r[0]] + Bump(r[1..], v);
      } else {
        assert Bump(r, v) == [Entry(v, r[0].count + 1)] + r[1..];
      }
    }
  }

  /** Keys that are distinct stay distinct when one of them, or a new one, is counted. */
  lemma BumpDistinct(r: seq<Entry>, v: string)
    requires DistinctKeys(r)
    ensures DistinctKeys(Bump(r, v))
  {
    BumpSpec(r, v);
    var b := Bump(r, v);
    forall i, j | 0 <= i < j < |b|
      ensures b[i].key != b[j].key
    {
      assert Keys(b)[i] == b[i].key && Keys(b)[j] == b[j].key;
      if j < |r| {
        assert Keys(r)[i] == r[i].key && Keys(r)[j] == r[j].key;
      } else {
        assert Keys(r)[i] == r[i].key;
      }
    }
  }

  /** With distinct keys, the count recorded for an entry's key is that entry's count. */
  lemma {:induction false} LookupFinds(r: seq<Entry>, e: Entry)
    requires DistinctKeys(r) && e in r
    ensures Lookup(r, e.key) == e.count
  {
    ConsDistinct(r[0], r[1..]);
    assert r == [r[0]] + r[1..];
    if r[0] != e {
      assert e in r[1..];
      var k :| 0 <= k < |r[1..]| && r[1..][k] == e;
      assert Keys(r[1..])[k] == e.key;
      LookupFinds(r[1..], e);
    }
  }

  /** The tally of `xs`, entries in order of first appearance. */
  function Tally(xs: seq<string>): seq<Entry>
  {
    if xs == [] then [] else Bump(Tally(xs[..|xs| - 1]), xs[|xs| - 1])
  }

  /**
   * The tally lists each distinct value of `xs` exactly once, with the
   * number of times it occurs, and its counts add up to the length of `xs`.
   */
  lemma {:induction false} TallySpec(xs: seq<string>)
    ensures DistinctKeys(Tally(xs))
    ensures forall v :: Lookup(Tally(xs), v) == multiset(xs)[v]
    ensures forall e :: e in Tally(xs) ==> e.count > 0
    ensures forall v :: v in Keys(Tally(xs)) <==> v in xs
    ensures Total(Tally(xs)) == |xs|
  {
    if xs != [] {
      var init, v := xs[..|xs| - 1], xs[|xs| - 1];
      assert xs == init + [v];
      TallySpec(init);
      BumpSpec(Tally(init), v);
      BumpDistinct(Tally(init), v);
    }
  }

  /** Every entry of the tally carries its key's number of occurrences. */
  lemma TallyAccurate(xs: seq<string>)
    ensures Accurate(Tally(xs), xs)
  {
    TallySpec(xs);
    forall e | e in Tally(xs)
      ensures e.count == multiset(xs)[e.key]
    {
      LookupFinds(Tally(xs), e);
    }
  }

  // ---------------------------------------------------------------------
  // Stable sort by descending count
  // ---------------------------------------------------------------------

  /** Puts `e` before the first entry whose count is not above its own. */
  function InsertByCount(e: Entry, s: seq<Entry>): (r: seq<Entry>)
    ensures multiset(r) == multiset(s) + multiset{e}
    ensures Total(r) == Total(s) + e.count
  {
    if s == [] || e.count >= s[0].count then
      assert ([e] + s)[1..] == s;
      [e] + s
    else
      var rest := InsertByCount(e, s[1..]);
      assert s == [s[0]] + s[1..];
      assert ([s[0]] + rest)[1..] == rest;
      [s[0]] + rest
  }

  /** Inserting into a list sorted by descending count keeps it sorted. */
  lemma {:induction false} InsertSorted(e: Entry, s: seq<Entry>)
    requires NonIncreasing(s)
    ensures NonIncreasing(InsertByCount(e, s))
  {
    if s == [] || e.count >= s[0].count {
      ConsNonIncreasing(e, s);
    } else {
      ConsNonIncreasing(s[0], s[1..]);
      assert s == [s[0]] + s[1..];
      InsertSorted(e, s[1..]);
      var rest := InsertByCount(e, s[1..]);
      assert forall x :: x in rest ==> x in multiset(rest);
      ConsNonIncreasing(s[0], rest);
    }
  }

  /**
   * A list led by `x` is sorted exactly when its tail is and `x` counts at
   * least as much as each entry of the tail.
   */
  lemma ConsNonIncreasing(x: Entry, r: seq<Entry>)
    ensures NonIncreasing([x] + r) <==> NonIncreasing(r) && forall y :: y in r ==> x.count >= y.count
  {
    var c := [x] + r;
    assert forall i :: 0 <= i < |r| ==> c[i + 1] == r[i];
    if NonIncreasing(c) {
      forall y | y in r
        ensures x.count >= y.count
      {
        var i :| 0 <= i < |r| && r[i] == y;
        assert c[0].count >= c[i + 1].count;
      }
    }
    if NonIncreasing(r) && forall y :: y in r ==> x.count >= y.count {
      forall i, j | 0 <= i < j < |c|
        ensures c[i].count >= c[j].count
      {
        assert c[j] == r[j - 1];
        if i > 0 {
          assert c[i] == r[i - 1];
        } else {
          assert r[j - 1] in r;
        }
      }
    }
  }

  /** Insertion sort, most frequent first; equal counts keep their order. */
  function SortByCount(s: seq<Entry>): (r: seq<Entry>)
    ensures NonIncreasing(r)
    ensures multiset(r) == multiset(s)
    ensures Total(r) == Total(s)
  {
    if s == [] then []
    else
      assert s == [s[0]] + s[1..];
      InsertSorted(s[0], SortByCount(s[1..]));
      InsertByCount(s[0], SortByCount(s[1..]))
  }

  /** Inserting an entry with a new key keeps keys distinct and adds that key. */
  lemma {:induction false} InsertKeys(e: Entry, s: seq<Entry>)
    requires DistinctKeys(s) && e.key !in Keys(s)
    ensures DistinctKeys(InsertByCount(e, s))
    ensures forall w :: w in Keys(InsertByCount(e, s)) <==> w == e.key || w in Keys(s)
  {
    ConsDistinct(e, s);
    if s != [] && e.count < s[0].count {
      ConsDistinct(s[0], s[1..]);
      assert Keys(s) == [s[0].key] + Keys(s[1..]);
      InsertKeys(e, s[1..]);
      ConsDistinct(s[0], InsertByCount(e, s[1..]));
    }
  }

  /** Sorting keeps keys distinct and keeps the same keys. */
  lemma {:induction false} SortKeys(s: seq<Entry>)
    requires DistinctKeys(s)
    ensures DistinctKeys(SortByCount(s))
    ensures forall w :: w in Keys(SortByCount(s)) <==> w in Keys(s)
  {
    if s != [] {
      ConsDistinct(s[0], s[1..]);
      assert s == [s[0]] + s[1..];
      assert Keys(s) == [s[0].key] + Keys(s[1..]);
      SortKeys(s[1..]);
      InsertKeys(s[0], SortByCount(s[1..]));
    }
  }

  // ---------------------------------------------------------------------
  // value_counts and head
  // ---------------------------------------------------------------------

  /** `pd.Series(xs).value_counts()` over the present values `xs`. */
  function ValueCounts(xs: seq<string>): seq<Entry>
  {
    SortByCount(Tally(xs))
  }

  /**
   * value_counts lists each distinct value once with its number of
   * occurrences, most frequent first, and the counts add up to `|xs|`.
   */
  lemma ValueCountsSpec(xs: seq<string>)
    ensures NonIncreasing(ValueCounts(xs))
    ensures DistinctKeys(ValueCounts(xs))
    ensures Accurate(ValueCounts(xs), xs)
    ensures forall v :: v in Keys(ValueCounts(xs)) <==> v in xs
    ensures Total(ValueCounts(xs)) == |xs|
  {
    TallySpec(xs);
    TallyAccurate(xs);
    SortKeys(Tally(xs));
    var r := ValueCounts(xs);
    assert forall e :: e in r ==> e in multiset(Tally(xs));
  }

  /** `.head(n)`: the first `n` entries, or all of them when there are fewer. */
  function Head(r: seq<Entry>, n: nat): (h: seq<Entry>)
    ensures |h| <= n && |h| <= |r|
    ensures |h| == n || h == r
    ensures h == r[..|h|]
  {
    if |r| <= n then r else r[..n]
  }

  /**
   * The head of a sorted count list is itself sorted, and no entry left
   * out of it counts more than any entry in it.
   */
  lemma HeadIsTop(r: seq<Entry>, n: nat)
    requires NonIncreasing(r)
    ensures NonIncreasing(Head(r, n))
    ensures forall i, j :: 0 <= i < |Head(r, n)| <= j < |r| ==> Head(r, n)[i].count >= r[j].count
  {
  }

  /**
   * The first `n` entries of value_counts: sorted, each value once with its
   * number of occurrences, and no value left out occurs more often than a
   * listed one.
   */
  lemma HeadOfValueCounts(xs: seq<string>, n: nat)
    ensures |Head(ValueCounts(xs), n)| <= n
    ensures NonIncreasing(Head(ValueCounts(xs), n)) && DistinctKeys(Head(ValueCounts(xs), n))
    ensures Accurate(Head(ValueCounts(xs), n), xs)
    ensures forall i, v :: 0 <= i < |Head(ValueCounts(xs), n)| && v !in Keys(Head(ValueCounts(xs), n)) ==>
      multiset(xs)[v] <= Head(ValueCounts(xs), n)[i].count
    ensures |Head(ValueCounts(xs), n)| == n || forall v :: v in xs ==> v in Keys(Head(ValueCounts(xs), n))
  {
    ValueCountsSpec(xs);
    HeadKeepsTop(ValueCounts(xs), xs, n);
  }

  /** The head of a sorted, accurate tally keeps those properties and the largest counts. */
  lemma HeadKeepsTop(all: seq<Entry>, xs: seq<string>, n: nat)
    requires NonIncreasing(all) && DistinctKeys(all) && Accurate(all, xs)
    requires forall v :: v in Keys(all) <==> v in xs
    ensures NonIncreasing(Head(all, n)) && DistinctKeys(Head(all, n))
    ensures Accurate(Head(all, n), xs)
    ensures forall i, v :: 0 <= i < |Head(all, n)| && v !in Keys(Head(all, n)) ==>
      multiset(xs)[v] <= Head(all, n)[i].count
  {
    HeadIsTop(all, n);
    assert forall e :: e in Head(all, n) ==> e in all;
    forall i, v | 0 <= i < |Head(all, n)| && v !in Keys(Head(all, n))
      ensures multiset(xs)[v] <= Head(all, n)[i].count
    {
      LeftOutCountsLess(all, xs, n, i, v);
    }
  }

  /** A value missing from the head of a sorted, accurate tally occurs no more often than a listed one. */
  lemma LeftOutCountsLess(all: seq<Entry>, xs: seq<string>, n: nat, i: nat, v: string)
    requires NonIncreasing(all) && Accurate(all, xs)
    requires forall v :: v in Keys(all) <==> v in xs
    requires i < |Head(all, n)| && v !in Keys(Head(all, n))
    ensures multiset(xs)[v] <= Head(all, n)[i].count
  {
    var top := Head(all, n);
    if v in xs {
      var j :| 0 <= j < |all| && Keys(all)[j] == v;
      assert forall k :: 0 <= k < |top| ==> Keys(top)[k] == all[k].key;
      assert j >= |top|;
      assert all[j] in all;
      assert all[j].count == multiset(xs)[v];
      assert top[i] == all[i];
    }
  }
}
