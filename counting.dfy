/**
  The `collections.Counter` that create_year_heatmap builds over the dates of one year, and
  the reads it makes of it: `get(date, 0)`, `sum(values())` and `max(keys, key=get)`. Like
  every Python dict, a Counter iterates its keys in the order they were first inserted;
  `keys` records that order and `counts` the mapping itself.
*/
module Counting {

  datatype Counter<K> = Counter(keys: seq<K>, counts: map<K, nat>)

  ghost predicate Distinct<K>(s: seq<K>) {
    forall i, j :: 0 <= i < j < |s| ==> s[i] != s[j]
  }

  /** Index of the first occurrence of d in s. */
  ghost function FirstIndex<K>(s: seq<K>, d: K): (r: nat)
    requires d in s
    ensures r < |s| && s[r] == d && d !in s[..r]
  {
    if s[0] == d then 0
    else
      assert s[1..][..FirstIndex(s[1..], d)] == s[..FirstIndex(s[1..], d) + 1][1..];
      FirstIndex(s[1..], d) + 1
  }

  /** The first occurrence of d in s stays first when elements are appended. */
  lemma FirstIndexAppend<K>(s: seq<K>, x: K, d: K)
    requires d in s
    ensures FirstIndex(s + [x], d) == FirstIndex(s, d)
  {
    var r, r' := FirstIndex(s, d), FirstIndex(s + [x], d);
    assert (s + [x])[..r'] == s[..r'] || r' == |s|;
  }

  /** Appending an element that already occurred leaves the distinct elements as they were. */
  lemma AppendSeenElement<K>(init: seq<K>, x: K, r0: seq<K>)
    requires x in init
    requires forall i :: 0 <= i < |r0| ==> r0[i] in init
    requires forall i :: 0 <= i < |init| ==> init[i] in r0
    requires forall i, j :: 0 <= i < j < |r0| ==> FirstIndex(init, r0[i]) < FirstIndex(init, r0[j])
    ensures var s := init + [x];
      && (forall i :: 0 <= i < |r0| ==> r0[i] in s)
      && (forall i :: 0 <= i < |s| ==> s[i] in r0)
      && (forall i, j :: 0 <= i < j < |r0| ==> FirstIndex(s, r0[i]) < FirstIndex(s, r0[j]))
  {
    var s := init + [x];
    forall i, j | 0 <= i < j < |r0| ensures FirstIndex(s, r0[i]) < FirstIndex(s, r0[j]) {
      FirstIndexAppend(init, x, r0[i]);
      FirstIndexAppend(init, x, r0[j]);
    }
    forall i | 0 <= i < |s| ensures s[i] in r0 {
      if i < |init| {
        assert s[i] == init[i];
      } else {
        assert init[FirstIndex(init, x)] == x;
      }
    }
  }

  /** Appending a new element adds it after the distinct elements seen so far. */
  lemma AppendNewElement<K>(init: seq<K>, x: K, r0: seq<K>)
    requires x !in init
    requires Distinct(r0)
    requires forall i :: 0 <= i < |r0| ==> r0[i] in init
    requires forall i :: 0 <= i < |init| ==> init[i] in r0
    requires forall i, j :: 0 <= i < j < |r0| ==> FirstIndex(init, r0[i]) < FirstIndex(init, r0[j])
    ensures var s, r := init + [x], r0 + [x];
      && Distinct(r)
      && (forall i :: 0 <= i < |r| ==> r[i] in s)
      && (forall i :: 0 <= i < |s| ==> s[i] in r)
      && (forall i, j :: 0 <= i < j < |r| ==> FirstIndex(s, r[i]) < FirstIndex(s, r[j]))
  {
    var s, r := init + [x], r0 + [x];
    assert FirstIndex(s, x) == |init|;
    forall i, j | 0 <= i < j < |r| ensures FirstIndex(s, r[i]) < FirstIndex(s, r[j]) {
      FirstIndexAppend(init, x, r0[i]);
      if j < |r0| {
        FirstIndexAppend(init, x, r0[j]);
      }
    }
    forall i | 0 <= i < |s| ensures s[i] in r {
      if i < |init| {
        assert s[i] == init[i];
      }
    }
  }

  /** The distinct elements of s, in the order of their first occurrence. */
  ghost function FirstOccurrences<K>(s: seq<K>): (r: seq<K>)
    ensures Distinct(r)
    ensures forall i :: 0 <= i < |r| ==> r[i] in s
    ensures forall i :: 0 <= i < |s| ==> s[i] in r
    ensures forall i, j :: 0 <= i < j < |r| ==> FirstIndex(s, r[i]) < FirstIndex(s, r[j])
  {
    if s == [] then []
    else
      var init, x := s[..|s| - 1], s[|s| - 1];
      assert s == init + [x];
      var r0 := FirstOccurrences(init);
      if x in init then
        AppendSeenElement(init, x, r0);
        r0
      else
        AppendNewElement(init, x, r0);
        r0 + [x]
  }

  /** counter.get(d, 0) */
  function Get<K(==)>(counts: map<K, nat>, d: K): nat {
    if d in counts then counts[d] else 0
  }

  /** counter[x] += 1, which appends x to the key order when x is new. */
  function Increment<K(==)>(c: Counter<K>, x: K): Counter<K> {
    if x in c.counts then c.(counts := c.counts[x := c.counts[x] + 1])
    else Counter(c.keys + [x], c.counts[x := 1])
  }

  /** Counter(s): one increment per element of s, in order. */
  function CounterOf<K(==)>(s: seq<K>): Counter<K> {
    if s == [] then Counter([], map[])
    else Increment(CounterOf(s[..|s| - 1]), s[|s| - 1])
  }

  /** An increment adds one to the count of x and leaves every other count alone. */
  lemma GetIncrement<K>(c: Counter<K>, x: K, d: K)
    ensures Get(Increment(c, x).counts, d) == Get(c.counts, d) + (if d == x then 1 else 0)
  {
  }

  /**
    Counter(s) holds exactly the distinct elements of s, in first-occurrence order, and maps
    each of them to its number of occurrences; an element that does not occur reads as 0.
  */
  lemma {:induction false} CounterCountsOccurrences<K>(s: seq<K>)
    ensures CounterOf(s).keys == FirstOccurrences(s)
    ensures forall d :: d in CounterOf(s).counts <==> d in s
    ensures forall d :: Get(CounterOf(s).counts, d) == multiset(s)[d]
  {
    if s != [] {
      var init, x := s[..|s| - 1], s[|s| - 1];
      assert s == init + [x];
      CounterCountsOccurrences(init);
      assert multiset(s) == multiset(init) + multiset{x};
      forall d ensures Get(CounterOf(s).counts, d) == multiset(s)[d] {
        GetIncrement(CounterOf(init), x, d);
      }
    }
  }

  /** Counter(s), built the way collections.Counter builds it: one update per element. */
  method CountOccurrences<K(==)>(s: seq<K>) returns (c: Counter<K>)
    ensures c == CounterOf(s)
  {
    c := Counter([], map[]);
    for i := 0 to |s|
      invariant c == CounterOf(s[..i])
    {
      var d := s[i];
      assert s[..i + 1][..i] == s[..i];
      if d in c.counts {
        c := c.(counts := c.counts[d := c.counts[d] + 1]);
      } else {
        c := Counter(c.keys + [d], c.counts[d := 1]);
      }
    }
    assert s[..|s|] == s;
  }

  /** sum(counts.get(k, 0) for k in keys) */
  function SumOver<K(==)>(keys: seq<K>, counts: map<K, nat>): nat {
    if keys == [] then 0
    else SumOver(keys[..|keys| - 1], counts) + Get(counts, keys[|keys| - 1])
  }

  /** sum(counter.values()): the counts, summed in key order. */
  function Total<K(==)>(c: Counter<K>): nat {
    SumOver(c.keys, c.counts)
  }

  /** Adding one to the count of x adds one to a sum over distinct keys that holds x. */
  lemma {:induction false} SumOverIncrement<K>(keys: seq<K>, before: map<K, nat>, after: map<K, nat>, x: K)
    requires Distinct(keys)
    requires forall d :: Get(after, d) == Get(before, d) + (if d == x then 1 else 0)
    ensures SumOver(keys, after) == SumOver(keys, before) + (if x in keys then 1 else 0)
  {
    if keys != [] {
      var init := keys[..|keys| - 1];
      assert x in keys <==> x in init || x == keys[|keys| - 1];
      SumOverIncrement(init, before, after, x);
    }
  }

  /** Summing an empty counter gives 0. */
  lemma {:induction false} SumOverEmpty<K>(keys: seq<K>)
    ensures SumOver(keys, map[]) == 0
  {
    if keys != [] {
      SumOverEmpty(keys[..|keys| - 1]);
    }
  }

  /**
    Summing the counts of Counter(s) over a duplicate-free list of keys that includes every
    element of s gives the length of s.
  */
  lemma {:induction false} SumOverCounterOf<K>(keys: seq<K>, s: seq<K>)
    requires Distinct(keys)
    requires forall i :: 0 <= i < |s| ==> s[i] in keys
    ensures SumOver(keys, CounterOf(s).counts) == |s|
  {
    if s == [] {
      SumOverEmpty(keys);
    } else {
      var init, x := s[..|s| - 1], s[|s| - 1];
      SumOverCounterOf(keys, init);
      forall d ensures Get(CounterOf(s).counts, d) == Get(CounterOf(init).counts, d) + (if d == x then 1 else 0) {
        GetIncrement(CounterOf(init), x, d);
      }
      SumOverIncrement(keys, CounterOf(init).counts, CounterOf(s).counts, x);
    }
  }

  /** sum(Counter(s).values()) is the number of elements counted. */
  lemma TotalCountsEveryElement<K>(s: seq<K>)
    ensures Total(CounterOf(s)) == |s|
  {
    CounterCountsOccurrences(s);
    SumOverCounterOf(FirstOccurrences(s), s);
  }

  /**
    max(keys, key=counts.get): the index of a key whose count is at least every other
    count, and the first such key in key order (Python's max keeps the first of equal maxima).
  */
  function ArgMax<K(==)>(keys: seq<K>, counts: map<K, nat>): (k: nat)
    requires keys != []
    ensures k < |keys|
    ensures forall j :: 0 <= j < |keys| ==> Get(counts, keys[j]) <= Get(counts, keys[k])
    ensures forall j :: 0 <= j < k ==> Get(counts, keys[j]) < Get(counts, keys[k])
  {
    if |keys| == 1 then 0
    else
      var k := ArgMax(keys[..|keys| - 1], counts);
      if Get(counts, keys[|keys| - 1]) > Get(counts, keys[k]) then |keys| - 1 else k
  }

  /**
    (max_count_date, max_count): the key with the largest count and that count, or the
    fallback with 0 when the counter is empty.
  */
  function MostActive<K(==)>(c: Counter<K>, fallback: K): (K, nat) {
    if c.keys != [] then
      var d := c.keys[ArgMax(c.keys, c.counts)];
      (d, Get(c.counts, d))
    else (fallback, 0)
  }

  /** Where d stands in a list that holds it. */
  lemma IndexOf<K>(keys: seq<K>, d: K) returns (j: nat)
    requires d in keys
    ensures j < |keys| && keys[j] == d
  {
    j := FirstIndex(keys, d);
  }

  /**
    For the counter of a nonempty s, the most active key occurs in s, its count is its
    number of occurrences, and nothing occurs more often.
  */
  lemma MostActiveIsMaximum<K>(s: seq<K>, fallback: K)
    requires s != []
    ensures var (d, n) := MostActive(CounterOf(s), fallback);
      && d in s
      && n == multiset(s)[d] >= 1
      && (forall e :: multiset(s)[e] <= n)
  {
    var c := CounterOf(s);
    CounterCountsOccurrences(s);
    assert s[0] in c.keys;
    var d := c.keys[ArgMax(c.keys, c.counts)];
    forall e | e in s ensures multiset(s)[e] <= Get(c.counts, d) {
      var j := IndexOf(c.keys, e);
    }
  }

  /**
    In the keys of Counter(s), a key whose count beats every earlier key's first occurs in s
    no later than any other key with the same count.
  */
  lemma EarliestAmongTied<K>(s: seq<K>, counts: map<K, nat>, k: nat, e: K)
    requires k < |FirstOccurrences(s)|
    requires forall j :: 0 <= j < k ==>
               Get(counts, FirstOccurrences(s)[j]) < Get(counts, FirstOccurrences(s)[k])
    requires e in FirstOccurrences(s) && Get(counts, e) == Get(counts, FirstOccurrences(s)[k])
    ensures FirstOccurrences(s)[k] in s && e in s
    ensures FirstIndex(s, FirstOccurrences(s)[k]) <= FirstIndex(s, e)
  {
    var keys := FirstOccurrences(s);
    var j := IndexOf(keys, e);
    if j != k {
      assert k < j;
    }
  }

  /**
    Among the elements that occur as often as the most active key, it is the one whose first
    occurrence comes first: ties go to the earliest key in insertion order.
  */
  lemma MostActiveIsFirstMaximum<K>(s: seq<K>, fallback: K)
    requires s != []
    ensures MostActive(CounterOf(s), fallback).0 in s
    ensures forall e :: e in s && multiset(s)[e] == MostActive(CounterOf(s), fallback).1 ==>
              FirstIndex(s, MostActive(CounterOf(s), fallback).0) <= FirstIndex(s, e)
  {
    var c := CounterOf(s);
    CounterCountsOccurrences(s);
    assert s[0] in c.keys;
    var k := ArgMax(c.keys, c.counts);
    var d := c.keys[k];
    forall e | e in s && multiset(s)[e] == Get(c.counts, d)
      ensures FirstIndex(s, d) <= FirstIndex(s, e)
    {
      var i := FirstIndex(s, e);
      assert s[i] in c.keys;
      EarliestAmongTied(s, c.counts, k, e);
    }
  }
}
