/**
 * The monthly and yearly reducers: one left-to-right pass that appends each
 * TVL value to the bucket of its key, remembering the first and last value
 * seen for that key.
 */
module Bucketing {

  /** One entry of `MonthlyAccumulator` / `YearlyAccumulator`. */
  datatype Accumulator = Accumulator(tvls: seq<real>, startTVL: real, endTVL: real)

  /**
   * The accumulator object of a reducer: its entries, and its keys in the
   * order they were first inserted.
   */
  datatype Grouping<K> = Grouping(order: seq<K>, buckets: map<K, Accumulator>)

  predicate Distinct<K(==)>(s: seq<K>) {
    forall i, j :: 0 <= i < j < |s| ==> s[i] != s[j]
  }

  /** A bucket holds at least one value and starts and ends with its first and last value. */
  predicate Coherent(b: Accumulator) {
    |b.tvls| > 0 && b.startTVL == b.tvls[0] && b.endTVL == b.tvls[|b.tvls| - 1]
  }

  /** The invariant of the accumulator: each key listed once, listed keys are the entries, entries coherent. */
  ghost predicate WellFormed<K(!new)>(g: Grouping<K>) {
    && Distinct(g.order)
    && (forall k :: k in g.buckets <==> k in g.order)
    && (forall k :: k in g.buckets ==> Coherent(g.buckets[k]))
  }

  /**
   * One step of the reducer: a new key gets a bucket starting and ending at
   * `tvl`; an existing key's bucket gets `tvl` appended and ends at `tvl`.
   * No other bucket changes.
   */
  function Record<K(==, !new)>(g: Grouping<K>, key: K, tvl: real): (r: Grouping<K>)
    ensures WellFormed(g) ==> WellFormed(r)
    ensures key in r.buckets
    ensures key in g.buckets ==> r.order == g.order
    ensures key !in g.buckets ==> r.order == g.order + [key]
    ensures key in g.buckets ==> r.buckets[key] == Accumulator(g.buckets[key].tvls + [tvl], g.buckets[key].startTVL, tvl)
    ensures key !in g.buckets ==> r.buckets[key] == Accumulator([tvl], tvl, tvl)
    ensures forall k :: k != key ==> (k in r.buckets <==> k in g.buckets)
    ensures forall k :: k != key && k in g.buckets ==> r.buckets[k] == g.buckets[k]
  {
    if key in g.buckets then
      var b := g.buckets[key];
      Grouping(g.order, g.buckets[key := Accumulator(b.tvls + [tvl], b.startTVL, tvl)])
    else
      Grouping(g.order + [key], g.buckets[key := Accumulator([tvl], tvl, tvl)])
  }

  /** `reduce` over the points: `keys[i]` is the key of the i-th value `tvls[i]`. */
  function GroupBy<K(==, !new)>(keys: seq<K>, tvls: seq<real>): (r: Grouping<K>)
    requires |keys| == |tvls|
    ensures WellFormed(r)
    ensures forall k :: k in r.buckets <==> k in keys
    decreases |keys|
  {
    if |keys| == 0 then Grouping([], map[])
    else
      var n := |keys| - 1;
      var g := GroupBy(keys[..n], tvls[..n]);
      assert keys == keys[..n] + [keys[n]];
      Record(g, keys[n], tvls[n])
  }

  /** Reference definition of a bucket: the values whose key is `k`, in scan order. */
  function Select<K(==, !new)>(keys: seq<K>, tvls: seq<real>, k: K): seq<real>
    requires |keys| == |tvls|
    decreases |keys|
  {
    if |keys| == 0 then []
    else
      var n := |keys| - 1;
      Select(keys[..n], tvls[..n], k) + (if keys[n] == k then [tvls[n]] else [])
  }

  /** The position of the first occurrence of `k`. */
  function FirstIndex<K(==, !new)>(s: seq<K>, k: K): (i: nat)
    requires k in s
    ensures i < |s| && s[i] == k
    ensures forall j :: 0 <= j < i ==> s[j] != k
  {
    if s[0] == k then 0 else 1 + FirstIndex(s[1..], k)
  }

  /** The position of the last occurrence of `k`. */
  function LastIndex<K(==, !new)>(s: seq<K>, k: K): (i: nat)
    requires k in s
    ensures i < |s| && s[i] == k
    ensures forall j :: i < j < |s| ==> s[j] != k
  {
    if s[|s| - 1] == k then |s| - 1 else LastIndex(s[..|s| - 1], k)
  }

  lemma {:induction false} SelectAbsent<K(!new)>(keys: seq<K>, tvls: seq<real>, k: K)
    requires |keys| == |tvls|
    requires k !in keys
    ensures Select(keys, tvls, k) == []
  {
    if |keys| > 0 {
      var n := |keys| - 1;
      assert k !in keys[..n];
      SelectAbsent(keys[..n], tvls[..n], k);
    }
  }

  /**
   * Each bucket the reducer builds holds exactly the values of its key, in
   * scan order.
   */
  lemma {:induction false} GroupByIsSelect<K(!new)>(keys: seq<K>, tvls: seq<real>)
    requires |keys| == |tvls|
    ensures forall k :: k in GroupBy(keys, tvls).buckets ==> GroupBy(keys, tvls).buckets[k].tvls == Select(keys, tvls, k)
  {
    if |keys| > 0 {
      var n := |keys| - 1;
      var g := GroupBy(keys[..n], tvls[..n]);
      GroupByIsSelect(keys[..n], tvls[..n]);
      var r := GroupBy(keys, tvls);
      assert r == Record(g, keys[n], tvls[n]);
      forall k | k in r.buckets
        ensures r.buckets[k].tvls == Select(keys, tvls, k)
      {
        if k == keys[n] && k !in g.buckets {
          SelectAbsent(keys[..n], tvls[..n], k);
        }
      }
    }
  }

  /** The first and last values of a key's selection are those at its first and last occurrence. */
  lemma {:induction false} SelectEnds<K(!new)>(keys: seq<K>, tvls: seq<real>, k: K)
    requires |keys| == |tvls|
    requires k in keys
    ensures |Select(keys, tvls, k)| > 0
    ensures Select(keys, tvls, k)[0] == tvls[FirstIndex(keys, k)]
    ensures Select(keys, tvls, k)[|Select(keys, tvls, k)| - 1] == tvls[LastIndex(keys, k)]
  {
    var n := |keys| - 1;
    var prefix := keys[..n];
    assert keys == prefix + [keys[n]];
    if k in prefix {
      SelectEnds(prefix, tvls[..n], k);
      assert FirstIndex(keys, k) == FirstIndex(prefix, k) by {
        var i := FirstIndex(prefix, k);
        assert keys[i] == k;
        assert forall j :: 0 <= j < i ==> keys[j] == prefix[j];
      }
      if keys[n] != k {
        assert LastIndex(keys, k) == LastIndex(prefix, k);
      }
    } else {
      SelectAbsent(prefix, tvls[..n], k);
      assert FirstIndex(keys, k) == n;
    }
  }

  lemma FirstIndexSnoc<K(!new)>(s: seq<K>, x: K, k: K)
    requires k in s
    ensures FirstIndex(s + [x], k) == FirstIndex(s, k)
  {
    var i := FirstIndex(s, k);
    assert (s + [x])[i] == k;
    assert forall j :: 0 <= j < i ==> (s + [x])[j] == s[j];
  }

  lemma FirstIndexNew<K(!new)>(s: seq<K>, k: K)
    requires k !in s
    ensures FirstIndex(s + [k], k) == |s|
  {
    assert forall j :: 0 <= j < |s| ==> (s + [k])[j] == s[j];
  }

  /** `order` lists keys of `keys` by increasing position of first occurrence. */
  ghost predicate FirstSeenOrder<K(!new)>(order: seq<K>, keys: seq<K>) {
    && (forall i :: 0 <= i < |order| ==> order[i] in keys)
    && (forall i, j :: 0 <= i < j < |order| ==> FirstIndex(keys, order[i]) < FirstIndex(keys, order[j]))
  }

  /**
   * The reducer lists its keys in order of first occurrence in the scan, which
   * is the order `Object.entries` gives back for keys that are not array
   * indices.
   */
  lemma {:induction false} GroupByOrder<K(!new)>(keys: seq<K>, tvls: seq<real>)
    requires |keys| == |tvls|
    ensures FirstSeenOrder(GroupBy(keys, tvls).order, keys)
  {
    if |keys| > 0 {
      var n := |keys| - 1;
      var prefix := keys[..n];
      var g := GroupBy(prefix, tvls[..n]);
      GroupByOrder(prefix, tvls[..n]);
      assert keys == prefix + [keys[n]];
      OrderAfterRecord(g, prefix, keys[n], tvls[n]);
    } else {
      assert GroupBy(keys, tvls).order == [];
    }
  }

  lemma OrderAfterRecord<K(!new)>(g: Grouping<K>, prefix: seq<K>, key: K, tvl: real)
    requires WellFormed(g)
    requires forall k :: k in g.buckets <==> k in prefix
    requires FirstSeenOrder(g.order, prefix)
    ensures FirstSeenOrder(Record(g, key, tvl).order, prefix + [key])
  {
    var keys := prefix + [key];
    var r := Record(g, key, tvl);
    forall i | 0 <= i < |g.order|
      ensures g.order[i] in prefix
      ensures FirstIndex(keys, g.order[i]) == FirstIndex(prefix, g.order[i])
    {
      assert g.order[i] in g.buckets;
      FirstIndexSnoc(prefix, key, g.order[i]);
    }
    if key !in g.buckets {
      FirstIndexNew(prefix, key);
      assert r.order == g.order + [key];
    } else {
      assert r.order == g.order;
    }
  }

  /** The total number of values held by the buckets listed in `order`. */
  function SumSizes<K(==, !new)>(order: seq<K>, buckets: map<K, Accumulator>): nat
    requires forall k :: k in order ==> k in buckets
  {
    if |order| == 0 then 0
    else SumSizes(order[..|order| - 1], buckets) + |buckets[order[|order| - 1]].tvls|
  }

  lemma {:induction false} SumSizesAgree<K(!new)>(order: seq<K>, m: map<K, Accumulator>, m': map<K, Accumulator>)
    requires forall k :: k in order ==> k in m && k in m' && m[k] == m'[k]
    ensures SumSizes(order, m) == SumSizes(order, m')
  {
    if |order| > 0 {
      SumSizesAgree(order[..|order| - 1], m, m');
    }
  }

  lemma {:induction false} SumSizesGrow<K(!new)>(order: seq<K>, m: map<K, Accumulator>, key: K, b: Accumulator)
    requires Distinct(order)
    requires key in order
    requires forall k :: k in order ==> k in m
    requires |b.tvls| == |m[key].tvls| + 1
    ensures SumSizes(order, m[key := b]) == SumSizes(order, m) + 1
  {
    var n := |order| - 1;
    var prefix := order[..n];
    if order[n] == key {
      assert key !in prefix;
      SumSizesAgree(prefix, m, m[key := b]);
    } else {
      assert key in prefix;
      SumSizesGrow(prefix, m, key, b);
    }
  }

  /**
   * Every value lands in exactly one bucket: the bucket sizes add up to the
   * number of values scanned.
   */
  lemma {:induction false} GroupBySizes<K(!new)>(keys: seq<K>, tvls: seq<real>)
    requires |keys| == |tvls|
    ensures SumSizes(GroupBy(keys, tvls).order, GroupBy(keys, tvls).buckets) == |keys|
  {
    if |keys| > 0 {
      var n := |keys| - 1;
      var g := GroupBy(keys[..n], tvls[..n]);
      GroupBySizes(keys[..n], tvls[..n]);
      var r := GroupBy(keys, tvls);
      var key := keys[n];
      if key in g.buckets {
        SumSizesGrow(g.order, g.buckets, key, r.buckets[key]);
      } else {
        assert r.order[..|r.order| - 1] == g.order;
        SumSizesAgree(g.order, g.buckets, r.buckets);
      }
    }
  }
}
