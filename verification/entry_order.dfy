/**
 * The order in which `Object.entries` lists the keys of an accumulator
 * object (OrdinaryOwnPropertyKeys, section 10.1.11.1 of ECMA-262): keys that
 * are array indices first, in ascending numeric order, then the other string
 * keys in insertion order. Year keys 0 and above are array indices; month
 * keys never are.
 */
module EntryOrder {
  import opened Bucketing

  /** A year whose decimal string is an array index, `0 <= n < 2^32 - 1`. */
  predicate IsArrayIndex(n: int) {
    0 <= n < 0xFFFF_FFFF
  }

  predicate Sorted(s: seq<int>) {
    forall i, j :: 0 <= i < j < |s| ==> s[i] <= s[j]
  }

  function Insert(s: seq<int>, x: int): (r: seq<int>)
    requires Sorted(s)
    ensures Sorted(r)
    ensures |r| == |s| + 1
    ensures multiset(r) == multiset(s) + multiset{x}
    ensures forall y :: y in r <==> y in s || y == x
    ensures Distinct(s) && x !in s ==> Distinct(r)
  {
    if |s| == 0 then [x]
    else if x <= s[0] then
      DistinctCons(x, s);
      [x] + s
    else
      var rest := Insert(s[1..], x);
      InsertBehind(s, x, rest);
      [s[0]] + rest
  }

  /** Keeping the head in front of the insertion into the tail keeps every property of `Insert`. */
  lemma InsertBehind(s: seq<int>, x: int, rest: seq<int>)
    requires Sorted(s) && |s| > 0 && s[0] < x
    requires Sorted(rest) && |rest| == |s|
    requires multiset(rest) == multiset(s[1..]) + multiset{x}
    requires Distinct(s[1..]) && x !in s[1..] ==> Distinct(rest)
    ensures Sorted([s[0]] + rest)
    ensures multiset([s[0]] + rest) == multiset(s) + multiset{x}
    ensures forall y :: y in [s[0]] + rest <==> y in s || y == x
    ensures Distinct(s) && x !in s ==> Distinct([s[0]] + rest)
  {
    assert s == [s[0]] + s[1..];
    MembersBehind(s, x, rest);
    SortedCons(s[0], rest);
    DistinctCons(s[0], s[1..]);
    DistinctCons(s[0], rest);
  }

  lemma MembersBehind(s: seq<int>, x: int, rest: seq<int>)
    requires Sorted(s) && |s| > 0 && s[0] < x
    requires multiset(rest) == multiset(s[1..]) + multiset{x}
    ensures forall y :: y in rest <==> y in s[1..] || y == x
    ensures forall y :: y in rest ==> s[0] <= y
  {
    assert forall y :: y in rest <==> y in multiset(rest);
    assert forall y :: y in s[1..] ==> s[0] <= y;
  }

  lemma SortedCons(h: int, s: seq<int>)
    requires Sorted(s) && forall y :: y in s ==> h <= y
    ensures Sorted([h] + s)
  {
    var r := [h] + s;
    forall i, j | 0 <= i < j < |r| ensures r[i] <= r[j] {
      assert r[j] == s[j - 1] && s[j - 1] in s;
      if i > 0 {
        assert r[i] == s[i - 1];
      }
    }
  }

  /** Putting a key not yet listed in front keeps a list of distinct keys distinct, and conversely. */
  lemma DistinctCons(x: int, s: seq<int>)
    ensures Distinct([x] + s) <==> Distinct(s) && x !in s
  {
    var r := [x] + s;
    assert forall i :: 0 <= i < |s| ==> r[i + 1] == s[i] && s[i] in s;
    if Distinct(r) {
      forall i, j | 0 <= i < j < |s| ensures s[i] != s[j] {
        assert r[i + 1] != r[j + 1];
      }
      forall i | 0 <= i < |s| ensures s[i] != x {
        assert r[0] != r[i + 1];
      }
    }
    if Distinct(s) && x !in s {
      forall i, j | 0 <= i < j < |r| ensures r[i] != r[j] {
        assert r[j] == s[j - 1];
        if i > 0 {
          assert r[i] == s[i - 1];
        }
      }
    }
  }

  /** Appending a key not yet listed keeps a list of distinct keys distinct. */
  lemma DistinctSnoc(s: seq<int>, x: int)
    ensures Distinct(s) && x !in s ==> Distinct(s + [x])
  {
    assert forall i :: 0 <= i < |s| ==> (s + [x])[i] == s[i] && s[i] in s;
  }

  /** Insertion sort. */
  function Sort(s: seq<int>): (r: seq<int>)
    ensures Sorted(r)
    ensures |r| == |s|
    ensures multiset(r) == multiset(s)
    ensures forall y :: y in r <==> y in s
    ensures Distinct(s) ==> Distinct(r)
  {
    if |s| == 0 then []
    else
      var n := |s| - 1;
      assert s == s[..n] + [s[n]];
      assert forall y :: y in s <==> y in s[..n] || y == s[n];
      assert Distinct(s) ==> Distinct(s[..n]) && s[n] !in s[..n];
      Insert(Sort(s[..n]), s[n])
  }

  /** The keys of `s` that are array indices, in their order in `s`. */
  function IndexKeys(s: seq<int>): (r: seq<int>)
    ensures forall y :: y in r <==> y in s && IsArrayIndex(y)
    ensures Distinct(s) ==> Distinct(r)
  {
    if |s| == 0 then []
    else
      var n := |s| - 1;
      assert forall y :: y in s <==> y in s[..n] || y == s[n];
      assert Distinct(s) ==> Distinct(s[..n]) && s[n] !in s[..n];
      DistinctSnoc(IndexKeys(s[..n]), s[n]);
      IndexKeys(s[..n]) + (if IsArrayIndex(s[n]) then [s[n]] else [])
  }

  /** The keys of `s` that are not array indices, in their order in `s`. */
  function OtherKeys(s: seq<int>): (r: seq<int>)
    ensures forall y :: y in r <==> y in s && !IsArrayIndex(y)
    ensures Distinct(s) ==> Distinct(r)
  {
    if |s| == 0 then []
    else
      var n := |s| - 1;
      assert forall y :: y in s <==> y in s[..n] || y == s[n];
      assert Distinct(s) ==> Distinct(s[..n]) && s[n] !in s[..n];
      DistinctSnoc(OtherKeys(s[..n]), s[n]);
      OtherKeys(s[..n]) + (if IsArrayIndex(s[n]) then [] else [s[n]])
  }

  /** Splitting the keys by kind loses none and duplicates none. */
  lemma {:induction false} SplitSizes(s: seq<int>)
    ensures |IndexKeys(s)| + |OtherKeys(s)| == |s|
  {
    if |s| > 0 {
      SplitSizes(s[..|s| - 1]);
    }
  }

  /** Filtering keeps the relative order of first occurrences. */
  lemma {:induction false} OtherKeysOrder(s: seq<int>)
    requires Distinct(s)
    ensures FirstSeenOrder(OtherKeys(s), s)
  {
    if |s| > 0 {
      var n := |s| - 1;
      var prefix := s[..n];
      assert Distinct(prefix);
      OtherKeysOrder(prefix);
      assert s == prefix + [s[n]];
      var o := OtherKeys(prefix);
      forall i | 0 <= i < |o|
        ensures o[i] in prefix
        ensures FirstIndex(s, o[i]) == FirstIndex(prefix, o[i])
      {
        FirstIndexSnoc(prefix, s[n], o[i]);
      }
      if !IsArrayIndex(s[n]) {
        assert s[n] !in prefix;
        FirstIndexNew(prefix, s[n]);
        assert forall i :: 0 <= i < |o| ==> FirstIndex(prefix, o[i]) < n;
        OtherKeysOrderStep(s, o, prefix);
      }
    }
  }

  lemma OtherKeysOrderStep(s: seq<int>, o: seq<int>, prefix: seq<int>)
    requires |s| > 0 && prefix == s[..|s| - 1] && s == prefix + [s[|s| - 1]]
    requires FirstSeenOrder(o, prefix)
    requires forall i :: 0 <= i < |o| ==> FirstIndex(s, o[i]) == FirstIndex(prefix, o[i])
    requires forall i :: 0 <= i < |o| ==> FirstIndex(prefix, o[i]) < FirstIndex(s, s[|s| - 1])
    ensures FirstSeenOrder(o + [s[|s| - 1]], s)
  {
  }

  /**
   * `Object.entries` order of the year accumulator, given its keys in
   * insertion order: the same keys, array indices first in ascending order,
   * then the other keys.
   */
  function YearEntriesOrder(order: seq<int>): (r: seq<int>)
    ensures forall y :: y in r <==> y in order
    ensures |r| == |order|
    ensures Distinct(order) ==> Distinct(r)
    ensures forall i, j :: 0 <= i < j < |r| && IsArrayIndex(r[j]) ==> IsArrayIndex(r[i]) && r[i] <= r[j]
  {
    var indices := Sort(IndexKeys(order));
    var others := OtherKeys(order);
    SplitSizes(order);
    assert forall i :: 0 <= i < |indices| ==> IsArrayIndex(indices[i]) by {
      forall i | 0 <= i < |indices| ensures IsArrayIndex(indices[i]) {
        assert indices[i] in indices;
      }
    }
    assert forall i :: 0 <= i < |others| ==> !IsArrayIndex(others[i]) by {
      forall i | 0 <= i < |others| ensures !IsArrayIndex(others[i]) {
        assert others[i] in others;
      }
    }
    DistinctConcat(indices, others);
    IndicesFirst(indices, others);
    indices + others
  }

  lemma IndicesFirst(indices: seq<int>, others: seq<int>)
    requires Sorted(indices)
    requires forall i :: 0 <= i < |indices| ==> IsArrayIndex(indices[i])
    requires forall i :: 0 <= i < |others| ==> !IsArrayIndex(others[i])
    ensures forall i, j :: 0 <= i < j < |indices + others| && IsArrayIndex((indices + others)[j]) ==>
      IsArrayIndex((indices + others)[i]) && (indices + others)[i] <= (indices + others)[j]
  {
    var r := indices + others;
    assert forall k :: |indices| <= k < |r| ==> r[k] == others[k - |indices|];
    forall i, j | 0 <= i < j < |r| && IsArrayIndex(r[j])
      ensures IsArrayIndex(r[i]) && r[i] <= r[j]
    {
      assert j < |indices|;
      assert r[i] == indices[i] && r[j] == indices[j];
    }
  }

  /** Two lists of distinct keys with no key in common concatenate to a list of distinct keys. */
  lemma DistinctConcat(a: seq<int>, b: seq<int>)
    ensures Distinct(a) && Distinct(b) && (forall y :: y in a ==> y !in b) ==> Distinct(a + b)
  {
    if Distinct(a) && Distinct(b) && (forall y :: y in a ==> y !in b) {
      var r := a + b;
      forall i, j | 0 <= i < j < |r| ensures r[i] != r[j] {
        if j < |a| {
          assert r[i] == a[i] && r[j] == a[j];
        } else if i >= |a| {
          assert r[i] == b[i - |a|] && r[j] == b[j - |a|];
        } else {
          assert r[i] == a[i] && a[i] in a;
          assert r[j] == b[j - |a|] && b[j - |a|] in b;
        }
      }
    }
  }

  /** Keys of `r` that are array indices come before all other keys, in strictly ascending order. */
  predicate AscendingIndices(r: seq<int>) {
    forall i, j :: 0 <= i < j < |r| && IsArrayIndex(r[j]) ==> IsArrayIndex(r[i]) && r[i] < r[j]
  }

  /** Keys of `r` that are not array indices appear in the order of their first insertion. */
  ghost predicate OthersInInsertionOrder(r: seq<int>, order: seq<int>) {
    forall i, j ::
      0 <= i < j < |r| && !IsArrayIndex(r[i]) && !IsArrayIndex(r[j]) ==>
        r[i] in order && r[j] in order && FirstIndex(order, r[i]) < FirstIndex(order, r[j])
  }

  /** The year keys that are not array indices (negative years) keep their insertion order. */
  lemma YearEntriesKeepInsertionOrder(order: seq<int>)
    requires Distinct(order)
    ensures OthersInInsertionOrder(YearEntriesOrder(order), order)
  {
    var indices := Sort(IndexKeys(order));
    var others := OtherKeys(order);
    assert YearEntriesOrder(order) == indices + others;
    OtherKeysOrder(order);
    forall i | 0 <= i < |indices|
      ensures IsArrayIndex(indices[i])
    {
      assert indices[i] in indices;
    }
    OthersAfterIndices(indices, others, order);
  }

  lemma OthersAfterIndices(indices: seq<int>, others: seq<int>, order: seq<int>)
    requires forall i :: 0 <= i < |indices| ==> IsArrayIndex(indices[i])
    requires FirstSeenOrder(others, order)
    ensures OthersInInsertionOrder(indices + others, order)
  {
    var r := indices + others;
    forall i, j | 0 <= i < j < |r| && !IsArrayIndex(r[i]) && !IsArrayIndex(r[j])
      ensures r[i] in order && r[j] in order && FirstIndex(order, r[i]) < FirstIndex(order, r[j])
    {
      assert i >= |indices|;
      assert r[i] == others[i - |indices|];
      assert r[j] == others[j - |indices|];
    }
  }
}
