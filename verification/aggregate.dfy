/** The fan-in reducer `aggregate` of the query engine: partial group-by maps
    arrive one by one and are merged into one map, counter by counter, while
    grand totals are kept alongside. The channel is a finite sequence of
    optional maps (`None` is a nil map); `K` is the flow key. */
module Aggregate {
  import opened Wrappers

  /** goDB.Val: the four counters of one flow key. */
  datatype Val = Val(nBytesRcvd: nat, nBytesSent: nat, nPktsRcvd: nat, nPktsSent: nat)

  function Zero(): Val {
    Val(0, 0, 0, 0)
  }

  /** Field-wise sum of two counter sets. */
  function Add(a: Val, b: Val): Val {
    Val(a.nBytesRcvd + b.nBytesRcvd, a.nBytesSent + b.nBytesSent,
        a.nPktsRcvd + b.nPktsRcvd, a.nPktsSent + b.nPktsSent)
  }

  /** query.Counts: the grand totals, named and ordered as in the source. */
  datatype Counts = Counts(pktsRcvd: nat, pktsSent: nat, bytesRcvd: nat, bytesSent: nat)

  function AsCounts(v: Val): Counts {
    Counts(v.nPktsRcvd, v.nPktsSent, v.nBytesRcvd, v.nBytesSent)
  }

  /** The four `totals.X += v.NX` statements. */
  function Tally(c: Counts, v: Val): Counts {
    Counts(c.pktsRcvd + v.nPktsRcvd, c.pktsSent + v.nPktsSent,
           c.bytesRcvd + v.nBytesRcvd, c.bytesSent + v.nBytesSent)
  }

  /** Tallying a sum is tallying its parts in turn. */
  lemma TallyAdd(c: Counts, a: Val, b: Val)
    ensures Tally(Tally(c, a), b) == Tally(c, Add(a, b))
    ensures Tally(AsCounts(a), b) == AsCounts(Add(a, b))
  {
  }

  lemma TallyZero(c: Counts)
    ensures Tally(c, Zero()) == c
  {
  }

  datatype QueryError = InternalProcessing | NoResults

  /** query.aggregateResult without its `err` field, which `Result` carries. */
  datatype AggregateResult<K> = AggregateResult(aggregatedMap: map<K, Val>, totals: Counts)

  /** A map read in Go: a missing key yields the zero value. */
  function Get<K>(m: map<K, Val>, k: K): Val {
    if k in m then m[k] else Zero()
  }

  /** The update of `finalMap` for one entry: an existing value is read,
      increased and written back, a new key is stored as it came. */
  function Insert<K>(m: map<K, Val>, k: K, v: Val): map<K, Val> {
    if k in m then m[k := Add(m[k], v)] else m[k := v]
  }

  /** The entries an item contributes; a nil map has none. */
  function Contents<K>(item: Option<map<K, Val>>): map<K, Val> {
    item.GetOr(map[])
  }

  /** Every key of every item. */
  function Keys<K>(items: seq<Option<map<K, Val>>>): set<K> {
    if |items| == 0 then {}
    else Keys(items[..|items| - 1]) + Contents(items[|items| - 1]).Keys
  }

  /** Two maps merged key by key. */
  function MergeMap<K>(a: map<K, Val>, b: map<K, Val>): map<K, Val> {
    map k | k in a.Keys + b.Keys :: Add(Get(a, k), Get(b, k))
  }

  /** The entries of `m` whose keys are in `ks`. */
  function Restrict<K>(m: map<K, Val>, ks: set<K>): map<K, Val> {
    map k | k in ks && k in m :: m[k]
  }

  /** The field-wise sum of `f` over a sequence. */
  ghost function SumBy<T>(s: seq<T>, f: T -> Val): Val {
    if |s| == 0 then Zero() else Add(SumBy(s[..|s| - 1], f), f(s[|s| - 1]))
  }

  /** What an item holds under key `k`. */
  function At<K>(k: K): Option<map<K, Val>> -> Val {
    item => Get(Contents(item), k)
  }

  /** The sum of the values stored under `k` across all items. */
  ghost function ValSum<K>(items: seq<Option<map<K, Val>>>, k: K): Val {
    SumBy(items, At(k))
  }

  /** Reference definition of the merged map: one entry per key seen, holding
      that key's sum over the items. */
  ghost function Merged<K>(items: seq<Option<map<K, Val>>>): map<K, Val> {
    map k | k in Keys(items) :: ValSum(items, k)
  }

  ghost function Pick<K>(ks: set<K>): K
    requires ks != {}
  {
    var k :| k in ks; k
  }

  /** The field-wise sum of the values of `m` under the keys `ks`. */
  ghost function SetSum<K>(m: map<K, Val>, ks: set<K>): Val
    requires ks <= m.Keys
    decreases ks
  {
    if ks == {} then Zero()
    else
      var k := Pick(ks);
      Add(m[k], SetSum(m, ks - {k}))
  }

  /** The field-wise sum of all values of a map. */
  ghost function Total<K>(m: map<K, Val>): Val {
    SetSum(m, m.Keys)
  }

  ghost function TotalOf<K>(): Option<map<K, Val>> -> Val {
    item => Total(Contents(item))
  }

  /** Reference definition of the reducer's answer: a nil item is an internal
      error, no entries at all is "no results", and otherwise the merged map
      comes with the sum of every counter of every entry of every item. */
  ghost function Reduce<K>(items: seq<Option<map<K, Val>>>): Result<AggregateResult<K>, QueryError> {
    if None in items then Failure(InternalProcessing)
    else if Keys(items) == {} then Failure(NoResults)
    else Success(AggregateResult(Merged(items), AsCounts(SumBy(items, TotalOf()))))
  }

  // ---- sums over sequences ----

  lemma AddZero(v: Val)
    ensures Add(Zero(), v) == v && Add(v, Zero()) == v
  {
  }

  lemma AddSwap(a: Val, b: Val, c: Val)
    ensures Add(Add(a, b), c) == Add(Add(a, c), b)
  {
  }

  lemma AddAssoc(a: Val, b: Val, c: Val)
    ensures Add(Add(a, b), c) == Add(a, Add(b, c))
  {
  }

  lemma {:induction false} SumByAppend<T>(a: seq<T>, b: seq<T>, f: T -> Val)
    ensures SumBy(a + b, f) == Add(SumBy(a, f), SumBy(b, f))
    decreases |b|
  {
    if |b| == 0 {
      assert a + b == a;
      AddZero(SumBy(a, f));
    } else {
      var init := b[..|b| - 1];
      var x := b[|b| - 1];
      SumByAppend(a, init, f);
      assert (a + b)[..|a + b| - 1] == a + init;
      assert (a + b)[|a + b| - 1] == x;
      assert SumBy(a + b, f) == Add(SumBy(a + init, f), f(x));
      assert SumBy(b, f) == Add(SumBy(init, f), f(x));
      AddAssoc(SumBy(a, f), SumBy(init, f), f(x));
    }
  }

  lemma SumBySnoc<T>(s: seq<T>, x: T, f: T -> Val)
    ensures SumBy(s + [x], f) == Add(SumBy(s, f), f(x))
  {
    assert (s + [x])[..|s|] == s;
  }

  lemma SplitAt<T>(t: seq<T>, j: nat)
    requires j < |t|
    ensures t == (t[..j] + [t[j]]) + t[j + 1..]
  {
  }

  /** Taking one element out of the middle of a sequence takes its value out
      of the sum. */
  lemma SumByRemove<T>(t: seq<T>, j: nat, f: T -> Val)
    requires j < |t|
    ensures SumBy(t, f) == Add(SumBy(t[..j] + t[j + 1..], f), f(t[j]))
  {
    var front, back, x := t[..j], t[j + 1..], t[j];
    SplitAt(t, j);
    SumByAppend(front + [x], back, f);
    SumBySnoc(front, x, f);
    SumByAppend(front, back, f);
    AddSwap(SumBy(front, f), f(t[j]), SumBy(back, f));
  }

  /** Taking one element out of a sequence takes one copy out of its multiset. */
  lemma RemoveOne<T>(t: seq<T>, j: nat)
    requires j < |t|
    ensures multiset(t[..j] + t[j + 1..]) == multiset(t) - multiset{t[j]}
  {
    SplitAt(t, j);
    assert multiset(t) == multiset(t[..j]) + multiset{t[j]} + multiset(t[j + 1..]);
  }

  /** A sum over a sequence does not depend on the order of its elements. */
  lemma {:induction false} SumByPermutation<T>(s: seq<T>, t: seq<T>, f: T -> Val)
    requires multiset(s) == multiset(t)
    ensures SumBy(s, f) == SumBy(t, f)
    decreases |s|
  {
    if |s| == 0 {
      assert |multiset(t)| == 0;
    } else {
      var init := s[..|s| - 1];
      var x := s[|s| - 1];
      assert x in multiset(t) by {
        assert x in s;
      }
      var j :| 0 <= j < |t| && t[j] == x;
      var rest := t[..j] + t[j + 1..];
      RemoveOne(s, |s| - 1);
      RemoveOne(t, j);
      assert s[..|s| - 1] + s[|s|..] == init;
      SumByPermutation(init, rest, f);
      SumByRemove(t, j, f);
    }
  }

  // ---- keys and the merged map ----

  /** A key is seen exactly when some item holds it. */
  lemma {:induction false} KeysMeaning<K>(items: seq<Option<map<K, Val>>>, k: K)
    ensures k in Keys(items) <==> exists i :: 0 <= i < |items| && k in Contents(items[i])
  {
    if |items| > 0 {
      var init := items[..|items| - 1];
      KeysMeaning(init, k);
      assert forall i :: 0 <= i < |init| ==> init[i] == items[i];
    }
  }

  /** A key no item holds sums to zero. */
  lemma {:induction false} ValSumOutside<K>(items: seq<Option<map<K, Val>>>, k: K)
    requires k !in Keys(items)
    ensures ValSum(items, k) == Zero()
  {
    if |items| == 0 {
      assert SumBy(items, At(k)) == Zero();
    } else {
      var init := items[..|items| - 1];
      var x := items[|items| - 1];
      ValSumOutside(init, k);
      assert k !in Contents(x);
      assert At(k)(x) == Zero();
      assert ValSum(items, k) == Add(ValSum(init, k), At(k)(x));
      AddZero(Zero());
    }
  }

  /** Reading the merged map gives the key's sum, present or not. */
  lemma GetMerged<K>(items: seq<Option<map<K, Val>>>, k: K)
    ensures Get(Merged(items), k) == ValSum(items, k)
  {
    if k !in Keys(items) {
      ValSumOutside(items, k);
    }
  }

  /** The merged map of one more item is the old one merged with it. */
  lemma MergedStep<K>(items: seq<Option<map<K, Val>>>, x: Option<map<K, Val>>)
    ensures Merged(items + [x]) == MergeMap(Merged(items), Contents(x))
  {
    assert (items + [x])[..|items|] == items;
    forall k | k in Keys(items + [x])
      ensures ValSum(items + [x], k) == Add(Get(Merged(items), k), Get(Contents(x), k))
    {
      SumBySnoc(items, x, At(k));
      GetMerged(items, k);
    }
  }

  // ---- sums over maps ----

  lemma {:induction false} SetSumRemove<K>(m: map<K, Val>, ks: set<K>, k: K)
    requires ks <= m.Keys && k in ks
    ensures SetSum(m, ks) == Add(m[k], SetSum(m, ks - {k}))
    decreases ks
  {
    var j := Pick(ks);
    if j != k {
      SetSumRemove(m, ks - {j}, k);
      SetSumRemove(m, ks - {k}, j);
      assert ks - {j} - {k} == ks - {k} - {j};
    }
  }

  /** A sum over keys reads only the values under those keys. */
  lemma {:induction false} SetSumAgree<K>(m1: map<K, Val>, m2: map<K, Val>, ks: set<K>)
    requires ks <= m1.Keys && ks <= m2.Keys
    requires forall k :: k in ks ==> m1[k] == m2[k]
    ensures SetSum(m1, ks) == SetSum(m2, ks)
    decreases ks
  {
    if ks != {} {
      SetSumAgree(m1, m2, ks - {Pick(ks)});
    }
  }

  /** Adding to one entry, or adding a new one, adds to the total. */
  lemma TotalInsert<K>(m: map<K, Val>, k: K, v: Val)
    ensures Total(Insert(m, k, v)) == Add(Total(m), v)
  {
    var n := Insert(m, k, v);
    SetSumRemove(n, n.Keys, k);
    SetSumAgree(n, m, n.Keys - {k});
    if k in m {
      SetSumRemove(m, m.Keys, k);
      assert n.Keys - {k} == m.Keys - {k};
    } else {
      assert n.Keys - {k} == m.Keys;
    }
  }

  /** Entering one more entry of an item: the partial merge grows by it. */
  lemma InsertStep<K>(acc: map<K, Val>, m: map<K, Val>, done: set<K>, k: K)
    requires k in m && k !in done
    ensures Insert(MergeMap(acc, Restrict(m, done)), k, m[k]) == MergeMap(acc, Restrict(m, done + {k}))
  {
    var r := Restrict(m, done);
    var r' := Restrict(m, done + {k});
    assert r' == r[k := m[k]];
    assert k !in r;
    var before := MergeMap(acc, r);
    var lhs := Insert(before, k, m[k]);
    var rhs := MergeMap(acc, r');
    assert lhs.Keys == rhs.Keys;
    forall x | x in lhs
      ensures lhs[x] == rhs[x]
    {
      if x == k {
        if k in acc {
          assert before[k] == Add(acc[k], Zero());
          AddZero(acc[k]);
          assert lhs[k] == Add(acc[k], m[k]);
        } else {
          assert k !in before;
          AddZero(m[k]);
          assert lhs[k] == m[k];
        }
        assert rhs[k] == Add(Get(acc, k), m[k]);
      } else {
        assert Get(r', x) == Get(r, x);
      }
    }
  }

  /** Entering one more entry of an item: the partial total grows by it. */
  lemma TotalStep<K>(m: map<K, Val>, done: set<K>, k: K)
    requires k in m && k !in done
    ensures Total(Restrict(m, done + {k})) == Add(Total(Restrict(m, done)), m[k])
  {
    var r := Restrict(m, done);
    assert Restrict(m, done + {k}) == Insert(r, k, m[k]);
    TotalInsert(r, k, m[k]);
  }

  /** Merging in an empty map changes nothing. */
  lemma MergeEmpty<K>(a: map<K, Val>, b: map<K, Val>)
    requires b.Keys == {}
    ensures MergeMap(a, b) == a
  {
    forall k | k in a
      ensures Add(Get(a, k), Get(b, k)) == a[k]
    {
      AddZero(a[k]);
    }
  }

  /** Merging a map is merging all but one of its entries, then that one. */
  lemma MergeSplit<K>(a: map<K, Val>, b: map<K, Val>, k: K)
    requires k in b
    ensures MergeMap(a, b) == Insert(MergeMap(a, b - {k}), k, b[k])
  {
  }

  /** The total of a map is one entry plus the total of the rest. */
  lemma TotalSplit<K>(b: map<K, Val>, k: K)
    requires k in b
    ensures Total(b) == Add(b[k], Total(b - {k}))
  {
    var rest := b - {k};
    assert rest.Keys == b.Keys - {k};
    SetSumRemove(b, b.Keys, k);
    SetSumAgree(b, rest, rest.Keys);
  }

  lemma AddRotate(a: Val, b: Val, c: Val)
    ensures Add(Add(a, b), c) == Add(a, Add(c, b))
  {
  }

  /** Merging two maps adds their totals. */
  lemma {:induction false} TotalMerge<K>(a: map<K, Val>, b: map<K, Val>)
    ensures Total(MergeMap(a, b)) == Add(Total(a), Total(b))
    decreases |b.Keys|
  {
    if b.Keys == {} {
      MergeEmpty(a, b);
      assert Total(b) == Zero();
      AddZero(Total(a));
    } else {
      var k := Pick(b.Keys);
      var rest := b - {k};
      assert |rest.Keys| < |b.Keys| by {
        assert rest.Keys == b.Keys - {k};
      }
      TotalMerge(a, rest);
      MergeSplit(a, b, k);
      TotalInsert(MergeMap(a, rest), k, b[k]);
      TotalSplit(b, k);
      AddRotate(Total(a), Total(rest), b[k]);
    }
  }

  /** The grand totals agree with the grouped result: summing every entry
      of every item equals summing the merged map. */
  lemma {:induction false} TotalsAgree<K>(items: seq<Option<map<K, Val>>>)
    ensures Total(Merged(items)) == SumBy(items, TotalOf())
  {
    if |items| == 0 {
      assert Merged(items) == map[];
    } else {
      var init := items[..|items| - 1];
      var x := items[|items| - 1];
      assert items == init + [x];
      TotalsAgree(init);
      MergedStep(init, x);
      TotalMerge(Merged(init), Contents(x));
    }
  }

  // ---- the reducer ----

  /** The inner loop of `aggregate` over one non-nil map, visiting its
      entries in whatever order Go's map range yields them: every entry is
      added to the totals and merged into the final map. */
  method MergeItem<K>(finalMap: map<K, Val>, totals: Counts, item: map<K, Val>)
    returns (finalMap': map<K, Val>, totals': Counts)
    ensures finalMap' == MergeMap(finalMap, item)
    ensures forall k :: k in finalMap' <==> k in finalMap || k in item
    ensures totals' == Tally(totals, Total(item))
  {
    finalMap' := finalMap;
    totals' := totals;
    ghost var done: set<K> := {};
    var rest := item.Keys;
    assert Restrict(item, {}) == map[];
    assert MergeMap(finalMap, map[]) == finalMap;
    assert Total(Restrict(item, {})) == Zero();
    TallyZero(totals);
    while rest != {}
      invariant rest <= item.Keys && done == item.Keys - rest
      invariant finalMap' == MergeMap(finalMap, Restrict(item, done))
      invariant totals' == Tally(totals, Total(Restrict(item, done)))
      decreases rest
    {
      var k :| k in rest;
      var v := item[k];
      totals' := Tally(totals', v);
      if k in finalMap' {
        finalMap' := finalMap'[k := Add(finalMap'[k], v)];
      } else {
        finalMap' := finalMap'[k := v];
      }
      InsertStep(finalMap, item, done, k);
      TotalStep(item, done, k);
      TallyAdd(totals, Total(Restrict(item, done)), v);
      rest := rest - {k};
      done := done + {k};
    }
    assert Restrict(item, done) == item;
  }

  /** The loop of `aggregate`: it stops at the first nil map, and refuses
      an empty merged map. */
  method RunAggregate<K>(items: seq<Option<map<K, Val>>>) returns (r: Result<AggregateResult<K>, QueryError>)
    ensures r == Reduce(items)
    ensures r.Success? ==> forall k :: k in r.value.aggregatedMap ==> r.value.aggregatedMap[k] == ValSum(items, k)
    ensures r.Success? ==> r.value.totals == AsCounts(Total(r.value.aggregatedMap))
  {
    var finalMap: map<K, Val> := map[];
    var totals := Counts(0, 0, 0, 0);
    var i := 0;
    while i < |items|
      invariant 0 <= i <= |items|
      invariant None !in items[..i]
      invariant finalMap == Merged(items[..i])
      invariant totals == AsCounts(SumBy(items[..i], TotalOf()))
    {
      if items[i].None? {
        assert None in items;
        return Failure(InternalProcessing);
      }
      ghost var sum := SumBy(items[..i], TotalOf());
      finalMap, totals := MergeItem(finalMap, totals, items[i].value);
      NextItem(items, i);
      TallyAdd(totals, sum, Total(items[i].value));
      i := i + 1;
    }
    assert items[..i] == items;
    TotalsAgree(items);
    if |finalMap| == 0 {
      assert finalMap.Keys == {};
      return Failure(NoResults);
    }
    return Success(AggregateResult(finalMap, totals));
  }

  /** The outer loop's step: one more item merged and tallied. */
  lemma NextItem<K>(items: seq<Option<map<K, Val>>>, i: nat)
    requires i < |items| && items[i].Some?
    ensures Merged(items[..i + 1]) == MergeMap(Merged(items[..i]), items[i].value)
    ensures SumBy(items[..i + 1], TotalOf()) == Add(SumBy(items[..i], TotalOf()), Total(items[i].value))
    ensures None !in items[..i] ==> None !in items[..i + 1]
  {
    assert items[..i + 1] == items[..i] + [items[i]];
    MergedStep(items[..i], items[i]);
    SumBySnoc(items[..i], items[i], TotalOf());
  }

  // ---- properties of the reducer ----

  /** A nil item is an internal error wherever it sits; without one, "no
      results" means every item was empty. */
  lemma ReduceErrors<K>(items: seq<Option<map<K, Val>>>)
    ensures Reduce(items) == Failure(InternalProcessing) <==> exists i :: 0 <= i < |items| && items[i].None?
    ensures Reduce(items) == Failure(NoResults) <==>
      forall i :: 0 <= i < |items| ==> items[i].Some? && items[i].value == map[]
  {
    if forall i :: 0 <= i < |items| ==> items[i].Some? {
      assert None !in items;
      if Keys(items) == {} {
        forall i | 0 <= i < |items|
          ensures items[i].value == map[]
        {
          forall k | k in items[i].value
            ensures false
          {
            assert k in Contents(items[i]);
            KeysMeaning(items, k);
          }
        }
      } else {
        var k :| k in Keys(items);
        KeysMeaning(items, k);
      }
    } else {
      var i :| 0 <= i < |items| && items[i].None?;
      assert None in items;
    }
  }

  /** Without nil items the merged map holds exactly the keys of the inputs. */
  lemma ReduceKeys<K>(items: seq<Option<map<K, Val>>>, k: K)
    requires Reduce(items).Success?
    ensures k in Reduce(items).value.aggregatedMap <==>
      exists i :: 0 <= i < |items| && items[i].Some? && k in items[i].value
  {
    KeysMeaning(items, k);
  }

  /** A key seen in some items is seen in any reordering of them. */
  lemma KeysFollow<K>(a: seq<Option<map<K, Val>>>, b: seq<Option<map<K, Val>>>, k: K)
    requires multiset(a) == multiset(b) && k in Keys(a)
    ensures k in Keys(b)
  {
    KeysMeaning(a, k);
    var i :| 0 <= i < |a| && k in Contents(a[i]);
    assert a[i] in multiset(b);
    var j :| 0 <= j < |b| && b[j] == a[i];
    assert k in Contents(b[j]);
    KeysMeaning(b, k);
  }

  /** Reordering the items changes neither the merged map nor the totals
      nor which error is reported. */
  lemma ReducePermutation<K>(a: seq<Option<map<K, Val>>>, b: seq<Option<map<K, Val>>>)
    requires multiset(a) == multiset(b)
    ensures Reduce(a) == Reduce(b)
  {
    assert None in a <==> None in b by {
      assert None in a <==> None in multiset(a);
    }
    forall k | k in Keys(a)
      ensures k in Keys(b)
    {
      KeysFollow(a, b, k);
    }
    forall k | k in Keys(b)
      ensures k in Keys(a)
    {
      KeysFollow(b, a, k);
    }
    assert Keys(a) == Keys(b);
    forall k | k in Keys(a)
      ensures ValSum(a, k) == ValSum(b, k)
    {
      SumByPermutation(a, b, At(k));
    }
    assert Merged(a) == Merged(b);
    SumByPermutation(a, b, TotalOf());
  }
}
