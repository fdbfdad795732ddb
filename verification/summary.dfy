/** The summary ledger: per interface its flow count, traffic and begin, the
    all-or-nothing `goDB.ModifyDBSummary`, and the transform `cleanOldDBDirs`
    hands to it. */
module Summary {
  import opened Wrappers
  import opened Decimal
  import opened Store
  import opened CleanIface

  datatype IfaceSummary = IfaceSummary(flowCount: U64, traffic: U64, begin: I64)

  /** Go's zero value, which a map read yields for a missing interface. */
  const ZeroSummary: IfaceSummary := IfaceSummary(0, 0, 0)

  datatype DBSummary = DBSummary(interfaces: map<string, IfaceSummary>)

  /** `summ.Interfaces[iface]`. */
  function Lookup(m: map<string, IfaceSummary>, iface: string): IfaceSummary {
    if iface in m then m[iface] else ZeroSummary
  }

  /** The summary of an interface after removing the partitions `c` reports:
      uint64 `-=` on both counters and `Begin` overwritten. Adding the delta
      back (with uint64 `+=`) restores the counters, and when the delta does
      not exceed the stored count the subtraction is exact. */
  function Subtract(s: IfaceSummary, c: CleanIfaceResult): (r: IfaceSummary)
    ensures AddWrap(r.flowCount, c.deltaFlowCount) == s.flowCount
    ensures AddWrap(r.traffic, c.deltaTraffic) == s.traffic
    ensures c.deltaFlowCount <= s.flowCount ==> r.flowCount == s.flowCount - c.deltaFlowCount
    ensures c.deltaTraffic <= s.traffic ==> r.traffic == s.traffic - c.deltaTraffic
    ensures r.begin == c.newBegin
  {
    IfaceSummary(SubWrap(s.flowCount, c.deltaFlowCount), SubWrap(s.traffic, c.deltaTraffic), c.newBegin)
  }

  /** The body of the `for iface, change := range ifaceResults` loop. */
  function ApplyChange(m: map<string, IfaceSummary>, iface: string, c: CleanIfaceResult): map<string, IfaceSummary> {
    if c.gone then m - {iface} else m[iface := Subtract(Lookup(m, iface), c)]
  }

  /** The loop itself, visiting the keys of `results` in `order`: Go ranges
      over a map in an unspecified order, which is therefore a parameter. */
  function ApplyInOrder(order: seq<string>, results: map<string, CleanIfaceResult>, m: map<string, IfaceSummary>): map<string, IfaceSummary>
    requires forall i :: 0 <= i < |order| ==> order[i] in results
  {
    if |order| == 0 then m
    else
      var k := order[|order| - 1];
      ApplyChange(ApplyInOrder(order[..|order| - 1], results, m), k, results[k])
  }

  predicate NoDup(order: seq<string>) {
    forall i, j :: 0 <= i < j < |order| ==> order[i] != order[j]
  }

  function Elements(order: seq<string>): set<string> {
    set k | k in order
  }

  /** `order` visits every key of a set exactly once, as a map range does. */
  predicate Enumerates(order: seq<string>, keys: set<string>) {
    NoDup(order) && Elements(order) == keys
  }

  /** Independent description of the reconciled map once the changes for
      `keys` are applied: changed interfaces that are gone are dropped, the
      other changed ones are reduced by their delta, and everything else is
      left alone. */
  function Reconciled(keys: set<string>, results: map<string, CleanIfaceResult>, m: map<string, IfaceSummary>): map<string, IfaceSummary>
    requires keys <= results.Keys
  {
    map k | k in m.Keys + keys && !(k in keys && results[k].gone) ::
      if k in keys then Subtract(Lookup(m, k), results[k]) else m[k]
  }

  /** Applying one more change to a reconciled map reconciles one more key. */
  lemma ReconciledStep(keys: set<string>, k: string, results: map<string, CleanIfaceResult>, m: map<string, IfaceSummary>)
    requires keys <= results.Keys && k in results && k !in keys
    ensures ApplyChange(Reconciled(keys, results, m), k, results[k]) == Reconciled(keys + {k}, results, m)
  {
    var p := Reconciled(keys, results, m);
    var q := ApplyChange(p, k, results[k]);
    var want := Reconciled(keys + {k}, results, m);
    assert Lookup(p, k) == Lookup(m, k);
    forall x
      ensures x in q <==> x in want
      ensures x in q ==> q[x] == want[x]
    {
      if x != k {
        assert x in q <==> x in p;
      }
    }
  }

  /** Whatever order the loop visits the keys in, it produces the reconciled
      map of the keys visited. */
  lemma {:induction false} ApplyInOrderReconciles(order: seq<string>, results: map<string, CleanIfaceResult>, m: map<string, IfaceSummary>)
    requires forall i :: 0 <= i < |order| ==> order[i] in results
    requires NoDup(order)
    ensures Elements(order) <= results.Keys
    ensures ApplyInOrder(order, results, m) == Reconciled(Elements(order), results, m)
  {
    if |order| == 0 {
      assert Elements(order) == {};
      assert Reconciled({}, results, m) == m;
    } else {
      var init := order[..|order| - 1];
      var k := order[|order| - 1];
      ApplyInOrderReconciles(init, results, m);
      assert Elements(order) == Elements(init) + {k} by {
        assert order == init + [k];
      }
      assert forall j :: 0 <= j < |init| ==> init[j] == order[j] != k;
      ReconciledStep(Elements(init), k, results, m);
    }
  }

  /** The transform `cleanOldDBDirs` gives `ModifyDBSummary`: a missing
      summary is refused, otherwise every result is applied in `order`. */
  function Reconcile(order: seq<string>, results: map<string, CleanIfaceResult>, summ: Option<DBSummary>): (r: Result<DBSummary, Error>)
    requires forall i :: 0 <= i < |order| ==> order[i] in results
    ensures r.Failure? <==> summ.None?
    ensures r.Failure? ==> r.error == SummaryMissing
  {
    match summ
    case None => Failure(SummaryMissing)
    case Some(s) => Success(DBSummary(ApplyInOrder(order, results, s.interfaces)))
  }

  /** The reconciled summary entry by entry: exactly the gone interfaces are
      removed, every other processed interface has its counters reduced by
      its delta and its begin overwritten, and interfaces without a result
      are left unchanged. */
  lemma ReconcileSpec(order: seq<string>, results: map<string, CleanIfaceResult>, summ: DBSummary)
    requires Enumerates(order, results.Keys)
    ensures forall i :: 0 <= i < |order| ==> order[i] in results
    ensures var r := Reconcile(order, results, Some(summ)).value.interfaces;
      && (forall k :: k in results && results[k].gone ==> k !in r)
      && (forall k :: k in results && !results[k].gone ==>
            k in r && r[k] == Subtract(Lookup(summ.interfaces, k), results[k]))
      && (forall k :: k !in results ==>
            (k in r <==> k in summ.interfaces) && (k in r ==> r[k] == summ.interfaces[k]))
  {
    assert forall i :: 0 <= i < |order| ==> order[i] in Elements(order);
    ApplyInOrderReconciles(order, results, summ.interfaces);
  }

  /** The reconciled summary does not depend on the order in which Go's map
      range visits the interfaces. */
  lemma ReconcileOrderIndependent(order1: seq<string>, order2: seq<string>, results: map<string, CleanIfaceResult>, summ: Option<DBSummary>)
    requires Enumerates(order1, results.Keys) && Enumerates(order2, results.Keys)
    ensures forall i :: 0 <= i < |order1| ==> order1[i] in results
    ensures forall i :: 0 <= i < |order2| ==> order2[i] in results
    ensures Reconcile(order1, results, summ) == Reconcile(order2, results, summ)
  {
    assert forall i :: 0 <= i < |order1| ==> order1[i] in Elements(order1);
    assert forall i :: 0 <= i < |order2| ==> order2[i] in Elements(order2);
    if summ.Some? {
      ApplyInOrderReconciles(order1, results, summ.value.interfaces);
      ApplyInOrderReconciles(order2, results, summ.value.interfaces);
    }
  }

  /** What a `ModifyDBSummary` call leaves stored, and what it returns. */
  datatype Commit = Commit(stored: Option<DBSummary>, outcome: Outcome<Error>)

  /** goDB.ModifyDBSummary as the retention code relies on it: the lock may
      time out, and the transform's result is stored only when both the lock
      and the transform succeed; otherwise the stored summary is untouched. */
  function ModifyDBSummary(lockTimeout: bool, current: Option<DBSummary>,
                           transform: Option<DBSummary> -> Result<DBSummary, Error>): (r: Commit)
    ensures r.outcome.Pass? <==> !lockTimeout && transform(current).Success?
    ensures r.outcome.Pass? ==> r.stored == Some(transform(current).value)
    ensures r.outcome.Fail? ==> r.stored == current
    ensures lockTimeout ==> r.outcome == Fail(LockTimeout)
  {
    if lockTimeout then Commit(current, Fail(LockTimeout))
    else match transform(current)
      case Failure(e) => Commit(current, Fail(e))
      case Success(s) => Commit(Some(s), Pass)
  }
}
