/** A worked retention run: one interface with two daily partitions is
    cleaned twice, first losing its older partition and then the rest. */
module RetentionScenario {
  import opened Wrappers
  import opened Decimal
  import opened Store
  import opened DirScan
  import opened CleanIface
  import opened Summary
  import opened CleanDb

  function Partition(ts: I64, flows: U64, traffic: U64): Entry {
    Entry(FormatInt64(ts), Dir([], [Block(ts, flows, traffic)]))
  }

  function Eth0(partitions: seq<Entry>): Entry {
    Entry("eth0", Dir(partitions, []))
  }

  /** Day numbers for which the scenario's two days and its second cutoff
      fit an int64. */
  predicate RoomFor(day: nat) {
    (day + 2) * EpochDay + 1 <= MaxInt64
  }

  /** A moment `s` seconds into day number `day` belongs to that day. */
  lemma DayOf(day: nat, s: nat)
    requires s < EpochDay && day * EpochDay + s <= MaxInt64
    ensures DayTimestamp(day * EpochDay + s) == day * EpochDay
  {
    var d := DayTimestamp(day * EpochDay + s);
    var m := d / EpochDay;
    assert d == m * EpochDay;
    assert m * EpochDay <= day * EpochDay + s < m * EpochDay + EpochDay;
    assert m <= day && day <= m;
  }

  /** A clean of a database holding a single interface directory, given how
      that interface's own pass goes. */
  lemma CleanSingleInterface(now: I64, timestamp: I64, iface: string, node: Node, m: map<string, IfaceSummary>, o: IfaceOutcome)
    requires timestamp < now && node.Dir?
    requires CleanIfaceDir(NoFaults, timestamp, iface, node) == o && o.result.Success?
    ensures Enumerates([iface], DirNames([Entry(iface, node)]))
    ensures CleanOldDBDirs(now, NoFaults, timestamp, [iface], Db([Entry(iface, node)], Some(DBSummary(m)))) ==
      Run(Db(if o.after.Some? then [Entry(iface, o.after.value)] else [],
             Some(DBSummary(ApplyChange(m, iface, o.result.value)))), Pass)
  {
    var root := [Entry(iface, node)];
    var cl := Cleaner(NoFaults, timestamp);
    var res := o.result.value;
    assert DirNames(root) == {iface} by {
      assert root[0].name == iface;
    }
    assert Elements([iface]) == {iface} by {
      assert [iface][0] == iface;
    }
    assert cl(iface, node) == o;
    assert root[..0] == [];
    assert CleanRoot(cl, root) == RootPass([] + CleanedEntry(cl, root[0]), map[iface := res], None);
    assert [iface][..0] == [];
    assert ApplyInOrder([iface], map[iface := res], m) == ApplyChange(m, iface, res);
  }

  /** An interface holding a stale partition followed by a retained one
      whose first block opens the day keeps only the retained partition,
      loses the stale one's counters and begins at the retained day. */
  lemma StaleThenRetained(c: Classifier, iface: string, p0: Entry, p1: Entry, ts: I64, b0: Block, b1: Block)
    requires c(p0).Stale? && p0.node == Dir([], [b0])
    requires c(p1) == Retained(ts) && p1.node == Dir([], [b1])
    requires b1.timestamp == ts < MaxInt64
    ensures IfacePass(c, NoFaults, iface, Dir([p0, p1], [])) ==
      IfaceOutcome(Some(Dir([p1], [])), Success(CleanIfaceResult(b0.flowCount, b0.traffic, ts, false)))
  {
    assert [p0, p1][..1] == [p0];
    assert [p0][..0] == [];
    assert [b0][..0] == [];
    assert AddBlocks(Delta(0, 0), [b0]) == Delta(b0.flowCount, b0.traffic);
    assert ScanEntries(NoFaults, iface, c, [p0]) == Scan([], Delta(b0.flowCount, b0.traffic), MaxInt64, true, None);
    assert ScanEntries(NoFaults, iface, c, [p0, p1]) == Scan([p1], Delta(b0.flowCount, b0.traffic), ts, false, None);
  }

  /** An interface holding one stale partition disappears, counters and all. */
  lemma OnlyStale(c: Classifier, iface: string, p: Entry, b: Block)
    requires c(p).Stale? && p.node == Dir([], [b])
    ensures IfacePass(c, NoFaults, iface, Dir([p], [])) ==
      IfaceOutcome(None, Success(CleanIfaceResult(b.flowCount, b.traffic, MaxInt64, true)))
  {
    assert [p][..0] == [];
    assert [b][..0] == [];
    assert AddBlocks(Delta(0, 0), [b]) == Delta(b.flowCount, b.traffic);
    assert ScanEntries(NoFaults, iface, c, [p]) == Scan([], Delta(b.flowCount, b.traffic), MaxInt64, true, None);
  }

  /** The first pass over `eth0` at `t1`, the day after `t0`: the `t0`
      partition is stale, the `t1` partition is retained and sets the new
      begin. */
  lemma FirstCleanIface(day: nat)
    requires RoomFor(day)
    ensures var t0 := day * EpochDay; var t1 := (day + 1) * EpochDay;
      var p1 := Partition(t1, 5, 500);
      CleanIfaceDir(NoFaults, t1, "eth0", Dir([Partition(t0, 10, 1000), p1], [])) ==
        IfaceOutcome(Some(Dir([p1], [])), Success(CleanIfaceResult(10, 1000, t1, false)))
  {
    var t0: I64 := day * EpochDay;
    var t1: I64 := (day + 1) * EpochDay;
    FormatParseRoundTrip(t0);
    FormatParseRoundTrip(t1);
    DayOf(day + 1, 0);
    var c := ClassifyAt(DayTimestamp(t1));
    assert c(Partition(t0, 10, 1000)) == Stale(t0);
    assert c(Partition(t1, 5, 500)) == Retained(t1);
    StaleThenRetained(c, "eth0", Partition(t0, 10, 1000), Partition(t1, 5, 500), t1, Block(t0, 10, 1000), Block(t1, 5, 500));
  }

  /** Cleaning at `t1` removes the `t0` partition only, subtracts its
      counters from the summary and moves the begin to `t1`. */
  lemma FirstClean(day: nat, now: I64)
    requires RoomFor(day) && (day + 1) * EpochDay < now
    ensures var t0 := day * EpochDay; var t1 := (day + 1) * EpochDay;
      var p1 := Partition(t1, 5, 500);
      var db := Db([Eth0([Partition(t0, 10, 1000), p1])], Some(DBSummary(map["eth0" := IfaceSummary(15, 1500, t0)])));
      && Enumerates(["eth0"], DirNames(db.root))
      && CleanOldDBDirs(now, NoFaults, t1, ["eth0"], db) ==
           Run(Db([Eth0([p1])], Some(DBSummary(map["eth0" := IfaceSummary(5, 500, t1)]))), Pass)
  {
    var t0: I64 := day * EpochDay;
    var t1: I64 := (day + 1) * EpochDay;
    var p0 := Partition(t0, 10, 1000);
    var p1 := Partition(t1, 5, 500);
    var res := CleanIfaceResult(10, 1000, t1, false);
    FirstCleanIface(day);
    FirstSummary(t0, t1);
    CleanEth0(now, t1, [p0, p1], Some([p1]), map["eth0" := IfaceSummary(15, 1500, t0)], res,
      map["eth0" := IfaceSummary(5, 500, t1)]);
  }

  /** The summary arithmetic of the first clean. */
  lemma FirstSummary(t0: I64, t1: I64)
    ensures ApplyChange(map["eth0" := IfaceSummary(15, 1500, t0)], "eth0", CleanIfaceResult(10, 1000, t1, false)) ==
      map["eth0" := IfaceSummary(5, 500, t1)]
  {
    var m := map["eth0" := IfaceSummary(15, 1500, t0)];
    assert Subtract(Lookup(m, "eth0"), CleanIfaceResult(10, 1000, t1, false)) == IfaceSummary(5, 500, t1);
    assert m["eth0" := IfaceSummary(5, 500, t1)] == map["eth0" := IfaceSummary(5, 500, t1)];
  }

  /** A clean of a database whose only interface is `eth0`, given the
      partitions its own pass keeps and the summary entry it leaves. */
  lemma CleanEth0(now: I64, timestamp: I64, partitions: seq<Entry>, after: Option<seq<Entry>>, m: map<string, IfaceSummary>,
                  res: CleanIfaceResult, m': map<string, IfaceSummary>)
    requires timestamp < now
    requires CleanIfaceDir(NoFaults, timestamp, "eth0", Dir(partitions, [])) ==
      IfaceOutcome(if after.Some? then Some(Dir(after.value, [])) else None, Success(res))
    requires ApplyChange(m, "eth0", res) == m'
    ensures Enumerates(["eth0"], DirNames([Eth0(partitions)]))
    ensures CleanOldDBDirs(now, NoFaults, timestamp, ["eth0"], Db([Eth0(partitions)], Some(DBSummary(m)))) ==
      Run(Db(if after.Some? then [Eth0(after.value)] else [], Some(DBSummary(m'))), Pass)
  {
    CleanSingleInterface(now, timestamp, "eth0", Dir(partitions, []), m,
      IfaceOutcome(if after.Some? then Some(Dir(after.value, [])) else None, Success(res)));
  }

  /** The second pass over `eth0`: its only partition is stale, so the
      directory goes and the interface is gone. */
  lemma SecondCleanIface(day: nat)
    requires RoomFor(day)
    ensures var t1 := (day + 1) * EpochDay;
      CleanIfaceDir(NoFaults, (day + 2) * EpochDay + 1, "eth0", Dir([Partition(t1, 5, 500)], [])) ==
        IfaceOutcome(None, Success(CleanIfaceResult(5, 500, MaxInt64, true)))
  {
    var t1: I64 := (day + 1) * EpochDay;
    FormatParseRoundTrip(t1);
    DayOf(day + 2, 1);
    var c := ClassifyAt(DayTimestamp((day + 2) * EpochDay + 1));
    assert c(Partition(t1, 5, 500)) == Stale(t1);
    OnlyStale(c, "eth0", Partition(t1, 5, 500), Block(t1, 5, 500));
  }

  /** Cleaning again one day and a second later removes the last
      partition: the interface is gone from the summary and its directory
      is deleted. */
  lemma SecondClean(day: nat, now: I64)
    requires RoomFor(day) && (day + 2) * EpochDay + 1 < now
    ensures var t1 := (day + 1) * EpochDay;
      var db := Db([Eth0([Partition(t1, 5, 500)])], Some(DBSummary(map["eth0" := IfaceSummary(5, 500, t1)])));
      && Enumerates(["eth0"], DirNames(db.root))
      && CleanOldDBDirs(now, NoFaults, (day + 2) * EpochDay + 1, ["eth0"], db) == Run(Db([], Some(DBSummary(map[]))), Pass)
  {
    var t1: I64 := (day + 1) * EpochDay;
    var eth0 := Eth0([Partition(t1, 5, 500)]);
    var m := map["eth0" := IfaceSummary(5, 500, t1)];
    SecondCleanIface(day);
    CleanSingleInterface(now, (day + 2) * EpochDay + 1, "eth0", eth0.node, m,
      IfaceOutcome(None, Success(CleanIfaceResult(5, 500, MaxInt64, true))));
    assert m - {"eth0"} == map[];
  }
}
