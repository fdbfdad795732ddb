/** `cleanIfaceDir`: one pass over the entries of one interface directory.
    Stale partitions are removed and their counters collected, everything else
    is kept, the earliest retained block becomes the interface's new begin, and
    the interface directory itself goes only when nothing but stale
    partitions was in it. */
module CleanIface {
  import opened Wrappers
  import opened Decimal
  import opened Store
  import opened DirScan

  /** How `cleanIfaceDir` sorts an entry, given the day-aligned cutoff. */
  function Classify(e: Entry, dayTs: int): EntryKind {
    if !e.node.Dir? then NotADir
    else match ParseInt64(e.name)
      case None => Foreign
      case Some(v) =>
        if FormatInt64(v) != e.name then Foreign
        else if v < dayTs then Stale(v)
        else Retained(v)
  }

  function ClassifyAt(dayTs: int): Classifier {
    e => Classify(e, dayTs)
  }

  /** The per-interface changes `cleanIfaceDir` hands back for the summary. */
  datatype CleanIfaceResult = CleanIfaceResult(
    deltaFlowCount: U64,  // flows deleted
    deltaTraffic: U64,    // traffic bytes deleted
    newBegin: I64,        // timestamp of the new begin
    gone: bool)           // the interface has no entries left

  /** What `cleanIfaceDir` leaves behind (`None` once the interface directory
      is removed) and what it returns. */
  datatype IfaceOutcome = IfaceOutcome(after: Option<Node>, result: Result<CleanIfaceResult, Error>)

  /** The body of `cleanIfaceDir` for a given classification of entries:
      list the directory, scan it, and remove the directory itself when
      every entry went. */
  function IfacePass(c: Classifier, faults: Faults, iface: string, node: Node): IfaceOutcome {
    if !node.Dir? || [iface] in faults.unreadable then
      IfaceOutcome(Some(node), Failure(ReadDirFailed([iface])))
    else
      var s := ScanEntries(faults, iface, c, node.children);
      var after := Dir(s.kept, node.meta);
      if s.failure.Some? then IfaceOutcome(Some(after), Failure(s.failure.value))
      else
        var result := CleanIfaceResult(s.delta.flowCount, s.delta.traffic, s.newBegin, s.newBegin == MaxInt64);
        if !s.clean then IfaceOutcome(Some(after), Success(result))
        else if [iface] in faults.undeletable then IfaceOutcome(Some(after), Failure(RemoveFailed([iface])))
        else IfaceOutcome(None, Success(result))
  }

  /** `cleanIfaceDir(dbPath, timestamp, iface)` on the interface directory
      `node`: entries are classified against the day of `timestamp`. */
  function CleanIfaceDir(faults: Faults, timestamp: I64, iface: string, node: Node): (r: IfaceOutcome)
    ensures r.result.Failure? ==> r.after.Some?
    ensures r.after.None? ==>
      && r.result.Success?
      && node.Dir?
      && (forall i :: 0 <= i < |node.children| ==> IsStale(ClassifyAt(DayTimestamp(timestamp)), node.children[i]))
    ensures node.Dir? ==>
      forall i :: 0 <= i < |node.children| && !IsStale(ClassifyAt(DayTimestamp(timestamp)), node.children[i]) ==>
        r.after.Some? && r.after.value.Dir? && node.children[i] in r.after.value.children
  {
    var c := ClassifyAt(DayTimestamp(timestamp));
    if node.Dir? then
      ScanKeepsNonStale(faults, iface, c, node.children);
      ScanCleanFlag(faults, iface, c, node.children);
      IfacePass(c, faults, iface, node)
    else IfacePass(c, faults, iface, node)
  }

  /** The classification as the parse-and-reprint test leaves it. */
  lemma ClassifyCases(e: Entry, dayTs: int)
    ensures Classify(e, dayTs).NotADir? <==> !e.node.Dir?
    ensures Classify(e, dayTs).Foreign? <==> e.node.Dir? && !IsPartitionName(e.name)
    ensures Classify(e, dayTs).Stale? <==>
      e.node.Dir? && IsPartitionName(e.name) && ParseInt64(e.name).value < dayTs
    ensures Classify(e, dayTs).Retained? <==>
      e.node.Dir? && IsPartitionName(e.name) && dayTs <= ParseInt64(e.name).value
  {
  }

  /** The classification stated without the parser: a directory is a
      partition exactly when its name is the canonical decimal spelling of an
      int64 (no `+`, no leading zero, no `-0`), the partition's timestamp is
      the value that spelling denotes, and it is stale exactly when that value
      is below the day-aligned cutoff. */
  lemma ClassifyMeaning(e: Entry, dayTs: int)
    ensures Classify(e, dayTs).NotADir? <==> !e.node.Dir?
    ensures Classify(e, dayTs).Foreign? <==>
      e.node.Dir? && !(CanonicalDecimal(e.name) && MinInt64 <= CanonicalValue(e.name) <= MaxInt64)
    ensures Classify(e, dayTs).Stale? <==>
      && e.node.Dir? && CanonicalDecimal(e.name) && MinInt64 <= CanonicalValue(e.name) <= MaxInt64
      && CanonicalValue(e.name) < dayTs
    ensures Classify(e, dayTs).Retained? <==>
      && e.node.Dir? && CanonicalDecimal(e.name) && MinInt64 <= CanonicalValue(e.name) <= MaxInt64
      && dayTs <= CanonicalValue(e.name)
    ensures Classify(e, dayTs).Stale? || Classify(e, dayTs).Retained? ==>
      CanonicalDecimal(e.name) && Classify(e, dayTs).ts == CanonicalValue(e.name)
  {
    ClassifyCases(e, dayTs);
    PartitionNameIsCanonical(e.name);
    if IsPartitionName(e.name) {
      var v := ParseInt64(e.name).value;
      FormatCanonical(v);
    }
  }

  /** A plain file, or a directory whose name is not the exact decimal form
      of an int64, survives any clean of its interface, whatever else fails. */
  lemma NeverDeletesForeign(faults: Faults, timestamp: I64, iface: string, node: Node, i: nat)
    requires node.Dir? && i < |node.children|
    requires !node.children[i].node.Dir? || !IsPartitionName(node.children[i].name)
    ensures CleanIfaceDir(faults, timestamp, iface, node).after.Some?
    ensures node.children[i] in CleanIfaceDir(faults, timestamp, iface, node).after.value.children
  {
    ClassifyCases(node.children[i], DayTimestamp(timestamp));
  }

  /** `cleanIfaceDir` succeeds exactly when the directory can be listed, every
      stale partition can be removed, and, when nothing else was in it, the
      interface directory itself can be removed. */
  lemma CleanIfaceDirSucceeds(faults: Faults, timestamp: I64, iface: string, node: Node)
    requires node.Dir?
    ensures CleanIfaceDir(faults, timestamp, iface, node).result.Success? <==>
      var c := ClassifyAt(DayTimestamp(timestamp));
      && [iface] !in faults.unreadable
      && (forall i :: 0 <= i < |node.children| && IsStale(c, node.children[i]) ==>
            [iface, node.children[i].name] !in faults.undeletable)
      && ((forall i :: 0 <= i < |node.children| ==> IsStale(c, node.children[i])) ==> [iface] !in faults.undeletable)
  {
    var c := ClassifyAt(DayTimestamp(timestamp));
    ScanFailure(faults, iface, c, node.children);
    ScanCleanFlag(faults, iface, c, node.children);
  }

  /** A successful clean of one interface directory: it disappears exactly
      when every entry was a stale partition, otherwise it keeps exactly the
      non-stale entries; the deltas are the wrapped sums over the removed
      blocks; the interface is Gone exactly when no retained partition could
      lower `NewBegin`, which otherwise is a retained first-block timestamp. */
  lemma CleanIfaceDirSpec(faults: Faults, timestamp: I64, iface: string, node: Node)
    requires CleanIfaceDir(faults, timestamp, iface, node).result.Success?
    ensures node.Dir?
    ensures var c := ClassifyAt(DayTimestamp(timestamp));
      var r := CleanIfaceDir(faults, timestamp, iface, node);
      && (r.after.None? <==> forall i :: 0 <= i < |node.children| ==> IsStale(c, node.children[i]))
      && (r.after.Some? ==> r.after.value == Dir(Survivors(c, node.children), node.meta))
      && r.result.value.deltaFlowCount == FlowSum(StaleBlocks(c, node.children)) % TwoTo64
      && r.result.value.deltaTraffic == TrafficSum(StaleBlocks(c, node.children)) % TwoTo64
      && (r.result.value.gone <==> r.result.value.newBegin == MaxInt64)
      && (r.result.value.gone <==> forall i :: 0 <= i < |node.children| ==> !OpensBegin(c, node.children[i]))
      && (r.result.value.gone ||
            exists i :: 0 <= i < |node.children| && c(node.children[i]).Retained? &&
              |ReadMeta(node.children[i].node)| > 0 &&
              ReadMeta(node.children[i].node)[0].timestamp == r.result.value.newBegin)
  {
    var c := ClassifyAt(DayTimestamp(timestamp));
    var s := ScanEntries(faults, iface, c, node.children);
    assert s.failure.None?;
    ScanCleanFlag(faults, iface, c, node.children);
    ScanKeepsSurvivors(faults, iface, c, node.children);
    ScanDelta(faults, iface, c, node.children);
    NewBeginSource(faults, iface, c, node.children);
  }

  /** With first blocks inside their partitions, a successful clean sets the
      new begin to the earliest first block of the retained partitions. */
  lemma CleanIfaceDirBegin(faults: Faults, timestamp: I64, iface: string, node: Node)
    requires CleanIfaceDir(faults, timestamp, iface, node).result.Success?
    requires node.Dir?
    requires forall i :: 0 <= i < |node.children| ==>
      FirstBlockInPartition(ClassifyAt(DayTimestamp(timestamp)), node.children[i])
    ensures CleanIfaceDir(faults, timestamp, iface, node).result.value.newBegin ==
      EarliestRetained(ClassifyAt(DayTimestamp(timestamp)), node.children)
  {
    NewBeginIsEarliest(faults, iface, ClassifyAt(DayTimestamp(timestamp)), node.children);
  }

  /** A partition as it lies on disk, whatever the cutoff. */
  predicate IsPartition(e: Entry) {
    e.node.Dir? && IsPartitionName(e.name)
  }

  /** The blocks of every partition among `entries`, in listing order: what
      the summary's counters for the interface describe. */
  function StoredBlocks(entries: seq<Entry>): seq<Block> {
    if |entries| == 0 then []
    else
      var e := entries[|entries| - 1];
      StoredBlocks(entries[..|entries| - 1]) + (if IsPartition(e) then ReadMeta(e.node) else [])
  }

  /** The stored blocks of an interface split into the ones a clean removes
      and the ones still stored among the survivors. */
  lemma {:induction false} StoredSplit(dayTs: int, entries: seq<Entry>)
    ensures var c := ClassifyAt(dayTs);
      && FlowSum(StoredBlocks(entries)) ==
           FlowSum(StaleBlocks(c, entries)) + FlowSum(StoredBlocks(Survivors(c, entries)))
      && TrafficSum(StoredBlocks(entries)) ==
           TrafficSum(StaleBlocks(c, entries)) + TrafficSum(StoredBlocks(Survivors(c, entries)))
  {
    if |entries| > 0 {
      var c := ClassifyAt(dayTs);
      var init := entries[..|entries| - 1];
      var e := entries[|entries| - 1];
      StoredSplit(dayTs, init);
      ClassifyCases(e, dayTs);
      var own := if IsPartition(e) then ReadMeta(e.node) else [];
      SumsAppend(StoredBlocks(init), own);
      if IsStale(c, e) {
        SumsAppend(StaleBlocks(c, init), own);
      } else {
        var surv := Survivors(c, init);
        assert (surv + [e])[..|surv + [e]| - 1] == surv;
        SumsAppend(StoredBlocks(surv), own);
        assert StaleBlocks(c, entries) == StaleBlocks(c, init) + [];
        assert StaleBlocks(c, init) + [] == StaleBlocks(c, init);
      }
    }
  }

  /** Gone does not imply removed: an interface holding only a stray file
      loses its summary entry but keeps its directory. */
  lemma GoneButKept(timestamp: I64)
    ensures var node := Dir([Entry("notes.txt", File)], []);
      CleanIfaceDir(NoFaults, timestamp, "eth0", node) ==
        IfaceOutcome(Some(node), Success(CleanIfaceResult(0, 0, MaxInt64, true)))
  {
    var node := Dir([Entry("notes.txt", File)], []);
    var c := ClassifyAt(DayTimestamp(timestamp));
    assert node.children[..0] == [];
    assert ScanEntries(NoFaults, "eth0", c, node.children) == Scan(node.children, Delta(0, 0), MaxInt64, false, None);
  }
}
