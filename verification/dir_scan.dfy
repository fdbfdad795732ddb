/** The loop of `cleanIfaceDir` over the entries of one interface directory,
    written over a classification of the entries so that its properties do not
    depend on how partition names are parsed. */
module DirScan {
  import opened Wrappers
  import opened Decimal
  import opened Store

  /** What the scan makes of one entry of an interface directory. */
  datatype EntryKind =
    | NotADir           // a plain file: kept
    | Foreign           // a directory whose name fails the int64 round trip: kept
    | Stale(ts: I64)    // a partition older than the day-aligned cutoff: removed
    | Retained(ts: I64) // a partition at or after the cutoff: kept

  type Classifier = Entry -> EntryKind

  predicate IsStale(c: Classifier, e: Entry) {
    c(e).Stale?
  }

  /** The loop state: the entries still on disk, the running delta,
      `NewBegin`, the `clean` flag and the first removal error. */
  datatype Scan = Scan(kept: seq<Entry>, delta: Delta, newBegin: I64, clean: bool, failure: Option<Error>)

  const ScanStart: Scan := Scan([], Delta(0, 0), MaxInt64, true, None)

  /** A retained partition lowers `NewBegin` to its first block's timestamp,
      but only when the partition's own timestamp is below the current value
      (the metadata is not even read otherwise). */
  function LowerBegin(newBegin: I64, ts: I64, meta: seq<Block>): (nb: I64)
    ensures nb <= newBegin
    ensures nb != newBegin ==> |meta| > 0 && nb == meta[0].timestamp && ts < newBegin
  {
    if ts < newBegin && |meta| > 0 && meta[0].timestamp < newBegin then meta[0].timestamp else newBegin
  }

  /** One iteration over the entry `e` of interface `iface`. */
  function Step(faults: Faults, iface: string, k: EntryKind, s: Scan, e: Entry): Scan {
    match k
    case NotADir => s.(kept := s.kept + [e], clean := false)
    case Foreign => s.(kept := s.kept + [e], clean := false)
    case Stale(_) =>
      if [iface, e.name] in faults.undeletable then
        s.(kept := s.kept + [e], failure := Some(RemoveFailed([iface, e.name])))
      else
        s.(delta := AddBlocks(s.delta, ReadMeta(e.node)))
    case Retained(ts) =>
      s.(kept := s.kept + [e], clean := false, newBegin := LowerBegin(s.newBegin, ts, ReadMeta(e.node)))
  }

  /** The loop over the entries in listing order; after the first failed
      removal the remaining entries are left as they are. */
  function ScanEntries(faults: Faults, iface: string, c: Classifier, entries: seq<Entry>): Scan {
    if |entries| == 0 then ScanStart
    else
      var s := ScanEntries(faults, iface, c, entries[..|entries| - 1]);
      var e := entries[|entries| - 1];
      if s.failure.Some? then s.(kept := s.kept + [e]) else Step(faults, iface, c(e), s, e)
  }

  // ---------------------------------------------------------------------
  // Reference definitions, independent of the loop.

  /** The entries that are not stale partitions, in listing order. */
  function Survivors(c: Classifier, entries: seq<Entry>): seq<Entry> {
    if |entries| == 0 then []
    else
      var p := Survivors(c, entries[..|entries| - 1]);
      var e := entries[|entries| - 1];
      if IsStale(c, e) then p else p + [e]
  }

  /** The blocks of all stale partitions, in listing order. */
  function StaleBlocks(c: Classifier, entries: seq<Entry>): seq<Block> {
    if |entries| == 0 then []
    else
      var e := entries[|entries| - 1];
      StaleBlocks(c, entries[..|entries| - 1]) + (if IsStale(c, e) then ReadMeta(e.node) else [])
  }

  /** A retained partition that can bring `NewBegin` below its initial value. */
  predicate OpensBegin(c: Classifier, e: Entry) {
    var k := c(e);
    var meta := ReadMeta(e.node);
    k.Retained? && k.ts < MaxInt64 && |meta| > 0 && meta[0].timestamp < MaxInt64
  }

  /** The way the capture side writes partitions: a retained partition's first
      block does not start before the day the partition is named after. */
  predicate FirstBlockInPartition(c: Classifier, e: Entry) {
    var k := c(e);
    var meta := ReadMeta(e.node);
    k.Retained? && |meta| > 0 ==> k.ts <= meta[0].timestamp
  }

  function Min(a: I64, b: I64): I64 {
    if a <= b then a else b
  }

  /** The earliest first-block timestamp over all retained partitions, or
      MaxInt64 when there is none. */
  function EarliestRetained(c: Classifier, entries: seq<Entry>): I64 {
    if |entries| == 0 then MaxInt64
    else
      var p := EarliestRetained(c, entries[..|entries| - 1]);
      var e := entries[|entries| - 1];
      var meta := ReadMeta(e.node);
      if c(e).Retained? && |meta| > 0 then Min(p, meta[0].timestamp) else p
  }

  // ---------------------------------------------------------------------
  // Properties of the scan.

  /** Files, foreign directories and retained partitions are never removed,
      not even by a scan that stops on an error. */
  lemma {:induction false} ScanKeepsNonStale(faults: Faults, iface: string, c: Classifier, entries: seq<Entry>)
    ensures forall i :: 0 <= i < |entries| && !IsStale(c, entries[i]) ==>
      entries[i] in ScanEntries(faults, iface, c, entries).kept
  {
    if |entries| > 0 {
      var init := entries[..|entries| - 1];
      ScanKeepsNonStale(faults, iface, c, init);
      forall i | 0 <= i < |entries| - 1
        ensures entries[i] == init[i]
      {
      }
    }
  }

  /** Whatever the scan keeps was in the directory before. */
  lemma {:induction false} ScanInventsNothing(faults: Faults, iface: string, c: Classifier, entries: seq<Entry>)
    ensures forall e :: e in ScanEntries(faults, iface, c, entries).kept ==> e in entries
  {
    if |entries| > 0 {
      var init := entries[..|entries| - 1];
      ScanInventsNothing(faults, iface, c, init);
      assert forall e :: e in init ==> e in entries;
    }
  }

  /** The scan fails exactly when some stale partition cannot be removed, and
      then reports such a partition. */
  lemma {:induction false} ScanFailure(faults: Faults, iface: string, c: Classifier, entries: seq<Entry>)
    ensures ScanEntries(faults, iface, c, entries).failure.None? <==>
      forall i :: 0 <= i < |entries| && IsStale(c, entries[i]) ==> [iface, entries[i].name] !in faults.undeletable
    ensures ScanEntries(faults, iface, c, entries).failure.Some? ==>
      exists i :: 0 <= i < |entries| && IsStale(c, entries[i]) &&
        ScanEntries(faults, iface, c, entries).failure == Some(RemoveFailed([iface, entries[i].name]))
  {
    if |entries| > 0 {
      var init := entries[..|entries| - 1];
      ScanFailure(faults, iface, c, init);
      forall i | 0 <= i < |entries| - 1
        ensures entries[i] == init[i]
      {
      }
    }
  }

  /** A failed scan stops at the first stale partition it cannot remove: the
      stale partitions before it were removed, it is reported, and it and
      every entry after it are left on disk. */
  lemma {:induction false} ScanStops(faults: Faults, iface: string, c: Classifier, entries: seq<Entry>) returns (j: nat)
    requires ScanEntries(faults, iface, c, entries).failure.Some?
    ensures j < |entries| && IsStale(c, entries[j]) && [iface, entries[j].name] in faults.undeletable
    ensures ScanEntries(faults, iface, c, entries).failure == Some(RemoveFailed([iface, entries[j].name]))
    ensures forall i :: 0 <= i < j && IsStale(c, entries[i]) ==> [iface, entries[i].name] !in faults.undeletable
    ensures ScanEntries(faults, iface, c, entries).kept == Survivors(c, entries[..j]) + entries[j..]
  {
    var init := entries[..|entries| - 1];
    var e := entries[|entries| - 1];
    if ScanEntries(faults, iface, c, init).failure.Some? {
      j := ScanStops(faults, iface, c, init);
      assert init[..j] == entries[..j];
      assert init[j..] + [e] == entries[j..];
      forall i | 0 <= i <= j
        ensures init[i] == entries[i]
      {
      }
    } else {
      j := |entries| - 1;
      ScanFailure(faults, iface, c, init);
      ScanKeepsSurvivors(faults, iface, c, init);
      assert entries[..j] == init;
      assert entries[j..] == [e];
      forall i | 0 <= i < j
        ensures init[i] == entries[i]
      {
      }
    }
  }

  /** A scan without failure keeps exactly the survivors, in order. */
  lemma {:induction false} ScanKeepsSurvivors(faults: Faults, iface: string, c: Classifier, entries: seq<Entry>)
    requires ScanEntries(faults, iface, c, entries).failure.None?
    ensures ScanEntries(faults, iface, c, entries).kept == Survivors(c, entries)
  {
    if |entries| > 0 {
      ScanKeepsSurvivors(faults, iface, c, entries[..|entries| - 1]);
    }
  }

  lemma {:induction false} ScanDeltaBlocks(faults: Faults, iface: string, c: Classifier, entries: seq<Entry>)
    requires ScanEntries(faults, iface, c, entries).failure.None?
    ensures ScanEntries(faults, iface, c, entries).delta == AddBlocks(Delta(0, 0), StaleBlocks(c, entries))
  {
    if |entries| > 0 {
      var init := entries[..|entries| - 1];
      var e := entries[|entries| - 1];
      ScanDeltaBlocks(faults, iface, c, init);
      if IsStale(c, e) {
        AddBlocksAppend(Delta(0, 0), StaleBlocks(c, init), ReadMeta(e.node));
      } else {
        assert StaleBlocks(c, entries) == StaleBlocks(c, init) + [] == StaleBlocks(c, init);
      }
    }
  }

  /** A scan without failure collects the counters of exactly the stale
      partitions' blocks, wrapped to uint64. */
  lemma ScanDelta(faults: Faults, iface: string, c: Classifier, entries: seq<Entry>)
    requires ScanEntries(faults, iface, c, entries).failure.None?
    ensures ScanEntries(faults, iface, c, entries).delta ==
      Delta(FlowSum(StaleBlocks(c, entries)) % TwoTo64, TrafficSum(StaleBlocks(c, entries)) % TwoTo64)
  {
    ScanDeltaBlocks(faults, iface, c, entries);
    AddBlocksIsWrappedSum(Delta(0, 0), StaleBlocks(c, entries));
  }

  /** Without a failure, the `clean` flag survives exactly when every entry
      was a stale partition. */
  lemma {:induction false} ScanCleanFlag(faults: Faults, iface: string, c: Classifier, entries: seq<Entry>)
    ensures ScanEntries(faults, iface, c, entries).failure.None? ==>
      (ScanEntries(faults, iface, c, entries).clean <==> forall i :: 0 <= i < |entries| ==> IsStale(c, entries[i]))
  {
    if |entries| > 0 {
      var init := entries[..|entries| - 1];
      ScanCleanFlag(faults, iface, c, init);
      forall i | 0 <= i < |entries| - 1
        ensures entries[i] == init[i]
      {
      }
    }
  }

  /** `NewBegin` stays at MaxInt64 exactly when no retained partition could
      lower it; otherwise it is the first-block timestamp of some retained
      partition. */
  lemma {:induction false} NewBeginSource(faults: Faults, iface: string, c: Classifier, entries: seq<Entry>)
    requires ScanEntries(faults, iface, c, entries).failure.None?
    ensures ScanEntries(faults, iface, c, entries).newBegin == MaxInt64 <==>
      forall i :: 0 <= i < |entries| ==> !OpensBegin(c, entries[i])
    ensures ScanEntries(faults, iface, c, entries).newBegin == MaxInt64 ||
      exists i :: 0 <= i < |entries| && c(entries[i]).Retained? && |ReadMeta(entries[i].node)| > 0 &&
        ReadMeta(entries[i].node)[0].timestamp == ScanEntries(faults, iface, c, entries).newBegin
  {
    if |entries| > 0 {
      var init := entries[..|entries| - 1];
      NewBeginSource(faults, iface, c, init);
      forall i | 0 <= i < |entries| - 1
        ensures entries[i] == init[i]
      {
      }
    }
  }

  /** `NewBegin` never grows while the scan advances. */
  lemma {:induction false} NewBeginMonotone(faults: Faults, iface: string, c: Classifier, entries: seq<Entry>, j: nat)
    requires j <= |entries|
    requires ScanEntries(faults, iface, c, entries).failure.None?
    ensures ScanEntries(faults, iface, c, entries).newBegin <= ScanEntries(faults, iface, c, entries[..j]).newBegin
  {
    if j < |entries| {
      var init := entries[..|entries| - 1];
      assert init[..j] == entries[..j];
      NewBeginMonotone(faults, iface, c, init, j);
    } else {
      assert entries[..j] == entries;
    }
  }

  /** When first blocks lie inside their partitions, the order-dependent loop
      finds the earliest first block of all retained partitions: skipping a
      partition whose name is not below `NewBegin` loses nothing. */
  lemma {:induction false} NewBeginIsEarliest(faults: Faults, iface: string, c: Classifier, entries: seq<Entry>)
    requires ScanEntries(faults, iface, c, entries).failure.None?
    requires forall i :: 0 <= i < |entries| ==> FirstBlockInPartition(c, entries[i])
    ensures ScanEntries(faults, iface, c, entries).newBegin == EarliestRetained(c, entries)
  {
    if |entries| > 0 {
      var init := entries[..|entries| - 1];
      forall i | 0 <= i < |init|
        ensures FirstBlockInPartition(c, init[i])
      {
        assert init[i] == entries[i];
      }
      NewBeginIsEarliest(faults, iface, c, init);
      assert FirstBlockInPartition(c, entries[|entries| - 1]);
    }
  }
}
