/** `cleanOldDBDirs` and `wipeDB`: the two retention commands over the whole
    database, the root directory of interface directories plus the summary
    ledger. */
module CleanDb {
  import opened Wrappers
  import opened Decimal
  import opened Store
  import opened DirScan
  import opened CleanIface
  import opened Summary

  /** The database: the entries of its root directory, and the stored
      summary (`None` when the summary document is missing). */
  datatype Db = Db(root: seq<Entry>, summary: Option<DBSummary>)

  /** The database after a retention command, and the command's error. */
  datatype Run = Run(db: Db, outcome: Outcome<Error>)

  /** The names of the interface directories under the root. */
  function DirNames(root: seq<Entry>): set<string> {
    set i | 0 <= i < |root| && root[i].node.Dir? :: root[i].name
  }

  /** How one interface directory gets cleaned: `cleanIfaceDir` with the
      run's faults and cutoff fixed. */
  type IfaceCleaner = (string, Node) -> IfaceOutcome

  function Cleaner(faults: Faults, timestamp: I64): IfaceCleaner {
    (iface, node) => CleanIfaceDir(faults, timestamp, iface, node)
  }

  /** What is left of one root entry once `cleanOldDBDirs` has been through
      it: plain files are skipped, an interface directory is cleaned. */
  function CleanedEntry(cl: IfaceCleaner, e: Entry): seq<Entry> {
    if !e.node.Dir? then [e]
    else match cl(e.name, e.node).after
      case None => []
      case Some(n) => [Entry(e.name, n)]
  }

  /** Reference definition: every root entry after cleaning, in order. */
  function CleanedAll(cl: IfaceCleaner, root: seq<Entry>): seq<Entry> {
    if |root| == 0 then []
    else CleanedAll(cl, root[..|root| - 1]) + CleanedEntry(cl, root[|root| - 1])
  }

  /** The state of the loop over the root: entries on disk, the
      `ifaceResults` map, and the error that ended the loop. */
  datatype RootPass = RootPass(entries: seq<Entry>, results: map<string, CleanIfaceResult>, failure: Option<Error>)

  /** The `for _, iface := range ifaces` loop of `cleanOldDBDirs`; the first
      failing interface ends it, leaving later entries as they are and
      earlier deletions in place. */
  function CleanRoot(cl: IfaceCleaner, root: seq<Entry>): RootPass {
    if |root| == 0 then RootPass([], map[], None)
    else
      var p := CleanRoot(cl, root[..|root| - 1]);
      var e := root[|root| - 1];
      if p.failure.Some? || !e.node.Dir? then p.(entries := p.entries + [e])
      else
        var left := p.entries + CleanedEntry(cl, e);
        match cl(e.name, e.node).result
        case Failure(err) => RootPass(left, p.results, Some(err))
        case Success(res) => RootPass(left, p.results[e.name := res], None)
  }

  /** Plain files in the root are never touched by the loop. */
  lemma {:induction false} CleanRootKeepsFiles(cl: IfaceCleaner, root: seq<Entry>)
    ensures forall i :: 0 <= i < |root| && !root[i].node.Dir? ==> root[i] in CleanRoot(cl, root).entries
  {
    if |root| > 0 {
      var init := root[..|root| - 1];
      CleanRootKeepsFiles(cl, init);
      forall i | 0 <= i < |root| - 1
        ensures root[i] == init[i]
      {
      }
    }
  }

  /** A loop that meets no error cleans every interface, leaves the reference
      result on disk and has one result per interface directory. */
  lemma {:induction false} CleanRootComplete(cl: IfaceCleaner, root: seq<Entry>)
    ensures CleanRoot(cl, root).failure.None? <==>
      forall i :: 0 <= i < |root| && root[i].node.Dir? ==> cl(root[i].name, root[i].node).result.Success?
    ensures CleanRoot(cl, root).failure.None? ==>
      CleanRoot(cl, root).entries == CleanedAll(cl, root) && CleanRoot(cl, root).results.Keys == DirNames(root)
  {
    if |root| > 0 {
      var init := root[..|root| - 1];
      var e := root[|root| - 1];
      CleanRootComplete(cl, init);
      forall i | 0 <= i < |root| - 1
        ensures root[i] == init[i]
      {
      }
      assert DirNames(root) == DirNames(init) + (if e.node.Dir? then {e.name} else {}) by {
        forall n | n in DirNames(root)
          ensures n in DirNames(init) + (if e.node.Dir? then {e.name} else {})
        {
          var i :| 0 <= i < |root| && root[i].node.Dir? && root[i].name == n;
          if i < |root| - 1 {
            assert init[i] == root[i];
          }
        }
      }
    }
  }

  /** With distinct interface names, each interface's entry in
      `ifaceResults` is what cleaning that interface returned. */
  lemma {:induction false} CleanRootResults(cl: IfaceCleaner, root: seq<Entry>)
    requires DistinctNames(root)
    ensures CleanRoot(cl, root).failure.None? ==>
      forall i :: 0 <= i < |root| && root[i].node.Dir? ==>
        var res := cl(root[i].name, root[i].node).result;
        res.Success? && root[i].name in CleanRoot(cl, root).results && CleanRoot(cl, root).results[root[i].name] == res.value
  {
    if |root| > 0 {
      var init := root[..|root| - 1];
      CleanRootComplete(cl, root);
      CleanRootResults(cl, init);
      forall i | 0 <= i < |root| - 1
        ensures root[i] == init[i] && root[i].name != root[|root| - 1].name
      {
      }
    }
  }

  /** Where the loop stopped: the interface at `j` failed, those before it
      were cleaned, and the entries after it were passed over. */
  predicate StoppedAt(cl: IfaceCleaner, root: seq<Entry>, j: nat)
    requires CleanRoot(cl, root).failure.Some?
  {
    && j < |root| && root[j].node.Dir?
    && cl(root[j].name, root[j].node).result == Failure(CleanRoot(cl, root).failure.value)
    && (forall i :: 0 <= i < j && root[i].node.Dir? ==> cl(root[i].name, root[i].node).result.Success?)
    && CleanRoot(cl, root).entries == CleanedAll(cl, root[..j + 1]) + root[j + 1..]
  }

  lemma ShiftTail(done: seq<Entry>, root: seq<Entry>, j: nat)
    requires j + 1 < |root|
    ensures root[..|root| - 1][..j + 1] == root[..j + 1]
    ensures (done + root[..|root| - 1][j + 1..]) + [root[|root| - 1]] == done + root[j + 1..]
  {
    assert root[..|root| - 1][j + 1..] + [root[|root| - 1]] == root[j + 1..];
  }

  /** An entry after the failure does not move the stopping point. */
  lemma StoppedEarlier(cl: IfaceCleaner, root: seq<Entry>, j: nat)
    requires |root| > 0
    requires CleanRoot(cl, root[..|root| - 1]).failure.Some?
    requires StoppedAt(cl, root[..|root| - 1], j)
    ensures CleanRoot(cl, root).failure.Some? && StoppedAt(cl, root, j)
  {
    var init := root[..|root| - 1];
    var p := CleanRoot(cl, init);
    assert CleanRoot(cl, root) == p.(entries := p.entries + [root[|root| - 1]]);
    ShiftTail(CleanedAll(cl, init[..j + 1]), root, j);
    assert forall i :: 0 <= i <= j ==> init[i] == root[i];
  }

  /** The first failure stops the loop at the entry that caused it. */
  lemma StoppedHere(cl: IfaceCleaner, root: seq<Entry>)
    requires |root| > 0
    requires CleanRoot(cl, root[..|root| - 1]).failure.None?
    requires CleanRoot(cl, root).failure.Some?
    ensures StoppedAt(cl, root, |root| - 1)
  {
    var init := root[..|root| - 1];
    CleanRootComplete(cl, init);
    assert root[..|root|] == root;
    assert root[|root|..] == [];
    forall i | 0 <= i < |root| - 1
      ensures init[i] == root[i]
    {
    }
  }

  /** No rollback: when an interface fails, the interfaces before it stay
      cleaned, the failing one keeps whatever its own pass left, and the
      entries after it are untouched. */
  lemma {:induction false} CleanRootStops(cl: IfaceCleaner, root: seq<Entry>) returns (j: nat)
    requires CleanRoot(cl, root).failure.Some?
    ensures StoppedAt(cl, root, j)
  {
    var init := root[..|root| - 1];
    if CleanRoot(cl, init).failure.Some? {
      j := CleanRootStops(cl, init);
      StoppedEarlier(cl, root, j);
    } else {
      j := |root| - 1;
      StoppedHere(cl, root);
    }
  }

  /** `cleanOldDBDirs(dbPath, timestamp)` at time `now`. `order` is the
      order in which Go happens to range over the `ifaceResults` map: each
      interface directory once. */
  function CleanOldDBDirs(now: I64, faults: Faults, timestamp: I64, order: seq<string>, db: Db): (r: Run)
    requires Enumerates(order, DirNames(db.root))
    ensures timestamp >= now ==> r == Run(db, Fail(CutoffNotInPast))
    ensures r.outcome.Fail? ==> r.db.summary == db.summary
    ensures forall i :: 0 <= i < |db.root| && !db.root[i].node.Dir? ==> db.root[i] in r.db.root
  {
    if timestamp >= now then Run(db, Fail(CutoffNotInPast))
    else if [] in faults.unreadable then Run(db, Fail(ReadDirFailed([])))
    else
      var pass := CleanRoot(Cleaner(faults, timestamp), db.root);
      CleanRootKeepsFiles(Cleaner(faults, timestamp), db.root);
      if pass.failure.Some? then Run(Db(pass.entries, db.summary), Fail(pass.failure.value))
      else
        CleanRootComplete(Cleaner(faults, timestamp), db.root);
        assert forall i :: 0 <= i < |order| ==> order[i] in Elements(order);
        var commit := ModifyDBSummary(faults.lockTimeout, db.summary, s => Reconcile(order, pass.results, s));
        Run(Db(pass.entries, commit.stored), commit.outcome)
  }

  /** A clean succeeds exactly when the cutoff is in the past, the root and
      every interface can be cleaned, the summary exists and its lock is
      acquired. */
  lemma CleanOldDBDirsSucceeds(now: I64, faults: Faults, timestamp: I64, order: seq<string>, db: Db)
    requires Enumerates(order, DirNames(db.root))
    ensures CleanOldDBDirs(now, faults, timestamp, order, db).outcome.Pass? <==>
      && timestamp < now
      && [] !in faults.unreadable
      && (forall i :: 0 <= i < |db.root| && db.root[i].node.Dir? ==>
            CleanIfaceDir(faults, timestamp, db.root[i].name, db.root[i].node).result.Success?)
      && db.summary.Some?
      && !faults.lockTimeout
  {
    CleanRootComplete(Cleaner(faults, timestamp), db.root);
  }

  /** A successful clean leaves the reference root on disk and reconciles the
      summary interface by interface: gone interfaces are dropped, every
      other interface directory has its counters reduced by its delta and
      its begin overwritten, and summary entries without a directory are
      unchanged. */
  lemma CleanOldDBDirsSpec(now: I64, faults: Faults, timestamp: I64, order: seq<string>, db: Db)
    requires Enumerates(order, DirNames(db.root))
    requires DistinctNames(db.root)
    requires CleanOldDBDirs(now, faults, timestamp, order, db).outcome.Pass?
    ensures db.summary.Some?
    ensures var r := CleanOldDBDirs(now, faults, timestamp, order, db);
      && r.db.root == CleanedAll(Cleaner(faults, timestamp), db.root)
      && r.db.summary.Some?
      && (forall i :: 0 <= i < |db.root| && db.root[i].node.Dir? ==>
            var res := CleanIfaceDir(faults, timestamp, db.root[i].name, db.root[i].node).result;
            var name := db.root[i].name;
            && res.Success?
            && (res.value.gone ==> name !in r.db.summary.value.interfaces)
            && (!res.value.gone ==>
                  name in r.db.summary.value.interfaces &&
                  r.db.summary.value.interfaces[name] == Subtract(Lookup(db.summary.value.interfaces, name), res.value)))
      && (forall n :: n !in DirNames(db.root) ==>
            (n in r.db.summary.value.interfaces <==> n in db.summary.value.interfaces) &&
            (n in db.summary.value.interfaces ==> r.db.summary.value.interfaces[n] == db.summary.value.interfaces[n]))
  {
    CleanOldDBDirsSucceeds(now, faults, timestamp, order, db);
    CleanRootComplete(Cleaner(faults, timestamp), db.root);
    CleanRootResults(Cleaner(faults, timestamp), db.root);
    var pass := CleanRoot(Cleaner(faults, timestamp), db.root);
    ReconcileSpec(order, pass.results, db.summary.value);
    forall i | 0 <= i < |db.root| && db.root[i].node.Dir?
      ensures db.root[i].name in DirNames(db.root)
    {
    }
  }

  /** Every entry of the cleaned root comes from one entry of the old root. */
  lemma {:induction false} CleanedAllMembers(cl: IfaceCleaner, root: seq<Entry>)
    ensures forall e' :: e' in CleanedAll(cl, root) ==> exists i :: 0 <= i < |root| && e' in CleanedEntry(cl, root[i])
  {
    if |root| > 0 {
      var init := root[..|root| - 1];
      CleanedAllMembers(cl, init);
      forall e' | e' in CleanedAll(cl, root)
        ensures exists i :: 0 <= i < |root| && e' in CleanedEntry(cl, root[i])
      {
        if e' in CleanedAll(cl, init) {
          var i :| 0 <= i < |init| && e' in CleanedEntry(cl, init[i]);
          assert root[i] == init[i];
        } else {
          assert e' in CleanedEntry(cl, root[|root| - 1]);
        }
      }
    }
  }

  // ---------------------------------------------------------------------
  // The summary describes the disk.

  /** Every summary entry of an interface directory carries the uint64 sums
      of the blocks stored in that interface's partitions. */
  predicate Consistent(root: seq<Entry>, summ: DBSummary) {
    forall e :: e in root && e.node.Dir? && e.name in summ.interfaces ==>
      && summ.interfaces[e.name].flowCount == FlowSum(StoredBlocks(e.node.children)) % TwoTo64
      && summ.interfaces[e.name].traffic == TrafficSum(StoredBlocks(e.node.children)) % TwoTo64
  }

  /** Every interface directory has a summary entry. */
  predicate Covered(root: seq<Entry>, summ: DBSummary) {
    forall e :: e in root && e.node.Dir? ==> e.name in summ.interfaces
  }

  lemma SubtractMod(a: nat, b: nat, c: nat)
    requires a == b + c
    ensures SubWrap(a % TwoTo64, b % TwoTo64) == c % TwoTo64
  {
  }

  /** Cleaning one consistent interface leaves it consistent: the counters
      minus the removed delta are the sums over the partitions left. */
  lemma CleanIfaceKeepsConsistent(faults: Faults, timestamp: I64, e: Entry, s: IfaceSummary)
    requires e.node.Dir?
    requires CleanIfaceDir(faults, timestamp, e.name, e.node).result.Success?
    requires CleanIfaceDir(faults, timestamp, e.name, e.node).after.Some?
    requires s.flowCount == FlowSum(StoredBlocks(e.node.children)) % TwoTo64
    requires s.traffic == TrafficSum(StoredBlocks(e.node.children)) % TwoTo64
    ensures var o := CleanIfaceDir(faults, timestamp, e.name, e.node);
      && o.after.value.Dir?
      && Subtract(s, o.result.value).flowCount == FlowSum(StoredBlocks(o.after.value.children)) % TwoTo64
      && Subtract(s, o.result.value).traffic == TrafficSum(StoredBlocks(o.after.value.children)) % TwoTo64
  {
    var dayTs := DayTimestamp(timestamp);
    var c := ClassifyAt(dayTs);
    var ch := e.node.children;
    CleanIfaceDirSpec(faults, timestamp, e.name, e.node);
    StoredSplit(dayTs, ch);
    SubtractMod(FlowSum(StoredBlocks(ch)), FlowSum(StaleBlocks(c, ch)), FlowSum(StoredBlocks(Survivors(c, ch))));
    SubtractMod(TrafficSum(StoredBlocks(ch)), TrafficSum(StaleBlocks(c, ch)), TrafficSum(StoredBlocks(Survivors(c, ch))));
  }

  /** The summary invariant survives a successful clean: if every interface
      directory had an entry matching its partitions before, every entry
      left afterwards still matches the partitions left. */
  lemma CleanKeepsConsistent(now: I64, faults: Faults, timestamp: I64, order: seq<string>, db: Db)
    requires Enumerates(order, DirNames(db.root))
    requires DistinctNames(db.root)
    requires db.summary.Some? && Consistent(db.root, db.summary.value) && Covered(db.root, db.summary.value)
    requires CleanOldDBDirs(now, faults, timestamp, order, db).outcome.Pass?
    ensures CleanOldDBDirs(now, faults, timestamp, order, db).db.summary.Some?
    ensures var r := CleanOldDBDirs(now, faults, timestamp, order, db);
      Consistent(r.db.root, r.db.summary.value)
  {
    var r := CleanOldDBDirs(now, faults, timestamp, order, db);
    CleanOldDBDirsSpec(now, faults, timestamp, order, db);
    CleanedAllMembers(Cleaner(faults, timestamp), db.root);
    var before := db.summary.value.interfaces;
    var after := r.db.summary.value.interfaces;
    forall e' | e' in r.db.root && e'.node.Dir? && e'.name in after
      ensures after[e'.name].flowCount == FlowSum(StoredBlocks(e'.node.children)) % TwoTo64
      ensures after[e'.name].traffic == TrafficSum(StoredBlocks(e'.node.children)) % TwoTo64
    {
      var i :| 0 <= i < |db.root| && e' in CleanedEntry(Cleaner(faults, timestamp), db.root[i]);
      var e := db.root[i];
      var o := CleanIfaceDir(faults, timestamp, e.name, e.node);
      assert e.node.Dir? && o.after.Some? && e' == Entry(e.name, o.after.value);
      assert e in db.root;
      CleanIfaceKeepsConsistent(faults, timestamp, e, before[e.name]);
    }
  }

  // ---------------------------------------------------------------------
  // wipeDB

  /** The state of the loop of `wipeDB`. */
  datatype WipePass = WipePass(entries: seq<Entry>, failure: Option<Error>)

  /** The loop of `wipeDB`: every directory is removed, plain files stay,
      and the first directory that cannot be removed ends the loop. */
  function WipeEntries(faults: Faults, root: seq<Entry>): WipePass {
    if |root| == 0 then WipePass([], None)
    else
      var p := WipeEntries(faults, root[..|root| - 1]);
      var e := root[|root| - 1];
      if p.failure.Some? || !e.node.Dir? then p.(entries := p.entries + [e])
      else if [e.name] in faults.undeletable then WipePass(p.entries + [e], Some(RemoveFailed([e.name])))
      else p
  }

  /** Reference definition: the plain files of a listing, in order. */
  function Files(root: seq<Entry>): seq<Entry> {
    if |root| == 0 then []
    else
      var e := root[|root| - 1];
      Files(root[..|root| - 1]) + (if e.node.Dir? then [] else [e])
  }

  /** `wipeDB(dbPath)`. It never touches the summary. */
  function WipeDB(faults: Faults, db: Db): (r: Run)
    ensures r.db.summary == db.summary
    ensures forall e :: e in r.db.root ==> e in db.root
  {
    if [] in faults.unreadable then Run(db, Fail(ReadDirFailed([])))
    else
      var p := WipeEntries(faults, db.root);
      WipeInventsNothing(faults, db.root);
      Run(Db(p.entries, db.summary), if p.failure.Some? then Fail(p.failure.value) else Pass)
  }

  lemma {:induction false} WipeInventsNothing(faults: Faults, root: seq<Entry>)
    ensures forall e :: e in WipeEntries(faults, root).entries ==> e in root
  {
    if |root| > 0 {
      var init := root[..|root| - 1];
      WipeInventsNothing(faults, init);
      assert forall e :: e in init ==> e in root;
    }
  }

  /** Plain files survive every wipe, successful or not. */
  lemma {:induction false} WipeKeepsFiles(faults: Faults, root: seq<Entry>)
    ensures forall i :: 0 <= i < |root| && !root[i].node.Dir? ==> root[i] in WipeEntries(faults, root).entries
  {
    if |root| > 0 {
      var init := root[..|root| - 1];
      WipeKeepsFiles(faults, init);
      forall i | 0 <= i < |root| - 1
        ensures root[i] == init[i]
      {
      }
    }
  }

  /** The wipe loop fails exactly when some directory cannot be removed, and
      otherwise leaves exactly the plain files. */
  lemma {:induction false} WipeEntriesSpec(faults: Faults, root: seq<Entry>)
    ensures WipeEntries(faults, root).failure.None? <==>
      forall i :: 0 <= i < |root| && root[i].node.Dir? ==> [root[i].name] !in faults.undeletable
    ensures WipeEntries(faults, root).failure.None? ==> WipeEntries(faults, root).entries == Files(root)
  {
    if |root| > 0 {
      var init := root[..|root| - 1];
      WipeEntriesSpec(faults, init);
      forall i | 0 <= i < |root| - 1
        ensures root[i] == init[i]
      {
      }
    }
  }

  /** A failed wipe stops at the first directory it cannot remove: the
      directories before it are gone, it is reported, and it and every entry
      after it are left in place. */
  lemma {:induction false} WipeStops(faults: Faults, root: seq<Entry>) returns (j: nat)
    requires WipeEntries(faults, root).failure.Some?
    ensures j < |root| && root[j].node.Dir? && [root[j].name] in faults.undeletable
    ensures WipeEntries(faults, root).failure == Some(RemoveFailed([root[j].name]))
    ensures forall i :: 0 <= i < j && root[i].node.Dir? ==> [root[i].name] !in faults.undeletable
    ensures WipeEntries(faults, root).entries == Files(root[..j]) + root[j..]
  {
    var init := root[..|root| - 1];
    var e := root[|root| - 1];
    if WipeEntries(faults, init).failure.Some? {
      j := WipeStops(faults, init);
      assert init[..j] == root[..j];
      assert init[j..] + [e] == root[j..];
      forall i | 0 <= i <= j
        ensures init[i] == root[i]
      {
      }
    } else {
      j := |root| - 1;
      WipeEntriesSpec(faults, init);
      assert root[..j] == init;
      assert root[j..] == [e];
      forall i | 0 <= i < j
        ensures init[i] == root[i]
      {
      }
    }
  }

  lemma {:induction false} FilesHaveNoDirs(root: seq<Entry>)
    ensures forall e :: e in Files(root) ==> !e.node.Dir?
  {
    if |root| > 0 {
      FilesHaveNoDirs(root[..|root| - 1]);
    }
  }

  /** A wipe succeeds exactly when the root can be listed and every
      directory in it removed; it then leaves exactly the plain files, so no
      directory remains, and the summary stays as it was. */
  lemma WipeDBSpec(faults: Faults, db: Db)
    ensures WipeDB(faults, db).outcome.Pass? <==>
      [] !in faults.unreadable &&
      forall i :: 0 <= i < |db.root| && db.root[i].node.Dir? ==> [db.root[i].name] !in faults.undeletable
    ensures WipeDB(faults, db).outcome.Pass? ==>
      && WipeDB(faults, db).db.root == Files(db.root)
      && (forall e :: e in WipeDB(faults, db).db.root ==> !e.node.Dir?)
    ensures forall i :: 0 <= i < |db.root| && !db.root[i].node.Dir? ==> db.root[i] in WipeDB(faults, db).db.root
  {
    WipeEntriesSpec(faults, db.root);
    WipeKeepsFiles(faults, db.root);
    FilesHaveNoDirs(db.root);
  }

  /** Wiping an already wiped database changes nothing. */
  lemma {:induction false} WipeIdempotent(faults: Faults, db: Db)
    requires WipeDB(faults, db).outcome.Pass?
    ensures WipeDB(faults, WipeDB(faults, db).db) == WipeDB(faults, db)
  {
    WipeDBSpec(faults, db);
    var once := WipeDB(faults, db).db;
    FilesHaveNoDirs(db.root);
    WipeEntriesSpec(faults, once.root);
    FilesOfFiles(db.root);
  }

  lemma {:induction false} FilesOfFiles(root: seq<Entry>)
    ensures Files(Files(root)) == Files(root)
  {
    if |root| > 0 {
      var init := root[..|root| - 1];
      var e := root[|root| - 1];
      FilesOfFiles(init);
      FilesAppend(Files(init), if e.node.Dir? then [] else [e]);
    }
  }

  lemma {:induction false} FilesAppend(a: seq<Entry>, b: seq<Entry>)
    ensures Files(a + b) == Files(a) + Files(b)
  {
    if |b| > 0 {
      FilesAppend(a, b[..|b| - 1]);
      assert (a + b)[..|a + b| - 1] == a + b[..|b| - 1];
    } else {
      assert a + b == a;
    }
  }
}
