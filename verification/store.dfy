/** The partition store as an immutable value: the database root is a list of
    named entries, an interface is a directory of partitions, and a partition
    is a directory whose metadata lists its blocks. */
module Store {
  import opened Wrappers
  import opened Decimal

  const TwoTo64: int := 0x1_0000_0000_0000_0000

  /** Go's `uint64`. */
  type U64 = x: int | 0 <= x < TwoTo64

  /** `a += b` on uint64: wraps around silently. */
  function AddWrap(a: U64, b: U64): U64 {
    (a + b) % TwoTo64
  }

  /** `a -= b` on uint64: wraps around silently when `b > a`. */
  function SubWrap(a: U64, b: U64): (r: U64)
    ensures b <= a ==> r == a - b
    ensures a < b ==> r == a - b + TwoTo64
  {
    (a - b) % TwoTo64
  }

  /** Seconds in one day; partitions are named by day-aligned timestamps. */
  const EpochDay: int := 86400

  /** Go's `/` on int64: truncates toward zero. */
  function GoDiv(a: int, b: int): int
    requires b > 0
  {
    if a >= 0 then a / b else -((-a) / b)
  }

  /** goDB.DayTimestamp: the timestamp truncated to a whole number of days. */
  function DayTimestamp(t: I64): (d: int)
    ensures d % EpochDay == 0
    ensures 0 <= t ==> 0 <= d <= t < d + EpochDay
    ensures t < 0 ==> d - EpochDay < t <= d <= 0
  {
    GoDiv(t, EpochDay) * EpochDay
  }

  /** One block of a partition as its metadata describes it. */
  datatype Block = Block(timestamp: I64, flowCount: U64, traffic: U64)

  /** A directory entry. `meta` is what the best-effort metadata reader
      (goDB.TryReadMetadata) yields for a directory: the blocks of whatever
      part of its metadata file parses, possibly none. */
  datatype Node = File | Dir(children: seq<Entry>, meta: seq<Block>)

  datatype Entry = Entry(name: string, node: Node)

  /** goDB.TryReadMetadata on the metadata file under `node`: never fails, and
      below a plain file there is nothing to read. */
  function ReadMeta(node: Node): seq<Block> {
    if node.Dir? then node.meta else []
  }

  /** A path below the database root: `[]` is the root, `[iface]` an
      interface directory, `[iface, partition]` a partition. */
  type Path = seq<string>

  /** The filesystem failures a run may meet: directories that cannot be
      listed, entries that cannot be removed, and the summary lock not being
      acquired within its timeout. */
  datatype Faults = Faults(unreadable: set<Path>, undeletable: set<Path>, lockTimeout: bool)

  const NoFaults: Faults := Faults({}, {}, false)

  datatype Error =
    | ReadDirFailed(path: Path)
    | RemoveFailed(path: Path)
    | CutoffNotInPast
    | SummaryMissing
    | LockTimeout

  /** Names are unique within one directory listing. */
  predicate DistinctNames(entries: seq<Entry>) {
    forall i, j :: 0 <= i < j < |entries| ==> entries[i].name != entries[j].name
  }

  /** Unbounded sum of the blocks' flow counts. */
  function FlowSum(blocks: seq<Block>): nat {
    if |blocks| == 0 then 0 else FlowSum(blocks[..|blocks| - 1]) + blocks[|blocks| - 1].flowCount
  }

  /** Unbounded sum of the blocks' traffic. */
  function TrafficSum(blocks: seq<Block>): nat {
    if |blocks| == 0 then 0 else TrafficSum(blocks[..|blocks| - 1]) + blocks[|blocks| - 1].traffic
  }

  /** The sums distribute over concatenation. */
  lemma {:induction false} SumsAppend(a: seq<Block>, b: seq<Block>)
    ensures FlowSum(a + b) == FlowSum(a) + FlowSum(b)
    ensures TrafficSum(a + b) == TrafficSum(a) + TrafficSum(b)
  {
    if |b| > 0 {
      SumsAppend(a, b[..|b| - 1]);
      assert (a + b)[..|a + b| - 1] == a + b[..|b| - 1];
    } else {
      assert a + b == a;
    }
  }

  /** Flow count and traffic removed from one interface. */
  datatype Delta = Delta(flowCount: U64, traffic: U64)

  /** The `for _, block := range meta.Blocks` loop: adds each block's counters
      to the running delta with uint64 `+=`. */
  function AddBlocks(d: Delta, blocks: seq<Block>): Delta {
    if |blocks| == 0 then d
    else
      var p := AddBlocks(d, blocks[..|blocks| - 1]);
      var b := blocks[|blocks| - 1];
      Delta(AddWrap(p.flowCount, b.flowCount), AddWrap(p.traffic, b.traffic))
  }

  lemma {:induction false} AddBlocksAppend(d: Delta, a: seq<Block>, b: seq<Block>)
    ensures AddBlocks(d, a + b) == AddBlocks(AddBlocks(d, a), b)
  {
    if |b| > 0 {
      AddBlocksAppend(d, a, b[..|b| - 1]);
      assert (a + b)[..|a + b| - 1] == a + b[..|b| - 1];
    } else {
      assert a + b == a;
    }
  }

  lemma ModAddMod(a: int, b: int)
    ensures (a % TwoTo64 + b) % TwoTo64 == (a + b) % TwoTo64
  {
  }

  /** Per-block wrapping adds equal one unbounded sum taken modulo 2^64: the
      delta is exact as long as the removed counters fit in a uint64. */
  lemma {:induction false} AddBlocksIsWrappedSum(d: Delta, blocks: seq<Block>)
    ensures AddBlocks(d, blocks) ==
      Delta((d.flowCount + FlowSum(blocks)) % TwoTo64, (d.traffic + TrafficSum(blocks)) % TwoTo64)
  {
    if |blocks| > 0 {
      var init := blocks[..|blocks| - 1];
      var b := blocks[|blocks| - 1];
      AddBlocksIsWrappedSum(d, init);
      ModAddMod(d.flowCount + FlowSum(init), b.flowCount);
      ModAddMod(d.traffic + TrafficSum(init), b.traffic);
    }
  }
}
