/** The script's top level: the task map of the named programs, the CPU
    topology, the isolated CPU list and the table built from the three, in
    the order the script computes them. The `/proc` and `/sys` reads are
    inputs: the process table `procs`, `kernel_max` as `maxCpus`, the
    per-CPU topology reads `read`, and the stripped contents of the
    `isolated` file. */
module Layout {
  import opened Base
  import opened Sorting
  import opened Tasks
  import opened Topology
  import opened RangeList
  import opened Render

  /** The topology the CPU loop discovers. */
  function TopologyOf(maxCpus: int, read: nat -> Option<CpuTopology>): Topology
  {
    var n := CpuCount(maxCpus);
    Topology(CoreMapOf(n, read), SeenIds(n, read, SocketOf), SeenIds(n, read, CoreOf))
  }

  /** Reference outcome of the whole script (up to `tabulate`): the
      ValueError of an unparsable isolated list, else the KeyError of a
      missing core (0, 0), else the table. */
  function Report(programs: seq<string>, procs: seq<Process>, maxCpus: int,
                  read: nat -> Option<CpuTopology>, isolatedText: string): Result<Table>
  {
    match Expansion(isolatedText)
    case Err(e) => Err(e)
    case Ok(isolated) => RenderOf(TopologyOf(maxCpus, read), TaskMapFor(programs, procs), isolated)
  }

  /** Lines 60-138 of the script, from the program list to the table. */
  method Snapshot(programs: seq<string>, procs: seq<Process>, maxCpus: int,
                  read: nat -> Option<CpuTopology>, isolatedText: string) returns (r: Result<Table>)
    ensures r == Report(programs, procs, maxCpus, read, isolatedText)
  {
    var taskMap := Aggregate(programs, procs);
    var topo := Discover(maxCpus, read);
    var isolated := ExpandRangeList(isolatedText);
    if isolated.Err? {
      return Err(isolated.error);
    }
    r := BuildTable(topo, taskMap, isolated.value);
  }

  /** The script succeeds exactly when the isolated list parses and some
      CPU in `[0, kernel_max]` with topology sits on socket 0, core 0. On
      success the header has a (CPU, Tasks) pair per CPU of that core and
      the rows are those of the discovered topology. */
  lemma SnapshotExactly(programs: seq<string>, procs: seq<Process>, maxCpus: int,
                        read: nat -> Option<CpuTopology>, isolatedText: string)
    ensures var r := Report(programs, procs, maxCpus, read, isolatedText);
            r.Ok? <==> Expansion(isolatedText).Ok? &&
                       exists cpu: nat :: cpu <= maxCpus && read(cpu).Some? && KeyOf(read(cpu).value) == (0, 0)
    ensures var r := Report(programs, procs, maxCpus, read, isolatedText);
            var topo := TopologyOf(maxCpus, read);
            r.Ok? ==>
              && |r.value.headers| == |r.value.colalign| == 2 + 2 * |topo.coreMap[(0, 0)]|
              && r.value.rows == Rows(topo, TaskMapFor(programs, procs), Expansion(isolatedText).value)
  {
    var topo := TopologyOf(maxCpus, read);
    CoreMapExactly(maxCpus, read, (0, 0));
    if (0, 0) in topo.coreMap {
      HeaderColumns(|topo.coreMap[(0, 0)]|);
    }
  }

  /** The rows of the discovered topology: one data row per (socket, core)
      of a CPU in `[0, kernel_max]` whose topology was found, in ascending
      order, each showing that core's CPUs; and one separator per distinct
      socket, right after that socket's rows. */
  lemma DiscoveredRows(maxCpus: int, read: nat -> Option<CpuTopology>, taskMap: TaskMap, isolated: seq<int>)
    ensures var topo := TopologyOf(maxCpus, read);
            var rows := Rows(topo, taskMap, isolated);
            && SeparatorCount(rows) == |topo.sockets|
            && KeysAscending(DataKeys(rows))
            && (forall k :: k in DataKeys(rows) <==>
                  exists cpu: nat :: cpu <= maxCpus && read(cpu).Some? && KeyOf(read(cpu).value) == k)
            && RowsShowCoreMap(rows, topo.coreMap, taskMap, isolated)
            && Ascending(SortBy(topo.sockets, IntLe))
            && (forall x :: x in SortBy(topo.sockets, IntLe) <==> x in topo.sockets)
            && Grouped(rows, SortBy(topo.sockets, IntLe))
            && (topo.sockets != [] ==> rows != [] && rows[|rows| - 1] == Separator)
  {
    var topo := TopologyOf(maxCpus, read);
    var n := CpuCount(maxCpus);
    SeenIdsExactly(n, read, SocketOf);
    SeenIdsExactly(n, read, CoreOf);
    RowsExactly(topo, taskMap, isolated);
    forall k
      ensures (k in topo.coreMap && topo.coreMap[k] != [] && k.0 in topo.sockets && k.1 in topo.cores) <==>
              exists cpu: nat :: cpu <= maxCpus && read(cpu).Some? && KeyOf(read(cpu).value) == k
    {
      FoundKey(maxCpus, read, k);
    }
  }

  /** A key has a non-empty list, a listed socket and a listed core exactly
      when it is the (socket, core) of a found CPU in `[0, kernel_max]`. */
  lemma FoundKey(maxCpus: int, read: nat -> Option<CpuTopology>, k: (int, int))
    ensures var topo := TopologyOf(maxCpus, read);
            (k in topo.coreMap && topo.coreMap[k] != [] && k.0 in topo.sockets && k.1 in topo.cores) <==>
            exists cpu: nat :: cpu <= maxCpus && read(cpu).Some? && KeyOf(read(cpu).value) == k
  {
    var n := CpuCount(maxCpus);
    CoreMapExactly(maxCpus, read, k);
    if exists cpu: nat :: cpu <= maxCpus && read(cpu).Some? && KeyOf(read(cpu).value) == k {
      var cpu: nat :| cpu <= maxCpus && read(cpu).Some? && KeyOf(read(cpu).value) == k;
      SeenIdsExactly(n, read, SocketOf);
      SeenIdsExactly(n, read, CoreOf);
      assert SocketOf(read(cpu).value) == k.0 && CoreOf(read(cpu).value) == k.1;
    }
  }
}
