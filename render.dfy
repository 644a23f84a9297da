/** The table the script hands to `tabulate`: headers, column alignment and
    rows. One row per (socket, core) present with CPUs, sockets and cores in
    ascending order, a separator after each socket, and per sibling CPU a
    CPU cell (marked `*` when isolated) and a Tasks cell (the CPU's labels
    sorted case-insensitively, one per line). */
module Render {
  import opened Base
  import opened Strings
  import opened Sorting
  import opened Topology
  import opened Tasks

  datatype Align = Right | Left

  /** A table row: `[socket, core, cpu, tasks, cpu, tasks, ...]`, or
      `SEPARATING_LINE`. */
  datatype Row = Data(socket: int, core: int, cells: seq<string>) | Separator

  datatype Table = Table(headers: seq<string>, colalign: seq<Align>, rows: seq<Row>)

  /** The order of `sorted(tasks, key=str.lower)`. */
  predicate LabelLe(a: string, b: string)
  {
    StrLe(Lower(a), Lower(b))
  }

  /** The order of `sorted(...)` on integers. */
  predicate IntLe(a: int, b: int)
  {
    a <= b
  }

  /** `headers` after one ('CPU', 'Tasks') pair per sibling of core (0, 0). */
  function Headers(n: nat): seq<string>
  {
    if n == 0 then ["Socket", "Core"] else Headers(n - 1) + ["CPU", "Tasks"]
  }

  /** `colalign` after one ("right", "left") pair per sibling of core (0, 0). */
  function ColAlign(n: nat): seq<Align>
  {
    if n == 0 then [Right, Right] else ColAlign(n - 1) + [Right, Left]
  }

  /** The CPU cell: its number, after a `*` when the CPU is isolated. */
  function CpuCell(cpu: nat, isolated: seq<int>): string
  {
    if cpu in isolated then "*" + NatToString(cpu) else NatToString(cpu)
  }

  /** The labels of a CPU, none when it has no entry. */
  function LabelsOf(cpu: nat, taskMap: TaskMap): seq<string>
  {
    if cpu in taskMap then taskMap[cpu] else []
  }

  /** The Tasks cell: the CPU's labels sorted by their lower-case form and
      joined with newlines. */
  function TasksCell(cpu: nat, taskMap: TaskMap): string
  {
    Join(SortBy(LabelsOf(cpu, taskMap), LabelLe), "\n")
  }

  /** The cells after the socket and core: a CPU cell and a Tasks cell per
      sibling, in the order of the core's list. */
  function Cells(cpus: seq<nat>, taskMap: TaskMap, isolated: seq<int>): seq<string>
  {
    if cpus == [] then []
    else
      var cpu := cpus[|cpus| - 1];
      Cells(cpus[..|cpus| - 1], taskMap, isolated) + [CpuCell(cpu, isolated), TasksCell(cpu, taskMap)]
  }

  /** The rows of socket `s` for the cores in `cores`, skipping keys absent
      from `core_map` or with no CPUs. */
  function CoreRows(s: int, cores: seq<int>, coreMap: map<(int, int), seq<nat>>, taskMap: TaskMap, isolated: seq<int>): seq<Row>
  {
    if cores == [] then []
    else
      var c := cores[|cores| - 1];
      CoreRows(s, cores[..|cores| - 1], coreMap, taskMap, isolated) +
      (if (s, c) in coreMap && coreMap[(s, c)] != [] then [Data(s, c, Cells(coreMap[(s, c)], taskMap, isolated))] else [])
  }

  /** Each socket's rows followed by a separator. */
  function SocketRows(sockets: seq<int>, cores: seq<int>, coreMap: map<(int, int), seq<nat>>, taskMap: TaskMap, isolated: seq<int>): seq<Row>
  {
    if sockets == [] then []
    else
      var s := sockets[|sockets| - 1];
      SocketRows(sockets[..|sockets| - 1], cores, coreMap, taskMap, isolated) +
      CoreRows(s, cores, coreMap, taskMap, isolated) + [Separator]
  }

  /** Reference `table`: sockets and cores in ascending order. */
  function Rows(topo: Topology, taskMap: TaskMap, isolated: seq<int>): seq<Row>
  {
    SocketRows(SortBy(topo.sockets, IntLe), SortBy(topo.cores, IntLe), topo.coreMap, taskMap, isolated)
  }

  /** Reference outcome of lines 114-138: KeyError when core (0, 0) is
      missing, otherwise the headers and alignment sized by its siblings and
      the rows. */
  function RenderOf(topo: Topology, taskMap: TaskMap, isolated: seq<int>): Result<Table>
  {
    if (0, 0) !in topo.coreMap then Err(MissingCore(0, 0))
    else
      var n := |topo.coreMap[(0, 0)]|;
      Ok(Table(Headers(n), ColAlign(n), Rows(topo, taskMap, isolated)))
  }

  /** Lines 114-138 of the script. */
  method BuildTable(topo: Topology, taskMap: TaskMap, isolated: seq<int>) returns (r: Result<Table>)
    ensures r == RenderOf(topo, taskMap, isolated)
  {
    var headers := ["Socket", "Core"];
    var colalign := [Right, Right];
    if (0, 0) !in topo.coreMap {
      return Err(MissingCore(0, 0));
    }
    var siblings := topo.coreMap[(0, 0)];
    for k := 0 to |siblings|
      invariant headers == Headers(k) && colalign == ColAlign(k)
    {
      headers := headers + ["CPU", "Tasks"];
      colalign := colalign + [Right, Left];
    }
    var table: seq<Row> := [];
    var sockets := SortBy(topo.sockets, IntLe);
    var cores := SortBy(topo.cores, IntLe);
    for i := 0 to |sockets|
      invariant table == SocketRows(sockets[..i], cores, topo.coreMap, taskMap, isolated)
    {
      SocketRowsStep(sockets, i, cores, topo.coreMap, taskMap, isolated);
      var s := sockets[i];
      ghost var before := table;
      for j := 0 to |cores|
        invariant table == before + CoreRows(s, cores[..j], topo.coreMap, taskMap, isolated)
      {
        CoreRowsStep(s, cores, j, topo.coreMap, taskMap, isolated, before);
        var c := cores[j];
        if (s, c) !in topo.coreMap {
          continue;
        }
        var cpus := topo.coreMap[(s, c)];
        if cpus == [] {
          continue;
        }
        var cells := RowCells(cpus, taskMap, isolated);
        table := table + [Data(s, c, cells)];
      }
      assert cores[..|cores|] == cores;
      table := table + [Separator];
    }
    assert sockets[..|sockets|] == sockets;
    return Ok(Table(headers, colalign, table));
  }

  /** Lines 129-136: the cells of one row. */
  method RowCells(cpus: seq<nat>, taskMap: TaskMap, isolated: seq<int>) returns (cells: seq<string>)
    ensures cells == Cells(cpus, taskMap, isolated)
  {
    cells := [];
    for k := 0 to |cpus|
      invariant cells == Cells(cpus[..k], taskMap, isolated)
    {
      CellsStep(cpus, k, taskMap, isolated);
      var cpu := cpus[k];
      var tasks := if cpu in taskMap then taskMap[cpu] else [];
      tasks := SortBy(tasks, LabelLe);
      var cpuCell: string;
      if cpu in isolated {
        cpuCell := "*" + NatToString(cpu);
      } else {
        cpuCell := NatToString(cpu);
      }
      cells := cells + [cpuCell];
      cells := cells + [Join(tasks, "\n")];
    }
    assert cpus[..|cpus|] == cpus;
  }

  lemma SocketRowsStep(sockets: seq<int>, i: nat, cores: seq<int>, coreMap: map<(int, int), seq<nat>>, taskMap: TaskMap, isolated: seq<int>)
    requires i < |sockets|
    ensures SocketRows(sockets[..i + 1], cores, coreMap, taskMap, isolated) ==
            SocketRows(sockets[..i], cores, coreMap, taskMap, isolated) + CoreRows(sockets[i], cores, coreMap, taskMap, isolated) + [Separator]
  {
    assert sockets[..i + 1][..i] == sockets[..i];
  }

  lemma CoreRowsStep(s: int, cores: seq<int>, j: nat, coreMap: map<(int, int), seq<nat>>, taskMap: TaskMap, isolated: seq<int>, before: seq<Row>)
    requires j < |cores|
    ensures before + CoreRows(s, cores[..j + 1], coreMap, taskMap, isolated) ==
            if (s, cores[j]) in coreMap && coreMap[(s, cores[j])] != [] then
              before + CoreRows(s, cores[..j], coreMap, taskMap, isolated) + [Data(s, cores[j], Cells(coreMap[(s, cores[j])], taskMap, isolated))]
            else
              before + CoreRows(s, cores[..j], coreMap, taskMap, isolated)
  {
    assert cores[..j + 1][..j] == cores[..j];
  }

  lemma CellsStep(cpus: seq<nat>, k: nat, taskMap: TaskMap, isolated: seq<int>)
    requires k < |cpus|
    ensures Cells(cpus[..k + 1], taskMap, isolated) ==
            Cells(cpus[..k], taskMap, isolated) + [CpuCell(cpus[k], isolated)] + [TasksCell(cpus[k], taskMap)]
  {
    assert cpus[..k + 1][..k] == cpus[..k];
  }

  // Properties of the reference table

  lemma IntLeTotalPreorder()
    ensures TotalPreorder(IntLe)
  {
  }

  lemma LabelLeTotalPreorder()
    ensures TotalPreorder(LabelLe)
  {
    forall a, b
      ensures LabelLe(a, b) || LabelLe(b, a)
    {
      StrLeTotal(Lower(a), Lower(b));
    }
    forall a, b, c | LabelLe(a, b) && LabelLe(b, c)
      ensures LabelLe(a, c)
    {
      StrLeTransitive(Lower(a), Lower(b), Lower(c));
    }
  }

  /** The header has the two fixed columns and one (CPU, Tasks) pair per
      sibling of core (0, 0); Socket, Core and CPU are right-aligned, Tasks
      left-aligned. */
  lemma {:induction false} HeaderColumns(n: nat)
    ensures |Headers(n)| == |ColAlign(n)| == 2 + 2 * n
    ensures Headers(n)[0] == "Socket" && Headers(n)[1] == "Core"
    ensures ColAlign(n)[0] == Right && ColAlign(n)[1] == Right
    ensures forall j :: 0 <= j < n ==>
              && Headers(n)[2 + 2 * j] == "CPU" && Headers(n)[3 + 2 * j] == "Tasks"
              && ColAlign(n)[2 + 2 * j] == Right && ColAlign(n)[3 + 2 * j] == Left
  {
    if n > 0 {
      HeaderColumns(n - 1);
    }
  }

  /** A row holds, for the j-th CPU of its core, the CPU cell at 2j and the
      Tasks cell at 2j + 1 (after the socket and core). */
  lemma {:induction false} CellsShape(cpus: seq<nat>, taskMap: TaskMap, isolated: seq<int>)
    ensures |Cells(cpus, taskMap, isolated)| == 2 * |cpus|
    ensures forall j :: 0 <= j < |cpus| ==>
              && Cells(cpus, taskMap, isolated)[2 * j] == CpuCell(cpus[j], isolated)
              && Cells(cpus, taskMap, isolated)[2 * j + 1] == TasksCell(cpus[j], taskMap)
  {
    CellsLength(cpus, taskMap, isolated);
    forall j | 0 <= j < |cpus|
      ensures && Cells(cpus, taskMap, isolated)[2 * j] == CpuCell(cpus[j], isolated)
              && Cells(cpus, taskMap, isolated)[2 * j + 1] == TasksCell(cpus[j], taskMap)
    {
      CellsAt(cpus, j, taskMap, isolated);
    }
  }

  lemma {:induction false} CellsLength(cpus: seq<nat>, taskMap: TaskMap, isolated: seq<int>)
    ensures |Cells(cpus, taskMap, isolated)| == 2 * |cpus|
  {
    if cpus != [] {
      CellsLength(cpus[..|cpus| - 1], taskMap, isolated);
    }
  }

  lemma {:induction false} CellsAt(cpus: seq<nat>, j: nat, taskMap: TaskMap, isolated: seq<int>)
    requires j < |cpus|
    ensures |Cells(cpus, taskMap, isolated)| == 2 * |cpus|
    ensures Cells(cpus, taskMap, isolated)[2 * j] == CpuCell(cpus[j], isolated)
    ensures Cells(cpus, taskMap, isolated)[2 * j + 1] == TasksCell(cpus[j], taskMap)
  {
    var n := |cpus| - 1;
    var init := cpus[..n];
    var cells, cells0 := Cells(cpus, taskMap, isolated), Cells(init, taskMap, isolated);
    var cpuCell, tasksCell := CpuCell(cpus[n], isolated), TasksCell(cpus[n], taskMap);
    assert cells == cells0 + [cpuCell, tasksCell];
    CellsLength(init, taskMap, isolated);
    if j < n {
      CellsAt(init, j, taskMap, isolated);
      assert init[j] == cpus[j];
      assert cells[2 * j] == cells0[2 * j] && cells[2 * j + 1] == cells0[2 * j + 1];
    } else {
      assert cells[2 * j] == cpuCell && cells[2 * j + 1] == tasksCell;
    }
  }

  /** The CPU cell starts with `*` exactly when the CPU is isolated, and the
      rest of it reads back as the CPU id. */
  lemma CpuCellMarked(cpu: nat, isolated: seq<int>)
    ensures CpuCell(cpu, isolated) != []
    ensures CpuCell(cpu, isolated)[0] == '*' <==> cpu in isolated
    ensures ParseNat(if cpu in isolated then CpuCell(cpu, isolated)[1..] else CpuCell(cpu, isolated)) == Some(cpu)
  {
    ParseNatToString(cpu);
    var digits := NatToString(cpu);
    assert IsDigit(digits[0]);
    if cpu in isolated {
      assert ("*" + digits)[1..] == digits;
    }
  }

  /** The Tasks cell: empty when the CPU has no entry; otherwise its lines
      are the CPU's labels, each as often as it was observed, in
      non-decreasing order of their lower-case form. */
  lemma TasksCellSorted(cpu: nat, taskMap: TaskMap)
    ensures cpu !in taskMap ==> TasksCell(cpu, taskMap) == ""
    ensures var lines := SortBy(LabelsOf(cpu, taskMap), LabelLe);
            && multiset(lines) == multiset(LabelsOf(cpu, taskMap))
            && (forall i, j :: 0 <= i < j < |lines| ==> StrLe(Lower(lines[i]), Lower(lines[j])))
  {
    LabelLeTotalPreorder();
    SortBySorted(LabelsOf(cpu, taskMap), LabelLe);
  }

  /** When no label holds a newline, the Tasks cell splits at its newlines
      back into the sorted labels. */
  lemma TasksCellLines(cpu: nat, taskMap: TaskMap)
    requires forall name :: name in LabelsOf(cpu, taskMap) ==> '\n' !in name
    ensures var lines := SortBy(LabelsOf(cpu, taskMap), LabelLe);
            lines != [] ==> Split(TasksCell(cpu, taskMap), '\n') == lines
  {
    var labels := LabelsOf(cpu, taskMap);
    var lines := SortBy(labels, LabelLe);
    SortByPermutes(labels, LabelLe);
    if lines != [] {
      forall i | 0 <= i < |lines|
        ensures '\n' !in lines[i]
      {
        assert lines[i] in multiset(labels);
      }
      SplitJoin(lines, '\n');
    }
  }

  /** The (socket, core) of each data row, in order. */
  function DataKeys(rows: seq<Row>): seq<(int, int)>
  {
    if rows == [] then []
    else
      var row := rows[|rows| - 1];
      DataKeys(rows[..|rows| - 1]) + (if row.Data? then [(row.socket, row.core)] else [])
  }

  function SeparatorCount(rows: seq<Row>): nat
  {
    if rows == [] then 0
    else SeparatorCount(rows[..|rows| - 1]) + (if rows[|rows| - 1].Separator? then 1 else 0)
  }

  predicate Ascending(s: seq<int>)
  {
    forall i, j :: 0 <= i < j < |s| ==> s[i] < s[j]
  }

  /** Ascending (socket, core) order. */
  predicate KeyLess(a: (int, int), b: (int, int))
  {
    a.0 < b.0 || (a.0 == b.0 && a.1 < b.1)
  }

  predicate KeysAscending(keys: seq<(int, int)>)
  {
    forall i, j :: 0 <= i < j < |keys| ==> KeyLess(keys[i], keys[j])
  }

  /** Every data row shows the CPUs `core_map` lists for its key. */
  predicate RowsShowCoreMap(rows: seq<Row>, coreMap: map<(int, int), seq<nat>>, taskMap: TaskMap, isolated: seq<int>)
  {
    forall i :: 0 <= i < |rows| && rows[i].Data? ==>
      && (rows[i].socket, rows[i].core) in coreMap
      && rows[i].cells == Cells(coreMap[(rows[i].socket, rows[i].core)], taskMap, isolated)
  }

  /** Every data row belongs to the socket whose turn it is: a data row
      preceded by `j` separators is a row of the `j`-th socket. */
  predicate Grouped(rows: seq<Row>, sockets: seq<int>)
  {
    forall i :: 0 <= i < |rows| && rows[i].Data? ==>
      SeparatorCount(rows[..i]) < |sockets| && rows[i].socket == sockets[SeparatorCount(rows[..i])]
  }

  lemma {:induction false} RowsAppend(a: seq<Row>, b: seq<Row>)
    ensures DataKeys(a + b) == DataKeys(a) + DataKeys(b)
    ensures SeparatorCount(a + b) == SeparatorCount(a) + SeparatorCount(b)
    decreases |b|
  {
    if b == [] {
      assert a + b == a;
    } else {
      var b' := b[..|b| - 1];
      assert (a + b)[..|a + b| - 1] == a + b';
      RowsAppend(a, b');
    }
  }

  lemma RowsShowAppend(a: seq<Row>, b: seq<Row>, coreMap: map<(int, int), seq<nat>>, taskMap: TaskMap, isolated: seq<int>)
    requires RowsShowCoreMap(a, coreMap, taskMap, isolated) && RowsShowCoreMap(b, coreMap, taskMap, isolated)
    ensures RowsShowCoreMap(a + b, coreMap, taskMap, isolated)
  {
  }

  lemma KeysAscendingAppend(a: seq<(int, int)>, b: seq<(int, int)>)
    requires KeysAscending(a) && KeysAscending(b)
    requires forall x, y :: x in a && y in b ==> KeyLess(x, y)
    ensures KeysAscending(a + b)
  {
  }

  /** The rows of one core: its data row when `core_map` has a non-empty
      list for it, and nothing otherwise. */
  lemma OneCoreRow(s: int, c: int, coreMap: map<(int, int), seq<nat>>, taskMap: TaskMap, isolated: seq<int>)
    ensures var extra := if (s, c) in coreMap && coreMap[(s, c)] != [] then [Data(s, c, Cells(coreMap[(s, c)], taskMap, isolated))] else [];
            && DataKeys(extra) == (if (s, c) in coreMap && coreMap[(s, c)] != [] then [(s, c)] else [])
            && SeparatorCount(extra) == 0
            && RowsShowCoreMap(extra, coreMap, taskMap, isolated)
  {
  }

  /** Every id before the last of an ascending list is below it. */
  lemma AscendingLast(s: seq<int>, init: seq<int>, last: int)
    requires Ascending(s) && s == init + [last]
    ensures Ascending(init)
    ensures forall x :: x in init ==> x < last
    ensures forall x :: x in s <==> x in init || x == last
  {
    assert forall i :: 0 <= i < |init| ==> init[i] == s[i];
    assert s[|init|] == last;
    forall x | x in init ensures x < last {
      var i :| 0 <= i < |init| && init[i] == x;
      assert s[i] < s[|init|];
    }
  }

  lemma CoreRowsExactly(s: int, cores: seq<int>, coreMap: map<(int, int), seq<nat>>, taskMap: TaskMap, isolated: seq<int>)
    requires Ascending(cores)
    ensures var rows := CoreRows(s, cores, coreMap, taskMap, isolated);
            && SeparatorCount(rows) == 0
            && KeysAscending(DataKeys(rows))
            && (forall k :: k in DataKeys(rows) <==> k.0 == s && k.1 in cores && k in coreMap && coreMap[k] != [])
            && RowsShowCoreMap(rows, coreMap, taskMap, isolated)
  {
    CoreRowsKeys(s, cores, coreMap, taskMap, isolated);
    CoreRowsAscending(s, cores, coreMap, taskMap, isolated);
    CoreRowsShow(s, cores, coreMap, taskMap, isolated);
    CoreRowsOfSocket(s, cores, coreMap, taskMap, isolated);
    NoSeparators(CoreRows(s, cores, coreMap, taskMap, isolated));
  }

  lemma {:induction false} CoreRowsKeys(s: int, cores: seq<int>, coreMap: map<(int, int), seq<nat>>, taskMap: TaskMap, isolated: seq<int>)
    ensures forall k :: k in DataKeys(CoreRows(s, cores, coreMap, taskMap, isolated)) <==>
              k.0 == s && k.1 in cores && k in coreMap && coreMap[k] != []
  {
    if cores != [] {
      var init := cores[..|cores| - 1];
      var c := cores[|cores| - 1];
      var keys := if (s, c) in coreMap && coreMap[(s, c)] != [] then [(s, c)] else [];
      CoreRowsKeysStep(s, init, c, cores, coreMap, taskMap, isolated);
      CoreRowsKeys(s, init, coreMap, taskMap, isolated);
      forall k
        ensures k in DataKeys(CoreRows(s, init, coreMap, taskMap, isolated)) + keys <==>
                k.0 == s && k.1 in cores && k in coreMap && coreMap[k] != []
      {
        assert k.1 in cores <==> k.1 in init || k.1 == c by {
          assert cores == init + [c];
        }
      }
    }
  }

  lemma CoreRowsKeysStep(s: int, init: seq<int>, c: int, cores: seq<int>, coreMap: map<(int, int), seq<nat>>, taskMap: TaskMap, isolated: seq<int>)
    requires cores != [] && init == cores[..|cores| - 1] && c == cores[|cores| - 1]
    ensures DataKeys(CoreRows(s, cores, coreMap, taskMap, isolated)) ==
            DataKeys(CoreRows(s, init, coreMap, taskMap, isolated)) +
            (if (s, c) in coreMap && coreMap[(s, c)] != [] then [(s, c)] else [])
  {
    var rows0 := CoreRows(s, init, coreMap, taskMap, isolated);
    var extra := if (s, c) in coreMap && coreMap[(s, c)] != [] then [Data(s, c, Cells(coreMap[(s, c)], taskMap, isolated))] else [];
    OneCoreRow(s, c, coreMap, taskMap, isolated);
    RowsAppend(rows0, extra);
  }

  lemma {:induction false} CoreRowsAscending(s: int, cores: seq<int>, coreMap: map<(int, int), seq<nat>>, taskMap: TaskMap, isolated: seq<int>)
    requires Ascending(cores)
    ensures KeysAscending(DataKeys(CoreRows(s, cores, coreMap, taskMap, isolated)))
  {
    if cores != [] {
      var init := cores[..|cores| - 1];
      var c := cores[|cores| - 1];
      var keys0 := DataKeys(CoreRows(s, init, coreMap, taskMap, isolated));
      var keys := if (s, c) in coreMap && coreMap[(s, c)] != [] then [(s, c)] else [];
      assert KeysAscending(keys0) by {
        AscendingLast(cores, init, c);
        CoreRowsAscending(s, init, coreMap, taskMap, isolated);
      }
      assert forall x, y :: x in keys0 && y in keys ==> KeyLess(x, y) by {
        AscendingLast(cores, init, c);
        CoreRowsKeys(s, init, coreMap, taskMap, isolated);
        forall x, y | x in keys0 && y in keys
          ensures KeyLess(x, y)
        {
          assert x.0 == s && x.1 in init && y == (s, c);
        }
      }
      KeysAscendingAppend(keys0, keys);
      CoreRowsKeysStep(s, init, c, cores, coreMap, taskMap, isolated);
    }
  }

  lemma {:induction false} CoreRowsShow(s: int, cores: seq<int>, coreMap: map<(int, int), seq<nat>>, taskMap: TaskMap, isolated: seq<int>)
    ensures RowsShowCoreMap(CoreRows(s, cores, coreMap, taskMap, isolated), coreMap, taskMap, isolated)
  {
    if cores != [] {
      var init := cores[..|cores| - 1];
      var c := cores[|cores| - 1];
      var rows0 := CoreRows(s, init, coreMap, taskMap, isolated);
      var extra := if (s, c) in coreMap && coreMap[(s, c)] != [] then [Data(s, c, Cells(coreMap[(s, c)], taskMap, isolated))] else [];
      CoreRowsShow(s, init, coreMap, taskMap, isolated);
      OneCoreRow(s, c, coreMap, taskMap, isolated);
      RowsShowAppend(rows0, extra, coreMap, taskMap, isolated);
    }
  }

  lemma SocketRowsExactly(sockets: seq<int>, cores: seq<int>, coreMap: map<(int, int), seq<nat>>, taskMap: TaskMap, isolated: seq<int>)
    requires Ascending(sockets) && Ascending(cores)
    ensures var rows := SocketRows(sockets, cores, coreMap, taskMap, isolated);
            && SeparatorCount(rows) == |sockets|
            && KeysAscending(DataKeys(rows))
            && (forall k :: k in DataKeys(rows) <==> k.0 in sockets && k.1 in cores && k in coreMap && coreMap[k] != [])
            && RowsShowCoreMap(rows, coreMap, taskMap, isolated)
            && Grouped(rows, sockets)
            && (sockets != [] ==> rows != [] && rows[|rows| - 1] == Separator)
  {
    SocketRowsKeys(sockets, cores, coreMap, taskMap, isolated);
    SocketRowsShow(sockets, cores, coreMap, taskMap, isolated);
    SocketRowsGrouped(sockets, cores, coreMap, taskMap, isolated);
    if sockets != [] {
      SocketRowsEnd(sockets, cores, coreMap, taskMap, isolated);
    }
  }

  lemma {:induction false} SocketRowsKeys(sockets: seq<int>, cores: seq<int>, coreMap: map<(int, int), seq<nat>>, taskMap: TaskMap, isolated: seq<int>)
    requires Ascending(sockets) && Ascending(cores)
    ensures var rows := SocketRows(sockets, cores, coreMap, taskMap, isolated);
            && KeysAscending(DataKeys(rows))
            && (forall k :: k in DataKeys(rows) <==> k.0 in sockets && k.1 in cores && k in coreMap && coreMap[k] != [])
  {
    if sockets != [] {
      var init := sockets[..|sockets| - 1];
      var s := sockets[|sockets| - 1];
      var rows0 := SocketRows(init, cores, coreMap, taskMap, isolated);
      var block := CoreRows(s, cores, coreMap, taskMap, isolated);
      assert sockets == init + [s];
      AscendingLast(sockets, init, s);
      SocketRowsKeys(init, cores, coreMap, taskMap, isolated);
      CoreRowsKeys(s, cores, coreMap, taskMap, isolated);
      CoreRowsAscending(s, cores, coreMap, taskMap, isolated);
      RowsAppend(rows0, block);
      RowsAppend(rows0 + block, [Separator]);
      assert DataKeys([Separator]) == [] by {
        assert [Separator][..0] == [];
      }
      KeysAscendingAppend(DataKeys(rows0), DataKeys(block));
    }
  }

  lemma {:induction false} SocketRowsShow(sockets: seq<int>, cores: seq<int>, coreMap: map<(int, int), seq<nat>>, taskMap: TaskMap, isolated: seq<int>)
    ensures RowsShowCoreMap(SocketRows(sockets, cores, coreMap, taskMap, isolated), coreMap, taskMap, isolated)
  {
    if sockets != [] {
      var init := sockets[..|sockets| - 1];
      var s := sockets[|sockets| - 1];
      var rows0 := SocketRows(init, cores, coreMap, taskMap, isolated);
      var block := CoreRows(s, cores, coreMap, taskMap, isolated);
      SocketRowsShow(init, cores, coreMap, taskMap, isolated);
      CoreRowsShow(s, cores, coreMap, taskMap, isolated);
      RowsShowAppend(rows0, block, coreMap, taskMap, isolated);
      RowsShowAppend(rows0 + block, [Separator], coreMap, taskMap, isolated);
    }
  }

  lemma {:induction false} NoSeparators(rows: seq<Row>)
    requires forall i :: 0 <= i < |rows| ==> rows[i].Data?
    ensures SeparatorCount(rows) == 0
  {
    if rows != [] {
      NoSeparators(rows[..|rows| - 1]);
    }
  }

  /** The rows of one socket are all data rows of that socket. */
  lemma {:induction false} CoreRowsOfSocket(s: int, cores: seq<int>, coreMap: map<(int, int), seq<nat>>, taskMap: TaskMap, isolated: seq<int>)
    ensures forall i :: 0 <= i < |CoreRows(s, cores, coreMap, taskMap, isolated)| ==>
              CoreRows(s, cores, coreMap, taskMap, isolated)[i].Data? &&
              CoreRows(s, cores, coreMap, taskMap, isolated)[i].socket == s
  {
    if cores != [] {
      CoreRowsOfSocket(s, cores[..|cores| - 1], coreMap, taskMap, isolated);
    }
  }

  /** Appending a socket's data rows and a separator keeps the rows grouped. */
  lemma GroupedAppend(rows0: seq<Row>, block: seq<Row>, init: seq<int>, s: int)
    requires Grouped(rows0, init) && SeparatorCount(rows0) == |init|
    requires forall i :: 0 <= i < |block| ==> block[i].Data? && block[i].socket == s
    ensures Grouped(rows0 + block + [Separator], init + [s])
    ensures SeparatorCount(rows0 + block + [Separator]) == |init| + 1
  {
    var rows := rows0 + block + [Separator];
    var socks := init + [s];
    NoSeparators(block);
    RowsAppend(rows0, block);
    RowsAppend(rows0 + block, [Separator]);
    assert SeparatorCount([Separator]) == 1 by {
      assert [Separator][..0] == [];
    }
    forall i | 0 <= i < |rows| && rows[i].Data?
      ensures SeparatorCount(rows[..i]) < |socks| && rows[i].socket == socks[SeparatorCount(rows[..i])]
    {
      if i < |rows0| {
        assert rows[..i] == rows0[..i];
        assert rows[i] == rows0[i];
      } else {
        var j := i - |rows0|;
        assert j < |block|;
        assert rows[..i] == rows0 + block[..j];
        RowsAppend(rows0, block[..j]);
        NoSeparators(block[..j]);
        assert rows[i] == block[j];
      }
    }
  }

  /** Each socket's rows, then its separator: the table holds one
      separator per socket, and a data row preceded by `j` separators
      belongs to the `j`-th socket. */
  lemma {:induction false} SocketRowsGrouped(sockets: seq<int>, cores: seq<int>, coreMap: map<(int, int), seq<nat>>, taskMap: TaskMap, isolated: seq<int>)
    ensures SeparatorCount(SocketRows(sockets, cores, coreMap, taskMap, isolated)) == |sockets|
    ensures Grouped(SocketRows(sockets, cores, coreMap, taskMap, isolated), sockets)
  {
    if sockets != [] {
      var init := sockets[..|sockets| - 1];
      var s := sockets[|sockets| - 1];
      var before := SocketRows(init, cores, coreMap, taskMap, isolated);
      var block := CoreRows(s, cores, coreMap, taskMap, isolated);
      SocketRowsGrouped(init, cores, coreMap, taskMap, isolated);
      CoreRowsOfSocket(s, cores, coreMap, taskMap, isolated);
      GroupedAppend(before, block, init, s);
      assert sockets == init + [s];
    }
  }

  /** The table of at least one socket ends with a separator. */
  lemma SocketRowsEnd(sockets: seq<int>, cores: seq<int>, coreMap: map<(int, int), seq<nat>>, taskMap: TaskMap, isolated: seq<int>)
    requires sockets != []
    ensures var rows := SocketRows(sockets, cores, coreMap, taskMap, isolated);
            rows != [] && rows[|rows| - 1] == Separator
  {
  }

  /** Sorting distinct ids gives them in strictly ascending order. */
  lemma SortedIds(ids: seq<int>)
    requires NoDuplicates(ids)
    ensures Ascending(SortBy(ids, IntLe))
    ensures forall x :: x in SortBy(ids, IntLe) <==> x in ids
  {
    IntLeTotalPreorder();
    SortBySorted(ids, IntLe);
    SortByNoDuplicates(ids, IntLe);
    var r := SortBy(ids, IntLe);
    forall x ensures x in r <==> x in ids {
      assert x in r <==> x in multiset(r);
      assert x in ids <==> x in multiset(ids);
    }
  }

  /** The rows of the table, for distinct `sockets` and `cores`: exactly one
      data row per key of `core_map` with a non-empty list whose socket and
      core are listed, in ascending (socket, core) order, each showing that
      key's CPUs; and one separator per socket, even a socket without rows. */
  lemma RowsExactly(topo: Topology, taskMap: TaskMap, isolated: seq<int>)
    requires NoDuplicates(topo.sockets) && NoDuplicates(topo.cores)
    ensures var rows := Rows(topo, taskMap, isolated);
            && SeparatorCount(rows) == |topo.sockets|
            && KeysAscending(DataKeys(rows))
            && (forall k :: k in DataKeys(rows) <==>
                  k in topo.coreMap && topo.coreMap[k] != [] && k.0 in topo.sockets && k.1 in topo.cores)
            && RowsShowCoreMap(rows, topo.coreMap, taskMap, isolated)
            && Ascending(SortBy(topo.sockets, IntLe))
            && (forall x :: x in SortBy(topo.sockets, IntLe) <==> x in topo.sockets)
            && Grouped(rows, SortBy(topo.sockets, IntLe))
            && (topo.sockets != [] ==> rows != [] && rows[|rows| - 1] == Separator)
  {
    SortedIds(topo.sockets);
    SortedIds(topo.cores);
    var sockets := SortBy(topo.sockets, IntLe);
    SocketRowsExactly(sockets, SortBy(topo.cores, IntLe), topo.coreMap, taskMap, isolated);
    SortByPermutes(topo.sockets, IntLe);
  }

  lemma CellsOfTwo(a: nat, b: nat, taskMap: TaskMap, isolated: seq<int>)
    ensures Cells([a, b], taskMap, isolated) ==
            [CpuCell(a, isolated), TasksCell(a, taskMap), CpuCell(b, isolated), TasksCell(b, taskMap)]
  {
    assert [a, b][..1] == [a];
    assert [a][..0] == [];
    assert Cells([a], taskMap, isolated) == [CpuCell(a, isolated), TasksCell(a, taskMap)];
    assert Cells([a, b], taskMap, isolated) ==
           Cells([a], taskMap, isolated) + [CpuCell(b, isolated), TasksCell(b, taskMap)];
  }

  lemma TasksCellOne(cpu: nat, taskMap: TaskMap, name: string)
    requires cpu in taskMap && taskMap[cpu] == [name]
    ensures TasksCell(cpu, taskMap) == name
  {
    assert SortBy([name], LabelLe) == Insert(name, [], LabelLe) by {
      assert [name][1..] == [];
    }
  }

  /** The cells of a two-core socket whose CPU 2 is isolated and whose
      CPUs 0 and 2 run one thread each. */
  lemma ExampleCells(taskMap: TaskMap)
    requires taskMap == map[0 := ["nginx:worker"], 2 := ["nginx:worker"]]
    ensures Cells([0, 1], taskMap, [2]) == ["0", "nginx:worker", "1", ""]
    ensures Cells([2, 3], taskMap, [2]) == ["*2", "nginx:worker", "3", ""]
  {
    CellsOfTwo(0, 1, taskMap, [2]);
    CellsOfTwo(2, 3, taskMap, [2]);
    TasksCellOne(0, taskMap, "nginx:worker");
    TasksCellOne(2, taskMap, "nginx:worker");
    assert CpuCell(0, [2]) == "0" && CpuCell(1, [2]) == "1";
    assert CpuCell(2, [2]) == "*2" && CpuCell(3, [2]) == "3";
  }

  lemma ExampleRows(coreMap: map<(int, int), seq<nat>>, taskMap: TaskMap)
    requires coreMap == map[(0, 0) := [0, 1], (0, 1) := [2, 3]]
    requires taskMap == map[0 := ["nginx:worker"], 2 := ["nginx:worker"]]
    ensures SocketRows([0], [0, 1], coreMap, taskMap, [2]) ==
            [Data(0, 0, ["0", "nginx:worker", "1", ""]),
             Data(0, 1, ["*2", "nginx:worker", "3", ""]),
             Separator]
  {
    ExampleCells(taskMap);
    var row0 := Data(0, 0, ["0", "nginx:worker", "1", ""]);
    var row1 := Data(0, 1, ["*2", "nginx:worker", "3", ""]);
    assert [0, 1][..1] == [0];
    assert CoreRows(0, [0], coreMap, taskMap, [2]) == [row0];
    assert CoreRows(0, [0, 1], coreMap, taskMap, [2]) == [row0, row1];
  }

  /** The table of that socket: both cores in order, then one separator. */
  lemma ExampleTable()
    ensures var topo := Topology(map[(0, 0) := [0, 1], (0, 1) := [2, 3]], [0], [0, 1]);
            var taskMap := map[0 := ["nginx:worker"], 2 := ["nginx:worker"]];
            RenderOf(topo, taskMap, [2]) ==
              Ok(Table(["Socket", "Core", "CPU", "Tasks", "CPU", "Tasks"],
                       [Right, Right, Right, Left, Right, Left],
                       [Data(0, 0, ["0", "nginx:worker", "1", ""]),
                        Data(0, 1, ["*2", "nginx:worker", "3", ""]),
                        Separator]))
  {
    var coreMap := map[(0, 0) := [0, 1], (0, 1) := [2, 3]];
    var taskMap := map[0 := ["nginx:worker"], 2 := ["nginx:worker"]];
    ExampleRows(coreMap, taskMap);
    assert SortBy([0], IntLe) == [0];
    assert SortBy([0, 1], IntLe) == [0, 1] by {
      assert [0, 1][1..] == [1];
    }
    ExampleHeader();
  }

  lemma ExampleHeader()
    ensures Headers(2) == ["Socket", "Core", "CPU", "Tasks", "CPU", "Tasks"]
    ensures ColAlign(2) == [Right, Right, Right, Left, Right, Left]
  {
  }
}
