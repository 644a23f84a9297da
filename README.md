# CPU layout snapshot, modelled in Dafny

`layout/layout.py` prints a table of the machine's CPU layout: one row per
(socket, core) with, for each sibling CPU of that core, the CPU number
(marked `*` when the kernel lists it as isolated) and the threads of the
programs named on the command line that last ran on it. It does this in four
steps, and this project models each of them as imperative Dafny proved
against a reference function, plus the script as a whole:

- **Range-list expansion** (`range_list.dfy`, module `RangeList`):
  `expand_range_list` turns the kernel's CPU list format (`"5,1-3"`) into
  the listed numbers in the order written.
- **Task aggregation** (`tasks.dfy`, module `Tasks`): `get_pids` keeps the
  processes whose `comm` equals a program name. The `program_pid_list` loop
  pairs each program with its pids. The `task_map` loop appends
  `"program:thread"` to the list of the CPU each thread last ran on.
- **Topology discovery** (`topology.dfy`, module `Topology`): the loop over
  CPU ids `0..kernel_max` groups found CPUs under `core_map[(socket, core)]`
  and collects the distinct `sockets` and `cores`.
- **Table construction** (`render.dfy`, module `Render`): the header is
  sized by the siblings of core (0, 0). The rows follow sorted sockets and
  cores with a separator after each socket. The cells are the CPU number and
  the case-insensitively sorted, newline-joined task labels.
- **The script** (`layout.dfy`, module `Layout`): the four steps in the
  script's order, ending in the table or one of the two modelled exceptions.

Supporting modules: `base.dfy` (`Option`, `Result` and the two exceptions
of the script the model represents), `strings.dfy` (`str.split`, `str.join`, `int`/`str`
on decimal numerals, ASCII `str.lower` and the `str` ordering) and
`sorting.dfy` (`sorted(..., key=...)` as insertion sort).

The `/proc` and `/sys` reads are inputs to the model:

- `procs: seq<Process>` holds one entry per `/proc` directory in listing
  order. Each entry has a `comm` that is `None` when it cannot be opened,
  and its threads. Each thread has a `comm` and its last-run CPU.
- `maxCpus` is the integer read from `kernel_max`.
- `read: nat -> Option<CpuTopology>` gives a CPU's `core_id` and
  `physical_package_id`, or `None` when `core_id` cannot be opened.
- `isolatedText` is the stripped content of the `isolated` file.

Each method is proved equal to a reference function (`ensures r ==
Expansion(text)`, `ensures taskMap == TaskMapOf(...)`, ...). The properties
the script relies on are lemmas about those functions.

The header is sized by the key (0, 0) literally (`layout/layout.py:116`),
whatever the lowest socket and core are. So the script raises KeyError when
no CPU sits on socket 0, core 0, and `Render.RenderOf` reproduces this as
`MissingCore(0, 0)`.

## Model

| member | source | states |
|---|---|---|
| RangeList.ExpandRangeList | layout/layout.py:35-57 | the appending loops produce exactly the reference expansion: `Ok([])` for the empty text, otherwise each comma-separated member expanded left to right, failing with the first ValueError |
| RangeList.AppendRange | layout/layout.py:55-56 | the inner loop appends exactly `range(lo, hi + 1)` to what was expanded so far |
| RangeList.ExampleMixed | layout/layout.py:38-39 | `expand_range_list("5,1-3") == [5, 1, 2, 3]` |
| RangeList.ExampleSingleAndEmpty | layout/layout.py:40-43 | `expand_range_list("4") == [4]` and `expand_range_list("") == []` |
| RangeList.ExpansionJoin | layout/layout.py:48-56 | members are expanded in written order: the expansion of `s + "," + t` is that of `s` followed by that of `t`, and it fails where either fails |
| RangeList.ExpansionOneMember | layout/layout.py:45-49 | a non-empty text without commas is a single member |
| RangeList.MembersAppend | layout/layout.py:48-56 | expanding a list of members is expanding its two halves in order and concatenating, the first failure winning |
| RangeList.MembersFailFast | layout/layout.py:51-55 | once a member raises, the whole expansion raises the same error, whatever follows |
| RangeList.MemberNumber | layout/layout.py:50-52 | a member without a hyphen that is a numeral contributes exactly that number |
| RangeList.MemberRange | layout/layout.py:53-56 | a member `lo-hi` contributes `range(lo, hi + 1)` |
| RangeList.RangeExact | layout/layout.py:55-56 | `range(lo, hi + 1)` is exactly `lo, lo + 1, ..., hi` in ascending order, and empty when `lo > hi` |
| RangeList.MemberNumeral | layout/layout.py:49-52 | any non-empty run of decimal digits, leading zeros included, is a member contributing exactly its value |
| RangeList.MemberNumeralRange | layout/layout.py:49-56 | two such numerals around one hyphen contribute `range(int(left), int(right) + 1)` |
| RangeList.MemberNotNumeral | layout/layout.py:49-51 | a member without a hyphen that is not a numeral (the empty member of `"1,,2"` included) raises ValueError naming it |
| RangeList.MemberManyHyphens | layout/layout.py:49-56 | a member with two or more hyphens contributes nothing and never raises, since neither branch fires |
| Strings.NatToStringDigits | layout/layout.py:133-135 | `str(cpu)` of a CPU number is a non-empty run of decimal digits |
| Strings.ParseNatToString | layout/layout.py:51 | `int(str(n)) == n` for the numerals the model accepts |
| Strings.Split | layout/layout.py:48-49 | `split` yields one piece more than there are separators, and no piece contains the separator |
| Strings.SplitJoin | layout/layout.py:136 | splitting a newline-joined list of newline-free labels gives the list back |
| Strings.JoinSplit | layout/layout.py:136 | joining the pieces of a split with the separator gives the text back |
| Tasks.GetPids | layout/layout.py:19-32 | the pids collected for a program are those of the listed processes whose name is exactly the program, in listing order, skipping unreadable names |
| Tasks.MatchingExactly | layout/layout.py:23-31 | a pid is collected exactly when some listed process with that pid has a readable `comm` equal to the program |
| Tasks.CollectPids | layout/layout.py:61-64 | `program_pid_list` is each program's pids in turn, in program order |
| Tasks.PidPairsExactly | layout/layout.py:62-64 | `(program, pid)` is in `program_pid_list` exactly when the program was named and the pid runs it |
| Tasks.ThreadLabels | layout/layout.py:68-75 | one process yields at most one observation per thread |
| Tasks.ThreadLabelsCount | layout/layout.py:68-75 | one process yields exactly as many observations as it has threads whose `comm` could be opened |
| Tasks.ThreadLabelsMultiplicity | layout/layout.py:68-78 | each (cpu, `"program:name"`) observation occurs exactly as often as there are readable threads of the process that last ran on that CPU under that name |
| Tasks.ThreadLabelsSound | layout/layout.py:68-78 | every observation is the last-run CPU and `"program:name"` of a thread whose name could be read |
| Tasks.ThreadLabelsComplete | layout/layout.py:68-78 | every thread with a readable name is observed |
| Tasks.AddLabel | layout/layout.py:79-82 | adding a label appends it to the end of its CPU's list, or creates a one-label list for a new CPU; every other CPU keeps its list and no key disappears |
| Tasks.Append | layout/layout.py:79-82 | the `if cpu in task_map` branches compute exactly that update |
| Tasks.AddThreads | layout/layout.py:68-82 | the loop over one process's threads adds that process's observations, in order, to the map built so far |
| Tasks.BuildTaskMap | layout/layout.py:66-82 | `task_map` is the empty map with every observation of every `(program, pid)` pair added in order |
| Tasks.Aggregate | layout/layout.py:60-82 | `program_pid_list` and `task_map` built one after the other give the reference task map |
| Tasks.TaskMapExactly | layout/layout.py:66-82 | a CPU has an entry exactly when a thread was observed on it, and its list is everything observed on it, in observation order |
| Tasks.AddLabelCount | layout/layout.py:79-82 | one added label raises the total label count by exactly one |
| Tasks.TaskMapTotal | layout/layout.py:66-82 | the lists together hold exactly one label per observed thread |
| Tasks.PidPairsAppend | layout/layout.py:62-64 | `program_pid_list` for a longer program list is that of the first programs followed by that of the rest |
| Tasks.ObservationsAppend | layout/layout.py:67-78 | the observations of a longer pair list are those of the first pairs followed by those of the rest |
| Tasks.LabelsOnAppend | layout/layout.py:79-82 | what one CPU saw in a longer observation list is what it saw in the first part followed by the rest |
| Tasks.RepeatedPrograms | layout/layout.py:60-82 | no program names give an empty `task_map`; naming every program twice keeps the same CPUs and doubles each CPU's list, the whole list over again |
| Topology.Discover | layout/layout.py:84-108 | the CPU loop produces the reference `core_map`, `sockets` and `cores` |
| Topology.CoreMapStep | layout/layout.py:91-108 | a CPU without topology changes nothing; a found one is appended to the list of its (socket, core), which is created if new |
| Topology.CpusOfExactly | layout/layout.py:91-108 | a CPU is listed under a key exactly when it is in range, was found, and has that (socket, core) |
| Topology.CpusOfAscending | layout/layout.py:91-108 | each list is strictly ascending, so no CPU appears twice in it |
| Topology.CoreMapExactly | layout/layout.py:91-108 | `core_map` has a key exactly when a found CPU in `[0, kernel_max]` has that (socket, core); its list is non-empty, strictly ascending and holds exactly those CPUs, so CPUs without topology appear nowhere and every found CPU appears in one list, once |
| Topology.SeenIdsExactly | layout/layout.py:101-104 | `sockets` and `cores` are duplicate-free and hold exactly the socket and core ids of the found CPUs |
| Sorting.SortBySorted | layout/layout.py:121-131 | `sorted` returns a permutation of its input in non-decreasing order of the key |
| Sorting.SortByPermutes | layout/layout.py:121-131 | `sorted` keeps every element as often as it occurs, so the length is unchanged |
| Sorting.SortByNoDuplicates | layout/layout.py:121-122 | sorting a duplicate-free list gives a duplicate-free list |
| Render.BuildTable | layout/layout.py:114-138 | the header loop and the nested socket/core loops produce the reference table, or KeyError when core (0, 0) is missing |
| Render.RowCells | layout/layout.py:128-136 | the inner loop produces the reference cells of one row |
| Render.HeaderColumns | layout/layout.py:114-119 | the header has `2 + 2n` columns for `n` siblings of core (0, 0): `Socket` and `Core`, then a `CPU`/`Tasks` pair per sibling; Socket, Core and CPU are right-aligned and Tasks left-aligned |
| Render.CellsShape | layout/layout.py:128-136 | a row holds, for the j-th CPU of its core, its CPU cell and then its Tasks cell |
| Render.CpuCellMarked | layout/layout.py:132-135 | a CPU cell starts with `*` exactly when the CPU is isolated, and the rest is the CPU's number |
| Render.TasksCellSorted | layout/layout.py:130-136 | the Tasks cell is empty for a CPU without an entry; otherwise it joins that CPU's labels, as a permutation, in non-decreasing order of their lower-case form |
| Render.TasksCellLines | layout/layout.py:130-136 | when no label holds a newline, splitting the cell at newlines gives back exactly those sorted labels |
| Render.LabelLeTotalPreorder | layout/layout.py:131 | ordering labels by their lower-case form is a total preorder, so `sorted` is well defined on it |
| Render.SortedIds | layout/layout.py:121-122 | `sorted` on distinct ids gives them strictly ascending, with the same members |
| Render.CoreRowsExactly | layout/layout.py:122-137 | the rows of one socket are one row per listed core whose key has a non-empty list, in ascending core order, each showing that key's CPUs |
| Render.CoreRowsOfSocket | layout/layout.py:122-137 | the rows built for socket `s` are all data rows of socket `s` |
| Render.GroupedAppend | layout/layout.py:121-138 | appending one socket's data rows and then a separator keeps every data row after exactly as many separators as sockets come before its own |
| Render.SocketRowsGrouped | layout/layout.py:121-138 | the table holds one separator per socket, and a data row preceded by `j` separators belongs to the `j`-th socket |
| Render.SocketRowsExactly | layout/layout.py:121-138 | each socket's rows are followed by its separator, even a socket without rows: one separator per socket, the last row a separator, and a data row after `j` separators belongs to the `j`-th socket; data rows come in ascending (socket, core) order |
| Render.RowsExactly | layout/layout.py:121-138 | the data rows correspond one-to-one with the `core_map` keys that have non-empty lists and a listed socket and core; they come in ascending (socket, core) order, each showing its key's CPUs; there is one separator per socket, closing that socket's rows in ascending socket order, and the table ends with one |
| Render.ExampleTable | layout/layout.py:114-138 | with cores (0, 0) = [0, 1] and (0, 1) = [2, 3], CPU 2 isolated and one thread on CPUs 0 and 2, the table has the rows `0 0 0 nginx:worker 1 ""`, `0 1 *2 nginx:worker 3 ""` and a separator |
| Layout.Snapshot | layout/layout.py:60-138 | the four steps in the script's order give the reference outcome: the isolated-list ValueError first, then the core (0, 0) KeyError, else the table |
| Layout.SnapshotExactly | layout/layout.py:110-119 | the script succeeds exactly when the isolated list parses and a found CPU sits on socket 0, core 0; the header then has a pair per CPU of that core |
| Layout.FoundKey | layout/layout.py:91-108 | a (socket, core) has a non-empty `core_map` list with its socket in `sockets` and its core in `cores` exactly when a found CPU in `[0, kernel_max]` has it |
| Layout.DiscoveredRows | layout/layout.py:84-138 | for the discovered topology there is exactly one data row per (socket, core) of a found CPU, in ascending order, each showing that core's CPUs, and one separator per distinct socket, right after that socket's rows in ascending socket order |

## Left out

- File reads: `os.listdir`, the `open`/`read` calls and the sysfs files (`layout/layout.py:23-29, 68-78, 88-99, 110-112`) are inputs to the model, not operations.
- Reading the `stat` file and taking field 38 (`layout/layout.py:76-77`) is left out. Each thread carries its last-run CPU. A `stat` that cannot be opened, or a short or unparsable one, is therefore not modelled.
- Field 38 with spaces in a name: `split(" ")` shifts the fields when a thread's name contains a space. The model assumes the correct CPU is read.
- Non-numeric `/proc` entries: a `Process` has an integer pid, so `int(pid)` on an entry such as `self` is not modelled. That entry can raise ValueError when a named program's `comm` equals the script's own.
- `physical_package_id` is assumed readable whenever `core_id` is. A failure there escapes the script uncaught and is not modelled.
- `kernel_max` is taken as an integer. Its parsing is not modelled.
- `.strip()` on names and on the `isolated` text is not modelled; the inputs are the stripped texts.
- Strings.ParseNat: `int()` is modelled on plain ASCII decimal numerals. Signs, surrounding whitespace, underscores and non-ASCII digits, which Python also accepts, are left out.
- Strings.Lower: only ASCII letters are lower-cased. Full Unicode `str.lower` is not modelled.
- Sorting.SortBySorted: the sort is written as a stable insertion sort, but only sortedness and permutation are proved, not stability.
- `tabulate`, `SEPARATING_LINE` rendering and `print` (`layout/layout.py:16, 139`) are a foreign library and text layout. The model stops at headers, column alignment and rows.
- `sys.argv` (`layout/layout.py:60`): the program names are a plain input.
- The process table is one snapshot. A collected process that exits before its `task` directory is listed (`layout/layout.py:68`) makes the script raise FileNotFoundError. This is not modelled.
- Tasks.ThreadsOf: a pid listed twice in the process table yields the threads of its first entry.
