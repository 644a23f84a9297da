/** Which CPU each thread of the named programs last ran on: `get_pids`, the
    `program_pid_list` loop and the `task_map` loop. The process table is
    given as data: one entry per `/proc` directory in listing order, with its
    `comm` (None when it could not be opened) and its threads in listing
    order, each with its `comm` (None when unreadable) and the last-run CPU
    from its `stat` line. */
module Tasks {
  import opened Base
  import opened Sorting

  datatype Thread = Thread(comm: Option<string>, lastCpu: int)
  datatype Process = Process(pid: int, comm: Option<string>, threads: seq<Thread>)

  /** `task_map`: CPU id to the "program:thread" labels seen on it. */
  type TaskMap = map<int, seq<string>>

  /** Pids of the listed processes whose name is `program`, in listing order. */
  function Matching(program: string, procs: seq<Process>): seq<int>
  {
    if procs == [] then []
    else
      var last := procs[|procs| - 1];
      Matching(program, procs[..|procs| - 1]) + (if last.comm == Some(program) then [last.pid] else [])
  }

  /** `get_pids(program)`: skips processes whose `comm` cannot be opened and
      keeps those whose name equals `program` exactly. */
  method GetPids(program: string, procs: seq<Process>) returns (pids: seq<int>)
    ensures pids == Matching(program, procs)
  {
    pids := [];
    for i := 0 to |procs|
      invariant pids == Matching(program, procs[..i])
    {
      assert procs[..i + 1][..i] == procs[..i];
      if procs[i].comm.None? {
        continue;
      }
      var name := procs[i].comm.value;
      if name == program {
        pids := pids + [procs[i].pid];
      }
    }
    assert procs[..|procs|] == procs;
  }

  /** A pid is collected for `program` exactly when some listed process with
      that pid has a readable name equal to `program`. */
  lemma {:induction false} MatchingExactly(program: string, procs: seq<Process>, pid: int)
    ensures pid in Matching(program, procs) <==>
            exists i :: 0 <= i < |procs| && procs[i].comm == Some(program) && procs[i].pid == pid
  {
    if procs != [] {
      var init := procs[..|procs| - 1];
      MatchingExactly(program, init, pid);
      if pid in Matching(program, init) {
        var i :| 0 <= i < |init| && init[i].comm == Some(program) && init[i].pid == pid;
        assert procs[i] == init[i];
      }
      if exists i :: 0 <= i < |procs| && procs[i].comm == Some(program) && procs[i].pid == pid {
        var i :| 0 <= i < |procs| && procs[i].comm == Some(program) && procs[i].pid == pid;
        if i < |init| {
          assert init[i] == procs[i];
        }
      }
    }
  }

  /** Each pid paired with the program it was found for. */
  function Tagged(program: string, pids: seq<int>): seq<(string, int)>
  {
    seq(|pids|, i requires 0 <= i < |pids| => (program, pids[i]))
  }

  /** `program_pid_list`: for each program in turn, its pids in listing order. */
  function PidPairs(programs: seq<string>, procs: seq<Process>): seq<(string, int)>
  {
    if programs == [] then []
    else
      var program := programs[|programs| - 1];
      PidPairs(programs[..|programs| - 1], procs) + Tagged(program, Matching(program, procs))
  }

  /** The loop that fills `program_pid_list`. */
  method CollectPids(programs: seq<string>, procs: seq<Process>) returns (pairs: seq<(string, int)>)
    ensures pairs == PidPairs(programs, procs)
  {
    pairs := [];
    for i := 0 to |programs|
      invariant pairs == PidPairs(programs[..i], procs)
    {
      assert programs[..i + 1][..i] == programs[..i];
      var pids := GetPids(programs[i], procs);
      ghost var before := pairs;
      for j := 0 to |pids|
        invariant pairs == before + Tagged(programs[i], pids[..j])
      {
        pairs := pairs + [(programs[i], pids[j])];
      }
      assert pids[..|pids|] == pids;
    }
    assert programs[..|programs|] == programs;
  }

  /** `(program, pid)` is in `program_pid_list` exactly when `program` was
      asked for and `pid` runs it. */
  lemma {:induction false} PidPairsExactly(programs: seq<string>, procs: seq<Process>, program: string, pid: int)
    ensures (program, pid) in PidPairs(programs, procs) <==>
            program in programs && pid in Matching(program, procs)
  {
    if programs != [] {
      var init := programs[..|programs| - 1];
      var last := programs[|programs| - 1];
      PidPairsExactly(init, procs, program, pid);
      assert programs == init + [last];
      var tagged := Tagged(last, Matching(last, procs));
      if (program, pid) in tagged {
        var k :| 0 <= k < |tagged| && tagged[k] == (program, pid);
        assert Matching(last, procs)[k] == pid;
      }
      if program == last && pid in Matching(last, procs) {
        var k :| 0 <= k < |Matching(last, procs)| && Matching(last, procs)[k] == pid;
        assert tagged[k] == (program, pid);
      }
    }
  }

  /** `os.listdir("/proc/<pid>/task")`: the threads of the listed process
      with that pid. */
  function ThreadsOf(procs: seq<Process>, pid: int): seq<Thread>
  {
    if procs == [] then []
    else if procs[0].pid == pid then procs[0].threads
    else ThreadsOf(procs[1..], pid)
  }

  /** The (cpu, "program:thread") observations of one process's threads, in
      listing order; threads whose `comm` cannot be opened are skipped. */
  function ThreadLabels(program: string, threads: seq<Thread>): (r: seq<(int, string)>)
    ensures |r| <= |threads|
  {
    if threads == [] then []
    else
      var last := threads[|threads| - 1];
      ThreadLabels(program, threads[..|threads| - 1]) +
      (if last.comm.Some? then [(last.lastCpu, program + ":" + last.comm.value)] else [])
  }

  /** Every observation is the last-run CPU and "program:name" of a thread
      whose name could be read. */
  lemma {:induction false} ThreadLabelsSound(program: string, threads: seq<Thread>, k: nat)
    requires k < |ThreadLabels(program, threads)|
    ensures exists j :: 0 <= j < |threads| && threads[j].comm.Some? &&
              ThreadLabels(program, threads)[k] == (threads[j].lastCpu, program + ":" + threads[j].comm.value)
  {
    var init := threads[..|threads| - 1];
    if k < |ThreadLabels(program, init)| {
      ThreadLabelsSound(program, init, k);
      var j :| 0 <= j < |init| && init[j].comm.Some? &&
               ThreadLabels(program, init)[k] == (init[j].lastCpu, program + ":" + init[j].comm.value);
      assert init[j] == threads[j];
    }
  }

  /** One observation per thread whose name could be read. */
  lemma {:induction false} ThreadLabelsCount(program: string, threads: seq<Thread>)
    ensures |ThreadLabels(program, threads)| == |set j | 0 <= j < |threads| && threads[j].comm.Some?|
  {
    if threads != [] {
      var n := |threads| - 1;
      var init := threads[..n];
      ThreadLabelsCount(program, init);
      var before := set j | 0 <= j < |init| && init[j].comm.Some?;
      var after := set j | 0 <= j < |threads| && threads[j].comm.Some?;
      if threads[n].comm.Some? {
        assert after == before + {n};
      } else {
        assert after == before;
      }
    }
  }

  /** Each (cpu, label) pair is observed exactly as often as there are
      readable threads that ran last on that CPU under that name. */
  lemma {:induction false} ThreadLabelsMultiplicity(program: string, threads: seq<Thread>, ob: (int, string))
    ensures multiset(ThreadLabels(program, threads))[ob] ==
            |set j | 0 <= j < |threads| && threads[j].comm.Some? &&
                     (threads[j].lastCpu, program + ":" + threads[j].comm.value) == ob|
  {
    if threads != [] {
      var n := |threads| - 1;
      var init := threads[..n];
      var last := threads[n];
      var hit := last.comm.Some? && (last.lastCpu, program + ":" + last.comm.value) == ob;
      var tail := if last.comm.Some? then [(last.lastCpu, program + ":" + last.comm.value)] else [];
      assert multiset(ThreadLabels(program, threads))[ob] ==
             multiset(ThreadLabels(program, init))[ob] + (if hit then 1 else 0) by {
        assert ThreadLabels(program, threads) == ThreadLabels(program, init) + tail;
      }
      ThreadLabelsMultiplicity(program, init, ob);
      var before := set j | 0 <= j < |init| && init[j].comm.Some? &&
                            (init[j].lastCpu, program + ":" + init[j].comm.value) == ob;
      var after := set j | 0 <= j < |threads| && threads[j].comm.Some? &&
                           (threads[j].lastCpu, program + ":" + threads[j].comm.value) == ob;
      assert |after| == |before| + (if hit then 1 else 0) by {
        forall j
          ensures j in after <==> j in before || (hit && j == n)
        {
          if 0 <= j < n {
            assert init[j] == threads[j];
          }
        }
        if hit {
          assert after == before + {n};
        } else {
          assert after == before;
        }
      }
    }
  }

  /** Every thread with a readable name is observed. */
  lemma {:induction false} ThreadLabelsComplete(program: string, threads: seq<Thread>, j: nat)
    requires j < |threads| && threads[j].comm.Some?
    ensures (threads[j].lastCpu, program + ":" + threads[j].comm.value) in ThreadLabels(program, threads)
  {
    var init := threads[..|threads| - 1];
    if j < |init| {
      ThreadLabelsComplete(program, init, j);
      assert init[j] == threads[j];
    }
  }

  /** All observations, program/pid pair by pair. */
  function Observations(pairs: seq<(string, int)>, procs: seq<Process>): seq<(int, string)>
  {
    if pairs == [] then []
    else
      var last := pairs[|pairs| - 1];
      Observations(pairs[..|pairs| - 1], procs) + ThreadLabels(last.0, ThreadsOf(procs, last.1))
  }

  /** One step of the loop: `name` is appended to `cpu`'s list, which is
      created as a singleton if `cpu` is absent; every other list is
      untouched. */
  function AddLabel(m: TaskMap, cpu: int, name: string): (m': TaskMap)
    ensures m'.Keys == m.Keys + {cpu}
    ensures m'[cpu] == (if cpu in m then m[cpu] else []) + [name]
    ensures forall c :: c in m && c != cpu ==> m'[c] == m[c]
  {
    if cpu in m then m[cpu := m[cpu] + [name]] else m[cpu := [name]]
  }

  /** The map after the observations, in order, were added to an empty one. */
  function TaskMapOf(obs: seq<(int, string)>): TaskMap
  {
    if obs == [] then map[]
    else
      var last := obs[|obs| - 1];
      AddLabel(TaskMapOf(obs[..|obs| - 1]), last.0, last.1)
  }

  /** The nested loops over `program_pid_list` and each process's threads. */
  method BuildTaskMap(pairs: seq<(string, int)>, procs: seq<Process>) returns (taskMap: TaskMap)
    ensures taskMap == TaskMapOf(Observations(pairs, procs))
  {
    taskMap := map[];
    for i := 0 to |pairs|
      invariant taskMap == TaskMapOf(Observations(pairs[..i], procs))
    {
      assert pairs[..i + 1][..i] == pairs[..i];
      var (program, pid) := pairs[i];
      taskMap := AddThreads(taskMap, program, ThreadsOf(procs, pid), Observations(pairs[..i], procs));
    }
    assert pairs[..|pairs|] == pairs;
  }

  /** The inner loop: labels the threads of one process of `program` and
      appends each label to its CPU's list. */
  method AddThreads(m: TaskMap, program: string, threads: seq<Thread>, ghost done: seq<(int, string)>)
    returns (taskMap: TaskMap)
    requires m == TaskMapOf(done)
    ensures taskMap == TaskMapOf(done + ThreadLabels(program, threads))
  {
    taskMap := m;
    assert done + ThreadLabels(program, threads[..0]) == done;
    for j := 0 to |threads|
      invariant taskMap == TaskMapOf(done + ThreadLabels(program, threads[..j]))
    {
      ThreadLabelsStep(program, threads, j, done);
      var thread := threads[j];
      if thread.comm.Some? {
        var name := program + ":" + thread.comm.value;
        TaskMapOfStep(done + ThreadLabels(program, threads[..j]), thread.lastCpu, name);
        taskMap := Append(taskMap, thread.lastCpu, name);
      } else {
        assert done + ThreadLabels(program, threads[..j + 1]) == done + ThreadLabels(program, threads[..j]);
      }
    }
    assert threads[..|threads|] == threads;
  }

  /** Lines 79-82: append to the CPU's list, or start one. */
  method Append(m: TaskMap, cpu: int, name: string) returns (taskMap: TaskMap)
    ensures taskMap == AddLabel(m, cpu, name)
  {
    if cpu in m {
      taskMap := m[cpu := m[cpu] + [name]];
    } else {
      taskMap := m[cpu := [name]];
    }
  }

  lemma ThreadLabelsStep(program: string, threads: seq<Thread>, j: nat, done: seq<(int, string)>)
    requires j < |threads|
    ensures done + ThreadLabels(program, threads[..j + 1]) ==
            done + ThreadLabels(program, threads[..j]) +
            (if threads[j].comm.Some? then [(threads[j].lastCpu, program + ":" + threads[j].comm.value)] else [])
  {
    assert threads[..j + 1][..j] == threads[..j];
  }

  lemma TaskMapOfStep(obs: seq<(int, string)>, cpu: int, name: string)
    ensures TaskMapOf(obs + [(cpu, name)]) == AddLabel(TaskMapOf(obs), cpu, name)
  {
  }

  /** Lines 60-82 of the script: `program_pid_list`, then `task_map`. */
  method Aggregate(programs: seq<string>, procs: seq<Process>) returns (taskMap: TaskMap)
    ensures taskMap == TaskMapOf(Observations(PidPairs(programs, procs), procs))
  {
    var pairs := CollectPids(programs, procs);
    taskMap := BuildTaskMap(pairs, procs);
  }

  /** The task map the aggregation loops build for `programs`. */
  function TaskMapFor(programs: seq<string>, procs: seq<Process>): TaskMap
  {
    TaskMapOf(Observations(PidPairs(programs, procs), procs))
  }

  /** Pairs of a longer program list: those of the first programs, then
      those of the rest. */
  lemma {:induction false} PidPairsAppend(ps: seq<string>, qs: seq<string>, procs: seq<Process>)
    ensures PidPairs(ps + qs, procs) == PidPairs(ps, procs) + PidPairs(qs, procs)
  {
    if qs == [] {
      assert ps + qs == ps;
    } else {
      var init, last := qs[..|qs| - 1], qs[|qs| - 1];
      assert ps + qs == (ps + init) + [last];
      assert qs == init + [last];
      PidPairsSnoc(ps + init, last, procs);
      PidPairsSnoc(init, last, procs);
      PidPairsAppend(ps, init, procs);
    }
  }

  lemma PidPairsSnoc(programs: seq<string>, program: string, procs: seq<Process>)
    ensures PidPairs(programs + [program], procs) ==
            PidPairs(programs, procs) + Tagged(program, Matching(program, procs))
  {
    assert (programs + [program])[..|programs|] == programs;
  }

  /** Observations of a longer pair list: those of the first pairs, then
      those of the rest. */
  lemma {:induction false} ObservationsAppend(a: seq<(string, int)>, b: seq<(string, int)>, procs: seq<Process>)
    ensures Observations(a + b, procs) == Observations(a, procs) + Observations(b, procs)
  {
    if b == [] {
      assert a + b == a;
    } else {
      var init, last := b[..|b| - 1], b[|b| - 1];
      var tail := ThreadLabels(last.0, ThreadsOf(procs, last.1));
      assert (a + b)[..|a + b| - 1] == a + init;
      assert Observations(a + b, procs) == Observations(a + init, procs) + tail;
      ObservationsAppend(a, init, procs);
      assert Observations(b, procs) == Observations(init, procs) + tail;
    }
  }

  /** What a CPU saw in a longer observation list: what it saw in the first
      observations, then in the rest. */
  lemma {:induction false} LabelsOnAppend(a: seq<(int, string)>, b: seq<(int, string)>, cpu: int)
    ensures LabelsOn(a + b, cpu) == LabelsOn(a, cpu) + LabelsOn(b, cpu)
  {
    if b == [] {
      assert a + b == a;
    } else {
      var init, last := b[..|b| - 1], b[|b| - 1];
      var tail := if last.0 == cpu then [last.1] else [];
      assert (a + b)[..|a + b| - 1] == a + init;
      assert LabelsOn(a + b, cpu) == LabelsOn(a + init, cpu) + tail;
      LabelsOnAppend(a, init, cpu);
      assert LabelsOn(b, cpu) == LabelsOn(init, cpu) + tail;
    }
  }

  /** The loops take the program list as given: naming no program leaves
      the map empty, and naming every program twice lists each thread twice
      on its CPU, the whole list over again. */
  lemma RepeatedPrograms(programs: seq<string>, procs: seq<Process>)
    ensures TaskMapFor([], procs) == map[]
    ensures forall cpu :: cpu in TaskMapFor(programs + programs, procs) <==> cpu in TaskMapFor(programs, procs)
    ensures forall cpu :: cpu in TaskMapFor(programs, procs) ==>
              TaskMapFor(programs + programs, procs)[cpu] ==
              TaskMapFor(programs, procs)[cpu] + TaskMapFor(programs, procs)[cpu]
  {
    var obs := Observations(PidPairs(programs, procs), procs);
    PidPairsAppend(programs, programs, procs);
    ObservationsAppend(PidPairs(programs, procs), PidPairs(programs, procs), procs);
    assert Observations(PidPairs(programs + programs, procs), procs) == obs + obs;
    forall cpu
      ensures cpu in TaskMapFor(programs + programs, procs) <==> cpu in TaskMapFor(programs, procs)
      ensures cpu in TaskMapFor(programs, procs) ==>
                TaskMapFor(programs + programs, procs)[cpu] ==
                TaskMapFor(programs, procs)[cpu] + TaskMapFor(programs, procs)[cpu]
    {
      TaskMapExactly(obs, cpu);
      TaskMapExactly(obs + obs, cpu);
      LabelsOnAppend(obs, obs, cpu);
    }
  }

  /** The labels observed on `cpu`, in observation order. */
  function LabelsOn(obs: seq<(int, string)>, cpu: int): seq<string>
  {
    if obs == [] then []
    else
      var last := obs[|obs| - 1];
      LabelsOn(obs[..|obs| - 1], cpu) + (if last.0 == cpu then [last.1] else [])
  }

  /** A CPU has an entry exactly when something was observed on it, and its
      list is everything observed on it, in observation order. */
  lemma {:induction false} TaskMapExactly(obs: seq<(int, string)>, cpu: int)
    ensures cpu in TaskMapOf(obs) <==> LabelsOn(obs, cpu) != []
    ensures cpu in TaskMapOf(obs) ==> TaskMapOf(obs)[cpu] == LabelsOn(obs, cpu)
  {
    if obs != [] {
      TaskMapExactly(obs[..|obs| - 1], cpu);
    }
  }

  /** Number of labels in the lists of `keys`, counting absent keys as empty. */
  function LabelCount(m: TaskMap, keys: seq<int>): nat
  {
    if keys == [] then 0
    else
      var c := keys[|keys| - 1];
      LabelCount(m, keys[..|keys| - 1]) + (if c in m then |m[c]| else 0)
  }

  /** Adding a label adds one to the count of every enumeration that lists
      its CPU once, and nothing to one that does not list it. */
  lemma {:induction false} AddLabelCount(m: TaskMap, cpu: int, name: string, keys: seq<int>)
    requires NoDuplicates(keys)
    ensures LabelCount(AddLabel(m, cpu, name), keys) == LabelCount(m, keys) + (if cpu in keys then 1 else 0)
  {
    if keys != [] {
      var init := keys[..|keys| - 1];
      assert keys == init + [keys[|keys| - 1]];
      AddLabelCount(m, cpu, name, init);
    }
  }

  /** However the CPUs of the map are enumerated, its lists hold one label per
      observed thread altogether. */
  lemma {:induction false} TaskMapTotal(obs: seq<(int, string)>, keys: seq<int>)
    requires NoDuplicates(keys)
    requires forall c :: c in TaskMapOf(obs) ==> c in keys
    ensures LabelCount(TaskMapOf(obs), keys) == |obs|
  {
    if obs != [] {
      var last := obs[|obs| - 1];
      var init := obs[..|obs| - 1];
      assert TaskMapOf(obs) == AddLabel(TaskMapOf(init), last.0, last.1);
      assert last.0 in keys;
      TaskMapTotal(init, keys);
      AddLabelCount(TaskMapOf(init), last.0, last.1, keys);
    } else {
      NothingToCount(keys);
    }
  }

  lemma {:induction false} NothingToCount(keys: seq<int>)
    ensures LabelCount(map[], keys) == 0
  {
    if keys != [] {
      NothingToCount(keys[..|keys| - 1]);
    }
  }
}
