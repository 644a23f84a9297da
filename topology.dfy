/** The CPU topology loop: for each CPU id up to `kernel_max`, its core and
    socket (physical package) ids, grouped into `core_map` under
    (socket, core), plus the distinct `sockets` and `cores` seen. The sysfs
    reads are given as `read(cpu)`: None when the CPU's `core_id` cannot be
    opened (offline or absent CPU), otherwise its core and socket ids. */
module Topology {
  import opened Base
  import opened Sorting

  datatype CpuTopology = CpuTopology(core: int, socket: int)

  /** What the loop leaves behind: `core_map`, `sockets` and `cores`. */
  datatype Topology = Topology(coreMap: map<(int, int), seq<nat>>, sockets: seq<int>, cores: seq<int>)

  /** `len(range(max_cpus + 1))`. */
  function CpuCount(maxCpus: int): nat
  {
    if maxCpus + 1 > 0 then maxCpus + 1 else 0
  }

  /** The `core_map` key of a CPU: (socket, core). */
  function KeyOf(t: CpuTopology): (int, int)
  {
    (t.socket, t.core)
  }

  function SocketOf(t: CpuTopology): int
  {
    t.socket
  }

  function CoreOf(t: CpuTopology): int
  {
    t.core
  }

  /** The CPUs below `n` that were found with key `key`, ascending. */
  function CpusOf(n: nat, read: nat -> Option<CpuTopology>, key: (int, int)): seq<nat>
  {
    if n == 0 then []
    else CpusOf(n - 1, read, key) + (if read(n - 1).Some? && KeyOf(read(n - 1).value) == key then [n - 1] else [])
  }

  /** The keys of the CPUs below `n` that were found. */
  function FoundKeys(n: nat, read: nat -> Option<CpuTopology>): set<(int, int)>
  {
    set cpu: nat | cpu < n && read(cpu).Some? :: KeyOf(read(cpu).value)
  }

  /** Reference `core_map` after the CPUs below `n`: each key of a found CPU
      maps to the CPUs found with that key. */
  function CoreMapOf(n: nat, read: nat -> Option<CpuTopology>): map<(int, int), seq<nat>>
  {
    map k | k in FoundKeys(n, read) :: CpusOf(n, read, k)
  }

  /** `sockets` (with `SocketOf`) or `cores` (with `CoreOf`) after the CPUs
      below `n`: each id in the order it was first seen. */
  function SeenIds(n: nat, read: nat -> Option<CpuTopology>, id: CpuTopology -> int): seq<int>
  {
    if n == 0 then []
    else
      var seen := SeenIds(n - 1, read, id);
      if read(n - 1).Some? && id(read(n - 1).value) !in seen then seen + [id(read(n - 1).value)] else seen
  }

  /** Lines 84-108: the loop over `range(max_cpus + 1)`. */
  method Discover(maxCpus: int, read: nat -> Option<CpuTopology>) returns (topo: Topology)
    ensures topo.coreMap == CoreMapOf(CpuCount(maxCpus), read)
    ensures topo.sockets == SeenIds(CpuCount(maxCpus), read, SocketOf)
    ensures topo.cores == SeenIds(CpuCount(maxCpus), read, CoreOf)
  {
    var sockets: seq<int> := [];
    var cores: seq<int> := [];
    var coreMap: map<(int, int), seq<nat>> := map[];
    for cpu := 0 to CpuCount(maxCpus)
      invariant coreMap == CoreMapOf(cpu, read)
      invariant sockets == SeenIds(cpu, read, SocketOf)
      invariant cores == SeenIds(cpu, read, CoreOf)
    {
      CoreMapStep(cpu, read);
      var t := read(cpu);
      if t.None? {
        continue;
      }
      var core := t.value.core;
      var socket := t.value.socket;
      if core !in cores {
        cores := cores + [core];
      }
      if socket !in sockets {
        sockets := sockets + [socket];
      }
      var key := (socket, core);
      if key !in coreMap {
        coreMap := coreMap[key := []];
      }
      coreMap := coreMap[key := coreMap[key] + [cpu]];
    }
    topo := Topology(coreMap, sockets, cores);
  }

  /** One turn of the loop, on the reference map: a CPU without topology
      changes nothing; a found one is appended under its key. */
  lemma CoreMapStep(n: nat, read: nat -> Option<CpuTopology>)
    ensures read(n).None? ==> CoreMapOf(n + 1, read) == CoreMapOf(n, read)
    ensures read(n).Some? ==>
              var k := KeyOf(read(n).value);
              var m := CoreMapOf(n, read);
              CoreMapOf(n + 1, read) == m[k := (if k in m then m[k] else []) + [n]]
  {
    if read(n).None? {
      SkipCpu(n, read);
    } else {
      AddCpu(n, read);
    }
  }

  lemma SkipCpu(n: nat, read: nat -> Option<CpuTopology>)
    requires read(n).None?
    ensures CoreMapOf(n + 1, read) == CoreMapOf(n, read)
  {
    var m, m' := CoreMapOf(n, read), CoreMapOf(n + 1, read);
    assert FoundKeys(n + 1, read) == FoundKeys(n, read) by {
      forall k | k in FoundKeys(n + 1, read) ensures k in FoundKeys(n, read) {
        var cpu: nat :| cpu < n + 1 && read(cpu).Some? && KeyOf(read(cpu).value) == k;
        assert cpu < n;
      }
    }
    forall k | k in m'
      ensures m'[k] == m[k]
    {
      assert CpusOf(n + 1, read, k) == CpusOf(n, read, k) + [];
    }
  }

  lemma FoundKeysGrow(n: nat, read: nat -> Option<CpuTopology>)
    requires read(n).Some?
    ensures FoundKeys(n + 1, read) == FoundKeys(n, read) + {KeyOf(read(n).value)}
  {
    var key := KeyOf(read(n).value);
    forall k | k in FoundKeys(n + 1, read) ensures k in FoundKeys(n, read) + {key} {
      var cpu: nat :| cpu < n + 1 && read(cpu).Some? && KeyOf(read(cpu).value) == k;
      if cpu < n {
        assert k in FoundKeys(n, read);
      }
    }
  }

  lemma AddCpu(n: nat, read: nat -> Option<CpuTopology>)
    requires read(n).Some?
    ensures var k := KeyOf(read(n).value);
            var m := CoreMapOf(n, read);
            CoreMapOf(n + 1, read) == m[k := (if k in m then m[k] else []) + [n]]
  {
    var m, m' := CoreMapOf(n, read), CoreMapOf(n + 1, read);
    var key := KeyOf(read(n).value);
    FoundKeysGrow(n, read);
    var target := m[key := (if key in m then m[key] else []) + [n]];
    if key !in m {
      CpusOfNone(n, read, key);
    }
    forall k | k in m'
      ensures m'[k] == target[k]
    {
      if k == key {
        assert CpusOf(n + 1, read, k) == CpusOf(n, read, k) + [n];
      } else {
        assert CpusOf(n + 1, read, k) == CpusOf(n, read, k) + [];
      }
    }
    assert m'.Keys == target.Keys;
  }

  lemma {:induction false} CpusOfNone(n: nat, read: nat -> Option<CpuTopology>, key: (int, int))
    requires key !in FoundKeys(n, read)
    ensures CpusOf(n, read, key) == []
  {
    if n > 0 {
      if read(n - 1).Some? {
        assert KeyOf(read(n - 1).value) in FoundKeys(n, read);
      }
      assert FoundKeys(n - 1, read) <= FoundKeys(n, read);
      CpusOfNone(n - 1, read, key);
    }
  }

  /** A CPU is listed under `key` exactly when it is below `n`, its topology
      was found, and its (socket, core) is `key`. */
  lemma {:induction false} CpusOfExactly(n: nat, read: nat -> Option<CpuTopology>, key: (int, int))
    ensures forall cpu: nat :: cpu in CpusOf(n, read, key) <==>
              cpu < n && read(cpu).Some? && KeyOf(read(cpu).value) == key
  {
    if n > 0 {
      CpusOfExactly(n - 1, read, key);
    }
  }

  /** Each list is in strictly ascending CPU order, so no CPU is listed twice. */
  lemma {:induction false} CpusOfAscending(n: nat, read: nat -> Option<CpuTopology>, key: (int, int))
    ensures forall i, j :: 0 <= i < j < |CpusOf(n, read, key)| ==> CpusOf(n, read, key)[i] < CpusOf(n, read, key)[j]
  {
    if n > 0 {
      CpusOfAscending(n - 1, read, key);
      CpusOfExactly(n - 1, read, key);
      var prev := CpusOf(n - 1, read, key);
      assert forall i :: 0 <= i < |prev| ==> prev[i] in prev;
    }
  }

  /** What `core_map` holds after the loop: every key is the (socket, core)
      of a found CPU; its list is non-empty, strictly ascending and holds
      exactly the found CPUs in `[0, max_cpus]` with that key. So each found
      CPU appears in one list only, once, and CPUs without topology appear
      nowhere. */
  lemma CoreMapExactly(maxCpus: int, read: nat -> Option<CpuTopology>, key: (int, int))
    ensures key in CoreMapOf(CpuCount(maxCpus), read) <==>
            exists cpu: nat :: cpu <= maxCpus && read(cpu).Some? && KeyOf(read(cpu).value) == key
    ensures key in CoreMapOf(CpuCount(maxCpus), read) ==>
              var cpus := CoreMapOf(CpuCount(maxCpus), read)[key];
              && cpus != []
              && (forall i, j :: 0 <= i < j < |cpus| ==> cpus[i] < cpus[j])
              && (forall cpu: nat :: cpu in cpus <==>
                    cpu <= maxCpus && read(cpu).Some? && KeyOf(read(cpu).value) == key)
  {
    var n := CpuCount(maxCpus);
    CpusOfExactly(n, read, key);
    CpusOfAscending(n, read, key);
    if key in CoreMapOf(n, read) {
      var cpu: nat :| cpu < n && read(cpu).Some? && KeyOf(read(cpu).value) == key;
      assert cpu in CpusOf(n, read, key);
    }
  }

  /** `sockets` and `cores` have no repeats and hold exactly the ids of the
      CPUs whose topology was found. */
  lemma {:induction false} SeenIdsExactly(n: nat, read: nat -> Option<CpuTopology>, id: CpuTopology -> int)
    ensures NoDuplicates(SeenIds(n, read, id))
    ensures forall x :: x in SeenIds(n, read, id) <==>
              exists cpu: nat :: cpu < n && read(cpu).Some? && id(read(cpu).value) == x
  {
    if n > 0 {
      SeenIdsExactly(n - 1, read, id);
      forall x | exists cpu: nat :: cpu < n && read(cpu).Some? && id(read(cpu).value) == x
        ensures x in SeenIds(n, read, id)
      {
        var cpu: nat :| cpu < n && read(cpu).Some? && id(read(cpu).value) == x;
        if cpu < n - 1 {
          assert x in SeenIds(n - 1, read, id);
        }
      }
    }
  }
}
