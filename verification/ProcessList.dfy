/** Finding a process by pid in the guest kernel's circular process list
    (os/windows/memory.c, os/linux/memory.c). */
module ProcessList {
  import opened Words

  /** What the walkers read: the word a list link points at, the 32-bit word at an address (None
      where the guest cannot be read), and where link and pid lie in a process structure. */
  datatype Kernel = Kernel(initTask: U64, pidOffset: int, tasksOffset: int,
                           link: U64 -> Option<U64>, word: U64 -> Option<int>)

  /** The pid as the walkers look for it, from the link of a process. */
  function PidAt(k: Kernel, node: U64): Option<int> {
    k.word((node + k.pidOffset - k.tasksOffset) % 0x1_0000_0000_0000_0000)
  }

  /** vmi_read_addr_va into a variable that starts at zero. */
  function ReadAddr(k: Kernel, va: U64): U64 {
    if k.link(va).Some? then k.link(va).value else 0
  }

  // ----- process structures ---------------------------------------------------------------

  /** Where the link of a process structure lies. */
  function LinkOf(k: Kernel, task: U64): U64 { (task + k.tasksOffset) % 0x1_0000_0000_0000_0000 }

  /** The pid in a process structure. */
  function PidOf(k: Kernel, task: U64): Option<int> { k.word((task + k.pidOffset) % 0x1_0000_0000_0000_0000) }

  lemma WholeTurns(v: int, q: int)
    ensures (v - 0x1_0000_0000_0000_0000 * q) % 0x1_0000_0000_0000_0000 == v % 0x1_0000_0000_0000_0000
  {
  }

  /** From the link of a process the walkers come to the pid of that process. */
  lemma LinkLeadsToPid(k: Kernel, task: U64)
    ensures PidAt(k, LinkOf(k, task)) == PidOf(k, task)
  {
    WholeTurns(task + k.pidOffset, (task + k.tasksOffset) / 0x1_0000_0000_0000_0000);
  }

  /** Every address is the link of one process structure. */
  lemma LinkHasTask(k: Kernel, node: U64)
    ensures exists task: U64 :: LinkOf(k, task) == node
  {
    var task := (node - k.tasksOffset) % 0x1_0000_0000_0000_0000;
    WholeTurns(node, (node - k.tasksOffset) / 0x1_0000_0000_0000_0000);
    assert LinkOf(k, task) == node;
  }

  /** The process list: structures with distinct, non-zero links, each readable and leading to the
      next. */
  predicate Ring(k: Kernel, tasks: seq<U64>) {
    && |tasks| > 0 && LinkOf(k, tasks[0]) == k.initTask
    && (forall i :: 0 <= i < |tasks| ==>
         LinkOf(k, tasks[i]) != 0 && k.link(LinkOf(k, tasks[i])) == Some(LinkOf(k, tasks[Next(tasks, i)])))
    && (forall i, j :: 0 <= i < j < |tasks| ==> LinkOf(k, tasks[i]) != LinkOf(k, tasks[j]))
  }

  function Next(tasks: seq<U64>, i: int): (j: int)
    requires 0 <= i < |tasks|
    ensures 0 <= j < |tasks|
  {
    if i == |tasks| - 1 then 0 else i + 1
  }

  predicate NonePidBelow(k: Kernel, tasks: seq<U64>, n: int)
    requires n <= |tasks|
  {
    forall j :: 0 <= j < n ==> PidOf(k, tasks[j]).None?
  }

  /** A process matches if it holds the pid. An unreadable pid keeps the variable's last value, which
      is the pid only while it is still the initial zero. */
  predicate Matches(k: Kernel, tasks: seq<U64>, i: int, pid: int)
    requires 0 <= i < |tasks|
  {
    PidOf(k, tasks[i]) == Some(pid) || (pid == 0 && NonePidBelow(k, tasks, i + 1))
  }

  predicate NoneBelow(k: Kernel, tasks: seq<U64>, n: int, pid: int)
    requires n <= |tasks|
  {
    forall i :: 0 <= i < n ==> !Matches(k, tasks, i, pid)
  }

  predicate IsFirst(k: Kernel, tasks: seq<U64>, i: int, pid: int) {
    0 <= i < |tasks| && Matches(k, tasks, i, pid) && NoneBelow(k, tasks, i, pid)
  }

  /** The answer of a walker that examines the processes below limit: the link of the first match,
      or zero when there is none. */
  ghost predicate Answer(k: Kernel, tasks: seq<U64>, limit: int, pid: int, r: U64)
    requires limit <= |tasks|
  {
    && (r != 0 ==> exists i :: IsFirst(k, tasks, i, pid) && i < limit && r == LinkOf(k, tasks[i]))
    && (r == 0 <==> NoneBelow(k, tasks, limit, pid))
  }

  /** For any pid but 0: the structure found is the first one that holds the pid, and nothing is
      found only when no examined structure holds it. */
  lemma AnswerHoldsPid(k: Kernel, tasks: seq<U64>, limit: int, pid: int, r: U64)
    requires 0 <= limit <= |tasks| && Answer(k, tasks, limit, pid, r) && pid != 0
    ensures r == 0 ==> forall i :: 0 <= i < limit ==> PidOf(k, tasks[i]) != Some(pid)
    ensures r != 0 ==>
              exists i :: 0 <= i < limit && r == LinkOf(k, tasks[i]) && PidOf(k, tasks[i]) == Some(pid)
                && forall j :: 0 <= j < i ==> PidOf(k, tasks[j]) != Some(pid)
  {
    hide LinkOf, PidOf;
    if r == 0 {
      forall i | 0 <= i < limit ensures PidOf(k, tasks[i]) != Some(pid) {
        assert !Matches(k, tasks, i, pid);
      }
    } else {
      var i :| IsFirst(k, tasks, i, pid) && i < limit && r == LinkOf(k, tasks[i]);
      forall j | 0 <= j < i ensures PidOf(k, tasks[j]) != Some(pid) {
        assert !Matches(k, tasks, j, pid);
      }
    }
  }

  // ----- the walkers ----------------------------------------------------------------------

  /** The variable task_pid after n processes without a match. */
  predicate Stale(k: Kernel, tasks: seq<U64>, n: int, pid: int, taskPid: int)
    requires n <= |tasks|
  {
    if taskPid == pid then pid == 0 && NonePidBelow(k, tasks, n) else !NonePidBelow(k, tasks, n) || taskPid == 0
  }

  /** vmi_read_32_va(&task_pid): a failed read leaves it alone. */
  lemma ReadPid(k: Kernel, tasks: seq<U64>, i: int, pid: int, before: int, after: int)
    requires 0 <= i < |tasks| && Stale(k, tasks, i, pid, before)
    requires var read := PidAt(k, LinkOf(k, tasks[i])); after == if read.Some? then read.value else before
    ensures after == pid <==> Matches(k, tasks, i, pid)
    ensures after != pid ==> Stale(k, tasks, i + 1, pid, after)
  {
    hide PidAt, LinkOf, PidOf;
    LinkLeadsToPid(k, tasks[i]);
  }

  /** windows_get_EPROCESS: every process is examined once before giving up. */
  method WindowsGetEprocess(k: Kernel, pid: int, ghost tasks: seq<U64>) returns (r: U64)
    requires Ring(k, tasks)
    ensures Answer(k, tasks, |tasks|, pid, r)
  {
    hide Stale, Matches, PidAt, LinkOf;
    var listHead: U64, nextProcess, taskPid := 0, k.initTask, 0;
    ghost var i := 0;
    assert Stale(k, tasks, 0, pid, taskPid) by { StartsStale(k, tasks, pid); }
    while true
      invariant 0 <= i <= |tasks|
      invariant nextProcess == LinkOf(k, if i == |tasks| then tasks[0] else tasks[i])
      invariant listHead == if i == 0 then 0 else LinkOf(k, tasks[Next(tasks, 0)])
      invariant NoneBelow(k, tasks, i, pid)
      invariant Stale(k, tasks, i, pid, taskPid)
      decreases |tasks| - i
    {
      var nextProcessTmp := ReadAddr(k, nextProcess);
      if listHead == nextProcessTmp {
        return 0;
      }
      assert i < |tasks|;
      var read := PidAt(k, nextProcess);
      ghost var before := taskPid;
      if read.Some? {
        taskPid := read.value;
      }
      ReadPid(k, tasks, i, pid, before, taskPid);
      if taskPid == pid {
        assert IsFirst(k, tasks, i, pid);
        return nextProcess;
      }
      nextProcess := nextProcessTmp;
      if listHead == 0 {
        listHead := nextProcess;
      }
      i := i + 1;
    }
  }

  lemma StartsStale(k: Kernel, tasks: seq<U64>, pid: int)
    ensures Stale(k, tasks, 0, pid, 0)
  {
  }

  /** linux_get_taskstruct_addr: the process that leads back to the start is never examined. */
  method LinuxGetTaskstructAddr(k: Kernel, pid: int, ghost tasks: seq<U64>) returns (r: U64)
    requires Ring(k, tasks)
    ensures Answer(k, tasks, |tasks| - 1, pid, r)
  {
    hide Stale, Matches, PidAt, LinkOf;
    var nextProcess, taskPid := k.initTask, 0;
    var listHead := nextProcess;
    ghost var i := 0;
    assert Stale(k, tasks, 0, pid, taskPid) by { StartsStale(k, tasks, pid); }
    while true
      invariant 0 <= i < |tasks|
      invariant nextProcess == LinkOf(k, tasks[i])
      invariant NoneBelow(k, tasks, i, pid)
      invariant Stale(k, tasks, i, pid, taskPid)
      decreases |tasks| - i
    {
      var nextProcessTmp := ReadAddr(k, nextProcess);
      if listHead == nextProcessTmp {
        return 0;
      }
      var read := PidAt(k, nextProcess);
      ghost var before := taskPid;
      if read.Some? {
        taskPid := read.value;
      }
      ReadPid(k, tasks, i, pid, before, taskPid);
      if taskPid == pid {
        assert IsFirst(k, tasks, i, pid);
        return nextProcess;
      }
      nextProcess := nextProcessTmp;
      i := i + 1;
    }
  }

  /** The Linux walker is right exactly when the last process of the ring is not the first match. */
  lemma LinuxMissesTheLastNode(k: Kernel, tasks: seq<U64>, pid: int, full: U64, linux: U64)
    requires Ring(k, tasks)
    requires Answer(k, tasks, |tasks|, pid, full) && Answer(k, tasks, |tasks| - 1, pid, linux)
    ensures linux == full <==> !IsFirst(k, tasks, |tasks| - 1, pid)
    ensures linux != full ==> linux == 0 && full == LinkOf(k, tasks[|tasks| - 1])
  {
    hide Matches, LinkOf;
    if full != 0 {
      var i :| IsFirst(k, tasks, i, pid) && full == LinkOf(k, tasks[i]);
      if linux != 0 {
        var j :| IsFirst(k, tasks, j, pid) && j < |tasks| - 1 && linux == LinkOf(k, tasks[j]);
        assert i == j;
      }
    }
  }

  // ----- two processes --------------------------------------------------------------------

  /** Structures at 0x1000 and 0x2000, with pids 4 and 7 at offset 0x84 and links at offset 0x88; the
      second one's link leads back to the first. */
  const TWO_PROCESSES := Kernel(0x1088, 0x84, 0x88, va => if va == 0x1088 then Some(0x2088) else Some(0x1088),
                                va => if va == 0x1084 then Some(4) else if va == 0x2084 then Some(7) else None)

  /** The Windows walker finds both; pid 7 is there, and the Linux walker does not find it. */
  lemma LastProcessIsMissed(four: U64, full: U64, linux: U64)
    requires Answer(TWO_PROCESSES, [0x1000, 0x2000], 2, 4, four)
    requires Answer(TWO_PROCESSES, [0x1000, 0x2000], 2, 7, full)
    requires Answer(TWO_PROCESSES, [0x1000, 0x2000], 1, 7, linux)
    ensures Ring(TWO_PROCESSES, [0x1000, 0x2000]) && four == 0x1088 && full == 0x2088 && linux == 0
  {
    var k, tasks := TWO_PROCESSES, [0x1000, 0x2000];
    assert PidOf(k, tasks[0]) == Some(4) && PidOf(k, tasks[1]) == Some(7);
    assert Matches(k, tasks, 0, 4) && !Matches(k, tasks, 0, 7) && Matches(k, tasks, 1, 7);
    LinuxMissesTheLastNode(k, tasks, 7, full, linux);
  }
}
