/** A scheduler that runs a list of shell commands one after another on a GPU,
    starting each only when the device reports enough free memory. The NVML
    library, the clock and the child processes are outside the model: each step of
    the main loop receives what they would report as an `Observation`. */
module GpuScheduler {
  import opened Wrappers
  import opened Text
  import Placeholder

  // ---------------------------------------------------------------------------
  // File names
  // ---------------------------------------------------------------------------

  /** The characters `sanitize_filename` replaces by `_`. */
  predicate Illegal(c: char)
  {
    c == '<' || c == '>' || c == ':' || c == '"' || c == '/' || c == '\\' || c == '|' || c == '?' || c == '*'
  }

  predicate IsDot(c: char) { c == '.' }

  predicate NoIllegal(s: string)
  {
    forall k :: 0 <= k < |s| ==> !Illegal(s[k])
  }

  predicate NoSpace(s: string)
  {
    forall k :: 0 <= k < |s| ==> !IsSpace(s[k])
  }

  function ReplaceIllegal(s: string): (r: string)
    ensures |r| == |s| && NoIllegal(r)
    ensures forall k :: 0 <= k < |s| ==> r[k] == (if Illegal(s[k]) then '_' else s[k])
  {
    seq(|s|, k requires 0 <= k < |s| => if Illegal(s[k]) then '_' else s[k])
  }

  /** Drops the leading characters satisfying `drop`. */
  function TrimStart(s: string, drop: char -> bool): (r: string)
    ensures |r| <= |s| && r == s[|s| - |r|..]
    ensures |r| > 0 ==> !drop(r[0])
  {
    if |s| > 0 && drop(s[0]) then TrimStart(s[1..], drop) else s
  }

  /** Drops the trailing characters satisfying `drop`. */
  function TrimEnd(s: string, drop: char -> bool): (r: string)
    ensures |r| <= |s| && r == s[..|r|]
    ensures |r| > 0 ==> !drop(r[|r| - 1])
  {
    if |s| > 0 && drop(s[|s| - 1]) then TrimEnd(s[..|s| - 1], drop) else s
  }

  /** `str.strip`: both ends. What is kept is a slice of the input. */
  function Strip(s: string, drop: char -> bool): (r: string)
    ensures |r| <= |s|
    ensures |r| > 0 ==> !drop(r[0]) && !drop(r[|r| - 1])
  {
    TrimEnd(TrimStart(s, drop), drop)
  }

  /** A slice of a string without illegal characters or white space has none. */
  lemma SliceClean(s: string, i: nat, j: nat)
    requires i <= j <= |s|
    ensures NoIllegal(s) ==> NoIllegal(s[i..j])
    ensures NoSpace(s) ==> NoSpace(s[i..j])
  {
    assert forall k :: 0 <= k < j - i ==> s[i..j][k] == s[i + k];
  }

  /** Stripping keeps a slice of the input. */
  lemma StripClean(s: string, drop: char -> bool)
    ensures NoIllegal(s) ==> NoIllegal(Strip(s, drop))
    ensures NoSpace(s) ==> NoSpace(Strip(s, drop))
  {
    var a := TrimStart(s, drop);
    SliceClean(s, |s| - |a|, |s|);
    assert a == s[|s| - |a|..|s|];
    var r := TrimEnd(a, drop);
    SliceClean(a, 0, |r|);
    assert r == a[0..|r|];
  }

  lemma StripKeeps(s: string, drop: char -> bool)
    requires |s| > 0 && !drop(s[0]) && !drop(s[|s| - 1])
    ensures Strip(s, drop) == s
  {
    assert TrimStart(s, drop) == s;
  }

  /** `re.sub(r'\s+', '_', s)`: every run of white space becomes one `_`. A
      white-space character followed by another is dropped, the last one of a
      run is replaced. */
  function CollapseSpaces(s: string): (r: string)
    ensures |r| <= |s| && NoSpace(r)
  {
    if |s| == 0 then ""
    else
      var tail := CollapseSpaces(s[1..]);
      if IsSpace(s[0]) && |s| > 1 && IsSpace(s[1]) then tail
      else
        var c := if IsSpace(s[0]) then '_' else s[0];
        ConsClean(c, tail);
        [c] + tail
  }

  /** Collapsing white space brings in no illegal character. */
  lemma {:induction false} CollapseKeepsLegal(s: string)
    requires NoIllegal(s)
    ensures NoIllegal(CollapseSpaces(s))
  {
    if |s| > 0 {
      SliceClean(s, 1, |s|);
      CollapseKeepsLegal(s[1..]);
      var c := if IsSpace(s[0]) then '_' else s[0];
      ConsClean(c, CollapseSpaces(s[1..]));
    }
  }

  lemma ConsClean(c: char, t: string)
    ensures !IsSpace(c) && NoSpace(t) ==> NoSpace([c] + t)
    ensures !Illegal(c) && NoIllegal(t) ==> NoIllegal([c] + t)
  {
    assert forall k :: 1 <= k < |t| + 1 ==> ([c] + t)[k] == t[k - 1];
  }

  /** `sanitize_filename(filename, max_length)`. The result never holds an illegal
      character or white space, never starts with a dot, is never empty, and is no
      longer than `maxLength` unless it is the fallback `Unnamed`. */
  function Sanitize(filename: string, maxLength: nat): (r: string)
    ensures |r| > 0 && r[0] != '.'
    ensures NoIllegal(r) && NoSpace(r)
    ensures r != Unnamed ==> |r| <= maxLength
  {
    var d := Truncate(Cleaned(filename), maxLength);
    if |d| == 0 then UnnamedClean(); Unnamed else d
  }

  const Unnamed: string := "unnamed"

  lemma UnnamedClean()
    ensures |Unnamed| > 0 && Unnamed[0] != '.' && NoIllegal(Unnamed) && NoSpace(Unnamed)
  {
    assert Unnamed == ['u', 'n', 'n', 'a', 'm', 'e', 'd'];
  }

  /** The three rewrites of `sanitize_filename` before truncation. */
  function Cleaned(filename: string): (c: string)
    ensures NoIllegal(c) && NoSpace(c)
    ensures |c| > 0 ==> c[0] != '.'
  {
    var a := Strip(ReplaceIllegal(filename), IsSpace);
    StripClean(ReplaceIllegal(filename), IsSpace);
    CollapseKeepsLegal(a);
    StripClean(CollapseSpaces(a), IsDot);
    Strip(CollapseSpaces(a), IsDot)
  }

  /** `s[:maxLength]` when `s` is longer. */
  function Truncate(c: string, maxLength: nat): (d: string)
    ensures |d| <= maxLength && (|d| == 0 ==> |c| == 0 || maxLength == 0)
    ensures NoIllegal(c) ==> NoIllegal(d)
    ensures NoSpace(c) ==> NoSpace(d)
    ensures |d| > 0 ==> |c| > 0 && d[0] == c[0]
  {
    if |c| > maxLength then c[..maxLength] else c
  }

  /** A name that is already clean and short enough comes back unchanged. */
  lemma SanitizeKeepsClean(name: string, maxLength: nat)
    requires 0 < |name| <= maxLength && NoIllegal(name) && NoSpace(name)
    requires name[0] != '.' && name[|name| - 1] != '.'
    ensures Sanitize(name, maxLength) == name
  {
    assert ReplaceIllegal(name) == name;
    StripKeeps(name, IsSpace);
    CollapseNoSpaces(name);
    StripKeeps(name, IsDot);
  }

  lemma {:induction false} CollapseNoSpaces(s: string)
    requires NoSpace(s)
    ensures CollapseSpaces(s) == s
  {
    if |s| > 0 {
      CollapseNoSpaces(s[1..]);
    }
  }

  // ---------------------------------------------------------------------------
  // Log file paths
  // ---------------------------------------------------------------------------

  /** `os.path.join(dir, name)`. */
  function PathJoin(dir: string, name: string): string
  {
    if |name| > 0 && name[0] == '/' then name
    else if dir == "" || dir[|dir| - 1] == '/' then dir + name
    else dir + "/" + name
  }

  /** The `k`th log path `add_task` tries: `name.log`, then `name_1.log`, `name_2.log`, … */
  function Candidate(dir: string, name: string, k: nat): string
  {
    PathJoin(dir, name + (if k == 0 then "" else "_" + Placeholder.DecimalString(k)) + ".log")
  }

  lemma PathJoinInjective(dir: string, x: string, y: string)
    requires |x| > 0 && |y| > 0 && (x[0] == '/' <==> y[0] == '/')
    ensures PathJoin(dir, x) == PathJoin(dir, y) ==> x == y
  {
    if x[0] != '/' {
      var p := if dir == "" || dir[|dir| - 1] == '/' then dir else dir + "/";
      assert PathJoin(dir, x) == p + x && PathJoin(dir, y) == p + y;
      assert x == (p + x)[|p|..] && y == (p + y)[|p|..];
    }
  }

  /** Distinct attempts name distinct files, so the suffix loop cannot revisit a path. */
  lemma CandidateInjective(dir: string, name: string, j: nat, k: nat)
    requires j != k
    ensures Candidate(dir, name, j) != Candidate(dir, name, k)
  {
    var x := name + (if j == 0 then "" else "_" + Placeholder.DecimalString(j)) + ".log";
    var y := name + (if k == 0 then "" else "_" + Placeholder.DecimalString(k)) + ".log";
    assert x[0] == (if |name| > 0 then name[0] else if j == 0 then '.' else '_');
    assert y[0] == (if |name| > 0 then name[0] else if k == 0 then '.' else '_');
    assert x != y by {
      if j != 0 && k != 0 {
        var dj := Placeholder.DecimalString(j);
        var dk := Placeholder.DecimalString(k);
        if |dj| == |dk| {
          Placeholder.ParseDecimalString(j);
          Placeholder.ParseDecimalString(k);
          assert dj != dk;
          assert dj == x[|name| + 1..|name| + 1 + |dj|];
          assert dk == y[|name| + 1..|name| + 1 + |dk|];
        } else {
          assert |x| != |y|;
        }
      } else {
        assert |x| != |y|;
      }
    }
    PathJoinInjective(dir, x, y);
  }

  /** The first `n` attempted paths. */
  function Candidates(dir: string, name: string, n: nat): (r: set<string>)
    ensures forall k :: 0 <= k < n ==> Candidate(dir, name, k) in r
  {
    if n == 0 then {} else Candidates(dir, name, n - 1) + {Candidate(dir, name, n - 1)}
  }

  lemma {:induction false} CandidatesCount(dir: string, name: string, n: nat)
    ensures |Candidates(dir, name, n)| == n
  {
    if n > 0 {
      CandidatesCount(dir, name, n - 1);
      CandidateFresh(dir, name, n - 1, n - 1);
    }
  }

  /** A later attempt is none of the earlier ones. */
  lemma {:induction false} CandidateFresh(dir: string, name: string, n: nat, m: nat)
    requires n <= m
    ensures Candidate(dir, name, m) !in Candidates(dir, name, n)
  {
    if n > 0 {
      CandidateFresh(dir, name, n - 1, m);
      CandidateInjective(dir, name, n - 1, m);
    }
  }

  /** While the loop of `add_task` finds its current attempt taken, it has seen
      `counter` distinct taken paths, so `counter` cannot exceed the number of tasks. */
  lemma CounterBound(dir: string, name: string, counter: nat, used: set<string>)
    requires counter >= 1 && Candidates(dir, name, counter - 1) <= used && Candidate(dir, name, counter - 1) in used
    ensures Candidates(dir, name, counter) <= used && counter <= |used|
  {
    CandidatesCount(dir, name, counter);
    SubsetCount(Candidates(dir, name, counter), used);
  }

  /** The uniqueness loop of `add_task`: tries `name.log`, `name_1.log`, … until
      no task has that log file. */
  method FreeLogFile(existing: seq<Task>, dir: string, name: string) returns (logFile: string)
    ensures FirstFree(LogFiles(existing), dir, name, logFile)
  {
    logFile := Candidate(dir, name, 0);
    var counter := 1;
    ghost var used := LogFiles(existing);
    LogFilesCount(existing);
    while logFile in LogFiles(existing)
      invariant 1 <= counter && logFile == Candidate(dir, name, counter - 1)
      invariant Candidates(dir, name, counter - 1) <= used
      decreases |existing| + 1 - counter
    {
      CounterBound(dir, name, counter, used);
      logFile := Candidate(dir, name, counter);
      counter := counter + 1;
    }
  }

  /** `f` is the first of the attempted paths that is not taken. */
  ghost predicate FirstFree(used: set<string>, dir: string, name: string, f: string)
  {
    f !in used && exists c: nat :: f == Candidate(dir, name, c) && Candidates(dir, name, c) <= used
  }

  lemma {:induction false} SubsetCount(a: set<string>, b: set<string>)
    requires a <= b
    ensures |a| <= |b|
    decreases a
  {
    if a != {} {
      var x :| x in a;
      SubsetCount(a - {x}, b - {x});
    }
  }

  // ---------------------------------------------------------------------------
  // Tasks
  // ---------------------------------------------------------------------------

  datatype Status = Pending | Running | Completed | Failed | Skipped

  /** A task; times are clock readings, `logFile` is always set by `add_task`. */
  datatype Task = Task(id: nat, command: string, description: string, status: Status,
                       startTime: Option<int>, endTime: Option<int>, exitCode: Option<int>,
                       logFile: string)

  /** The log files of the listed tasks. */
  function LogFiles(ts: seq<Task>): (r: set<string>)
    ensures forall f :: f in r <==> exists j :: 0 <= j < |ts| && ts[j].logFile == f
  {
    set j | 0 <= j < |ts| :: ts[j].logFile
  }

  /** There are no more log files than tasks. */
  lemma {:induction false} LogFilesCount(ts: seq<Task>)
    ensures |LogFiles(ts)| <= |ts|
  {
    if |ts| > 0 {
      var init := ts[..|ts| - 1];
      LogFilesCount(init);
      assert LogFiles(ts) <= LogFiles(init) + {ts[|ts| - 1].logFile} by {
        forall f | f in LogFiles(ts) ensures f in LogFiles(init) + {ts[|ts| - 1].logFile} {
          var j :| 0 <= j < |ts| && ts[j].logFile == f;
          if j < |ts| - 1 {
            assert init[j] == ts[j];
          }
        }
      }
      SubsetCount(LogFiles(ts), LogFiles(init) + {ts[|ts| - 1].logFile});
    }
  }

  predicate UniqueLogs(ts: seq<Task>)
  {
    forall i, j :: 0 <= i < j < |ts| ==> ts[i].logFile != ts[j].logFile
  }

  /** The scheduler's mutable state: the list of tasks, the running child (its pid) and
      the index of the entry being worked on. */
  datatype Sched = Sched(tasks: seq<Task>, process: Option<int>, index: nat)

  /** What a running scheduler keeps true: tasks are numbered by position, those
      before the index are finished, those after it are untouched, the current task
      is running exactly when there is a child process, and log files are distinct. */
  predicate Inv(s: Sched)
  {
    Ordered(s) && UniqueLogs(s.tasks)
  }

  /** The part of `Inv` about statuses and the child process. */
  predicate Ordered(s: Sched)
  {
    && s.index <= |s.tasks|
    && (forall k :: 0 <= k < |s.tasks| ==> s.tasks[k].id == k)
    && (forall k :: 0 <= k < s.index ==> s.tasks[k].status.Completed? || s.tasks[k].status.Failed?)
    && (forall k :: s.index < k < |s.tasks| ==> s.tasks[k].status.Pending?)
    && (s.index < |s.tasks| ==> s.tasks[s.index].status.Pending? || s.tasks[s.index].status.Running?)
    && (s.index < |s.tasks| ==> (s.tasks[s.index].status.Running? <==> s.process.Some?))
    && (s.process.Some? ==> s.index < |s.tasks|)
  }

  /** Only the status and the time stamps of a task ever change. */
  predicate SameTasks(a: seq<Task>, b: seq<Task>)
  {
    |a| == |b| &&
    forall k :: 0 <= k < |a| ==>
      a[k].id == b[k].id && a[k].command == b[k].command && a[k].description == b[k].description && a[k].logFile == b[k].logFile
  }

  /** The log name `add_task` starts from. */
  function LogName(description: string, id: nat): string
  {
    if description != "" then Sanitize(description, 100) else "task_" + Placeholder.DecimalString(id)
  }

  /** Appending a pending task, numbered by its position and with an unused log
      file, keeps the invariant. */
  lemma AppendKeepsInv(tasks: seq<Task>, process: Option<int>, index: nat, t: Task)
    requires Inv(Sched(tasks, process, index)) && t.id == |tasks| && t.status.Pending? && t.logFile !in LogFiles(tasks)
    ensures Inv(Sched(tasks + [t], process, index))
  {
    AppendOrdered(Sched(tasks, process, index), t);
    AppendUnique(tasks, t);
  }

  /** The entry `add_task` appends: pending, described as `Task <id>` when no
      description is given. */
  function NewTask(id: nat, command: string, description: string, logFile: string): Task
  {
    Task(id, command, if description != "" then description else "Task " + Placeholder.DecimalString(id),
         Pending, None, None, None, logFile)
  }

  lemma AppendOrdered(s: Sched, t: Task)
    requires Ordered(s) && t.id == |s.tasks| && t.status.Pending?
    ensures Ordered(s.(tasks := s.tasks + [t]))
  {
    var ts := s.tasks + [t];
    assert forall k :: 0 <= k < |s.tasks| ==> ts[k] == s.tasks[k];
    assert ts[|s.tasks|] == t;
  }

  lemma AppendUnique(ts: seq<Task>, t: Task)
    requires UniqueLogs(ts) && t.logFile !in LogFiles(ts)
    ensures UniqueLogs(ts + [t])
  {
    var ts' := ts + [t];
    forall i, j | 0 <= i < j < |ts'| ensures ts'[i].logFile != ts'[j].logFile {
      if j == |ts| {
        assert ts[i].logFile in LogFiles(ts);
      } else {
        assert ts'[i] == ts[i] && ts'[j] == ts[j];
      }
    }
  }

  /** `check_current_process()` with `poll` the child's `poll()` result. */
  function Checked(s: Sched, poll: Option<int>, now: int): (r: (Sched, bool))
    requires s.process.Some? ==> s.index < |s.tasks|
    ensures r.1 ==> r.0 == s
    ensures !r.1 ==> r.0.process.None?
  {
    if s.process.None? then (s, false)
    else match poll
      case None => (s, true)
      case Some(code) =>
        var t := s.tasks[s.index];
        var t' := t.(endTime := Some(now), exitCode := Some(code), status := if code == 0 then Completed else Failed);
        (Sched(s.tasks[s.index := t'], None, s.index + 1), false)
  }

  /** `execute_task(tasks[i])`; `launch` is the pid of the child, or `None` when
      opening the log file or starting the process raised. */
  function Executed(s: Sched, i: nat, launch: Option<int>, now: int): (r: (Sched, bool))
    requires i < |s.tasks|
    ensures r.0.index == s.index && |r.0.tasks| == |s.tasks|
    ensures r.1 <==> launch.Some?
    ensures r.1 ==> r.0.process == launch
    ensures !r.1 ==> r.0.process == s.process
  {
    var t := s.tasks[i].(status := Running, startTime := Some(now));
    match launch
    case Some(pid) => (Sched(s.tasks[i := t], Some(pid), s.index), true)
    case None => (Sched(s.tasks[i := t.(status := Failed, endTime := Some(now))], s.process, s.index), false)
  }

  /** Polling keeps the invariant. A finished child completes the current task when
      its exit code is 0 and fails it otherwise, and the index moves on by exactly
      one; a running child changes nothing. */
  lemma CheckedKeepsInv(s: Sched, poll: Option<int>, now: int)
    requires Inv(s)
    ensures var (s', alive) := Checked(s, poll, now);
      && Inv(s') && SameTasks(s.tasks, s'.tasks)
      && (alive <==> s.process.Some? && poll.None?)
      && (s'.index == if s.process.Some? && poll.Some? then s.index + 1 else s.index)
      && (s.process.Some? && poll.Some? ==>
            s'.tasks[s.index].exitCode == poll &&
            (s'.tasks[s.index].status.Completed? <==> poll.value == 0) &&
            (s'.tasks[s.index].status.Failed? <==> poll.value != 0))
  {
  }

  /** Starting the current task with no child running keeps the invariant once a
      failed launch has moved the index past that task, as `run` does. */
  lemma LaunchKeepsInv(s: Sched, launch: Option<int>, now: int)
    requires Inv(s) && s.process.None? && s.index < |s.tasks|
    ensures var (s', ok) := Executed(s, s.index, launch, now);
      var s'' := if ok then s' else s'.(index := s'.index + 1);
      && Inv(s'') && SameTasks(s.tasks, s''.tasks)
      && (ok ==> s''.tasks[s.index].status.Running? && s''.process == launch)
      && (!ok ==> s''.tasks[s.index].status.Failed? && s''.tasks[s.index].endTime == Some(now))
  {
  }

  // ---------------------------------------------------------------------------
  // GPU memory
  // ---------------------------------------------------------------------------

  const MiB: nat := 1024 * 1024

  /** What NVML reports, in bytes. */
  datatype MemBytes = MemBytes(total: nat, used: nat, free: nat)

  /** The same figures in MiB. */
  datatype MemInfo = MemInfo(total: nat, used: nat, free: nat)

  datatype GpuConfig = GpuConfig(gpuId: nat, deviceCount: nat, requiredMb: int)

  /** `get_gpu_memory_info(gpu_id)`; `reading` is `None` when NVML raised. */
  function GetGpuMemoryInfo(gpuId: nat, deviceCount: nat, reading: Option<MemBytes>): (r: Result<MemInfo, string>)
    ensures r.Ok? <==> gpuId < deviceCount && reading.Some?
    ensures r.Ok? ==>
      && r.value.total * MiB <= reading.value.total < (r.value.total + 1) * MiB
      && r.value.used * MiB <= reading.value.used < (r.value.used + 1) * MiB
      && r.value.free * MiB <= reading.value.free < (r.value.free + 1) * MiB
  {
    if gpuId >= deviceCount then Err("GPU id out of range")
    else match reading
      case None => Err("NVML query failed")
      case Some(m) => Ok(MemInfo(m.total / MiB, m.used / MiB, m.free / MiB))
  }

  /** `check_gpu_memory()`: an error counts as not enough memory. */
  function CheckGpuMemory(cfg: GpuConfig, reading: Option<MemBytes>): bool
  {
    match GetGpuMemoryInfo(cfg.gpuId, cfg.deviceCount, reading)
    case Err(_) => false
    case Ok(m) => m.free >= cfg.requiredMb
  }

  /** Comparing whole MiB against the requirement is the same as comparing bytes. */
  lemma CheckGpuMemoryBytes(cfg: GpuConfig, reading: Option<MemBytes>)
    ensures CheckGpuMemory(cfg, reading) <==>
      cfg.gpuId < cfg.deviceCount && reading.Some? && reading.value.free >= cfg.requiredMb * MiB
  {
    if cfg.gpuId < cfg.deviceCount && reading.Some? {
      var f := reading.value.free;
      var m := f / MiB;
      assert m * MiB <= f < (m + 1) * MiB;
      if m >= cfg.requiredMb {
        assert m * MiB >= cfg.requiredMb * MiB;
      } else {
        assert m + 1 <= cfg.requiredMb;
        assert (m + 1) * MiB <= cfg.requiredMb * MiB;
      }
    }
  }

  // ---------------------------------------------------------------------------
  // The main loop
  // ---------------------------------------------------------------------------

  /** What the outside world reports during one pass of `run`'s loop: the clock, the
      child's `poll()`, NVML's memory reading and the pid of a launched child. */
  datatype Observation = Observation(now: int, poll: Option<int>, memory: Option<MemBytes>, launch: Option<int>)

  /** One pass of `run`'s loop body from a state whose index is in range: poll
      the child; if none is running and a task remains, start it when the memory
      check succeeds, skipping past it when the launch fails. */
  function Pass(s: Sched, cfg: GpuConfig, o: Observation): (r: Sched)
    requires s.process.Some? ==> s.index < |s.tasks|
    ensures r.process.Some? ==> r.index < |r.tasks|
  {
    var (s1, alive) := Checked(s, o.poll, o.now);
    if alive || s1.index >= |s1.tasks| || !CheckGpuMemory(cfg, o.memory) then s1
    else
      var (s2, ok) := Executed(s1, s1.index, o.launch, o.now);
      if ok then s2 else s2.(index := s2.index + 1)
  }

  /** The main loop of `run` over the given passes. The flag is true once every
      task has been dealt with; false means the observations ran out while the
      scheduler was still waiting. */
  function RunLoop(s: Sched, cfg: GpuConfig, obs: seq<Observation>): (Sched, bool)
    requires s.process.Some? ==> s.index < |s.tasks|
    decreases |obs|
  {
    if s.index >= |s.tasks| then (s, true)
    else if |obs| == 0 then (s, false)
    else RunLoop(Pass(s, cfg, obs[0]), cfg, obs[1..])
  }

  /** A pass keeps the invariant and the list of tasks and never moves the index back. */
  lemma PassKeepsInv(s: Sched, cfg: GpuConfig, o: Observation)
    requires Inv(s)
    ensures var s' := Pass(s, cfg, o); Inv(s') && SameTasks(s.tasks, s'.tasks) && s.index <= s'.index
  {
    CheckedKeepsInv(s, o.poll, o.now);
    var (s1, alive) := Checked(s, o.poll, o.now);
    if !alive && s1.index < |s1.tasks| && CheckGpuMemory(cfg, o.memory) {
      LaunchKeepsInv(s1, o.launch, o.now);
    }
  }

  /** The loop keeps the invariant and the list of tasks, never moves the index back,
      and ends with no child left, so the final wait loop of `run` has nothing to
      wait for. */
  lemma {:induction false} RunLoopKeepsInv(s: Sched, cfg: GpuConfig, obs: seq<Observation>)
    requires Inv(s)
    ensures var (s', done) := RunLoop(s, cfg, obs);
      && Inv(s') && SameTasks(s.tasks, s'.tasks) && s.index <= s'.index
      && (done <==> s'.index == |s'.tasks|)
      && (done ==> s'.process.None?)
    decreases |obs|
  {
    if s.index < |s.tasks| && |obs| > 0 {
      PassKeepsInv(s, cfg, obs[0]);
      RunLoopKeepsInv(Pass(s, cfg, obs[0]), cfg, obs[1..]);
    }
  }

  /** A task is started only after a memory check succeeds: while the device never
      reports enough free memory (a bad GPU id included), an idle scheduler changes
      nothing. */
  lemma {:induction false} NoMemoryNoStart(s: Sched, cfg: GpuConfig, obs: seq<Observation>)
    requires s.process.None?
    requires forall k :: 0 <= k < |obs| ==> !CheckGpuMemory(cfg, obs[k].memory)
    ensures RunLoop(s, cfg, obs).0 == s
    decreases |obs|
  {
    if s.index < |s.tasks| && |obs| > 0 {
      assert !CheckGpuMemory(cfg, obs[0].memory);
      assert Pass(s, cfg, obs[0]) == s;
      NoMemoryNoStart(s, cfg, obs[1..]);
    }
  }

  // ---------------------------------------------------------------------------
  // Summary
  // ---------------------------------------------------------------------------

  function CountStatus(ts: seq<Task>, st: Status): (r: nat)
    ensures r <= |ts|
  {
    if |ts| == 0 then 0
    else CountStatus(ts[..|ts| - 1], st) + (if ts[|ts| - 1].status == st then 1 else 0)
  }

  datatype Summary = Summary(totalTasks: nat, completed: nat, failed: nat, pending: nat, running: nat,
                             currentTaskIndex: nat, gpuMemory: MemInfo, memorySufficient: bool)

  /** `get_status_summary()`: an NVML error reports zero memory. */
  function StatusSummary(s: Sched, cfg: GpuConfig, reading: Option<MemBytes>): Summary
  {
    var mem := match GetGpuMemoryInfo(cfg.gpuId, cfg.deviceCount, reading)
      case Ok(m) => m
      case Err(_) => MemInfo(0, 0, 0);
    Summary(|s.tasks|, CountStatus(s.tasks, Completed), CountStatus(s.tasks, Failed),
            CountStatus(s.tasks, Pending), CountStatus(s.tasks, Running), s.index,
            mem, mem.free >= cfg.requiredMb)
  }

  lemma {:induction false} CountsPrefix(s: Sched, n: nat)
    requires Inv(s) && n <= |s.tasks|
    ensures var ts := s.tasks[..n];
      && CountStatus(ts, Completed) + CountStatus(ts, Failed) == (if n <= s.index then n else s.index)
      && CountStatus(ts, Running) == (if n > s.index && s.process.Some? then 1 else 0)
      && CountStatus(ts, Pending) + CountStatus(ts, Running) == (if n <= s.index then 0 else n - s.index)
  {
    if n > 0 {
      CountsPrefix(s, n - 1);
      assert s.tasks[..n][..n - 1] == s.tasks[..n - 1];
    }
  }

  /** The summary of a consistent scheduler: every task before the index is finished,
      every other task is pending or the one running, and at most one runs. */
  lemma SummaryCounts(s: Sched, cfg: GpuConfig, reading: Option<MemBytes>)
    requires Inv(s)
    ensures var r := StatusSummary(s, cfg, reading);
      && r.completed + r.failed == s.index
      && r.pending + r.running == r.totalTasks - s.index
      && r.running == (if s.process.Some? then 1 else 0)
      && (r.memorySufficient <==> CheckGpuMemory(cfg, reading) || (!(cfg.gpuId < cfg.deviceCount && reading.Some?) && cfg.requiredMb <= 0))
  {
    CountsPrefix(s, |s.tasks|);
    assert s.tasks[..|s.tasks|] == s.tasks;
  }

  // ---------------------------------------------------------------------------
  // The scheduler object
  // ---------------------------------------------------------------------------

  class TaskScheduler {
    const gpuId: nat
    const requiredMb: int
    const logDir: string
    /** The device count the memory monitor read at start-up. */
    const deviceCount: nat
    var tasks: seq<Task>
    var process: Option<int>
    var currentTaskIndex: nat

    function State(): Sched
      reads this
    {
      Sched(tasks, process, currentTaskIndex)
    }

    function Config(): GpuConfig
    {
      GpuConfig(gpuId, deviceCount, requiredMb)
    }

    predicate Valid()
      reads this
    {
      Inv(State())
    }

    constructor(gpuId: nat, requiredMb: int, logDir: string, deviceCount: nat)
      ensures Valid() && tasks == [] && process.None? && currentTaskIndex == 0
      ensures Config() == GpuConfig(gpuId, deviceCount, requiredMb) && this.logDir == logDir
    {
      this.gpuId := gpuId;
      this.requiredMb := requiredMb;
      this.logDir := logDir;
      this.deviceCount := deviceCount;
      tasks := [];
      process := None;
      currentTaskIndex := 0;
    }

    /** `add_task(command, description)`: appends one pending task numbered by its
        position, whose log file is the first of `name.log`, `name_1.log`, … that no
        task uses yet. */
    method AddTask(command: string, description: string) returns (id: nat)
      requires Valid()
      modifies this
      ensures Valid() && process == old(process) && currentTaskIndex == old(currentTaskIndex)
      ensures id == old(|tasks|) && |tasks| == id + 1
      ensures tasks == old(tasks) + [NewTask(id, command, description, tasks[id].logFile)]
      ensures FirstFree(LogFiles(old(tasks)), logDir, LogName(description, id), tasks[id].logFile)
    {
      id := |tasks|;
      var logFile := FreeLogFile(tasks, logDir, LogName(description, id));
      var t := NewTask(id, command, description, logFile);
      AppendKeepsInv(tasks, process, currentTaskIndex, t);
      tasks := tasks + [t];
    }

    /** `execute_task(tasks[i])`. */
    method ExecuteTask(i: nat, launch: Option<int>, now: int) returns (ok: bool)
      requires i < |tasks|
      modifies this
      ensures (State(), ok) == Executed(old(State()), i, launch, now)
    {
      var task := tasks[i].(status := Running, startTime := Some(now));
      tasks := tasks[i := task];
      match launch {
        case Some(pid) =>
          process := Some(pid);
          return true;
        case None =>
          task := task.(status := Failed, endTime := Some(now));
          tasks := tasks[i := task];
          assert tasks == old(tasks)[i := task];
          return false;
      }
    }

    /** `check_current_process()`. */
    method CheckCurrentProcess(poll: Option<int>, now: int) returns (alive: bool)
      requires process.Some? ==> currentTaskIndex < |tasks|
      modifies this
      ensures (State(), alive) == Checked(old(State()), poll, now)
    {
      if process.None? {
        return false;
      }
      if poll.Some? {
        var code := poll.value;
        var current := tasks[currentTaskIndex];
        current := current.(endTime := Some(now), exitCode := Some(code));
        if code == 0 {
          current := current.(status := Completed);
        } else {
          current := current.(status := Failed);
        }
        tasks := tasks[currentTaskIndex := current];
        process := None;
        currentTaskIndex := currentTaskIndex + 1;
        return false;
      }
      return true;
    }

    /** One pass of the body of `run`'s main loop. */
    method RunPass(o: Observation)
      requires Valid() && currentTaskIndex < |tasks|
      modifies this
      ensures Valid() && State() == Pass(old(State()), Config(), o)
    {
      PassKeepsInv(State(), Config(), o);
      var alive := CheckCurrentProcess(o.poll, o.now);
      if alive || currentTaskIndex >= |tasks| || !CheckGpuMemory(Config(), o.memory) {
        return;
      }
      var started := ExecuteTask(currentTaskIndex, o.launch, o.now);
      if !started {
        currentTaskIndex := currentTaskIndex + 1;
      }
    }

    /** `run()` over the given passes of its main loop. */
    method Run(obs: seq<Observation>) returns (finished: bool)
      requires Valid()
      modifies this
      ensures Valid()
      ensures (State(), finished) == RunLoop(old(State()), Config(), obs)
    {
      if |tasks| == 0 {
        return true;
      }
      var k := 0;
      while currentTaskIndex < |tasks|
        invariant 0 <= k <= |obs| && Valid()
        invariant RunLoop(State(), Config(), obs[k..]) == RunLoop(old(State()), Config(), obs)
        decreases |obs| - k
      {
        if k == |obs| {
          return false;
        }
        assert obs[k..][1..] == obs[k + 1..];
        RunPass(obs[k]);
        k := k + 1;
      }
      return true;
    }
  }
}
