/** The scheduler of `src/subagent.c` as a state machine over the slot table.
    Every micro-step of submit, poll and cancel is one event; what the operating system
    answers (fork, waitpid, the clock, the child's result file) travels in the event. */
module Scheduler {
  import opened Wrappers
  import opened CText
  import opened TaskTable

  const RETENTION_SECONDS := 300
  const SEQ_LIMIT := 0x1_0000_0000

  datatype Config = Config(maxWorkers: nat, maxTasks: nat, self: Pid)

  predicate Sensible(c: Config)
  {
    1 <= c.maxWorkers && 1 <= c.maxTasks
  }

  /** A task leaving the table, with the clock reading that made it leave. */
  datatype Retirement = Retirement(item: TaskItem, now: int)

  /** The table, the 32-bit counter behind the identifiers, and two logs that only grow. */
  datatype World = World(
    slots: seq<TaskItem>,
    seqNo: nat,
    issued: seq<CString>,
    retired: seq<Retirement>)

  /** The file a child leaves: the number on its first line and its second line, if any. */
  datatype ResultFile = Missing | Opened(code: Option<int>, line: Option<CString>)

  /** One positive answer of `waitpid`; `exitedZero` is WIFEXITED and WEXITSTATUS == 0. */
  datatype ChildExit = ChildExit(pid: Pid, exitedZero: bool, report: ResultFile, now: int)

  /** One answer of `fork` in the parent, and the clock read when a spawn fails. */
  datatype Fork = Fork(pid: Option<Pid>, now: int)

  datatype Event =
    | Submit(kind: CString, params: Option<CString>, now: int)
    | Reap(exit: ChildExit)
    | Dispatch(fork: Fork)
    | Expire(now: int)
    | Cancel(id: CString, now: int)

  function Init(c: Config): World
  {
    World(seq(c.maxTasks, i => ZERO_ITEM), 0, [], [])
  }

  // ----- The effect of each step on one slot -----

  function NewTask(kind: CString, params: Option<CString>, id: CString, now: int): TaskItem
  {
    TaskItem(true, id, Fit(kind, TASK_TYPE_MAX),
             Fit(if params.Some? then params.value else "{}", TASK_PARAMS_MAX),
             Queued, "", 0, now, 0)
  }

  /** The types `task_handler_resolve` knows. */
  predicate HasHandler(kind: CString)
  {
    kind in {"investigate", "analyze", "summarize", "skill_invoke"}
  }

  function Spawned(t: TaskItem, fork: Fork): TaskItem
  {
    if !HasHandler(t.kind) then
      t.(status := Failed, result := Fit("unknown task type: " + t.kind, TASK_RESULT_MAX),
         completedAt := fork.now)
    else if fork.pid.None? then
      t.(status := Failed, result := "fork failed", completedAt := fork.now)
    else
      t.(status := Running, workerPid := fork.pid.value)
  }

  function Reaped(t: TaskItem, e: ChildExit): TaskItem
  {
    var rc := if e.report.Opened? && e.report.code.Some? then e.report.code.value else 1;
    var result: CString := if e.report.Missing? then t.result
                           else if e.report.line.None? then ""
                           else Fit(e.report.line.value, TASK_RESULT_MAX);
    t.(status := if e.exitedZero && rc == 0 then Complete else Failed,
       result := result, completedAt := e.now, workerPid := 0)
  }

  /** Terminal for more than `ttl` seconds. */
  predicate Expired(t: TaskItem, ttl: int, now: int)
  {
    t.inUse && Terminal(t.status) && 0 < t.completedAt && now - t.completedAt > ttl
  }

  predicate Stale(t: TaskItem, now: int)
  {
    Expired(t, RETENTION_SECONDS, now)
  }

  function Swept(slots: seq<TaskItem>, now: int): (r: seq<TaskItem>)
    ensures |r| == |slots|
    ensures forall i :: 0 <= i < |slots| ==> r[i] == if Stale(slots[i], now) then ZERO_ITEM else slots[i]
  {
    seq(|slots|, i requires 0 <= i < |slots| => if Stale(slots[i], now) then ZERO_ITEM else slots[i])
  }

  function Leavers(slots: seq<TaskItem>, now: int): seq<Retirement>
  {
    if slots == [] then []
    else (if Stale(slots[0], now) then [Retirement(slots[0], now)] else []) + Leavers(slots[1..], now)
  }

  // ----- Steps and runs -----

  function Step(c: Config, w: World, e: Event): World
  {
    match e
    case Submit(kind, params, now) =>
      var i := First(Free, w.slots);
      if kind == "" || i == |w.slots| then w
      else
        var n := (w.seqNo + 1) % SEQ_LIMIT;
        var id := IdOf(n, c.self);
        World(w.slots[i := NewTask(kind, params, id, now)], n, w.issued + [id], w.retired)
    case Reap(exit) =>
      var i := First(Worker(exit.pid), w.slots);
      if i < |w.slots| && w.slots[i].status == Running
      then w.(slots := w.slots[i := Reaped(w.slots[i], exit)])
      else w
    case Dispatch(fork) =>
      if CanDispatch(c, w)
      then var i := First(Waiting, w.slots); w.(slots := w.slots[i := Spawned(w.slots[i], fork)])
      else w
    case Expire(now) =>
      w.(slots := Swept(w.slots, now), retired := w.retired + Leavers(w.slots, now))
    case Cancel(id, now) =>
      var i := First(Holding(id), w.slots);
      if i < |w.slots|
      then w.(slots := w.slots[i := w.slots[i].(status := Cancelled, completedAt := now)])
      else w
  }

  /** The condition of the dispatch loop: a worker is free and a task waits. */
  predicate CanDispatch(c: Config, w: World)
  {
    Count(Busy, w.slots) < c.maxWorkers && First(Waiting, w.slots) < |w.slots|
  }

  function Replay(c: Config, w: World, es: seq<Event>): World
    decreases es
  {
    if es == [] then w else Replay(c, Step(c, w, es[0]), es[1..])
  }

  lemma {:induction false} ReplayAppend(c: Config, w: World, a: seq<Event>, b: seq<Event>)
    ensures Replay(c, w, a + b) == Replay(c, Replay(c, w, a), b)
    decreases a
  {
    if a == [] {
      assert a + b == b;
    } else {
      assert (a + b)[1..] == a[1..] + b;
      ReplayAppend(c, Step(c, w, a[0]), a[1..], b);
    }
  }

  lemma ReplaySnoc(c: Config, w: World, a: seq<Event>, e: Event)
    ensures Replay(c, w, a + [e]) == Step(c, Replay(c, w, a), e)
  {
    ReplayAppend(c, w, a, [e]);
    assert Replay(c, Replay(c, w, a), [e]) == Replay(c, Step(c, Replay(c, w, a), e), []);
  }

  // ----- One poll: reap everything, dispatch while a worker is free, expire -----

  datatype PollInput = PollInput(exits: seq<ChildExit>, forks: seq<Fork>, now: int)

  function Reaps(exits: seq<ChildExit>): seq<Event>
  {
    seq(|exits|, k requires 0 <= k < |exits| => Reap(exits[k]))
  }

  /** The next answer of `fork`; once the recorded answers run out, every fork fails. */
  function NextFork(forks: seq<Fork>, now: int): Fork
  {
    if forks == [] then Fork(None, now) else forks[0]
  }

  function Later(forks: seq<Fork>): seq<Fork>
  {
    if forks == [] then [] else forks[1..]
  }

  lemma SpawnConsumesOne(c: Config, w: World, fork: Fork)
    requires CanDispatch(c, w)
    ensures Count(Waiting, Step(c, w, Dispatch(fork)).slots) == Count(Waiting, w.slots) - 1
    ensures Count(Busy, w.slots) <= Count(Busy, Step(c, w, Dispatch(fork)).slots) <= Count(Busy, w.slots) + 1
  {
    var i := First(Waiting, w.slots);
    CountUpdate(Waiting, w.slots, i, Spawned(w.slots[i], fork));
    CountUpdate(Busy, w.slots, i, Spawned(w.slots[i], fork));
  }

  /** The dispatch loop's events; the number of queued slots is what makes it end, also
      when every spawn fails. */
  function Dispatches(c: Config, w: World, forks: seq<Fork>, now: int): seq<Event>
    decreases Count(Waiting, w.slots)
  {
    if !CanDispatch(c, w) then []
    else
      var e := Dispatch(NextFork(forks, now));
      SpawnConsumesOne(c, w, e.fork);
      [e] + Dispatches(c, Step(c, w, e), Later(forks), now)
  }

  lemma DispatchesStep(c: Config, w: World, forks: seq<Fork>, now: int)
    requires CanDispatch(c, w)
    ensures var e := Dispatch(NextFork(forks, now));
            Dispatches(c, w, forks, now) == [e] + Dispatches(c, Step(c, w, e), Later(forks), now)
  {
  }

  function PollEvents(c: Config, w: World, p: PollInput): seq<Event>
  {
    var reaped := Replay(c, w, Reaps(p.exits));
    Reaps(p.exits) + Dispatches(c, reaped, p.forks, p.now) + [Expire(p.now)]
  }

  function Poll(c: Config, w: World, p: PollInput): World
  {
    Replay(c, w, PollEvents(c, w, p))
  }

  lemma PollPhases(c: Config, w: World, p: PollInput)
    ensures var reaped := Replay(c, w, Reaps(p.exits));
            var filled := Replay(c, reaped, Dispatches(c, reaped, p.forks, p.now));
            Poll(c, w, p) == Step(c, filled, Expire(p.now))
  {
    var reaped := Replay(c, w, Reaps(p.exits));
    var ds := Dispatches(c, reaped, p.forks, p.now);
    ReplaySnoc(c, w, Reaps(p.exits) + ds, Expire(p.now));
    ReplayAppend(c, w, Reaps(p.exits), ds);
  }

  /** The trace of one poll, phase by phase, appended to any earlier trace. */
  lemma PollRecorded(c: Config, trace: seq<Event>, p: PollInput)
    ensures var w := Replay(c, Init(c), trace);
            var mid := Replay(c, Init(c), trace + Reaps(p.exits));
            && trace + Reaps(p.exits) + Dispatches(c, mid, p.forks, p.now) + [Expire(p.now)]
               == trace + PollEvents(c, w, p)
            && Replay(c, Init(c), trace + PollEvents(c, w, p)) == Poll(c, w, p)
  {
    var w := Replay(c, Init(c), trace);
    ReplayAppend(c, Init(c), trace, Reaps(p.exits));
    ReplayAppend(c, Init(c), trace, PollEvents(c, w, p));
    hide Replay, Dispatches, Reaps;
  }
}
