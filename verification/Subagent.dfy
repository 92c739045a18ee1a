/** `src/subagent.c`: submit, poll and cancel as methods. The ghost trace records what
    happened; `Valid` says the table is what the state machine makes of that trace, so every
    theorem about runs is a theorem about this class. */
module Subagents {
  import opened Wrappers
  import opened CText
  import opened TaskTable
  import opened Scheduler
  import opened TaskQueues
  import opened TaskLedger
  import opened TaskProgress
  import opened TaskChildren
  import opened TaskStory
  import opened TaskListing
  import opened Json

  const DEFAULT_WORKERS := 4

  class Subagent {
    const queue: TaskQueue
    const maxWorkers: nat
    const self: Pid
    ghost var trace: seq<Event>
    ghost var world: World

    ghost function Setup(): Config
    {
      Config(maxWorkers, queue.items.Length, self)
    }

    /** `world` is where the recorded trace leads. */
    ghost predicate Replays()
      reads this
    {
      world == Replay(Setup(), Init(Setup()), trace)
    }

    ghost predicate Valid()
      reads this, queue, queue.items
    {
      && Sensible(Setup()) && Replays()
      && queue.items[..] == world.slots && queue.seqNo == world.seqNo
    }

    constructor (maxWorkers: int, maxTasks: int, self: Pid)
      ensures Valid() && fresh(queue) && fresh(queue.items) && trace == []
      ensures this.maxWorkers == if 0 < maxWorkers then maxWorkers else DEFAULT_WORKERS
      ensures queue.items.Length == if 0 < maxTasks then maxTasks else DEFAULT_TASKS
    {
      this.queue := new TaskQueue(maxTasks);
      this.maxWorkers := if 0 < maxWorkers then maxWorkers else DEFAULT_WORKERS;
      this.self := self;
      this.trace := [];
      new;
      world := Init(Setup());
    }

    /** Records one event whose effect the table already shows. */
    ghost method Record(e: Event)
      requires Sensible(Setup()) && Replays()
      requires queue.items[..] == Step(Setup(), world, e).slots
      requires queue.seqNo == Step(Setup(), world, e).seqNo
      modifies this`trace, this`world
      ensures Valid() && trace == old(trace) + [e]
      ensures world == Step(Setup(), old(world), e)
    {
      ReplaySnoc(Setup(), Init(Setup()), trace, e);
      trace := trace + [e];
      world := Step(Setup(), world, e);
    }

    /** A refused submission leaves no event; an accepted one is exactly one Submit, and the
        caller gets the identifier it issued. */
    method Submit(kind: CString, params: Option<CString>, idOutLen: nat, now: int)
      returns (rc: int, idOut: CString)
      requires Valid()
      modifies this, queue, queue.items
      ensures Valid()
      ensures rc == 0 || rc == -1
      ensures rc == 0 <==> kind != "" && 0 < idOutLen && First(Free, old(world.slots)) < queue.items.Length
      ensures rc == -1 ==> trace == old(trace)
      ensures rc == 0 ==> trace == old(trace) + [Event.Submit(kind, params, now)]
      ensures rc == 0 ==> |world.issued| == old(|world.issued|) + 1
                          && idOut == Fit(world.issued[old(|world.issued|)], idOutLen)
    {
      rc, idOut := queue.Add(kind, params, idOutLen, self, now);
      if rc == 0 {
        Record(Event.Submit(kind, params, now));
      }
    }

    /** Cancel has no status guard and keeps the slot's pid; -1 exactly when no slot in use
        carries the identifier. `signalled` is the pid a running slot records, which is sent
        SIGTERM; unless that slot is lost, and always with fresh forks, it is a child not yet
        reported. */
    method Cancel(id: CString, now: int) returns (rc: int, signalled: Option<int>)
      requires Valid()
      modifies this, queue, queue.items
      ensures Valid()
      ensures trace == old(trace) + [Event.Cancel(id, now)]
      ensures rc == if First(Holding(id), old(world.slots)) < queue.items.Length then 0 else -1
      ensures signalled == Signalled(old(world), id)
      ensures signalled.Some? && Lawful(Setup(), Start(Setup()), old(trace)) ==>
                var m := Follow(Setup(), Start(Setup()), old(trace));
                First(Holding(id), old(world.slots)) !in m.lost || FreshForks(Setup(), Init(Setup()), old(trace))
                ==> signalled.value in m.alive
    {
      rc, signalled := -1, None;
      var slot := queue.Get(id);
      if slot.Some? {
        var i := slot.value;
        if queue.items[i].status == Running && queue.items[i].workerPid > 0 {
          signalled := Some(queue.items[i].workerPid);
        }
        queue.items[i] := queue.items[i].(status := Cancelled, completedAt := now);
        rc := 0;
      }
      assert signalled == Signalled(old(world), id);
      SignalledIsAliveIn(Setup(), old(trace), old(world), id);
      Record(Event.Cancel(id, now));
    }

    /** `spawn_task` on slot i. */
    method SpawnTask(i: nat, fork: Fork)
      requires i < queue.items.Length
      modifies queue.items
      ensures queue.items[..] == old(queue.items[..])[i := Spawned(old(queue.items[i]), fork)]
    {
      var task := queue.items[i];
      if !HasHandler(task.kind) {
        queue.items[i] := task.(status := Failed,
          result := Fit("unknown task type: " + task.kind, TASK_RESULT_MAX), completedAt := fork.now);
        return;
      }
      if fork.pid.None? {
        queue.items[i] := task.(status := Failed, result := "fork failed", completedAt := fork.now);
        return;
      }
      queue.items[i] := task.(workerPid := fork.pid.value, status := Running);
    }

    /** The body of the first loop of `subagent_poll`. */
    method ReapOne(exit: ChildExit)
      requires Valid()
      modifies this`trace, this`world, queue.items
      ensures Valid() && trace == old(trace) + [Reap(exit)]
    {
      var slot := queue.FindByPid(exit.pid);
      if slot.Some? && queue.items[slot.value].status == Running {
        var task := queue.items[slot.value];
        var rc := 1;
        var result := task.result;
        if exit.report.Opened? {
          if exit.report.code.Some? {
            rc := exit.report.code.value;
          }
          result := if exit.report.line.None? then "" else Fit(exit.report.line.value, TASK_RESULT_MAX);
        }
        queue.items[slot.value] := task.(
          result := result,
          status := if exit.exitedZero && rc == 0 then Complete else Failed,
          completedAt := exit.now,
          workerPid := 0);
      }
      Record(Reap(exit));
    }

    /** The first loop: one round for each child `waitpid` reports. */
    method ReapChildren(exits: seq<ChildExit>)
      requires Valid()
      modifies this`trace, this`world, queue.items
      ensures Valid() && trace == old(trace) + Reaps(exits)
    {
      for k := 0 to |exits|
        invariant Valid() && trace == old(trace) + Reaps(exits[..k])
      {
        ReapOne(exits[k]);
        assert Reaps(exits[..k + 1]) == Reaps(exits[..k]) + [Reap(exits[k])];
      }
      assert exits[..|exits|] == exits;
    }

    /** The body of the second loop. */
    method DispatchOne(i: nat, forks: seq<Fork>, now: int)
      requires Valid() && CanDispatch(Setup(), world) && i == First(Waiting, queue.items[..])
      modifies this`trace, this`world, queue.items
      ensures Valid() && trace == old(trace) + [Dispatch(NextFork(forks, now))]
      ensures trace + Dispatches(Setup(), world, Later(forks), now)
           == old(trace) + Dispatches(Setup(), old(world), forks, now)
      ensures Count(Waiting, queue.items[..]) < Count(Waiting, old(queue.items[..]))
    {
      var fork := NextFork(forks, now);
      SpawnConsumesOne(Setup(), world, fork);
      DispatchesStep(Setup(), world, forks, now);
      hide Dispatches, Replay, Spawned, Count;
      ghost var next := Step(Setup(), world, Dispatch(fork));
      TraceJoin(trace, Dispatch(fork), Dispatches(Setup(), next, Later(forks), now));
      SpawnTask(i, fork);
      Record(Dispatch(fork));
    }

    /** The second loop: while a worker is free and a task waits. It ends because each round
        takes one task out of QUEUED, whether or not its fork succeeds. */
    method DispatchQueued(forks: seq<Fork>, now: int)
      requires Valid()
      modifies this`trace, this`world, queue.items
      ensures Valid() && trace == old(trace) + Dispatches(Setup(), old(world), forks, now)
    {
      ghost var goal := trace + Dispatches(Setup(), world, forks, now);
      var answers := forks;
      var running := queue.CountRunning();
      while running < maxWorkers
        invariant Valid() && running == Count(Busy, queue.items[..])
        invariant trace + Dispatches(Setup(), world, answers, now) == goal
        decreases Count(Waiting, queue.items[..])
      {
        var next := queue.NextQueued();
        if next.None? {
          break;
        }
        DispatchOne(next.value, answers, now);
        answers := Later(answers);
        running := queue.CountRunning();
      }
      assert Dispatches(Setup(), world, answers, now) == [];
    }

    /** One poll is exactly the events of `PollEvents`, for every behaviour of fork, waitpid
        and the clock. */
    method Poll(p: PollInput)
      requires Valid()
      modifies this, queue, queue.items
      ensures Valid()
      ensures trace == old(trace) + PollEvents(Setup(), old(world), p)
      ensures world == Scheduler.Poll(Setup(), old(world), p)
      ensures Count(Busy, queue.items[..]) <= maxWorkers
      ensures Count(Busy, queue.items[..]) == maxWorkers || Count(Waiting, queue.items[..]) == 0
    {
      RunningNeverExceedsWorkers(Setup(), trace, |trace|);
      assert trace[..|trace|] == trace;
      PollIsWorkConserving(Setup(), world, p);
      PollRecorded(Setup(), trace, p);
      ReapChildren(p.exits);
      DispatchQueued(p.forks, p.now);
      Sweep(p.now);
    }

    method Sweep(now: int)
      requires Valid()
      modifies this`trace, this`world, queue.items
      ensures Valid() && trace == old(trace) + [Expire(now)]
    {
      queue.Cleanup(RETENTION_SECONDS, now);
      assert queue.items[..] == Swept(old(queue.items[..]), now);
      Record(Expire(now));
    }

    /** `subagent_get_json`: -1 exactly without a buffer or for an unknown identifier; otherwise
        the status text, cut to the buffer, which a reader takes as the task's object exactly
        when the result has nothing to escape and nothing was cut. A completed task shows the
        line of an exit in the trace that succeeded. */
    method GetJson(id: CString, out: array<char>) returns (rc: int)
      requires Valid()
      modifies out
      ensures rc == if out.Length != 0 && First(Holding(id), queue.items[..]) < queue.items.Length then 0 else -1
      ensures rc == 0 ==>
                var t := queue.items[First(Holding(id), queue.items[..])];
                && Held(out[..]) == Fit(StatusText(t), out.Length)
                && (ReadObject(Held(out[..]), 0) == Some(Read(StatusEntry(t), |Held(out[..])|))
                    <==> Plain(t.result) && |StatusText(t)| < out.Length)
                && (t.status == Complete ==>
                      exists k :: 0 <= k < |trace| && trace[k].Reap? && Succeeded(trace[k].exit)
                                  && IsCut(Held(out[..]), CompleteText(id, trace[k].exit), out.Length - 1))
    {
      hide Held, StatusText, ReadObject, StatusEntry, Plain, Succeeded, IsCut, CompleteText;
      if out.Length == 0 {
        return -1;
      }
      var slot := queue.Get(id);
      if slot.None? {
        return -1;
      }
      var text := StatusText(queue.items[slot.value]);
      InUseIdIsPlain(Setup(), trace, slot.value);
      StatusReadsIff(queue.items[slot.value], out.Length);
      if queue.items[slot.value].status == Complete {
        ghost var k := CompleteReply(Setup(), trace, slot.value, out.Length);
      }
      var wrote := PrintInto(out, 0, text);
      HeldIs(out[..], Fit(text, out.Length));
      rc := 0;
    }

    /** The listing of any reachable table into three bytes or more is a JSON array, and what
        a reader gets from it are the identifiers and statuses of a slot-order prefix of the
        tasks. */
    method ListJson(out: array<char>) returns (rc: int)
      requires Valid()
      modifies out
      ensures rc == if out.Length == 0 then -1 else 0
      ensures 3 <= out.Length ==>
                exists shown :: IsShown(InUse(queue.items[..]), out.Length, shown)
                                && Held(out[..]) == Listing(shown)
                                && ReadArray(Held(out[..])) == Some(Entries(shown))
    {
      hide IsShown, InUse, Held, Listing, ReadArray, Entries, PlainIds, IdsFit;
      ghost var slots := queue.items[..];
      ReachableIds(Setup(), trace);
      rc := queue.ListJson(out);
      if 3 <= out.Length {
        ghost var shown :| IsShown(InUse(slots), out.Length, shown) && Held(out[..]) == Listing(shown);
        ShownIsPlain(slots, out.Length, shown);
        ListingReadsBack(shown);
      }
    }
  }

  lemma SignalledIsAliveIn(c: Config, es: seq<Event>, w: World, id: CString)
    requires w == Replay(c, Init(c), es)
    ensures var m := Follow(c, Start(c), es);
            Signalled(w, id).Some? && Lawful(c, Start(c), es)
            && (First(Holding(id), w.slots) !in m.lost || FreshForks(c, Init(c), es))
            ==> Signalled(w, id).value in m.alive
  {
    FollowIsReplay(c, Start(c), es);
    hide Follow, Replay, Lawful, FreshForks, Signalled;
    if Signalled(w, id).Some? && Lawful(c, Start(c), es) {
      SignalledIff(c, es, id);
      if FreshForks(c, Init(c), es) {
        SignalledIsAlive(c, es);
      }
    }
  }

  /** In every run the identifiers in the table fit their field and have nothing to escape. */
  lemma ReachableIds(c: Config, es: seq<Event>)
    ensures var slots := Replay(c, Init(c), es).slots;
            IdsFit(slots) && PlainIds(InUse(slots))
  {
    var w := Replay(c, Init(c), es);
    InitHasInv(c);
    ReplayKeepsInv(c, Init(c), es);
    forall i | 0 <= i < |w.slots| && w.slots[i].inUse
      ensures |w.slots[i].id| < TASK_ID_MAX && Plain(w.slots[i].id)
    {
      LiveIdIsIssued(c, es, w, i);
    }
    UsedArePlain(w.slots);
  }

  /** The status reply of a task completed by an exit. */
  function CompleteText(id: CString, exit: ChildExit): string
  {
    var line := if exit.report.Opened? && exit.report.line.Some? then exit.report.line.value else "";
    FRONT + id + MIDDLE + Shown(line) + BACK
  }

  lemma CompleteReply(c: Config, es: seq<Event>, i: nat, size: nat) returns (k: nat)
    requires 0 < size
    requires var slots := Replay(c, Init(c), es).slots; i < |slots| && slots[i].inUse && slots[i].status == Complete
    ensures k < |es| && es[k].Reap? && Succeeded(es[k].exit)
    ensures var t := Replay(c, Init(c), es).slots[i];
            IsCut(Fit(StatusText(t), size), CompleteText(t.id, es[k].exit), size - 1)
  {
    TableSize(c, es);
    assert es[..|es|] == es;
    var t := Replay(c, Init(c), es).slots[i];
    assert SlotAt(c, es, |es|, i) == t;
    var s, d;
    s, d, k := CompleteStory(c, es, i);
    hide Replay, SlotAt, Lived;
    CompleteTextIs(t, es[k].exit);
    FitIsCut(StatusText(t), size);
  }

  lemma CompleteTextIs(t: TaskItem, exit: ChildExit)
    requires t.status == Complete && Succeeded(exit)
    requires t.result == if exit.report.line.None? then "" else Shown(exit.report.line.value)
    ensures StatusText(t) == CompleteText(t.id, exit)
  {
    TextParts(t.id, t.result);
  }

  const FRONT := "{\"task_id\":\""
  const MIDDLE := "\",\"status\":\"complete\",\"result\":\""
  const BACK := "\"}"

  lemma TextParts(id: string, result: string)
    ensures ThreeIn(Quoted("task_id", id), Quoted("status", "complete"), Quoted("result", result))
         == FRONT + id + MIDDLE + result + BACK
  {
    var lead, done := "\"result\":\"", Quoted("status", "complete");
    TextFront(id);
    TextBack(result);
    TextMiddle();
    hide Quoted;
    TextGlue(FRONT, id, "\"", ",", done, lead, result, BACK, MIDDLE);
    assert "{" + Quoted("task_id", id) + "," + done + "," + Quoted("result", result) + "}"
        == FRONT + id + "\"" + "," + done + "," + (lead + result + "\"") + "}";
  }

  lemma TextFront(id: string)
    ensures "{" + Quoted("task_id", id) == FRONT + id + "\""
  {
    assert FRONT == "{" + "\"" + "task_id" + "\":\"";
  }

  lemma TextBack(result: string)
    ensures Quoted("result", result) == "\"result\":\"" + result + "\""
  {
    assert "\"result\":\"" == "\"" + "result" + "\":\"";
  }

  lemma TextMiddle()
    ensures "\"" + "," + Quoted("status", "complete") + "," + "\"result\":\"" == MIDDLE
    ensures "\"" + "}" == BACK
  {
  }

  lemma TextGlue(front: string, id: string, quote: string, comma: string, done: string, lead: string, result: string,
                 back: string, middle: string)
    requires middle == quote + comma + done + comma + lead && back == quote + "}"
    ensures front + id + quote + comma + done + comma + (lead + result + quote) + "}"
         == front + id + middle + result + back
  {
  }

  lemma TraceJoin(trace: seq<Event>, e: Event, rest: seq<Event>)
    ensures trace + ([e] + rest) == trace + [e] + rest
  {
  }

  lemma InUseIdIsPlain(c: Config, es: seq<Event>, i: nat)
    requires var slots := Replay(c, Init(c), es).slots; i < |slots| && slots[i].inUse
    ensures Plain(Replay(c, Init(c), es).slots[i].id)
  {
    InitHasInv(c);
    ReplayKeepsInv(c, Init(c), es);
    LiveIdIsIssued(c, es, Replay(c, Init(c), es), i);
  }

  lemma LiveIdIsIssued(c: Config, es: seq<Event>, w: World, i: nat)
    requires w == Replay(c, Init(c), es) && Inv(c, w) && i < |w.slots| && w.slots[i].inUse
    ensures w.slots[i].id in w.issued
    ensures |w.slots[i].id| < TASK_ID_MAX && Plain(w.slots[i].id)
  {
    var id := w.slots[i].id;
    Conservation(c, es, id);
    CountZero(Holding(id), w.slots);
    assert Selects(Holding(id), w.slots[i]);
    assert id in multiset(w.issued);
    var k :| 0 <= k < |w.issued| && w.issued[k] == id;
    IssuedIdsArePlain((k + 1) % SEQ_LIMIT, c.self);
  }

  lemma {:induction false} UsedArePlain(slots: seq<TaskItem>)
    requires forall i :: 0 <= i < |slots| && slots[i].inUse ==> Plain(slots[i].id)
    ensures PlainIds(InUse(slots))
  {
    if slots != [] {
      UsedArePlain(slots[1..]);
    }
  }

  lemma ShownIsPlain(slots: seq<TaskItem>, size: nat, shown: seq<TaskItem>)
    requires PlainIds(InUse(slots)) && IsShown(InUse(slots), size, shown)
    ensures PlainIds(shown)
  {
  }

  /** Every reachable scheduler object: no more tasks RUNNING than workers, and an identifier
      it handed out is in exactly one slot or expired exactly once. */
  lemma ReachableSubagent(s: Subagent, id: CString)
    requires s.Valid() && |s.world.issued| <= SEQ_LIMIT
    ensures Count(Busy, s.queue.items[..]) <= s.maxWorkers
    ensures Count(Holding(id), s.queue.items[..]) + TimesRetired(s.world.retired, id)
         == if id in s.world.issued then 1 else 0
  {
    RunningNeverExceedsWorkers(s.Setup(), s.trace, |s.trace|);
    assert s.trace[..|s.trace|] == s.trace;
    NothingLostOrDuplicated(s.Setup(), s.trace, id);
  }
}
