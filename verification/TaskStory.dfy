/** What happens to a task, told without the functions that compute it: which events change a
    slot and to what, and from there the story of every task a run can leave in the table. */
module TaskStory {
  import opened Wrappers
  import opened CText
  import opened TaskTable
  import opened Scheduler
  import opened TaskLedger
  import opened TaskProgress

  /** The first `most` bytes of a string. */
  predicate IsCut(kept: string, full: string, most: nat)
  {
    kept <= full && |kept| == if |full| <= most then |full| else most
  }

  lemma FitIsCut(s: CString, size: nat)
    requires 0 < size
    ensures IsCut(Fit(s, size), s, size - 1)
  {
  }

  // ----- What each event does to one slot -----

  /** A slot as `task_queue_add` leaves it. */
  predicate Submitted(t: TaskItem, kind: CString, params: Option<CString>, now: int)
  {
    && t.inUse && t.status == Queued && t.workerPid == 0 && t.result == "" && t.completedAt == 0
    && IsCut(t.kind, kind, 31) && t.createdAt == now
    && IsCut(t.params, if params.Some? then params.value else "{}", 1023)
  }

  lemma SubmitOutcome(c: Config, w: World, kind: CString, params: Option<CString>, now: int, i: nat)
    requires i < |w.slots|
    ensures var v := Step(c, w, Submit(kind, params, now));
            && |v.slots| == |w.slots|
            && if kind != "" && !w.slots[i].inUse && forall j :: 0 <= j < i ==> w.slots[j].inUse
               then Submitted(v.slots[i], kind, params, now) && v.issued == w.issued + [v.slots[i].id]
               else v.slots[i] == w.slots[i]
  {
    FitIsCut(kind, 32);
    FitIsCut(if params.Some? then params.value else "{}", 1024);
    if !w.slots[i].inUse && forall j :: 0 <= j < i ==> w.slots[j].inUse {
      FirstIs(Free, w.slots, i);
    }
    hide First, IdOf, Fit;
  }

  /** The exit of a child that did its work: status 0, and a result file that begins with 0. */
  predicate Succeeded(exit: ChildExit)
  {
    exit.exitedZero && exit.report.Opened? && exit.report.code == Some(0)
  }

  /** What a task that ran shows when the exit of its child is credited to it. */
  predicate Finished(t: TaskItem, ran: TaskItem, exit: ChildExit)
  {
    && t.inUse && t.id == ran.id && t.kind == ran.kind && t.params == ran.params && t.createdAt == ran.createdAt
    && t.workerPid == 0 && t.completedAt == exit.now
    && t.status == (if Succeeded(exit) then Complete else Failed)
    && match exit.report
       case Missing => t.result == ran.result
       case Opened(_, None) => t.result == ""
       case Opened(_, Some(line)) => IsCut(t.result, line, 4095)
  }

  lemma ReapOutcome(c: Config, w: World, exit: ChildExit, i: nat)
    requires i < |w.slots|
    ensures var v := Step(c, w, Reap(exit));
            && |v.slots| == |w.slots|
            && if w.slots[i].inUse && w.slots[i].status == Running && w.slots[i].workerPid == exit.pid
                  && forall j :: 0 <= j < i ==> !(w.slots[j].inUse && w.slots[j].workerPid == exit.pid)
               then Finished(v.slots[i], w.slots[i], exit)
               else v.slots[i] == w.slots[i]
  {
    if exit.report.Opened? && exit.report.line.Some? {
      FitIsCut(exit.report.line.value, 4096);
    }
    if w.slots[i].inUse && w.slots[i].workerPid == exit.pid
       && forall j :: 0 <= j < i ==> !(w.slots[j].inUse && w.slots[j].workerPid == exit.pid) {
      FirstIs(Worker(exit.pid), w.slots, i);
    }
    hide First, Fit;
  }

  /** The task types with a handler. */
  predicate Known(kind: string)
  {
    kind == "investigate" || kind == "analyze" || kind == "summarize" || kind == "skill_invoke"
  }

  /** What a queued task becomes when the dispatch loop takes it. */
  predicate Started(t: TaskItem, queued: TaskItem, fork: Fork)
  {
    && t.inUse && t.id == queued.id && t.kind == queued.kind && t.params == queued.params
    && t.createdAt == queued.createdAt
    && if Known(queued.kind) && fork.pid.Some?
       then t.status == Running && t.workerPid == fork.pid.value
            && t.result == queued.result && t.completedAt == queued.completedAt
       else && t.status == Failed && t.workerPid == queued.workerPid && t.completedAt == fork.now
            && if Known(queued.kind) then t.result == "fork failed"
               else IsCut(t.result, "unknown task type: " + queued.kind, 4095)
  }

  lemma DispatchOutcome(c: Config, w: World, fork: Fork, i: nat)
    requires i < |w.slots|
    ensures var v := Step(c, w, Dispatch(fork));
            && |v.slots| == |w.slots|
            && if Count(Busy, w.slots) < c.maxWorkers && w.slots[i].inUse && w.slots[i].status == Queued
                  && forall j :: 0 <= j < i ==> !(w.slots[j].inUse && w.slots[j].status == Queued)
               then Started(v.slots[i], w.slots[i], fork)
               else v.slots[i] == w.slots[i]
  {
    UnknownText(w.slots[i].kind);
    if w.slots[i].inUse && w.slots[i].status == Queued
       && forall j :: 0 <= j < i ==> !(w.slots[j].inUse && w.slots[j].status == Queued) {
      FirstIs(Waiting, w.slots, i);
    }
    hide First, Fit, Count;
  }

  lemma UnknownText(kind: CString)
    ensures '\0' !in "unknown task type: " + kind
    ensures IsCut(Fit("unknown task type: " + kind, 4096), "unknown task type: " + kind, 4095)
  {
    FitIsCut("unknown task type: " + kind, 4096);
  }

  predicate IsOver(t: TaskItem)
  {
    t.inUse && (t.status == Complete || t.status == Failed || t.status == Cancelled)
  }

  lemma ExpireOutcome(c: Config, w: World, now: int, i: nat)
    requires i < |w.slots|
    ensures var v := Step(c, w, Expire(now));
            && |v.slots| == |w.slots|
            && if IsOver(w.slots[i]) && 0 < w.slots[i].completedAt && now - w.slots[i].completedAt > 300
               then !v.slots[i].inUse
               else v.slots[i] == w.slots[i]
  {
  }

  lemma CancelOutcome(c: Config, w: World, id: CString, now: int, i: nat)
    requires i < |w.slots|
    ensures var v := Step(c, w, Cancel(id, now));
            && |v.slots| == |w.slots|
            && v.slots[i] == if w.slots[i].inUse && w.slots[i].id == id
                                && forall j :: 0 <= j < i ==> !(w.slots[j].inUse && w.slots[j].id == id)
                             then w.slots[i].(status := Cancelled, completedAt := now)
                             else w.slots[i]
  {
    if w.slots[i].inUse && w.slots[i].id == id
       && forall j :: 0 <= j < i ==> !(w.slots[j].inUse && w.slots[j].id == id) {
      FirstIs(Holding(id), w.slots, i);
    }
    hide First;
  }

  // ----- One slot along a run -----

  /** Slot i after the first n events. */
  function SlotAt(c: Config, es: seq<Event>, n: nat, i: nat): TaskItem
    requires n <= |es| && i < c.maxTasks
  {
    TableSize(c, es[..n]);
    Replay(c, Init(c), es[..n]).slots[i]
  }

  lemma TableSize(c: Config, es: seq<Event>)
    ensures |Replay(c, Init(c), es).slots| == c.maxTasks
  {
    InitHasInv(c);
    ReplayKeepsInv(c, Init(c), es);
  }

  lemma OneEventOn(c: Config, es: seq<Event>, n: nat)
    requires n < |es|
    ensures Replay(c, Init(c), es[..n + 1]) == Step(c, Replay(c, Init(c), es[..n]), es[n])
  {
    assert es[..n + 1] == es[..n] + [es[n]];
    ReplaySnoc(c, Init(c), es[..n], es[n]);
  }

  /** Between two numbers of events the slot stays as it is. */
  ghost predicate Rests(c: Config, es: seq<Event>, from: nat, end: nat, i: nat)
    requires i < c.maxTasks && end <= |es|
  {
    forall n :: from <= n <= end ==> SlotAt(c, es, n, i) == SlotAt(c, es, end, i)
  }

  /** A slot that is not what it was at the start changed last at some event. */
  lemma {:induction false} LastChange(c: Config, es: seq<Event>, end: nat, i: nat) returns (k: nat)
    requires i < c.maxTasks && end <= |es| && SlotAt(c, es, end, i).inUse
    ensures k < end && SlotAt(c, es, k, i) != SlotAt(c, es, end, i) && Rests(c, es, k + 1, end, i)
    decreases end
  {
    StartsFree(c, es, i);
    hide SlotAt;
    k := end - 1;
    if SlotAt(c, es, end - 1, i) == SlotAt(c, es, end, i) {
      k := LastChange(c, es, end - 1, i);
    }
  }

  lemma StartsFree(c: Config, es: seq<Event>, i: nat)
    requires i < c.maxTasks
    ensures !SlotAt(c, es, 0, i).inUse
  {
    assert es[..0] == [];
    assert Replay(c, Init(c), []) == Init(c);
  }

  /** The n-th event changed the slot as its outcome lemma says. */
  ghost predicate ChangedBy(c: Config, es: seq<Event>, n: nat, i: nat)
    requires n < |es| && i < c.maxTasks
  {
    var a, b := SlotAt(c, es, n, i), SlotAt(c, es, n + 1, i);
    match es[n]
    case Submit(kind, params, now) => kind != "" && !a.inUse && Submitted(b, kind, params, now)
    case Reap(exit) => a.inUse && a.status == Running && a.workerPid == exit.pid && Finished(b, a, exit)
    case Dispatch(fork) => a.inUse && a.status == Queued && Started(b, a, fork)
    case Expire(now) => IsOver(a) && now - a.completedAt > 300 && !b.inUse
    case Cancel(id, now) => a.inUse && a.id == id && b == a.(status := Cancelled, completedAt := now)
  }

  lemma Changes(c: Config, es: seq<Event>, n: nat, i: nat)
    requires n < |es| && i < c.maxTasks
    ensures SlotAt(c, es, n + 1, i) == SlotAt(c, es, n, i) || ChangedBy(c, es, n, i)
  {
    var w := Replay(c, Init(c), es[..n]);
    OneEventOn(c, es, n);
    TableSize(c, es[..n]);
    hide Replay;
    match es[n] {
      case Submit(kind, params, now) => SubmitOutcome(c, w, kind, params, now, i);
      case Reap(exit) => ReapOutcome(c, w, exit, i);
      case Dispatch(fork) => DispatchOutcome(c, w, fork, i);
      case Expire(now) => ExpireOutcome(c, w, now, i);
      case Cancel(id, now) => CancelOutcome(c, w, id, now, i);
    }
    hide Step, Submitted, Finished, Started;
  }

  // ----- The story of every task in the table -----

  /** A queued task is as it was submitted. */
  lemma QueuedStory(c: Config, es: seq<Event>, end: nat, i: nat) returns (s: nat)
    requires i < c.maxTasks && end <= |es| && SlotAt(c, es, end, i).inUse && SlotAt(c, es, end, i).status == Queued
    ensures s < end && es[s].Submit? && !SlotAt(c, es, s, i).inUse && Rests(c, es, s + 1, end, i)
    ensures Submitted(SlotAt(c, es, end, i), es[s].kind, es[s].params, es[s].now)
  {
    s := LastChange(c, es, end, i);
    Changes(c, es, s, i);
    hide SlotAt, Submitted;
  }

  /** A running task was queued and dispatched, and its slot records the pid `fork` returned. */
  lemma RunningStory(c: Config, es: seq<Event>, end: nat, i: nat) returns (d: nat)
    requires i < c.maxTasks && end <= |es|
    requires SlotAt(c, es, end, i).inUse && SlotAt(c, es, end, i).status == Running
    ensures d < end && es[d].Dispatch? && es[d].fork.pid == Some(SlotAt(c, es, end, i).workerPid)
    ensures var a := SlotAt(c, es, d, i);
            a.inUse && a.status == Queued && Started(SlotAt(c, es, end, i), a, es[d].fork)
    ensures Rests(c, es, d + 1, end, i)
  {
    d := LastChange(c, es, end, i);
    Changes(c, es, d, i);
    hide SlotAt;
  }

  /** A task found COMPLETE was reported by an exit that succeeded, a task found FAILED by one
      that did not, or it failed to start. */
  lemma OverStory(c: Config, es: seq<Event>, end: nat, i: nat) returns (k: nat)
    requires i < c.maxTasks && end <= |es| && SlotAt(c, es, end, i).inUse
    requires SlotAt(c, es, end, i).status == Complete || SlotAt(c, es, end, i).status == Failed
    ensures k < end && Rests(c, es, k + 1, end, i)
    ensures var a, b := SlotAt(c, es, k, i), SlotAt(c, es, end, i);
            a.inUse
            && if es[k].Reap? then
                 && a.status == Running && a.workerPid == es[k].exit.pid && Finished(b, a, es[k].exit)
                 && (b.status == Complete <==> Succeeded(es[k].exit))
               else
                 && es[k].Dispatch? && b.status == Failed && a.status == Queued && Started(b, a, es[k].fork)
                 && (!Known(a.kind) || es[k].fork.pid.None?)
  {
    k := LastChange(c, es, end, i);
    Changes(c, es, k, i);
    hide SlotAt;
  }

  /** A cancelled task was cancelled under its identifier, at the time it shows. */
  lemma CancelledStory(c: Config, es: seq<Event>, end: nat, i: nat) returns (k: nat)
    requires i < c.maxTasks && end <= |es|
    requires SlotAt(c, es, end, i).inUse && SlotAt(c, es, end, i).status == Cancelled
    ensures k < end && Rests(c, es, k + 1, end, i)
    ensures var a, b := SlotAt(c, es, k, i), SlotAt(c, es, end, i);
            && es[k] == Cancel(b.id, b.completedAt) && a.inUse
            && b == a.(status := Cancelled, completedAt := b.completedAt)
  {
    k := LastChange(c, es, end, i);
    Changes(c, es, k, i);
    hide SlotAt;
  }

  /** The life of one task in slot i: submitted at s, dispatched at d, reported at k. */
  ghost predicate Lived(c: Config, es: seq<Event>, i: nat, s: nat, d: nat, k: nat)
    requires i < c.maxTasks
  {
    && s < d < k < |es|
    && forall n :: s < n <= |es| ==>
         var a, t := SlotAt(c, es, n, i), SlotAt(c, es, |es|, i);
         && a.inUse && a.id == t.id && a.kind == t.kind && a.params == t.params && a.createdAt == t.createdAt
         && a.status == if n <= d then Queued else if n <= k then Running else t.status
  }

  /** A task is COMPLETE at the end of a run only after this life in its slot: submitted with
      its kind, parameters and time, dispatched to the child the system forked for it, and
      reported by an exit of that pid with status 0 and a result file that begins with 0. It
      shows the time of that exit and its file's line. */
  lemma {:induction false} CompleteStory(c: Config, es: seq<Event>, i: nat) returns (s: nat, d: nat, k: nat)
    requires i < c.maxTasks && SlotAt(c, es, |es|, i).inUse && SlotAt(c, es, |es|, i).status == Complete
    ensures Lived(c, es, i, s, d, k)
    ensures var t := SlotAt(c, es, |es|, i);
            && es[s].Submit? && IsCut(t.kind, es[s].kind, 31) && t.createdAt == es[s].now
            && IsCut(t.params, if es[s].params.Some? then es[s].params.value else "{}", 1023)
            && es[d].Dispatch? && Known(t.kind)
            && es[k].Reap? && es[d].fork.pid == Some(es[k].exit.pid) && Succeeded(es[k].exit)
            && t.completedAt == es[k].exit.now && t.workerPid == 0
            && t.result == (if es[k].exit.report.line.None? then "" else Shown(es[k].exit.report.line.value))
  {
    k := OverStory(c, es, |es|, i);
    d := RunningStory(c, es, k, i);
    s := QueuedStory(c, es, d, i);
    hide SlotAt;
    if es[k].exit.report.line.Some? {
      CutIsShown(SlotAt(c, es, |es|, i).result, es[k].exit.report.line.value);
    }
  }

  /** At most 4095 bytes of a line are kept. */
  function Shown(line: string): string
  {
    if |line| <= 4095 then line else line[..4095]
  }

  lemma CutIsShown(kept: string, line: string)
    ensures IsCut(kept, line, 4095) <==> kept == Shown(line)
  {
  }

  /** With fresh forks the exit of a running task's child decides that task. */
  lemma {:induction false} ExitDecides(c: Config, es: seq<Event>, i: nat, exit: ChildExit)
    requires FreshForks(c, Init(c), es) && i < c.maxTasks
    requires var t := SlotAt(c, es, |es|, i); t.inUse && t.status == Running && t.workerPid == exit.pid
    ensures var after := es + [Reap(exit)];
            Finished(SlotAt(c, after, |after|, i), SlotAt(c, es, |es|, i), exit)
  {
    var w, after := Replay(c, Init(c), es), es + [Reap(exit)];
    RunKeepsPids(c, es);
    TableSize(c, es);
    ReplaySnoc(c, Init(c), es, Reap(exit));
    assert es[..|es|] == es && after[..|after|] == after;
    hide Replay, Finished;
    ReapOutcome(c, w, exit, i);
  }

  // ----- What every poll sweeps -----

  lemma {:induction false} OverStays(c: Config, w: World, es: seq<Event>, i: nat)
    requires i < |w.slots| && IsOver(w.slots[i])
    requires forall k :: 0 <= k < |es| ==> es[k].Reap? || es[k].Dispatch?
    ensures i < |Replay(c, w, es).slots| && Replay(c, w, es).slots[i] == w.slots[i]
    decreases es
  {
    if es != [] {
      match es[0] {
        case Reap(exit) => ReapOutcome(c, w, exit, i);
        case Dispatch(fork) => DispatchOutcome(c, w, fork, i);
        case _ =>
      }
      hide Step, Finished, Started;
      OverStays(c, Step(c, w, es[0]), es[1..], i);
    }
  }

  lemma {:induction false} DispatchesOnly(c: Config, w: World, forks: seq<Fork>, now: int)
    ensures forall k :: 0 <= k < |Dispatches(c, w, forks, now)| ==> Dispatches(c, w, forks, now)[k].Dispatch?
    decreases Count(Waiting, w.slots)
  {
    if CanDispatch(c, w) {
      var e := Dispatch(NextFork(forks, now));
      SpawnConsumesOne(c, w, e.fork);
      DispatchesOnly(c, Step(c, w, e), Later(forks), now);
    }
  }

  /** Behind a poll no task is left that was over for more than 300 seconds, and every slot
      that held one before the poll is free. */
  lemma {:induction false} PollSweeps(c: Config, w: World, p: PollInput, i: nat)
    requires i < |w.slots|
    ensures var v := Poll(c, w, p);
            && |v.slots| == |w.slots|
            && !(IsOver(v.slots[i]) && 0 < v.slots[i].completedAt && p.now - v.slots[i].completedAt > 300)
            && (IsOver(w.slots[i]) && 0 < w.slots[i].completedAt && p.now - w.slots[i].completedAt > 300
                ==> !v.slots[i].inUse)
            && (IsOver(w.slots[i]) && !(0 < w.slots[i].completedAt && p.now - w.slots[i].completedAt > 300)
                ==> v.slots[i] == w.slots[i])
  {
    var reaped := Replay(c, w, Reaps(p.exits));
    var ds := Dispatches(c, reaped, p.forks, p.now);
    var filled := Replay(c, reaped, ds);
    PollPhases(c, w, p);
    SizeStays(c, w, Reaps(p.exits));
    SizeStays(c, reaped, ds);
    DispatchesOnly(c, reaped, p.forks, p.now);
    ExpireOutcome(c, filled, p.now, i);
    hide Replay, Step, Dispatches, Poll;
    if IsOver(w.slots[i]) {
      OverStays(c, w, Reaps(p.exits), i);
      OverStays(c, reaped, ds, i);
    }
  }

  lemma {:induction false} SizeStays(c: Config, w: World, es: seq<Event>)
    ensures |Replay(c, w, es).slots| == |w.slots|
    decreases es
  {
    if es != [] {
      assert |Step(c, w, es[0]).slots| == |w.slots|;
      hide Step;
      SizeStays(c, Step(c, w, es[0]), es[1..]);
    }
  }
}
