/** What polling achieves: worker slots are filled, children are matched to their tasks, and
    a backlog drains in a bounded number of polls. */
module TaskProgress {
  import opened Wrappers
  import opened CText
  import opened TaskTable
  import opened Scheduler
  import opened TaskLedger

  // ----- Work conservation -----

  lemma {:induction false} DispatchFillsWorkers(c: Config, w: World, forks: seq<Fork>, now: int)
    requires Count(Busy, w.slots) <= c.maxWorkers
    ensures var v := Replay(c, w, Dispatches(c, w, forks, now));
            && Count(Busy, v.slots) <= c.maxWorkers
            && (Count(Busy, v.slots) == c.maxWorkers || Count(Waiting, v.slots) == 0)
            && Count(Busy, v.slots) - Count(Busy, w.slots) <= Count(Waiting, w.slots) - Count(Waiting, v.slots)
    decreases Count(Waiting, w.slots)
  {
    CountZero(Waiting, w.slots);
    if CanDispatch(c, w) {
      var e := Dispatch(NextFork(forks, now));
      SpawnConsumesOne(c, w, e.fork);
      DispatchFillsWorkers(c, Step(c, w, e), Later(forks), now);
      var rest := Dispatches(c, Step(c, w, e), Later(forks), now);
      assert ([e] + rest)[1..] == rest;
    }
  }

  lemma {:induction false} ReapsOnlyFree(c: Config, w: World, exits: seq<ChildExit>)
    ensures var v := Replay(c, w, Reaps(exits));
            && |v.slots| == |w.slots|
            && Count(Waiting, v.slots) == Count(Waiting, w.slots)
            && Count(Busy, v.slots) <= Count(Busy, w.slots)
    decreases exits
  {
    if exits != [] {
      var i := First(Worker(exits[0].pid), w.slots);
      if i < |w.slots| {
        CountUpdate(Waiting, w.slots, i, Reaped(w.slots[i], exits[0]));
        CountUpdate(Busy, w.slots, i, Reaped(w.slots[i], exits[0]));
      }
      assert Reaps(exits)[1..] == Reaps(exits[1..]);
      ReapsOnlyFree(c, Step(c, w, Reap(exits[0])), exits[1..]);
    }
  }

  /** After any poll every worker is busy or no task waits, and never more run than there
      are workers. */
  lemma {:induction false} PollIsWorkConserving(c: Config, w: World, p: PollInput)
    requires Count(Busy, w.slots) <= c.maxWorkers
    ensures var v := Poll(c, w, p);
            && Count(Busy, v.slots) <= c.maxWorkers
            && (Count(Busy, v.slots) == c.maxWorkers || Count(Waiting, v.slots) == 0)
  {
    var reaped := Replay(c, w, Reaps(p.exits));
    var filled := Replay(c, reaped, Dispatches(c, reaped, p.forks, p.now));
    PollPhases(c, w, p);
    ReapsOnlyFree(c, w, p.exits);
    DispatchFillsWorkers(c, reaped, p.forks, p.now);
    SweepKeepsCount(Busy, filled.slots, p.now);
    SweepKeepsCount(Waiting, filled.slots, p.now);
  }

  // ----- Which reaps land -----

  /** Reaping pid p finishes the task running under p exactly when no lower slot in use still
      records p. A cancelled slot keeps its pid, so the condition can fail. */
  lemma ReapLandsIff(c: Config, w: World, i: nat, exit: ChildExit)
    requires i < |w.slots| && Selects(Busy, w.slots[i]) && w.slots[i].workerPid == exit.pid
    ensures Terminal(Step(c, w, Reap(exit)).slots[i].status)
       <==> forall k :: 0 <= k < i ==> !(w.slots[k].inUse && w.slots[k].workerPid == exit.pid)
    ensures !Terminal(Step(c, w, Reap(exit)).slots[i].status) ==> Step(c, w, Reap(exit)).slots[i] == w.slots[i]
  {
    var f := First(Worker(exit.pid), w.slots);
    assert f <= i;
    assert forall k :: 0 <= k < |w.slots| ==>
      (Selects(Worker(exit.pid), w.slots[k]) <==> w.slots[k].inUse && w.slots[k].workerPid == exit.pid);
  }

  /** The pid a step writes into the table, if it forks. */
  function ForkedPid(c: Config, w: World, e: Event): Option<Pid>
  {
    if e.Dispatch? && CanDispatch(c, w) && HasHandler(w.slots[First(Waiting, w.slots)].kind)
    then e.fork.pid else None
  }

  /** `fork` returns no pid that some slot in use still records. */
  predicate FreshStep(c: Config, w: World, e: Event)
  {
    var p := ForkedPid(c, w, e);
    p.Some? ==> First(Worker(p.value), w.slots) == |w.slots|
  }

  ghost predicate FreshForks(c: Config, w: World, es: seq<Event>)
    decreases es
  {
    es != [] ==> FreshStep(c, w, es[0]) && FreshForks(c, Step(c, w, es[0]), es[1..])
  }

  predicate DistinctPids(slots: seq<TaskItem>)
  {
    forall i, j :: 0 <= i < j < |slots| && slots[i].inUse && slots[j].inUse && 0 < slots[i].workerPid
      ==> slots[i].workerPid != slots[j].workerPid
  }

  lemma RewriteKeepsPids(slots: seq<TaskItem>, i: nat, t: TaskItem)
    requires i < |slots| && DistinctPids(slots)
    requires !t.inUse || t.workerPid == 0 || (slots[i].inUse && t.workerPid == slots[i].workerPid)
             || (0 < t.workerPid && First(Worker(t.workerPid), slots) == |slots|)
    ensures DistinctPids(slots[i := t])
  {
    var after := slots[i := t];
    forall a, b | 0 <= a < b < |after| && after[a].inUse && after[b].inUse && 0 < after[a].workerPid
      ensures after[a].workerPid != after[b].workerPid
    {
      if t.inUse && 0 < t.workerPid && First(Worker(t.workerPid), slots) == |slots| {
        assert forall k :: 0 <= k < |slots| ==> !Selects(Worker(t.workerPid), slots[k]);
      }
    }
  }

  lemma StepKeepsPids(c: Config, w: World, e: Event)
    requires DistinctPids(w.slots) && FreshStep(c, w, e)
    ensures DistinctPids(Step(c, w, e).slots)
  {
    match e
    case Submit(kind, params, now) =>
      var i := First(Free, w.slots);
      if kind != "" && i < |w.slots| {
        RewriteKeepsPids(w.slots, i, Step(c, w, e).slots[i]);
      }
    case Reap(exit) =>
      var i := First(Worker(exit.pid), w.slots);
      if i < |w.slots| {
        RewriteKeepsPids(w.slots, i, Reaped(w.slots[i], exit));
      }
    case Dispatch(fork) =>
      if CanDispatch(c, w) {
        var i := First(Waiting, w.slots);
        RewriteKeepsPids(w.slots, i, Spawned(w.slots[i], fork));
      }
    case Expire(now) =>
    case Cancel(id, now) =>
      var i := First(Holding(id), w.slots);
      if i < |w.slots| {
        RewriteKeepsPids(w.slots, i, w.slots[i].(status := Cancelled, completedAt := now));
      }
  }

  lemma {:induction false} ReplayKeepsPids(c: Config, w: World, es: seq<Event>)
    requires DistinctPids(w.slots) && FreshForks(c, w, es)
    ensures DistinctPids(Replay(c, w, es).slots)
    decreases es
  {
    if es != [] {
      StepKeepsPids(c, w, es[0]);
      ReplayKeepsPids(c, Step(c, w, es[0]), es[1..]);
    }
  }

  /** In every run whose forks are fresh, the exit of a running task's child finishes exactly
      that task. */
  lemma {:induction false} EveryReapLands(c: Config, es: seq<Event>, i: nat, exit: ChildExit)
    requires FreshForks(c, Init(c), es)
    requires var w := Replay(c, Init(c), es);
             i < |w.slots| && Selects(Busy, w.slots[i]) && w.slots[i].workerPid == exit.pid
    ensures var w := Replay(c, Init(c), es);
            Step(c, w, Reap(exit)) == w.(slots := w.slots[i := Reaped(w.slots[i], exit)])
  {
    var w := Replay(c, Init(c), es);
    ReplayKeepsPids(c, Init(c), es);
    FirstIs(Worker(exit.pid), w.slots, i);
  }

  // ----- The drain bound -----

  /** waitpid reports the child of every running task. */
  ghost predicate AllReaped(w: World, exits: seq<ChildExit>)
  {
    forall i :: 0 <= i < |w.slots| && Selects(Busy, w.slots[i]) ==>
      exists k :: 0 <= k < |exits| && exits[k].pid == w.slots[i].workerPid
  }

  lemma {:induction false} AllReapedClears(c: Config, w: World, exits: seq<ChildExit>)
    requires DistinctPids(w.slots) && AllReaped(w, exits)
    ensures Count(Busy, Replay(c, w, Reaps(exits)).slots) == 0
    decreases exits
  {
    if exits == [] {
      CountZero(Busy, w.slots);
    } else {
      var v := Step(c, w, Reap(exits[0]));
      StepKeepsPids(c, w, Reap(exits[0]));
      forall i | 0 <= i < |v.slots| && Selects(Busy, v.slots[i])
        ensures exists k :: 0 <= k < |exits[1..]| && exits[1..][k].pid == v.slots[i].workerPid
      {
        assert v.slots[i] == w.slots[i];
        var k :| 0 <= k < |exits| && exits[k].pid == w.slots[i].workerPid;
        if k == 0 {
          FirstIs(Worker(exits[0].pid), w.slots, i);
          assert false;
        }
        assert exits[1..][k - 1].pid == v.slots[i].workerPid;
      }
      AllReapedClears(c, v, exits[1..]);
      assert Reaps(exits)[1..] == Reaps(exits[1..]);
    }
  }

  /** One poll that reaps everything running takes a full round of workers off the backlog. */
  lemma {:induction false} PollTakesARound(c: Config, w: World, p: PollInput)
    requires DistinctPids(w.slots) && FullPoll(c, w, p)
    ensures var v := Poll(c, w, p);
            && (Count(Waiting, v.slots) == 0 || Count(Waiting, v.slots) <= Count(Waiting, w.slots) - c.maxWorkers)
            && (Count(Waiting, w.slots) == 0 ==> Count(Busy, v.slots) == 0)
  {
    var reaped := Replay(c, w, Reaps(p.exits));
    var filled := Replay(c, reaped, Dispatches(c, reaped, p.forks, p.now));
    AllReapedClears(c, w, p.exits);
    ReapsOnlyFree(c, w, p.exits);
    DispatchFillsWorkers(c, reaped, p.forks, p.now);
    PollPhases(c, w, p);
    SweepKeepsCount(Waiting, filled.slots, p.now);
    SweepKeepsCount(Busy, filled.slots, p.now);
  }

  function Polls(c: Config, w: World, ps: seq<PollInput>): World
    decreases ps
  {
    if ps == [] then w else Polls(c, Poll(c, w, ps[0]), ps[1..])
  }

  /** The poll reaps every running task, and its forks are fresh. */
  ghost predicate FullPoll(c: Config, w: World, p: PollInput)
  {
    AllReaped(w, p.exits) && FreshForks(c, w, PollEvents(c, w, p))
  }

  ghost predicate FullPolls(c: Config, w: World, ps: seq<PollInput>)
    decreases ps
  {
    ps != [] ==> FullPoll(c, w, ps[0]) && FullPolls(c, Poll(c, w, ps[0]), ps[1..])
  }

  lemma PollKeepsPids(c: Config, w: World, p: PollInput)
    requires DistinctPids(w.slots) && FullPoll(c, w, p)
    ensures DistinctPids(Poll(c, w, p).slots)
  {
    ReplayKeepsPids(c, w, PollEvents(c, w, p));
  }

  lemma {:induction false} QueueDrains(c: Config, w: World, ps: seq<PollInput>)
    requires DistinctPids(w.slots) && FullPolls(c, w, ps)
    requires Count(Waiting, w.slots) <= |ps| * c.maxWorkers
    ensures Count(Waiting, Polls(c, w, ps).slots) == 0
    ensures DistinctPids(Polls(c, w, ps).slots)
    decreases ps
  {
    hide FullPoll, Poll, Count, DistinctPids;
    if ps == [] {
      assert 0 * c.maxWorkers == 0;
    } else {
      var v := Poll(c, w, ps[0]);
      FullPollRound(c, w, ps[0], |ps|);
      assert |ps[1..]| == |ps| - 1;
      QueueDrains(c, v, ps[1..]);
    }
  }

  lemma {:induction false} FullPollRound(c: Config, w: World, p: PollInput, n: nat)
    requires DistinctPids(w.slots) && FullPoll(c, w, p)
    requires 0 < n && Count(Waiting, w.slots) <= n * c.maxWorkers
    ensures DistinctPids(Poll(c, w, p).slots)
    ensures Count(Waiting, Poll(c, w, p).slots) <= (n - 1) * c.maxWorkers
  {
    hide FullPoll, DistinctPids, Poll, Count;
    PollTakesARound(c, w, p);
    PollKeepsPids(c, w, p);
    OneRoundLess(n, c.maxWorkers);
  }

  lemma OneRoundLess(n: nat, m: nat)
    requires 0 < n
    ensures 0 <= (n - 1) * m == n * m - m
  {
  }

  lemma {:induction false} LastPoll(c: Config, w: World, ps: seq<PollInput>, p: PollInput)
    requires FullPolls(c, w, ps + [p])
    ensures FullPolls(c, w, ps) && FullPoll(c, Polls(c, w, ps), p)
    ensures Polls(c, w, ps + [p]) == Poll(c, Polls(c, w, ps), p)
    decreases ps
  {
    if ps == [] {
      assert (ps + [p])[0] == p && (ps + [p])[1..] == [];
      var v := Poll(c, w, p);
      assert Polls(c, w, ps + [p]) == Polls(c, v, []);
    } else {
      assert (ps + [p])[0] == ps[0] && (ps + [p])[1..] == ps[1..] + [p];
      LastPoll(c, Poll(c, w, ps[0]), ps[1..], p);
    }
  }

  lemma {:induction false} DrainFrom(c: Config, w: World, ps: seq<PollInput>, last: PollInput)
    requires Sensible(c) && DistinctPids(w.slots) && FullPolls(c, w, ps + [last])
    requires (Count(Waiting, w.slots) + c.maxWorkers - 1) / c.maxWorkers <= |ps|
    ensures Count(Waiting, Polls(c, w, ps).slots) == 0
    ensures Count(Waiting, Polls(c, w, ps + [last]).slots) == 0
    ensures Count(Busy, Polls(c, w, ps + [last]).slots) == 0
  {
    LastPoll(c, w, ps, last);
    CeilCovers(Count(Waiting, w.slots), c.maxWorkers, |ps|);
    QueueDrains(c, w, ps);
    PollTakesARound(c, Polls(c, w, ps), last);
  }

  /** The drain bound, from wherever a run with fresh forks got to. With no further submission
      or cancellation, every running child reaped by each poll, and whichever forks fail:
      ceil(q / maxWorkers) polls leave none of q queued tasks queued, and one poll more leaves
      none running. */
  lemma {:induction false} BacklogDrains(c: Config, es: seq<Event>, ps: seq<PollInput>, last: PollInput)
    requires Sensible(c) && FreshForks(c, Init(c), es)
    requires FullPolls(c, Replay(c, Init(c), es), ps + [last])
    requires var q := Count(Waiting, Replay(c, Init(c), es).slots);
             (q + c.maxWorkers - 1) / c.maxWorkers <= |ps|
    ensures var w := Replay(c, Init(c), es);
            && Count(Waiting, Polls(c, w, ps).slots) == 0
            && Count(Waiting, Polls(c, w, ps + [last]).slots) == 0
            && Count(Busy, Polls(c, w, ps + [last]).slots) == 0
  {
    hide FullPolls, Polls, FreshForks, Replay, DistinctPids, Count;
    RunKeepsPids(c, es);
    DrainFrom(c, Replay(c, Init(c), es), ps, last);
  }

  lemma RunKeepsPids(c: Config, es: seq<Event>)
    requires FreshForks(c, Init(c), es)
    ensures DistinctPids(Replay(c, Init(c), es).slots)
  {
    ReplayKeepsPids(c, Init(c), es);
  }

  lemma CeilCovers(q: nat, m: nat, n: nat)
    requires 1 <= m && (q + m - 1) / m <= n
    ensures q <= n * m
  {
    var k := (q + m - 1) / m;
    assert q + m - 1 == m * k + (q + m - 1) % m;
    assert k * m <= n * m;
  }
}
