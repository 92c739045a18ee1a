/** A cancelled task whose pid comes back: a worker is lost for ever, and a signal goes to
    another task's child. */
module TaskStale {
  import opened Wrappers
  import opened CText
  import opened TaskTable
  import opened Scheduler
  import opened TaskLedger
  import opened TaskProgress
  import opened TaskChildren
  import opened TaskCalls

  /** A table of three slots, and a pid the system may give out. */
  predicate Fits(c: Config, p: Pid)
  {
    c.maxTasks == 3 && 1 <= c.maxWorkers && 1 < p != c.self
  }

  function Task(self: Pid, n: nat, now: int): TaskItem
  {
    NewTask("analyze", None, IdOf(n, self), now)
  }

  function OnWorker(t: TaskItem, p: Pid): TaskItem
  {
    t.(status := Running, workerPid := p)
  }

  /** The first task, cancelled while its child p ran. */
  function StaleTask(self: Pid, p: Pid): TaskItem
  {
    OnWorker(Task(self, 1, 1), p).(status := Cancelled, completedAt := 2)
  }

  function At(self: Pid, slots: seq<TaskItem>, n: nat, alive: set<int>, orphans: set<int>, lost: set<nat>): Moment
  {
    var ids := [IdOf(1, self), IdOf(2, self), IdOf(3, self)];
    Moment(World(slots, n, ids[..if n < 3 then n else 3], []), alive, orphans, lost)
  }

  /** The calls: a task is dispatched to child p and cancelled; p is reported, and `fork`
      returns it again for a second task, while slot 0 still records it; p exits; and returns
      once more for a third task. */
  function CallAt(self: Pid, p: Pid, k: nat): Call
  {
    if k == 0 then SubmitTask("analyze", None, 1)
    else if k == 1 then PollOnce(PollInput([], [Fork(Some(p), 1)], 1))
    else if k == 2 then SubmitTask("analyze", None, 1)
    else if k == 3 then CancelTask(IdOf(1, self), 2)
    else if k == 4 then PollOnce(PollInput([ChildExit(p, false, Missing, 3)], [Fork(Some(p), 4)], 4))
    else if k == 5 then PollOnce(PollInput([LastExit(p)], [], 5))
    else if k == 6 then SubmitTask("analyze", None, 6)
    else PollOnce(PollInput([], [Fork(Some(p), 6)], 6))
  }

  function LastExit(p: Pid): ChildExit
  {
    ChildExit(p, true, Opened(Some(0), None), 5)
  }

  /** The moment before the k-th call. */
  function Stage(self: Pid, p: Pid, k: nat): Moment
  {
    var a, b, d, stale := Task(self, 1, 1), Task(self, 2, 1), Task(self, 3, 6), StaleTask(self, p);
    if k == 0 then At(self, [ZERO_ITEM, ZERO_ITEM, ZERO_ITEM], 0, {}, {}, {})
    else if k == 1 then At(self, [a, ZERO_ITEM, ZERO_ITEM], 1, {}, {}, {})
    else if k == 2 then At(self, [OnWorker(a, p), ZERO_ITEM, ZERO_ITEM], 1, {p}, {}, {})
    else if k == 3 then At(self, [OnWorker(a, p), b, ZERO_ITEM], 2, {p}, {}, {})
    else if k == 4 then At(self, [stale, b, ZERO_ITEM], 2, {p}, {p}, {})
    else if k == 5 then At(self, [stale, OnWorker(b, p), ZERO_ITEM], 2, {p}, {}, {})
    else if k == 6 then At(self, [stale, OnWorker(b, p), ZERO_ITEM], 2, {}, {}, {1})
    else if k == 7 then At(self, [stale, OnWorker(b, p), d], 3, {}, {}, {1})
    else At(self, [stale, OnWorker(b, p), OnWorker(d, p)], 3, {p}, {}, {1})
  }

  lemma SlotCases(q: Query, slots: seq<TaskItem>)
    requires |slots| == 3
    ensures First(q, slots) == if Selects(q, slots[0]) then 0 else if Selects(q, slots[1]) then 1
                               else if Selects(q, slots[2]) then 2 else 3
    ensures Count(q, slots) == (if Selects(q, slots[0]) then 1 else 0) + (if Selects(q, slots[1]) then 1 else 0)
                               + (if Selects(q, slots[2]) then 1 else 0)
  {
    assert slots[1..] == [slots[1], slots[2]] && [slots[1], slots[2]][1..] == [slots[2]];
    assert Count(q, [slots[2]][1..]) == 0;
    assert Count(q, [slots[2]]) == if Selects(q, slots[2]) then 1 else 0;
  }

  lemma NothingStale(slots: seq<TaskItem>, now: int)
    requires |slots| == 3 && forall j :: 0 <= j < 3 ==> !Stale(slots[j], now)
    ensures Swept(slots, now) == slots && Leavers(slots, now) == []
  {
    assert slots[1..] == [slots[1], slots[2]] && [slots[1], slots[2]][1..] == [slots[2]];
    assert Leavers([slots[2]][1..], now) == [];
    assert Leavers([slots[2]], now) == [];
  }

  // ----- One event on three slots -----

  lemma SubmitAt(c: Config, m: Moment, i: nat, now: int)
    requires |m.world.slots| == 3 && i < 3 && m.world.seqNo < 3
    requires !m.world.slots[i].inUse && forall j :: 0 <= j < i ==> m.world.slots[j].inUse
    requires forall j :: j in m.lost ==> j < i && Selects(Busy, m.world.slots[j])
    ensures var w, n := m.world, m.world.seqNo + 1;
            Next(c, m, Submit("analyze", None, now))
            == m.(world := World(w.slots[i := Task(c.self, n, now)], n, w.issued + [IdOf(n, c.self)], w.retired))
  {
    var e := Submit("analyze", None, now);
    FirstIs(Free, m.world.slots, i);
    SameLost(m.lost, Step(c, m.world, e).slots, e);
    hide First, IdOf, Fit, LostAfter;
  }

  lemma DispatchAt(c: Config, m: Moment, i: nat, p: Pid, now: int)
    requires |m.world.slots| == 3 && i < 3 && 1 < p != c.self && p !in m.alive
    requires Selects(Waiting, m.world.slots[i]) && HasHandler(m.world.slots[i].kind)
    requires forall j :: 0 <= j < 3 && j != i ==> !Selects(Waiting, m.world.slots[j])
    requires Count(Busy, m.world.slots) < c.maxWorkers
    requires forall j :: j in m.lost ==> j < 3 && Selects(Busy, m.world.slots[j])
    ensures var w, d := m.world, Dispatch(Fork(Some(p), now));
            var v := m.(world := w.(slots := w.slots[i := OnWorker(w.slots[i], p)]), alive := m.alive + {p});
            Next(c, m, d) == v && LawfulStep(c, m, d) && CanDispatch(c, w) && !CanDispatch(c, v.world)
  {
    var w, d := m.world, Dispatch(Fork(Some(p), now));
    FirstIs(Waiting, w.slots, i);
    var after := w.slots[i := OnWorker(w.slots[i], p)];
    FirstIs(Waiting, after, 3);
    SameLost(m.lost, after, d);
    hide First, Count, LostAfter;
  }

  /** An exit credited to a cancelled slot changes no slot. */
  lemma ReapMisses(c: Config, m: Moment, exit: ChildExit)
    requires |m.world.slots| == 3 && m.world.slots[0].inUse && m.world.slots[0].status == Cancelled
    requires m.world.slots[0].workerPid == exit.pid && exit.pid in m.alive
    ensures Step(c, m.world, Reap(exit)) == m.world && LawfulStep(c, m, Reap(exit))
    ensures Next(c, m, Reap(exit))
         == Moment(m.world, m.alive - {exit.pid}, m.orphans - {exit.pid}, LostAfter(m.lost, m.world.slots, Reap(exit)))
  {
    FirstIs(Worker(exit.pid), m.world.slots, 0);
    hide First, LostAfter;
  }

  // ----- The stages -----

  lemma Ids(self: Pid, n: nat)
    requires n < 3
    ensures At(self, [], n, {}, {}, {}).world.issued + [IdOf(n + 1, self)]
         == At(self, [], n + 1, {}, {}, {}).world.issued
  {
    hide IdOf;
    var ids := [IdOf(1, self), IdOf(2, self), IdOf(3, self)];
    assert ids[..n] + [ids[n]] == ids[..n + 1];
  }

  lemma Submits(c: Config, p: Pid, k: nat)
    requires Fits(c, p) && (k == 0 || k == 2 || k == 6)
    ensures CallsLead(c, Stage(c.self, p, k), [CallAt(c.self, p, k)], Stage(c.self, p, k + 1))
  {
    var m, v, now := Stage(c.self, p, k), Stage(c.self, p, k + 1), if k == 6 then 6 else 1;
    var e := Submit("analyze", None, now);
    assert Next(c, m, e) == v by {
      hide Next, IdOf, Fit;
      Ids(c.self, m.world.seqNo);
      SubmitAt(c, m, if k == 0 then 0 else if k == 2 then 1 else 2, now);
    }
    hide Step, Stage, Next;
    FollowTwo(c, m, e, e);
    SubmitIsLawful(c, m, now);
    OneCall(c, m, CallAt(c.self, p, k), [e]);
  }

  lemma SubmitIsLawful(c: Config, m: Moment, now: int)
    ensures LawfulStep(c, m, Submit("analyze", None, now))
  {
  }

  lemma Cancels(c: Config, p: Pid)
    requires Fits(c, p)
    ensures CallsLead(c, Stage(c.self, p, 3), [CallAt(c.self, p, 3)], Stage(c.self, p, 4))
  {
    var m, v, e := Stage(c.self, p, 3), Stage(c.self, p, 4), Cancel(IdOf(1, c.self), 2);
    SlotCases(Holding(IdOf(1, c.self)), m.world.slots);
    SameLost(m.lost, v.world.slots, e);
    hide First, IdOf, Fit, LostAfter;
    assert Next(c, m, e) == v;
    hide Step, Stage;
    FollowTwo(c, m, e, e);
    OneCall(c, m, CallAt(c.self, p, 3), [e]);
  }

  lemma SweepsNothing(c: Config, m: Moment, now: int)
    requires |m.world.slots| == 3 && forall j :: 0 <= j < 3 ==> !Stale(m.world.slots[j], now)
    requires forall j :: j in m.lost ==> j < 3 && Selects(Busy, m.world.slots[j])
    ensures Next(c, m, Expire(now)) == m
  {
    NothingStale(m.world.slots, now);
    SameLost(m.lost, m.world.slots, Expire(now));
    hide Swept, Leavers, LostAfter;
    assert m.world.retired + [] == m.world.retired;
  }

  lemma DispatchSteps(c: Config, p: Pid, k: nat)
    requires Fits(c, p) && (k == 1 || (k == 7 && 2 <= c.maxWorkers))
    ensures var m, v, now := Stage(c.self, p, k), Stage(c.self, p, k + 1), if k == 7 then 6 else 1;
            var d := Dispatch(Fork(Some(p), now));
            && Next(c, m, d) == v && LawfulStep(c, m, d)
            && CanDispatch(c, m.world) && !CanDispatch(c, v.world)
  {
    var m := Stage(c.self, p, k);
    SlotCases(Busy, m.world.slots);
    KindIsKnown(c.self);
    hide IdOf, Fit, Next, CanDispatch, LawfulStep, Count, HasHandler;
    DispatchAt(c, m, if k == 7 then 2 else 0, p, if k == 7 then 6 else 1);
  }

  lemma KindIsKnown(self: Pid)
    ensures forall n, now :: HasHandler(Task(self, n, now).kind)
  {
  }

  lemma Dispatches1(c: Config, p: Pid, k: nat)
    requires Fits(c, p) && (k == 1 || (k == 7 && 2 <= c.maxWorkers))
    ensures CallsLead(c, Stage(c.self, p, k), [CallAt(c.self, p, k)], Stage(c.self, p, k + 1))
  {
    var now := if k == 7 then 6 else 1;
    DispatchSteps(c, p, k);
    SweepsNothing(c, Stage(c.self, p, k + 1), now);
    hide Next, CanDispatch, Stage, LawfulStep, CallsLead;
    var v := DispatchingPoll(c, Stage(c.self, p, k), Fork(Some(p), now), now);
  }

  lemma ReapSteps(c: Config, p: Pid)
    requires Fits(c, p)
    ensures var m, v, d := Stage(c.self, p, 4), Stage(c.self, p, 5), Dispatch(Fork(Some(p), 4));
            var u, r := Moment(m.world, {}, {}, {}), Reap(ChildExit(p, false, Missing, 3));
            && Next(c, m, r) == u && LawfulStep(c, m, r)
            && Next(c, u, d) == v && LawfulStep(c, u, d)
            && CanDispatch(c, u.world) && !CanDispatch(c, v.world)
  {
    var m := Stage(c.self, p, 4);
    var u := Moment(m.world, {}, {}, {});
    SlotCases(Busy, m.world.slots);
    KindIsKnown(c.self);
    assert LostAfter({}, m.world.slots, Reap(ChildExit(p, false, Missing, 3))) == {};
    hide IdOf, Fit, Next, CanDispatch, LawfulStep, Count, HasHandler, LostAfter;
    ReapMisses(c, m, ChildExit(p, false, Missing, 3));
    DispatchAt(c, u, 1, p, 4);
  }

  lemma Reaps4(c: Config, p: Pid)
    requires Fits(c, p)
    ensures CallsLead(c, Stage(c.self, p, 4), [CallAt(c.self, p, 4)], Stage(c.self, p, 5))
  {
    ReapSteps(c, p);
    SweepsNothing(c, Stage(c.self, p, 5), 4);
    hide Next, CanDispatch, Stage, LawfulStep, CallsLead;
    var v := ReapingPoll(c, Stage(c.self, p, 4), ChildExit(p, false, Missing, 3), Fork(Some(p), 4), 4);
  }

  lemma MissSteps(c: Config, p: Pid)
    requires Fits(c, p)
    ensures var m, v, r := Stage(c.self, p, 5), Stage(c.self, p, 6), Reap(LastExit(p));
            && Step(c, m.world, r) == m.world && Next(c, m, r) == v && LawfulStep(c, m, r)
            && !CanDispatch(c, m.world)
  {
    var m := Stage(c.self, p, 5);
    assert LostAfter({}, m.world.slots, Reap(LastExit(p))) == {1};
    NoneWaiting(c, m.world);
    hide IdOf, Fit, Next, CanDispatch, LawfulStep, LostAfter, Step;
    ReapMisses(c, m, LastExit(p));
  }

  lemma NoneWaiting(c: Config, w: World)
    requires forall j :: 0 <= j < |w.slots| ==> !Selects(Waiting, w.slots[j])
    ensures !CanDispatch(c, w)
  {
    FirstIs(Waiting, w.slots, |w.slots|);
  }

  lemma Misses(c: Config, p: Pid)
    requires Fits(c, p)
    ensures CallsLead(c, Stage(c.self, p, 5), [CallAt(c.self, p, 5)], Stage(c.self, p, 6))
  {
    var m, v := Stage(c.self, p, 5), Stage(c.self, p, 6);
    var r, e := Reap(LastExit(p)), Expire(5);
    MissSteps(c, p);
    SweepsNothing(c, v, 5);
    hide Step, Next, CanDispatch, Stage, LawfulStep;
    SmallPoll(c, m.world, [LastExit(p)], [], 5);
    assert Reaps([LastExit(p)]) + [e] == [r, e];
    ExpireIsLawful(c, v, 5);
    FollowTwo(c, m, r, e);
    OneCall(c, m, CallAt(c.self, p, 5), [r, e]);
  }

  function CallsTo(self: Pid, p: Pid, k: nat): seq<Call>
  {
    if k == 0 then [] else CallsTo(self, p, k - 1) + [CallAt(self, p, k - 1)]
  }

  lemma {:induction false} CallsLeadTo(c: Config, p: Pid, k: nat)
    requires Fits(c, p) && (k <= 7 || (k == 8 && 2 <= c.maxWorkers))
    ensures CallsLead(c, Start(c), CallsTo(c.self, p, k), Stage(c.self, p, k))
  {
    if k == 0 {
      assert seq(3, i => ZERO_ITEM) == [ZERO_ITEM, ZERO_ITEM, ZERO_ITEM];
    } else {
      hide CallsLead, Stage, CallAt;
      var j := k - 1;
      CallsLeadTo(c, p, j);
      if j == 0 || j == 2 || j == 6 {
        Submits(c, p, j);
      } else if j == 1 || j == 7 {
        Dispatches1(c, p, j);
      } else if j == 3 {
        Cancels(c, p);
      } else if j == 4 {
        Reaps4(c, p);
      } else {
        Misses(c, p);
      }
      CallsLeadOn(c, Start(c), CallsTo(c.self, p, j), Stage(c.self, p, j), [CallAt(c.self, p, j)], Stage(c.self, p, k));
    }
  }

  /** Without fresh forks a reap can miss, under all the system guarantees: after five calls
      child p runs the second task in slot 1, and the poll that reports its successful exit
      leaves the slot RUNNING. Then nobody is alive, a cancellation of the second task sends
      SIGTERM to p all the same, and unless that call comes the only worker stays taken and no
      task is ever dispatched again. */
  lemma {:induction false} StaleSlotHidesWorker(c: Config, p: Pid, more: seq<Event>)
    requires Fits(c, p) && c.maxWorkers == 1
    ensures var before, after := Stage(c.self, p, 5), Stage(c.self, p, 6);
            var task := OnWorker(Task(c.self, 2, 1), p);
            && CallsLead(c, Start(c), CallsTo(c.self, p, 5), before)
            && before.alive == {p} && before.world.slots[1] == task
            && Step(c, before.world, Reap(LastExit(p))) == before.world
            && CallsLead(c, Start(c), CallsTo(c.self, p, 6), after)
            && Signalled(after.world, IdOf(2, c.self)) == Some(p) && after.alive == {}
            && (Lawful(c, after, more)
                && (forall k :: 0 <= k < |more| && more[k].Cancel? ==> more[k].id != IdOf(2, c.self))
                ==> var v := Follow(c, after, more);
                    && |v.world.slots| == 3 && v.world.slots[1] == task
                    && v.alive == {} && !CanDispatch(c, v.world))
  {
    var after := Stage(c.self, p, 6);
    CallsLeadTo(c, p, 5);
    CallsLeadTo(c, p, 6);
    MissSteps(c, p);
    SecondTaskHeld(c, p);
    SlotCases(Busy, after.world.slots);
    assert Jammed(c, after);
    hide First, Count, CallsLead, CallsTo, IdOf, Fit, Step, Lawful, Follow, CanDispatch, Jammed, Signalled;
    if Lawful(c, after, more) && forall k :: 0 <= k < |more| && more[k].Cancel? ==> more[k].id != IdOf(2, c.self) {
      WorkerIsLost(c, after, more, IdOf(2, c.self));
    }
  }

  /** A cancellation of the second task finds slot 1, and signals p. */
  lemma SecondTaskHeld(c: Config, p: Pid)
    requires Fits(c, p)
    ensures forall k :: k == 6 || k == 8 ==>
              var w := Stage(c.self, p, k).world;
              First(Holding(IdOf(2, c.self)), w.slots) == 1 && Signalled(w, IdOf(2, c.self)) == Some(p)
  {
    IdInjective(1, 2, c.self, c.self);
    SlotCases(Holding(IdOf(2, c.self)), Stage(c.self, p, 6).world.slots);
    SlotCases(Holding(IdOf(2, c.self)), Stage(c.self, p, 8).world.slots);
    hide First, Count, IdOf, Fit;
  }

  /** A jam of one worker. */
  lemma WorkerIsLost(c: Config, m: Moment, more: seq<Event>, id: CString)
    requires Jammed(c, m) && Lawful(c, m, more) && |m.world.slots| == 3
    requires !Selects(Busy, m.world.slots[0]) && !Selects(Busy, m.world.slots[2])
    requires Selects(Busy, m.world.slots[1]) && m.world.slots[1].id == id
    requires forall k :: 0 <= k < |more| && more[k].Cancel? ==> more[k].id != id
    ensures var v := Follow(c, m, more);
            && |v.world.slots| == 3 && v.world.slots[1] == m.world.slots[1]
            && v.alive == {} && !CanDispatch(c, v.world)
  {
    hide Jammed, Lawful, Follow, CanDispatch;
    JamLasts(c, m, more);
  }

  /** With two workers or more the pid may come back a second time: after eight calls it is the
      child of the third task, and a cancellation of the second one signals that child. */
  lemma {:induction false} SignalGoesAstray(c: Config, p: Pid)
    requires Fits(c, p) && 2 <= c.maxWorkers
    ensures var m := Stage(c.self, p, 8);
            && CallsLead(c, Start(c), CallsTo(c.self, p, 8), m)
            && First(Holding(IdOf(2, c.self)), m.world.slots) == 1 && 1 in m.lost
            && Signalled(m.world, IdOf(2, c.self)) == Some(p)
            && Owns(m, 2) && m.world.slots[2] == OnWorker(Task(c.self, 3, 6), p) && m.alive == {p}
  {
    CallsLeadTo(c, p, 8);
    SecondTaskHeld(c, p);
    hide First, Count, CallsLead, CallsTo, IdOf, Fit;
  }
}
