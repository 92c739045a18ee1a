/** Runs made of the calls the program makes: submit, cancel and poll; and that they lead to
    identifiers and children without bound. */
module TaskCalls {
  import opened Wrappers
  import opened CText
  import opened TaskTable
  import opened Scheduler
  import opened TaskLedger
  import opened TaskProgress
  import opened TaskChildren

  // ----- Runs made of calls -----

  /** What the program calls: submit, cancel and poll. */
  datatype Call =
    | SubmitTask(kind: CString, params: Option<CString>, now: int)
    | CancelTask(id: CString, now: int)
    | PollOnce(input: PollInput)

  function CallEvents(c: Config, w: World, call: Call): seq<Event>
  {
    match call
    case SubmitTask(kind, params, now) => [Submit(kind, params, now)]
    case CancelTask(id, now) => [Cancel(id, now)]
    case PollOnce(input) => PollEvents(c, w, input)
  }

  function Events(c: Config, w: World, calls: seq<Call>): seq<Event>
    decreases |calls|
  {
    if calls == [] then []
    else
      var es := CallEvents(c, w, calls[0]);
      es + Events(c, Replay(c, w, es), calls[1..])
  }

  /** The calls lead lawfully from one moment to the other. */
  ghost predicate CallsLead(c: Config, m: Moment, calls: seq<Call>, v: Moment)
  {
    var es := Events(c, m.world, calls);
    Lawful(c, m, es) && Follow(c, m, es) == v
  }

  ghost predicate CallsLeadFresh(c: Config, m: Moment, calls: seq<Call>, v: Moment)
  {
    CallsLead(c, m, calls, v) && FreshForks(c, m.world, Events(c, m.world, calls))
  }

  lemma {:induction false} EventsAppend(c: Config, w: World, a: seq<Call>, b: seq<Call>)
    ensures Events(c, w, a + b) == Events(c, w, a) + Events(c, Replay(c, w, Events(c, w, a)), b)
    decreases |a|
  {
    hide CallEvents;
    if a == [] {
      assert a + b == b;
      assert [] + Events(c, w, b) == Events(c, w, b);
    } else {
      var es := CallEvents(c, w, a[0]);
      var v, rest := Replay(c, w, es), Events(c, Replay(c, w, es), a[1..]);
      assert (a + b)[0] == a[0] && (a + b)[1..] == a[1..] + b;
      EventsAppend(c, v, a[1..], b);
      ReplayAppend(c, w, es, rest);
      EventsJoin(es, rest, Events(c, Replay(c, v, rest), b));
    }
  }

  lemma EventsJoin(a: seq<Event>, b: seq<Event>, d: seq<Event>)
    ensures a + (b + d) == a + b + d
  {
  }

  lemma CallsLeadOn(c: Config, m: Moment, a: seq<Call>, v: Moment, b: seq<Call>, u: Moment)
    requires CallsLead(c, m, a, v) && CallsLead(c, v, b, u)
    ensures CallsLead(c, m, a + b, u)
    ensures CallsLeadFresh(c, m, a, v) && CallsLeadFresh(c, v, b, u) ==> CallsLeadFresh(c, m, a + b, u)
  {
    hide Events, Lawful, Follow, FreshForks, Replay;
    var es := Events(c, m.world, a);
    FollowIsReplay(c, m, es);
    EventsAppend(c, m.world, a, b);
    FollowAppend(c, m, es, Events(c, v.world, b));
  }

  /** One call, given its events. */
  lemma OneCall(c: Config, m: Moment, call: Call, es: seq<Event>)
    requires CallEvents(c, m.world, call) == es && Lawful(c, m, es)
    ensures CallsLead(c, m, [call], Follow(c, m, es))
    ensures FreshForks(c, m.world, es) ==> CallsLeadFresh(c, m, [call], Follow(c, m, es))
  {
    hide CallEvents, Lawful, Follow, FreshForks, Replay;
    assert [call][1..] == [];
    assert Events(c, m.world, [call]) == es + [] == es;
  }

  /** A poll with at most one exit and at most one fork that does anything. */
  lemma SmallPoll(c: Config, w: World, exits: seq<ChildExit>, forks: seq<Fork>, now: int)
    requires |exits| <= 1 && |forks| <= 1
    ensures var v := if exits == [] then w else Step(c, w, Reap(exits[0]));
            var d := Dispatch(NextFork(forks, now));
            && (!CanDispatch(c, v) ==> PollEvents(c, w, PollInput(exits, forks, now)) == Reaps(exits) + [Expire(now)])
            && (CanDispatch(c, v) && !CanDispatch(c, Step(c, v, d)) ==>
                  PollEvents(c, w, PollInput(exits, forks, now)) == Reaps(exits) + [d] + [Expire(now)])
  {
    var v := if exits == [] then w else Step(c, w, Reap(exits[0]));
    assert Replay(c, w, Reaps(exits)) == v by {
      hide Step, CanDispatch;
      if exits != [] {
        assert Reaps(exits)[1..] == [];
        assert Replay(c, v, []) == v;
      }
    }
    hide Step, CanDispatch, Replay;
    assert Reaps(exits) + [] + [Expire(now)] == Reaps(exits) + [Expire(now)];
    if CanDispatch(c, v) {
      DispatchesStep(c, v, forks, now);
    }
  }

  /** A list of one or two events. */
  lemma FollowTwo(c: Config, m: Moment, d: Event, e: Event)
    ensures Follow(c, m, [e]) == Next(c, m, e)
    ensures Lawful(c, m, [e]) <==> LawfulStep(c, m, e)
    ensures FreshForks(c, m.world, [e]) <==> FreshStep(c, m.world, e)
    ensures var v := Next(c, m, d);
            && Follow(c, m, [d, e]) == Next(c, v, e)
            && (Lawful(c, m, [d, e]) <==> LawfulStep(c, m, d) && LawfulStep(c, v, e))
            && (FreshForks(c, m.world, [d, e]) <==> FreshStep(c, m.world, d) && FreshStep(c, v.world, e))
  {
    var v := Next(c, m, d);
    hide Step, ForkedPid, Orphan, LostAfter, LawfulStep, FreshStep;
    assert [d, e][1..] == [e] && [e][1..] == [];
    assert Follow(c, v, [e]) == Follow(c, Next(c, v, e), []);
    assert Lawful(c, v, [e]) <==> LawfulStep(c, v, e);
    assert FreshForks(c, v.world, [e]) <==> FreshStep(c, v.world, e);
  }

  lemma ExpireIsLawful(c: Config, m: Moment, now: int)
    ensures LawfulStep(c, m, Expire(now)) && FreshStep(c, m.world, Expire(now))
  {
  }

  lemma NextWorld(c: Config, m: Moment, e: Event)
    ensures Next(c, m, e).world == Step(c, m.world, e)
  {
  }

  /** A poll without exits that dispatches one task. */
  lemma DispatchingPoll(c: Config, m: Moment, fork: Fork, now: int) returns (v: Moment)
    requires CanDispatch(c, m.world) && LawfulStep(c, m, Dispatch(fork))
    requires !CanDispatch(c, Next(c, m, Dispatch(fork)).world)
    ensures v == Next(c, Next(c, m, Dispatch(fork)), Expire(now))
    ensures CallsLead(c, m, [PollOnce(PollInput([], [fork], now))], v)
    ensures FreshStep(c, m.world, Dispatch(fork)) ==> CallsLeadFresh(c, m, [PollOnce(PollInput([], [fork], now))], v)
  {
    hide Step, CanDispatch, ForkedPid, Orphan, LostAfter, LawfulStep, FreshStep;
    hide PollEvents, Follow, Lawful, FreshForks, CallsLead;
    var d, e := Dispatch(fork), Expire(now);
    var u := Next(c, m, d);
    NextWorld(c, m, d);
    hide Next;
    v := Next(c, u, e);
    SmallPoll(c, m.world, [], [fork], now);
    assert Reaps([]) + [d] + [e] == [d, e];
    ExpireIsLawful(c, u, now);
    FollowTwo(c, m, d, e);
    OneCall(c, m, PollOnce(PollInput([], [fork], now)), [d, e]);
  }

  /** A poll with one exit that dispatches one task. */
  lemma ReapingPoll(c: Config, m: Moment, exit: ChildExit, fork: Fork, now: int) returns (v: Moment)
    requires LawfulStep(c, m, Reap(exit))
    requires var u := Next(c, m, Reap(exit));
             && CanDispatch(c, u.world) && LawfulStep(c, u, Dispatch(fork))
             && !CanDispatch(c, Next(c, u, Dispatch(fork)).world)
    ensures v == Next(c, Next(c, Next(c, m, Reap(exit)), Dispatch(fork)), Expire(now))
    ensures CallsLead(c, m, [PollOnce(PollInput([exit], [fork], now))], v)
  {
    hide Step, CanDispatch, ForkedPid, Orphan, LostAfter, LawfulStep, FreshStep;
    hide PollEvents, Follow, Lawful, FreshForks, CallsLead;
    var r, d, e := Reap(exit), Dispatch(fork), Expire(now);
    var u := Next(c, m, r);
    var x := Next(c, u, d);
    NextWorld(c, m, r);
    NextWorld(c, u, d);
    hide Next;
    v := Next(c, x, e);
    SmallPoll(c, m.world, [exit], [fork], now);
    assert Reaps([exit]) + [d] + [e] == [r] + [d, e];
    ExpireIsLawful(c, x, now);
    FollowTwo(c, m, r, r);
    FollowTwo(c, u, d, e);
    FollowAppend(c, m, [r], [d, e]);
    OneCall(c, m, PollOnce(PollInput([exit], [fork], now)), [r] + [d, e]);
  }

  lemma SameLost(lost: set<nat>, slots: seq<TaskItem>, e: Event)
    requires !e.Reap? && forall j :: j in lost ==> j < |slots| && Selects(Busy, slots[j])
    ensures LostAfter(lost, slots, e) == lost
  {
  }

  // ----- Children without bound -----

  /** The empty table with one task in slot 0. */
  function Solo(c: Config, t: TaskItem): seq<TaskItem>
    requires Sensible(c)
  {
    Init(c).slots[0 := t]
  }

  lemma SoloScans(c: Config, t: TaskItem, q: Query)
    requires Sensible(c) && q != Free
    ensures First(q, Solo(c, t)) == if Selects(q, t) then 0 else c.maxTasks
    ensures Count(q, Solo(c, t)) == if Selects(q, t) then 1 else 0
  {
    var empty := Init(c).slots;
    CountZero(q, empty);
    CountUpdate(q, empty, 0, t);
    FirstIs(q, Solo(c, t), if Selects(q, t) then 0 else c.maxTasks);
  }

  function RoundTask(c: Config, n: nat, fork: Fork): TaskItem
  {
    NewTask("analyze", None, IdOf(n % SEQ_LIMIT, c.self), fork.now)
  }

  /** A task is submitted, dispatched, cancelled, and 301 seconds later swept. */
  function Round(c: Config, n: nat, fork: Fork): seq<Call>
  {
    [SubmitTask("analyze", None, fork.now), PollOnce(PollInput([], [fork], fork.now))]
    + [CancelTask(IdOf(n % SEQ_LIMIT, c.self), fork.now), PollOnce(PollInput([], [], fork.now + 301))]
  }

  function PidOf(fork: Fork): set<int>
  {
    if fork.pid.Some? then {fork.pid.value} else {}
  }

  lemma RoundSubmits(c: Config, m: Moment, n: nat, fork: Fork) returns (v: Moment)
    requires Sensible(c) && m.world.slots == Init(c).slots && (m.world.seqNo + 1) % SEQ_LIMIT == n % SEQ_LIMIT
    requires m.lost == {}
    ensures v.lost == {}
    ensures CallsLeadFresh(c, m, [SubmitTask("analyze", None, fork.now)], v)
    ensures v.world.slots == Solo(c, RoundTask(c, n, fork)) && v.world.seqNo == n % SEQ_LIMIT
    ensures |v.world.issued| == |m.world.issued| + 1 && v.alive == m.alive && v.orphans == m.orphans
  {
    var e := Submit("analyze", None, fork.now);
    v := Next(c, m, e);
    FirstIs(Free, m.world.slots, 0);
    SameLost({}, v.world.slots, e);
    assert v.world.slots == Solo(c, RoundTask(c, n, fork));
    assert LawfulStep(c, m, e) && FreshStep(c, m.world, e);
    hide Step, LawfulStep, FreshStep, First, IdOf, NewTask;
    FollowTwo(c, m, e, e);
    OneCall(c, m, SubmitTask("analyze", None, fork.now), [e]);
  }

  lemma RoundDispatches(c: Config, m: Moment, n: nat, fork: Fork) returns (v: Moment)
    requires Sensible(c) && m.world.slots == Solo(c, RoundTask(c, n, fork)) && 0 < fork.now
    requires PidOf(fork) !! m.alive && PidOf(fork) !! {1, c.self} && m.lost == {}
    ensures v.lost == {}
    ensures CallsLeadFresh(c, m, [PollOnce(PollInput([], [fork], fork.now))], v)
    ensures v.world.slots == Solo(c, Spawned(RoundTask(c, n, fork), fork)) && v.world.seqNo == m.world.seqNo
    ensures v.world.issued == m.world.issued && v.alive == m.alive + PidOf(fork) && v.orphans == m.orphans
  {
    var t := RoundTask(c, n, fork);
    var d := Dispatch(fork);
    SoloScans(c, t, Waiting);
    SoloScans(c, t, Busy);
    SoloScans(c, Spawned(t, fork), Waiting);
    if fork.pid.Some? {
      SoloScans(c, t, Worker(fork.pid.value));
    }
    hide First, Count, IdOf;
    assert CanDispatch(c, m.world) && HasHandler(t.kind) && Selects(Waiting, t);
    var u := Next(c, m, d);
    SameLost({}, u.world.slots, d);
    SameLost({}, u.world.slots, Expire(fork.now));
    assert u.world.slots == Solo(c, Spawned(t, fork));
    assert !CanDispatch(c, u.world);
    assert LawfulStep(c, m, d) && FreshStep(c, m.world, d);
    assert u.alive == m.alive + PidOf(fork) && u.orphans == m.orphans;
    assert !Stale(Spawned(t, fork), fork.now);
    assert Swept(u.world.slots, fork.now) == u.world.slots;
    hide CanDispatch, LawfulStep, FreshStep, NewTask, Fit, CallsLeadFresh;
    v := DispatchingPoll(c, m, fork, fork.now);
  }

  lemma RoundCancels(c: Config, m: Moment, n: nat, fork: Fork) returns (v: Moment)
    requires Sensible(c) && m.world.slots == Solo(c, Spawned(RoundTask(c, n, fork), fork)) && m.lost == {}
    ensures v.lost == {}
    ensures CallsLeadFresh(c, m, [CancelTask(IdOf(n % SEQ_LIMIT, c.self), fork.now)], v)
    ensures var t := Spawned(RoundTask(c, n, fork), fork);
            v.world.slots == Solo(c, t.(status := Cancelled, completedAt := fork.now))
    ensures v.world.seqNo == m.world.seqNo && v.world.issued == m.world.issued
    ensures v.alive == m.alive && v.orphans == m.orphans + PidOf(fork)
  {
    var t, id := Spawned(RoundTask(c, n, fork), fork), IdOf(n % SEQ_LIMIT, c.self);
    var e := Cancel(id, fork.now);
    v := Next(c, m, e);
    SoloScans(c, t, Holding(id));
    SameLost({}, v.world.slots, e);
    hide First, IdOf, Count;
    assert Selects(Holding(id), t);
    assert t.status == Running <==> fork.pid.Some?;
    assert LawfulStep(c, m, e) && FreshStep(c, m.world, e);
    assert v.world.slots == Solo(c, t.(status := Cancelled, completedAt := fork.now));
    hide Step, LawfulStep, FreshStep, NewTask, Spawned;
    FollowTwo(c, m, e, e);
    OneCall(c, m, CancelTask(id, fork.now), [e]);
  }

  lemma RoundSweeps(c: Config, m: Moment, t: TaskItem, now: int) returns (v: Moment)
    requires Sensible(c) && m.world.slots == Solo(c, t) && t.inUse && t.status == Cancelled && m.lost == {}
    ensures v.lost == {}
    requires 0 < t.completedAt == now - 301
    ensures CallsLeadFresh(c, m, [PollOnce(PollInput([], [], now))], v)
    ensures v.world.slots == Init(c).slots && v.world.seqNo == m.world.seqNo
    ensures v.world.issued == m.world.issued && v.alive == m.alive && v.orphans == m.orphans
  {
    var e := Expire(now);
    v := Next(c, m, e);
    SoloScans(c, t, Waiting);
    assert !CanDispatch(c, m.world);
    SameLost({}, v.world.slots, e);
    assert Swept(Solo(c, t), now) == Init(c).slots;
    assert LawfulStep(c, m, e) && FreshStep(c, m.world, e);
    hide CanDispatch, LawfulStep, FreshStep, Step;
    SmallPoll(c, m.world, [], [], now);
    assert Reaps([]) + [e] == [e];
    FollowTwo(c, m, e, e);
    OneCall(c, m, PollOnce(PollInput([], [], now)), [e]);
  }

  /** A round leaves the table empty and its child, if any, an orphan. */
  lemma RoundLeads(c: Config, m: Moment, n: nat, fork: Fork) returns (v: Moment)
    requires Sensible(c) && m.world.slots == Init(c).slots && (m.world.seqNo + 1) % SEQ_LIMIT == n % SEQ_LIMIT
    requires 0 < fork.now && PidOf(fork) !! m.alive && PidOf(fork) !! {1, c.self} && m.lost == {}
    ensures v.lost == {}
    ensures CallsLeadFresh(c, m, Round(c, n, fork), v)
    ensures v.world.slots == Init(c).slots && v.world.seqNo == n % SEQ_LIMIT
    ensures |v.world.issued| == |m.world.issued| + 1
    ensures v.alive == m.alive + PidOf(fork) && v.orphans == m.orphans + PidOf(fork)
  {
    hide CallsLead, CallsLeadFresh, Solo, IdOf, Init;
    var a := RoundSubmits(c, m, n, fork);
    var b := RoundDispatches(c, a, n, fork);
    var d := RoundCancels(c, b, n, fork);
    var t := Spawned(RoundTask(c, n, fork), fork).(status := Cancelled, completedAt := fork.now);
    v := RoundSweeps(c, d, t, fork.now + 301);
    hide Spawned, RoundTask;
    var submit, first := SubmitTask("analyze", None, fork.now), PollOnce(PollInput([], [fork], fork.now));
    var cancel := CancelTask(IdOf(n % SEQ_LIMIT, c.self), fork.now);
    var last := PollOnce(PollInput([], [], fork.now + 301));
    CallsLeadFreshOn(c, m, [submit], a, [first], b);
    CallsLeadFreshOn(c, b, [cancel], d, [last], v);
    assert [submit] + [first] == [submit, first] && [cancel] + [last] == [cancel, last];
    CallsLeadFreshOn(c, m, [submit, first], b, [cancel, last], v);
  }

  lemma CallsLeadFreshOn(c: Config, m: Moment, a: seq<Call>, v: Moment, b: seq<Call>, u: Moment)
    requires CallsLeadFresh(c, m, a, v) && CallsLeadFresh(c, v, b, u)
    ensures CallsLeadFresh(c, m, a + b, u)
  {
    CallsLeadOn(c, m, a, v, b, u);
  }

  function Rounds(c: Config, forks: seq<Fork>): seq<Call>
  {
    if forks == [] then []
    else Rounds(c, forks[..|forks| - 1]) + Round(c, |forks|, forks[|forks| - 1])
  }

  /** The pids of the forks that succeed. */
  function PidsOf(forks: seq<Fork>): set<int>
  {
    if forks == [] then {} else PidsOf(forks[..|forks| - 1]) + PidOf(forks[|forks| - 1])
  }

  /** Forks at positive times that return each pid once, and neither the caller's nor 1. */
  ghost predicate Separate(c: Config, forks: seq<Fork>)
  {
    forks != [] ==>
      var init, last := forks[..|forks| - 1], forks[|forks| - 1];
      0 < last.now && PidOf(last) !! PidsOf(init) && PidOf(last) !! {1, c.self} && Separate(c, init)
  }

  lemma {:induction false} RoundsLead(c: Config, forks: seq<Fork>) returns (v: Moment)
    requires Sensible(c) && Separate(c, forks)
    ensures CallsLeadFresh(c, Start(c), Rounds(c, forks), v)
    ensures v.world.slots == Init(c).slots && v.world.seqNo == |forks| % SEQ_LIMIT
    ensures |v.world.issued| == |forks| && v.alive == PidsOf(forks) && v.orphans == PidsOf(forks)
    ensures v.lost == {}
  {
    if forks == [] {
      v := Start(c);
    } else {
      hide CallsLeadFresh, CallsLead, Round, Init;
      var init, last := forks[..|forks| - 1], forks[|forks| - 1];
      var u := RoundsLead(c, init);
      NextNumber(|init|);
      v := RoundLeads(c, u, |forks|, last);
      CallsLeadFreshOn(c, Start(c), Rounds(c, init), u, Round(c, |forks|, last), v);
    }
  }

  /** The most children there can be: every pid from 2 on but the caller's. */
  const MOST_CHILDREN := 0x8000_0000 - 3

  /** The n-th pid from 2 on that is not the caller's. */
  function NthPid(self: Pid, n: nat): Pid
    requires 0 < n <= MOST_CHILDREN
  {
    if n + 1 < self then n + 1 else n + 2
  }

  /** n forks that return the first n pids there are, or all fail. */
  function Forks(self: Pid, n: nat, succeed: bool): seq<Fork>
    requires succeed ==> n <= MOST_CHILDREN
  {
    if n == 0 then []
    else Forks(self, n - 1, succeed) + [Fork(if succeed then Some(NthPid(self, n)) else None, 302 * n)]
  }

  lemma {:induction false} ForksAre(c: Config, n: nat, succeed: bool)
    requires succeed ==> n <= MOST_CHILDREN
    ensures |Forks(c.self, n, succeed)| == n && Separate(c, Forks(c.self, n, succeed))
    ensures forall p :: p in PidsOf(Forks(c.self, n, succeed)) ==> succeed && 0 < n && 1 < p <= NthPid(c.self, n)
    ensures |PidsOf(Forks(c.self, n, succeed))| == if succeed then n else 0
  {
    if n > 0 {
      ForksAre(c, n - 1, succeed);
      var forks, init := Forks(c.self, n, succeed), Forks(c.self, n - 1, succeed);
      assert forks[..|forks| - 1] == init;
      if succeed {
        NthPidGrows(c.self, n);
        hide Forks;
        assert PidsOf(forks) == PidsOf(init) + {NthPid(c.self, n)};
      }
    }
  }

  lemma NthPidGrows(self: Pid, n: nat)
    requires 0 < n <= MOST_CHILDREN
    ensures 1 < NthPid(self, n) != self && (1 < n ==> NthPid(self, n - 1) < NthPid(self, n))
  {
  }

  /** No number of workers bounds the children: for every configuration, and every n up to the
      number of pids there are, calls of submit, cancel and poll lead, lawfully and with fresh
      forks, to n children alive, all of them left behind by cancelled tasks, and an empty
      table. */
  lemma {:induction false} ChildrenUnbounded(c: Config, n: nat)
    requires Sensible(c) && n <= MOST_CHILDREN
    ensures exists calls, v ::
              CallsLeadFresh(c, Start(c), calls, v) && |v.alive| == n && v.orphans == v.alive
              && v.world.slots == Init(c).slots
  {
    ForksAre(c, n, true);
    var v := RoundsLead(c, Forks(c.self, n, true));
    hide CallsLeadFresh, Init;
    assert CallsLeadFresh(c, Start(c), Rounds(c, Forks(c.self, n, true)), v);
  }

  /** Any number of identifiers is issued by some calls of submit, cancel and poll, and they
      are distinct exactly up to 2^32. */
  lemma {:induction false} IssuedUnbounded(c: Config, n: nat)
    requires Sensible(c)
    ensures exists calls, v ::
              && CallsLeadFresh(c, Start(c), calls, v) && |v.world.issued| == n
              && ((forall i, j :: 0 <= i < j < n ==> v.world.issued[i] != v.world.issued[j]) <==> n <= SEQ_LIMIT)
  {
    ForksAre(c, n, false);
    var calls := Rounds(c, Forks(c.self, n, false));
    var v := RoundsLead(c, Forks(c.self, n, false));
    var es := Events(c, Init(c), calls);
    InitHasInv(c);
    FollowIsReplay(c, Start(c), es);
    ReplayKeepsInv(c, Init(c), es);
    UniqueIff(c, v.world);
    hide Init;
    assert CallsLeadFresh(c, Start(c), calls, v);
  }
}
