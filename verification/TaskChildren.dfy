/** The processes behind the slots: how many children live, who is signalled, and what happens
    when a pid comes back. */
module TaskChildren {
  import opened Wrappers
  import opened CText
  import opened TaskTable
  import opened Scheduler
  import opened TaskLedger
  import opened TaskProgress

  /** The table, the children forked and not yet reported by `waitpid`, those among them whose
      running task was cancelled, and the running slots whose own child was reported in vain. */
  datatype Moment = Moment(world: World, alive: set<int>, orphans: set<int>, lost: set<nat>)

  function Start(c: Config): Moment
  {
    Moment(Init(c), {}, {}, {})
  }

  /** The pid a cancellation sends SIGTERM to. */
  function Signalled(w: World, id: CString): Option<int>
  {
    var i := First(Holding(id), w.slots);
    if i < |w.slots| && w.slots[i].status == Running && 0 < w.slots[i].workerPid
    then Some(w.slots[i].workerPid) else None
  }

  /** The pid a cancellation leaves without a slot, if that slot's child is still to report. */
  function Orphan(m: Moment, e: Event): set<int>
  {
    if e.Cancel? && Signalled(m.world, e.id).Some? && First(Holding(e.id), m.world.slots) !in m.lost
    then {Signalled(m.world, e.id).value} else {}
  }

  /** A slot is lost when it goes on running although its pid is reported. */
  function LostAfter(lost: set<nat>, slots: seq<TaskItem>, e: Event): set<nat>
  {
    set j: nat | j < |slots| && Selects(Busy, slots[j])
                 && (j in lost || (e.Reap? && slots[j].workerPid == e.exit.pid))
  }

  function Next(c: Config, m: Moment, e: Event): Moment
  {
    var w, forked := Step(c, m.world, e), ForkedPid(c, m.world, e);
    var lost := LostAfter(m.lost, w.slots, e);
    if e.Reap? then Moment(w, m.alive - {e.exit.pid}, m.orphans - {e.exit.pid}, lost)
    else if forked.Some? then Moment(w, m.alive + {forked.value}, m.orphans, lost)
    else Moment(w, m.alive, m.orphans + Orphan(m, e), lost)
  }

  function Follow(c: Config, m: Moment, es: seq<Event>): Moment
    decreases es
  {
    if es == [] then m else Follow(c, Next(c, m, es[0]), es[1..])
  }

  /** What the system guarantees: `fork` returns neither the caller's pid, nor 1, nor that of
      an unreported child, and `waitpid` reports only such a child. The program's other
      children are waited for by pid before anything else happens. */
  predicate LawfulStep(c: Config, m: Moment, e: Event)
  {
    var forked := ForkedPid(c, m.world, e);
    && (e.Reap? ==> e.exit.pid in m.alive)
    && (forked.Some? ==> forked.value !in m.alive && 1 < forked.value != c.self)
  }

  ghost predicate Lawful(c: Config, m: Moment, es: seq<Event>)
    decreases es
  {
    es != [] ==> LawfulStep(c, m, es[0]) && Lawful(c, Next(c, m, es[0]), es[1..])
  }

  lemma {:induction false} FollowIsReplay(c: Config, m: Moment, es: seq<Event>)
    ensures Follow(c, m, es).world == Replay(c, m.world, es)
    decreases es
  {
    if es != [] {
      hide Step, ForkedPid, Orphan, LostAfter;
      FollowIsReplay(c, Next(c, m, es[0]), es[1..]);
    }
  }

  lemma {:induction false} FollowAppend(c: Config, m: Moment, a: seq<Event>, b: seq<Event>)
    ensures Follow(c, m, a + b) == Follow(c, Follow(c, m, a), b)
    ensures Lawful(c, m, a) && Lawful(c, Follow(c, m, a), b) ==> Lawful(c, m, a + b)
    ensures FreshForks(c, m.world, a) && FreshForks(c, Follow(c, m, a).world, b)
        ==> FreshForks(c, m.world, a + b)
    decreases a
  {
    hide Step, ForkedPid, Orphan, LostAfter, LawfulStep, FreshStep;
    if a == [] {
      assert a + b == b;
    } else {
      assert (a + b)[0] == a[0] && (a + b)[1..] == a[1..] + b;
      FollowAppend(c, Next(c, m, a[0]), a[1..], b);
    }
  }

  // ----- Whose child is alive -----

  /** The slot runs, and its own child was not reported since it was dispatched. */
  predicate Owns(m: Moment, j: nat)
  {
    j < |m.world.slots| && Selects(Busy, m.world.slots[j]) && j !in m.lost
  }

  /** Every child alive belongs to a running task or was left behind by a cancelled one. */
  ghost predicate Accounted(m: Moment)
  {
    && (forall j :: j in m.lost ==> j < |m.world.slots| && Selects(Busy, m.world.slots[j]))
    && forall p :: p in m.alive ==> p in m.orphans || exists j: nat :: Owns(m, j) && m.world.slots[j].workerPid == p
  }

  /** The owners' children are alive, each its own, and no orphans; orphans are alive. */
  ghost predicate Apart(m: Moment)
  {
    && m.orphans <= m.alive
    && (forall j: nat :: Owns(m, j) ==>
          m.world.slots[j].workerPid in m.alive && m.world.slots[j].workerPid !in m.orphans)
    && (forall i: nat, j: nat :: Owns(m, i) && Owns(m, j) && i != j ==>
          m.world.slots[i].workerPid != m.world.slots[j].workerPid)
  }

  /** The slot a step rewrites, if any, and what it puts there. */
  function Rewritten(c: Config, w: World, e: Event): Option<nat>
  {
    var i := match e
             case Submit(kind, _, _) => if kind == "" then |w.slots| else First(Free, w.slots)
             case Reap(exit) =>
               var f := First(Worker(exit.pid), w.slots);
               if f < |w.slots| && w.slots[f].status == Running then f else |w.slots|
             case Dispatch(_) => if CanDispatch(c, w) then First(Waiting, w.slots) else |w.slots|
             case Expire(_) => |w.slots|
             case Cancel(id, _) => First(Holding(id), w.slots);
    if i < |w.slots| then Some(i) else None
  }

  lemma StepRewrites(c: Config, w: World, e: Event)
    ensures var i := Rewritten(c, w, e); var v := Step(c, w, e);
            && |v.slots| == |w.slots|
            && (i.Some? ==> i.value < |w.slots| && v.slots == w.slots[i.value := v.slots[i.value]])
            && (i.None? && !e.Expire? ==> v.slots == w.slots)
  {
  }

  /** An owner behind a step was one before it, or has just been dispatched. */
  lemma OwnerBefore(c: Config, m: Moment, e: Event, j: nat)
    requires Owns(Next(c, m, e), j)
    ensures var after := Next(c, m, e);
            j < |m.world.slots|
            && (|| (&& ForkedPid(c, m.world, e).Some? && j == First(Waiting, m.world.slots)
                    && after.world.slots[j].workerPid == ForkedPid(c, m.world, e).value)
                || (&& Owns(m, j) && after.world.slots[j] == m.world.slots[j]
                    && (e.Reap? ==> m.world.slots[j].workerPid != e.exit.pid)
                    && (e.Cancel? ==> j != First(Holding(e.id), m.world.slots))))
  {
    StepRewrites(c, m.world, e);
    hide First, Count, Fit, IdOf;
  }

  /** An owner stays one, unless its child is reported or its task cancelled. */
  lemma OwnerAfter(c: Config, m: Moment, e: Event, j: nat)
    requires Inv(c, m.world) && Owns(m, j)
    ensures var after, p := Next(c, m, e), m.world.slots[j].workerPid;
            || (Owns(after, j) && after.world.slots[j] == m.world.slots[j])
            || (e.Reap? && p == e.exit.pid)
            || (e.Cancel? && Orphan(m, e) == {p})
  {
    StepRewrites(c, m.world, e);
    hide First, Count, Fit, IdOf;
  }

  lemma DispatchedOwns(c: Config, m: Moment, e: Event)
    requires Accounted(m) && ForkedPid(c, m.world, e).Some?
    ensures var j, after := First(Waiting, m.world.slots), Next(c, m, e);
            Owns(after, j) && after.world.slots[j].workerPid == ForkedPid(c, m.world, e).value
  {
    var j := First(Waiting, m.world.slots);
    assert !Selects(Busy, m.world.slots[j]);
    hide First, Count, Fit, IdOf;
  }

  lemma StepKeepsAccounted(c: Config, m: Moment, e: Event)
    requires Inv(c, m.world) && Accounted(m)
    ensures Accounted(Next(c, m, e))
  {
    var after := Next(c, m, e);
    forall p | p in after.alive
      ensures p in after.orphans || exists j: nat :: Owns(after, j) && after.world.slots[j].workerPid == p
    {
      if ForkedPid(c, m.world, e) == Some(p) {
        DispatchedOwns(c, m, e);
      } else {
        hide Step, ForkedPid, LostAfter, Orphan, Inv;
        assert p in m.alive && (e.Reap? ==> p != e.exit.pid);
        if p !in m.orphans {
          var j: nat :| Owns(m, j) && m.world.slots[j].workerPid == p;
          OwnerAfter(c, m, e, j);
        }
      }
    }
  }

  lemma OrphanIsOwned(m: Moment, e: Event)
    ensures Orphan(m, e) != {} ==>
              e.Cancel? &&
              var j := First(Holding(e.id), m.world.slots);
              Owns(m, j) && Orphan(m, e) == {m.world.slots[j].workerPid}
  {
  }

  lemma OrphansStayAlive(c: Config, m: Moment, e: Event)
    requires Apart(m)
    ensures Next(c, m, e).orphans <= Next(c, m, e).alive
  {
    OrphanIsOwned(m, e);
    hide Step, LostAfter, Orphan, Owns;
  }

  lemma StepKeepsApart(c: Config, m: Moment, e: Event)
    requires Apart(m) && LawfulStep(c, m, e)
    ensures Apart(Next(c, m, e))
  {
    var after := Next(c, m, e);
    OrphansStayAlive(c, m, e);
    forall j: nat | Owns(after, j)
      ensures after.world.slots[j].workerPid in after.alive && after.world.slots[j].workerPid !in after.orphans
    {
      OwnerStaysApart(c, m, e, j);
    }
    forall i: nat, j: nat | Owns(after, i) && Owns(after, j) && i != j
      ensures after.world.slots[i].workerPid != after.world.slots[j].workerPid
    {
      OwnerBefore(c, m, e, i);
      OwnerBefore(c, m, e, j);
      hide Step, LostAfter, Orphan, Owns, ForkedPid;
    }
  }

  lemma OwnerStaysApart(c: Config, m: Moment, e: Event, j: nat)
    requires Apart(m) && LawfulStep(c, m, e) && Owns(Next(c, m, e), j)
    ensures var after := Next(c, m, e);
            after.world.slots[j].workerPid in after.alive && after.world.slots[j].workerPid !in after.orphans
  {
    OwnerBefore(c, m, e, j);
    OrphanIsOwned(m, e);
    hide Step, LostAfter, Orphan, Owns, First;
  }

  lemma {:induction false} FollowKeepsAccounted(c: Config, m: Moment, es: seq<Event>)
    requires Inv(c, m.world) && Accounted(m)
    ensures Accounted(Follow(c, m, es)) && Inv(c, Follow(c, m, es).world)
    ensures Lawful(c, m, es) && Apart(m) ==> Apart(Follow(c, m, es))
    decreases es
  {
    if es != [] {
      StepKeepsAccounted(c, m, es[0]);
      StepKeepsInv(c, m.world, es[0]);
      if Lawful(c, m, es) && Apart(m) {
        StepKeepsApart(c, m, es[0]);
      }
      hide Step, Inv, Accounted, Apart, ForkedPid, Orphan, LostAfter, LawfulStep;
      FollowKeepsAccounted(c, Next(c, m, es[0]), es[1..]);
    }
  }

  lemma RunsAreAccounted(c: Config, es: seq<Event>)
    ensures var m := Follow(c, Start(c), es);
            Accounted(m) && Inv(c, m.world) && (Lawful(c, Start(c), es) ==> Apart(m))
  {
    InitHasInv(c);
    assert Accounted(Start(c)) && Apart(Start(c));
    hide Accounted, Apart, Inv;
    FollowKeepsAccounted(c, Start(c), es);
  }

  // ----- How many children -----

  function BusySlots(slots: seq<TaskItem>): set<nat>
  {
    set j: nat | j < |slots| && Selects(Busy, slots[j])
  }

  lemma {:induction false} BusySlotsCount(slots: seq<TaskItem>)
    ensures |BusySlots(slots)| == Count(Busy, slots)
    decreases |slots|
  {
    if slots == [] {
      assert BusySlots(slots) == {};
    } else {
      var init, last := slots[..|slots| - 1], slots[|slots| - 1];
      BusySlotsCount(init);
      assert slots == init + [last];
      CountAppend(Busy, init, [last]);
      assert Count(Busy, [last]) == if Selects(Busy, last) then 1 else 0;
      assert BusySlots(slots) == BusySlots(init) + if Selects(Busy, last) then {|slots| - 1} else {};
    }
  }

  function PidsAt(slots: seq<TaskItem>, at: set<nat>): set<int>
    requires forall j :: j in at ==> j < |slots|
  {
    set j | j in at :: slots[j].workerPid
  }

  lemma {:induction false} PidsAtCount(slots: seq<TaskItem>, at: set<nat>)
    requires forall j :: j in at ==> j < |slots|
    ensures |PidsAt(slots, at)| <= |at|
    ensures (forall i, j :: i in at && j in at && i != j ==> slots[i].workerPid != slots[j].workerPid)
        ==> |PidsAt(slots, at)| == |at|
    decreases |at|
  {
    if j :| j in at {
      var rest := at - {j};
      PidsAtCount(slots, rest);
      assert PidsAt(slots, at) == PidsAt(slots, rest) + {slots[j].workerPid};
    } else {
      assert PidsAt(slots, at) == {};
    }
  }

  lemma OwnersCount(m: Moment)
    requires Accounted(m)
    ensures var owners := BusySlots(m.world.slots) - m.lost;
            && |owners| + |m.lost| == Count(Busy, m.world.slots)
            && forall j: nat :: j in owners <==> Owns(m, j)
  {
    BusySlotsCount(m.world.slots);
    SizeOfPart(m.lost, BusySlots(m.world.slots));
  }

  lemma SizeOfPart(part: set<nat>, whole: set<nat>)
    requires part <= whole
    ensures |whole - part| + |part| == |whole|
  {
    assert (whole - part) + part == whole;
  }

  lemma AtMostUnion(a: set<int>, b: set<int>, c: set<int>)
    requires a <= b + c
    ensures |a| <= |b| + |c|
    ensures a == b + c && b !! c ==> |a| == |b| + |c|
  {
    SizeOfSubset(a, b + c);
    assert |b + c| == |b| + |c| - |b * c|;
  }

  lemma {:induction false} SizeOfSubset<T>(a: set<T>, b: set<T>)
    requires a <= b
    ensures |a| <= |b|
  {
    if a != {} {
      var x :| x in a;
      SizeOfSubset(a - {x}, b - {x});
    }
  }

  /** In every run: the children alive are at most the running tasks that are not lost and the
      unreported children of tasks cancelled while they ran. In every lawful run they are
      exactly as many. */
  lemma {:induction false} ChildrenCount(c: Config, es: seq<Event>)
    ensures var m := Follow(c, Start(c), es);
            && |m.alive| + |m.lost| <= Count(Busy, m.world.slots) + |m.orphans| <= c.maxWorkers + |m.orphans|
            && (Lawful(c, Start(c), es) ==>
                  && |m.alive| + |m.lost| == Count(Busy, m.world.slots) + |m.orphans|
                  && (|m.alive| <= c.maxWorkers <==>
                        Count(Busy, m.world.slots) - |m.lost| + |m.orphans| <= c.maxWorkers))
  {
    var m := Follow(c, Start(c), es);
    RunsAreAccounted(c, es);
    assert Count(Busy, m.world.slots) <= c.maxWorkers;
    hide Inv, Follow, Lawful;
    MomentCount(m);
  }

  lemma {:induction false} MomentCount(m: Moment)
    requires Accounted(m)
    ensures |m.alive| + |m.lost| <= Count(Busy, m.world.slots) + |m.orphans|
    ensures Apart(m) ==> |m.alive| + |m.lost| == Count(Busy, m.world.slots) + |m.orphans|
  {
    var owners := BusySlots(m.world.slots) - m.lost;
    var pids := PidsAt(m.world.slots, owners);
    OwnersCount(m);
    PidsAtCount(m.world.slots, owners);
    hide Count, BusySlots, Owns;
    forall p | p in m.alive ensures p in m.orphans + pids {
    }
    if Apart(m) {
      assert m.alive == m.orphans + pids && m.orphans !! pids;
    }
    AtMostUnion(m.alive, m.orphans, pids);
  }

  // ----- Who is signalled -----

  /** When the pid that is sent SIGTERM is a living child, in every lawful run: exactly when the
      cancelled slot is not lost, or the system has given the pid to a child of another task
      since. A slot that is not lost shares its child with no other task. */
  lemma {:induction false} SignalledIff(c: Config, es: seq<Event>, id: CString)
    requires Lawful(c, Start(c), es) && Signalled(Follow(c, Start(c), es).world, id).Some?
    ensures var m := Follow(c, Start(c), es);
            var i, p := First(Holding(id), m.world.slots), Signalled(m.world, id).value;
            && (i !in m.lost ==>
                  && p in m.alive && p !in m.orphans
                  && forall j: nat :: Owns(m, j) && m.world.slots[j].workerPid == p ==> j == i)
            && (p in m.alive <==>
                  || i !in m.lost || p in m.orphans
                  || exists j: nat :: j != i && Owns(m, j) && m.world.slots[j].workerPid == p)
  {
    var m := Follow(c, Start(c), es);
    RunsAreAccounted(c, es);
    hide Follow, Lawful, Inv;
    var i := First(Holding(id), m.world.slots);
    assert i !in m.lost ==> Owns(m, i);
  }

  /** A running slot is lost exactly when its child is reported while a lower slot in use
      records the pid. */
  lemma LostWhen(c: Config, m: Moment, exit: ChildExit, j: nat)
    requires j < |m.world.slots| && Selects(Busy, m.world.slots[j]) && m.world.slots[j].workerPid == exit.pid
    ensures j in Next(c, m, Reap(exit)).lost
       <==> exists k :: 0 <= k < j && m.world.slots[k].inUse && m.world.slots[k].workerPid == exit.pid
  {
    ReapLandsIff(c, m.world, j, exit);
    StepRewrites(c, m.world, Reap(exit));
    hide First;
  }

  /** With distinct pids the exit of a running task's child is no other slot's. */
  lemma ReapTakesRunner(c: Config, w: World, exit: ChildExit)
    requires DistinctPids(w.slots)
    ensures forall k :: 0 <= k < |w.slots| && Selects(Busy, w.slots[k]) && w.slots[k].workerPid == exit.pid ==>
              Rewritten(c, w, Reap(exit)) == Some(k)
  {
    forall k | 0 <= k < |w.slots| && Selects(Busy, w.slots[k]) && w.slots[k].workerPid == exit.pid
      ensures Rewritten(c, w, Reap(exit)) == Some(k)
    {
      FirstIs(Worker(exit.pid), w.slots, k);
    }
  }

  lemma NoneLost(c: Config, m: Moment, e: Event)
    requires m.lost == {} && DistinctPids(m.world.slots)
    ensures Next(c, m, e).lost == {}
  {
    if e.Reap? {
      ReapTakesRunner(c, m.world, e.exit);
      StepRewrites(c, m.world, e);
      hide First;
    }
  }

  lemma {:induction false} FollowLosesNone(c: Config, m: Moment, es: seq<Event>)
    requires m.lost == {} && DistinctPids(m.world.slots) && FreshForks(c, m.world, es)
    ensures Follow(c, m, es).lost == {} && DistinctPids(Follow(c, m, es).world.slots)
    decreases es
  {
    if es != [] {
      NoneLost(c, m, es[0]);
      StepKeepsPids(c, m.world, es[0]);
      hide Step, ForkedPid, Orphan, LostAfter, DistinctPids, FreshStep;
      FollowLosesNone(c, Next(c, m, es[0]), es[1..]);
    }
  }

  /** With fresh forks no slot is ever lost; so in lawful runs who is sent SIGTERM is alive, and
      no orphan yet. */
  lemma {:induction false} SignalledIsAlive(c: Config, es: seq<Event>)
    requires FreshForks(c, Init(c), es)
    ensures var m := Follow(c, Start(c), es);
            && m.lost == {}
            && (Lawful(c, Start(c), es) ==> forall id: CString :: Signalled(m.world, id).Some? ==>
                  Signalled(m.world, id).value in m.alive - m.orphans)
  {
    var m := Follow(c, Start(c), es);
    FollowLosesNone(c, Start(c), es);
    hide Follow, Lawful, FreshForks;
    if Lawful(c, Start(c), es) {
      forall id: CString | Signalled(m.world, id).Some?
        ensures Signalled(m.world, id).value in m.alive - m.orphans
      {
        SignalledIff(c, es, id);
      }
    }
  }

  // ----- When forks are fresh -----

  /** Along the run no cancellation signals anybody. */
  ghost predicate NoneSignalled(c: Config, w: World, es: seq<Event>)
    decreases es
  {
    es != [] ==> (es[0].Cancel? ==> Signalled(w, es[0].id).None?) && NoneSignalled(c, Step(c, w, es[0]), es[1..])
  }

  /** A slot in use that records a pid is running, and its child is not yet reported. */
  predicate PidsAlive(slots: seq<TaskItem>, alive: set<int>)
  {
    forall i :: 0 <= i < |slots| && slots[i].inUse && slots[i].workerPid != 0
      ==> slots[i].status == Running && 0 < slots[i].workerPid && slots[i].workerPid in alive
  }

  lemma StepKeepsPidsAlive(c: Config, m: Moment, e: Event)
    requires DistinctPids(m.world.slots) && PidsAlive(m.world.slots, m.alive) && LawfulStep(c, m, e)
    requires e.Cancel? ==> Signalled(m.world, e.id).None?
    ensures FreshStep(c, m.world, e)
    ensures PidsAlive(Next(c, m, e).world.slots, Next(c, m, e).alive)
  {
    var forked := ForkedPid(c, m.world, e);
    if forked.Some? {
      FirstIs(Worker(forked.value), m.world.slots, |m.world.slots|);
    }
    StepRewrites(c, m.world, e);
    if e.Reap? {
      ReapTakesRunner(c, m.world, e.exit);
    }
    hide First, Count, Fit, IdOf, LostAfter, Orphan, DistinctPids, Swept;
  }

  lemma {:induction false} LawfulIsFresh(c: Config, m: Moment, es: seq<Event>)
    requires DistinctPids(m.world.slots) && PidsAlive(m.world.slots, m.alive)
    requires Lawful(c, m, es) && NoneSignalled(c, m.world, es)
    ensures FreshForks(c, m.world, es)
    decreases es
  {
    if es != [] {
      StepKeepsPidsAlive(c, m, es[0]);
      StepKeepsPids(c, m.world, es[0]);
      hide Step, LawfulStep, FreshStep, Signalled, Orphan, LostAfter, ForkedPid, DistinctPids, PidsAlive;
      LawfulIsFresh(c, Next(c, m, es[0]), es[1..]);
    }
  }

  /** While no running task is cancelled, the system's own guarantee is enough: forks are
      fresh, and every exit of a running task's child finishes exactly that task. */
  lemma {:induction false} UncancelledReapsLand(c: Config, es: seq<Event>, i: nat, exit: ChildExit)
    requires Lawful(c, Start(c), es) && NoneSignalled(c, Init(c), es)
    requires var w := Replay(c, Init(c), es);
             i < |w.slots| && Selects(Busy, w.slots[i]) && w.slots[i].workerPid == exit.pid
    ensures FreshForks(c, Init(c), es)
    ensures var w := Replay(c, Init(c), es);
            Step(c, w, Reap(exit)) == w.(slots := w.slots[i := Reaped(w.slots[i], exit)])
  {
    LawfulIsFresh(c, Start(c), es);
    EveryReapLands(c, es, i, exit);
  }

  // ----- Every worker taken and nobody alive -----

  /** All workers are taken, and no child is left to report. */
  predicate Jammed(c: Config, m: Moment)
  {
    m.alive == {} && c.maxWorkers <= Count(Busy, m.world.slots)
  }

  /** No event cancels the task of a running slot. */
  ghost predicate Spared(slots: seq<TaskItem>, es: seq<Event>)
  {
    forall i, k :: 0 <= i < |slots| && Selects(Busy, slots[i]) && 0 <= k < |es| && es[k].Cancel?
      ==> es[k].id != slots[i].id
  }

  /** The running slots are the same ones, unchanged. */
  predicate SameRunning(a: seq<TaskItem>, b: seq<TaskItem>)
  {
    |a| == |b| && forall i :: 0 <= i < |a| && (Selects(Busy, a[i]) || Selects(Busy, b[i])) ==> a[i] == b[i]
  }

  lemma {:induction false} SameRunningCount(a: seq<TaskItem>, b: seq<TaskItem>)
    requires SameRunning(a, b)
    ensures Count(Busy, a) == Count(Busy, b)
  {
    if a != [] {
      assert forall i :: 0 <= i < |a[1..]| ==> a[1..][i] == a[i + 1] && b[1..][i] == b[i + 1];
      SameRunningCount(a[1..], b[1..]);
    }
  }

  lemma JamStep(c: Config, m: Moment, e: Event)
    requires Jammed(c, m) && LawfulStep(c, m, e) && Spared(m.world.slots, [e])
    ensures var v := Next(c, m, e); Jammed(c, v) && SameRunning(m.world.slots, v.world.slots)
  {
    assert [e][0] == e;
    StepRewrites(c, m.world, e);
    var v := Next(c, m, e);
    assert SameRunning(m.world.slots, v.world.slots) by {
      hide Count, Fit, IdOf;
    }
    SameRunningCount(m.world.slots, v.world.slots);
  }

  /** A jam is for ever. Once every worker is taken and no child is alive, in every lawful
      continuation that cancels none of the running tasks they all stay as they are, no child
      is ever forked, and no task that waits is ever dispatched. */
  lemma {:induction false} JamLasts(c: Config, m: Moment, es: seq<Event>)
    requires Jammed(c, m) && Lawful(c, m, es) && Spared(m.world.slots, es)
    ensures var v := Follow(c, m, es);
            && SameRunning(m.world.slots, v.world.slots)
            && v.alive == {} && !CanDispatch(c, v.world)
    decreases es
  {
    if es != [] {
      var v := Next(c, m, es[0]);
      assert Spared(m.world.slots, [es[0]]);
      JamStep(c, m, es[0]);
      assert Spared(v.world.slots, es[1..]) by {
        assert forall k :: 0 <= k < |es[1..]| ==> es[1..][k] == es[k + 1];
      }
      hide Step, LawfulStep, Orphan, LostAfter, ForkedPid, Jammed, Spared;
      JamLasts(c, v, es[1..]);
    }
  }
}
