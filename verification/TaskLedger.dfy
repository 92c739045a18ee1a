/** Whole-run safety of the scheduler: no task is lost or duplicated, its fate only
    advances, and it leaves the table only when it may. */
module TaskLedger {
  import opened CText
  import opened TaskTable
  import opened Scheduler

  // ----- What every run keeps -----

  ghost predicate Inv(c: Config, w: World)
  {
    && |w.slots| == c.maxTasks
    && w.seqNo == |w.issued| % SEQ_LIMIT
    && (forall k :: 0 <= k < |w.issued| ==> w.issued[k] == IdOf((k + 1) % SEQ_LIMIT, c.self))
    && (forall i :: 0 <= i < |w.slots| ==> WellFormed(w.slots[i]))
    && (forall k :: 0 <= k < |w.retired| ==> Stale(w.retired[k].item, w.retired[k].now))
    && Count(Busy, w.slots) <= c.maxWorkers
  }

  /** The pid and status of one slot agree. */
  predicate WellFormed(t: TaskItem)
  {
    && (t.inUse && t.status == Queued ==> t.workerPid == 0)
    && (t.inUse && t.status == Running ==> 0 < t.workerPid)
    && (!t.inUse ==> t == ZERO_ITEM)
  }

  lemma RewriteKeepsInv(c: Config, w: World, i: nat, t: TaskItem)
    requires Inv(c, w) && i < |w.slots| && WellFormed(t)
    requires Selects(Busy, t) ==> Selects(Busy, w.slots[i]) || Count(Busy, w.slots) < c.maxWorkers
    ensures Inv(c, w.(slots := w.slots[i := t]))
  {
    CountUpdate(Busy, w.slots, i, t);
  }

  /** Moving the counter on and logging the identifier it stands for. */
  lemma IssueKeepsInv(c: Config, w: World, n: nat, id: CString)
    requires Inv(c, w) && n == (w.seqNo + 1) % SEQ_LIMIT && id == IdOf(n, c.self)
    ensures Inv(c, World(w.slots, n, w.issued + [id], w.retired))
  {
    hide Count, WellFormed, Stale, IdOf;
    NextNumber(|w.issued|);
  }

  lemma NextNumber(n: nat)
    ensures (n % SEQ_LIMIT + 1) % SEQ_LIMIT == (n + 1) % SEQ_LIMIT
  {
  }

  lemma SubmitKeepsInv(c: Config, w: World, e: Event)
    requires Inv(c, w) && e.Submit?
    ensures Inv(c, Step(c, w, e))
  {
    var i := First(Free, w.slots);
    if e.kind != "" && i < |w.slots| {
      var n := (w.seqNo + 1) % SEQ_LIMIT;
      var id := IdOf(n, c.self);
      RewriteKeepsInv(c, w, i, NewTask(e.kind, e.params, id, e.now));
      hide Inv, Count, NewTask, IdOf;
      IssueKeepsInv(c, w.(slots := w.slots[i := NewTask(e.kind, e.params, id, e.now)]), n, id);
    }
  }

  lemma ExpireKeepsInv(c: Config, w: World, now: int)
    requires Inv(c, w)
    ensures Inv(c, Step(c, w, Expire(now)))
  {
    SweepKeepsCount(Busy, w.slots, now);
    LeaversAreStale(w.slots, now);
  }

  lemma StepKeepsInv(c: Config, w: World, e: Event)
    requires Inv(c, w)
    ensures Inv(c, Step(c, w, e))
  {
    match e
    case Submit(_, _, _) => SubmitKeepsInv(c, w, e);
    case Expire(now) => ExpireKeepsInv(c, w, now);
    case Reap(exit) =>
      var i := First(Worker(exit.pid), w.slots);
      if i < |w.slots| && w.slots[i].status == Running {
        RewriteKeepsInv(c, w, i, Reaped(w.slots[i], exit));
      }
    case Dispatch(fork) =>
      if CanDispatch(c, w) {
        var i := First(Waiting, w.slots);
        RewriteKeepsInv(c, w, i, Spawned(w.slots[i], fork));
      }
    case Cancel(id, now) =>
      var i := First(Holding(id), w.slots);
      if i < |w.slots| {
        RewriteKeepsInv(c, w, i, w.slots[i].(status := Cancelled, completedAt := now));
      }
  }

  lemma {:induction false} ReplayKeepsInv(c: Config, w: World, es: seq<Event>)
    requires Inv(c, w)
    ensures Inv(c, Replay(c, w, es))
    decreases es
  {
    if es != [] {
      StepKeepsInv(c, w, es[0]);
      ReplayKeepsInv(c, Step(c, w, es[0]), es[1..]);
    }
  }

  lemma InitHasInv(c: Config)
    ensures Inv(c, Init(c))
  {
    CountZero(Busy, Init(c).slots);
  }

  lemma {:induction false} LeaversAreStale(slots: seq<TaskItem>, now: int)
    ensures forall k :: 0 <= k < |Leavers(slots, now)| ==>
              Leavers(slots, now)[k].now == now && Stale(Leavers(slots, now)[k].item, now)
  {
    if slots != [] {
      LeaversAreStale(slots[1..], now);
    }
  }

  /** The sweep frees terminal slots only, so it moves neither queued nor running tasks. */
  lemma {:induction false} SweepKeepsCount(q: Query, slots: seq<TaskItem>, now: int)
    requires q == Waiting || q == Busy
    ensures Count(q, Swept(slots, now)) == Count(q, slots)
  {
    if slots != [] {
      assert Swept(slots, now)[1..] == Swept(slots[1..], now);
      SweepKeepsCount(q, slots[1..], now);
    }
  }

  /** RUNNING slots never outnumber the workers, at any point of any run. */
  lemma RunningNeverExceedsWorkers(c: Config, es: seq<Event>, n: nat)
    requires n <= |es|
    ensures Count(Busy, Replay(c, Init(c), es[..n]).slots) <= c.maxWorkers
  {
    InitHasInv(c);
    ReplayKeepsInv(c, Init(c), es[..n]);
  }

  // ----- Conservation: every run, even past the wrap of the counter -----

  function TimesRetired(rs: seq<Retirement>, id: string): nat
  {
    if rs == [] then 0 else (if rs[0].item.id == id then 1 else 0) + TimesRetired(rs[1..], id)
  }

  ghost predicate Conserved(w: World, id: CString)
  {
    Count(Holding(id), w.slots) + TimesRetired(w.retired, id) == multiset(w.issued)[id]
  }

  lemma {:induction false} TimesRetiredAppend(a: seq<Retirement>, b: seq<Retirement>, id: string)
    ensures TimesRetired(a + b, id) == TimesRetired(a, id) + TimesRetired(b, id)
  {
    if a == [] {
      assert a + b == b;
    } else {
      assert (a + b)[1..] == a[1..] + b;
      TimesRetiredAppend(a[1..], b, id);
    }
  }

  lemma {:induction false} SweepConserves(slots: seq<TaskItem>, now: int, id: string)
    ensures Count(Holding(id), Swept(slots, now)) + TimesRetired(Leavers(slots, now), id)
         == Count(Holding(id), slots)
  {
    if slots != [] {
      assert Swept(slots, now)[1..] == Swept(slots[1..], now);
      SweepConserves(slots[1..], now, id);
      TimesRetiredAppend(if Stale(slots[0], now) then [Retirement(slots[0], now)] else [],
                         Leavers(slots[1..], now), id);
    }
  }

  lemma RewriteConserves(w: World, i: nat, t: TaskItem, id: CString)
    requires Conserved(w, id) && i < |w.slots| && t.inUse == w.slots[i].inUse && t.id == w.slots[i].id
    ensures Conserved(w.(slots := w.slots[i := t]), id)
  {
    CountUpdate(Holding(id), w.slots, i, t);
  }

  lemma SubmitConserves(c: Config, w: World, e: Event, id: CString)
    requires Conserved(w, id) && e.Submit?
    ensures Conserved(Step(c, w, e), id)
  {
    var i := First(Free, w.slots);
    if e.kind != "" && i < |w.slots| {
      var newId := IdOf((w.seqNo + 1) % SEQ_LIMIT, c.self);
      hide IdOf, TimesRetired, First;
      CountUpdate(Holding(id), w.slots, i, NewTask(e.kind, e.params, newId, e.now));
    }
  }

  lemma StepConserves(c: Config, w: World, e: Event, id: CString)
    requires Conserved(w, id)
    ensures Conserved(Step(c, w, e), id)
  {
    match e
    case Submit(_, _, _) => SubmitConserves(c, w, e, id);
    case Reap(exit) =>
      var i := First(Worker(exit.pid), w.slots);
      if i < |w.slots| {
        RewriteConserves(w, i, Reaped(w.slots[i], exit), id);
      }
    case Dispatch(fork) =>
      if CanDispatch(c, w) {
        var i := First(Waiting, w.slots);
        RewriteConserves(w, i, Spawned(w.slots[i], fork), id);
      }
    case Expire(now) =>
      SweepConserves(w.slots, now, id);
      TimesRetiredAppend(w.retired, Leavers(w.slots, now), id);
    case Cancel(victim, now) =>
      var i := First(Holding(victim), w.slots);
      if i < |w.slots| {
        RewriteConserves(w, i, w.slots[i].(status := Cancelled, completedAt := now), id);
      }
  }

  lemma {:induction false} ReplayConserves(c: Config, w: World, es: seq<Event>, id: CString)
    requires Conserved(w, id)
    ensures Conserved(Replay(c, w, es), id)
    decreases es
  {
    if es != [] {
      StepConserves(c, w, es[0], id);
      ReplayConserves(c, Step(c, w, es[0]), es[1..], id);
    }
  }

  /** Of every identifier, the copies in the table and the copies expired from it are, in
      number, the times it was issued. */
  lemma {:induction false} Conservation(c: Config, es: seq<Event>, id: CString)
    ensures Conserved(Replay(c, Init(c), es), id)
  {
    CountZero(Holding(id), Init(c).slots);
    ReplayConserves(c, Init(c), es, id);
  }

  // ----- With at most 2^32 submissions: each task is in exactly one place -----

  /** The 32-bit counter makes identifiers unique for exactly 2^32 submissions. */
  lemma UniqueIff(c: Config, w: World)
    requires Inv(c, w)
    ensures (forall i, j :: 0 <= i < j < |w.issued| ==> w.issued[i] != w.issued[j])
       <==> |w.issued| <= SEQ_LIMIT
  {
    if |w.issued| <= SEQ_LIMIT {
      forall i, j | 0 <= i < j < |w.issued| ensures w.issued[i] != w.issued[j] {
        IdInjective((i + 1) % SEQ_LIMIT, (j + 1) % SEQ_LIMIT, c.self, c.self);
      }
    } else {
      assert w.issued[0] == IdOf(1, c.self) == w.issued[SEQ_LIMIT];
    }
  }

  lemma IssuedOnce(c: Config, w: World, id: CString)
    requires Inv(c, w) && |w.issued| <= SEQ_LIMIT
    ensures forall i, j :: 0 <= i < j < |w.issued| ==> w.issued[i] != w.issued[j]
    ensures multiset(w.issued)[id] == if id in w.issued then 1 else 0
  {
    UniqueIff(c, w);
    DistinctMultiplicity(w.issued, id);
  }

  lemma {:induction false} DistinctMultiplicity(s: seq<CString>, x: CString)
    requires forall i, j :: 0 <= i < j < |s| ==> s[i] != s[j]
    ensures multiset(s)[x] == if x in s then 1 else 0
  {
    if s != [] {
      assert s == [s[0]] + s[1..];
      DistinctMultiplicity(s[1..], x);
      assert multiset(s) == multiset{s[0]} + multiset(s[1..]);
    }
  }

  /** No task is lost, none is duplicated: an identifier handed out is either in exactly one
      slot and never expired, or in no slot and expired exactly once, in a terminal state and
      more than 300 seconds after its completion time. An identifier never handed out is
      nowhere. */
  lemma {:induction false} NothingLostOrDuplicated(c: Config, es: seq<Event>, id: CString)
    requires |Replay(c, Init(c), es).issued| <= SEQ_LIMIT
    ensures var w := Replay(c, Init(c), es);
            && Count(Holding(id), w.slots) + TimesRetired(w.retired, id) == (if id in w.issued then 1 else 0)
            && (forall k :: 0 <= k < |w.retired| ==>
                  && Terminal(w.retired[k].item.status)
                  && w.retired[k].now - w.retired[k].item.completedAt > RETENTION_SECONDS)
  {
    var w := Replay(c, Init(c), es);
    InitHasInv(c);
    ReplayKeepsInv(c, Init(c), es);
    IssuedOnce(c, w, id);
    Conservation(c, es, id);
  }

  // ----- The fate of one identifier -----

  datatype Fate = Unissued | InTable(status: Status) | Left

  function FateOf(w: World, id: CString): Fate
  {
    var i := First(Holding(id), w.slots);
    if i < |w.slots| then InTable(w.slots[i].status)
    else if id in w.issued then Left
    else Unissued
  }

  function Rank(f: Fate): nat
  {
    match f
    case Unissued => 0
    case InTable(s) =>
      (match s case Queued => 1 case Running => 2 case Complete => 3 case Failed => 3 case Cancelled => 4)
    case Left => 5
  }

  /** The order of a task's life: staying put, or moving to a strictly higher rank. So
      COMPLETE and FAILED never turn into each other and CANCELLED is never undone. */
  predicate Leads(f: Fate, g: Fate)
  {
    f == g || Rank(f) < Rank(g)
  }

  /** Rewriting a slot without touching its identifier moves no scan by identifier. */
  lemma RewriteKeepsFirst(slots: seq<TaskItem>, i: nat, t: TaskItem, id: string)
    requires i < |slots| && (Selects(Holding(id), t) <==> Selects(Holding(id), slots[i]))
    ensures First(Holding(id), slots[i := t]) == First(Holding(id), slots)
  {
    var f := First(Holding(id), slots);
    FirstIs(Holding(id), slots[i := t], f);
  }

  lemma {:induction false} SoleHolder(q: Query, slots: seq<TaskItem>, i: nat)
    requires i < |slots| && Selects(q, slots[i]) && Count(q, slots) <= 1
    ensures forall k :: 0 <= k < |slots| && k != i ==> !Selects(q, slots[k])
  {
    CountZero(q, slots[1..]);
    if i > 0 {
      SoleHolder(q, slots[1..], i - 1);
      CountZero(q, slots[1..]);
      assert slots[i] == slots[1..][i - 1];
    }
    assert forall k :: 0 < k < |slots| ==> slots[k] == slots[1..][k - 1];
  }

  lemma RewriteAdvancesFate(w: World, i: nat, t: TaskItem, id: CString)
    requires i < |w.slots| && t.inUse == w.slots[i].inUse && t.id == w.slots[i].id
    requires Leads(InTable(w.slots[i].status), InTable(t.status))
    ensures Leads(FateOf(w, id), FateOf(w.(slots := w.slots[i := t]), id))
  {
    RewriteKeepsFirst(w.slots, i, t, id);
  }

  lemma StepAdvancesFate(c: Config, w: World, e: Event, id: CString)
    requires Inv(c, w) && Conserved(w, id) && |Step(c, w, e).issued| <= SEQ_LIMIT
    ensures Leads(FateOf(w, id), FateOf(Step(c, w, e), id))
  {
    match e
    case Submit(_, _, _) => SubmitAdvancesFate(c, w, e, id);
    case Expire(now) => ExpireAdvancesFate(c, w, now, id);
    case Reap(exit) =>
      var j := First(Worker(exit.pid), w.slots);
      if j < |w.slots| && w.slots[j].status == Running {
        RewriteAdvancesFate(w, j, Reaped(w.slots[j], exit), id);
      }
    case Dispatch(fork) =>
      if CanDispatch(c, w) {
        var j := First(Waiting, w.slots);
        RewriteAdvancesFate(w, j, Spawned(w.slots[j], fork), id);
      }
    case Cancel(victim, now) =>
      var j := First(Holding(victim), w.slots);
      if j < |w.slots| {
        RewriteAdvancesFate(w, j, w.slots[j].(status := Cancelled, completedAt := now), id);
      }
  }

  lemma ExpireAdvancesFate(c: Config, w: World, now: int, id: CString)
    requires Inv(c, w) && Conserved(w, id) && |w.issued| <= SEQ_LIMIT
    ensures Leads(FateOf(w, id), FateOf(Step(c, w, Expire(now)), id))
  {
    IssuedOnce(c, w, id);
    hide Inv, Stale, Leavers, First, Count;
    CountZero(Holding(id), w.slots);
    SweptFirst(w.slots, now, Holding(id));
  }

  /** The sweep leaves the one slot a scan meets in place, or empties it. */
  lemma {:induction false} SweptFirst(slots: seq<TaskItem>, now: int, q: Query)
    requires q.Holding? && Count(q, slots) <= 1
    ensures var i := First(q, slots);
            First(q, Swept(slots, now)) == if i < |slots| && !Stale(slots[i], now) then i else |slots|
  {
    var i := First(q, slots);
    hide Stale, Count;
    if i < |slots| && !Stale(slots[i], now) {
      FirstIs(q, Swept(slots, now), i);
    } else {
      if i < |slots| {
        SoleHolder(q, slots, i);
      }
      FirstIs(q, Swept(slots, now), |slots|);
    }
  }

  lemma SubmitAdvancesFate(c: Config, w: World, e: Event, id: CString)
    requires e.Submit? && Inv(c, w) && Conserved(w, id) && |Step(c, w, e).issued| <= SEQ_LIMIT
    ensures Leads(FateOf(w, id), FateOf(Step(c, w, e), id))
  {
    var i := First(Free, w.slots);
    var after := Step(c, w, e);
    StepKeepsInv(c, w, e);
    hide Inv, Count, IdOf, Rank;
    if e.kind != "" && i < |w.slots| {
      var newId := after.issued[|w.issued|];
      assert after.issued == w.issued + [newId];
      if newId == id {
        NewIsUnissued(c, w, after, id);
        FirstIs(Holding(id), after.slots, i);
      } else {
        RewriteKeepsFirst(w.slots, i, after.slots[i], id);
      }
    }
  }

  /** Before the counter wraps, an identifier about to be issued is nowhere. */
  lemma NewIsUnissued(c: Config, w: World, after: World, id: CString)
    requires Inv(c, after) && Conserved(w, id) && |after.issued| <= SEQ_LIMIT
    requires after.issued == w.issued + [id]
    ensures id !in w.issued && First(Holding(id), w.slots) == |w.slots|
    ensures forall k :: 0 <= k < |w.slots| ==> !Selects(Holding(id), w.slots[k])
  {
    IssuedOnce(c, after, id);
    hide Inv;
    CountZero(Holding(id), w.slots);
    assert multiset(after.issued) == multiset(w.issued) + multiset{id};
  }

  lemma {:induction false} ReplayAdvancesFate(c: Config, w: World, es: seq<Event>, id: CString)
    requires Inv(c, w) && Conserved(w, id) && |Replay(c, w, es).issued| <= SEQ_LIMIT
    ensures Leads(FateOf(w, id), FateOf(Replay(c, w, es), id))
    ensures Changes(c, w, es, id) <= Rank(FateOf(Replay(c, w, es), id)) - Rank(FateOf(w, id))
    decreases es
  {
    if es != [] {
      var v := Step(c, w, es[0]);
      IssuedGrows(c, v, es[1..]);
      StepKeepsInv(c, w, es[0]);
      StepConserves(c, w, es[0], id);
      StepAdvancesFate(c, w, es[0], id);
      ReplayAdvancesFate(c, v, es[1..], id);
    }
  }

  lemma {:induction false} IssuedGrows(c: Config, w: World, es: seq<Event>)
    ensures w.issued <= Replay(c, w, es).issued
    decreases es
  {
    if es != [] {
      IssuedGrows(c, Step(c, w, es[0]), es[1..]);
      assert w.issued <= Step(c, w, es[0]).issued;
    }
  }

  /** How many steps of a run change what happened to one identifier. */
  function Changes(c: Config, w: World, es: seq<Event>, id: CString): nat
    decreases es
  {
    if es == [] then 0
    else (if FateOf(w, id) == FateOf(Step(c, w, es[0]), id) then 0 else 1)
         + Changes(c, Step(c, w, es[0]), es[1..], id)
  }

  lemma RunSplits(c: Config, es: seq<Event>, n: nat)
    requires n <= |es|
    ensures Replay(c, Init(c), es) == Replay(c, Replay(c, Init(c), es[..n]), es[n..])
    ensures |Replay(c, Init(c), es[..n]).issued| <= |Replay(c, Init(c), es).issued|
  {
    assert es == es[..n] + es[n..];
    ReplayAppend(c, Init(c), es[..n], es[n..]);
    IssuedGrows(c, Replay(c, Init(c), es[..n]), es[n..]);
  }

  /** Between any two moments of any run with at most 2^32 submissions, a task's fate only
      advances. */
  lemma {:induction false} FateOnlyAdvances(c: Config, es: seq<Event>, n: nat, m: nat, id: CString)
    requires n <= m <= |es|
    requires |Replay(c, Init(c), es).issued| <= SEQ_LIMIT
    ensures Leads(FateOf(Replay(c, Init(c), es[..n]), id), FateOf(Replay(c, Init(c), es[..m]), id))
  {
    RunSplits(c, es, m);
    RunSplits(c, es[..m], n);
    assert es[..m][..n] == es[..n];
    InitHasInv(c);
    ReplayKeepsInv(c, Init(c), es[..n]);
    Conservation(c, es[..n], id);
    ReplayAdvancesFate(c, Replay(c, Init(c), es[..n]), es[..m][n..], id);
  }

  /** Over a whole life that makes at most five changes: issued, three of status, gone. */
  lemma {:induction false} AtMostFiveChanges(c: Config, es: seq<Event>, id: CString)
    requires |Replay(c, Init(c), es).issued| <= SEQ_LIMIT
    ensures Changes(c, Init(c), es, id) <= 5
  {
    InitHasInv(c);
    CountZero(Holding(id), Init(c).slots);
    ReplayAdvancesFate(c, Init(c), es, id);
  }
}
