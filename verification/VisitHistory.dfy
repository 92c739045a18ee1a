/** The calls the gateway makes, visit by visit: what they grant, and how long a run of
    failures takes. */
module VisitHistory {
  import opened Wrappers
  import opened RateLimit
  import opened RateHistory

  // ----- Visits -----

  datatype Verdict = NoAuth | AuthOk | AuthFailed

  /** One request past the health routes: the readings of the calls it may make, in order. */
  datatype Visit = Visit(ip: Address, now: int, stamp: int, lockAt: int, lockStamp: int,
                         verdict: Verdict, recordAt: int, recordStamp: int)

  predicate VisitClocked(v: Visit, clock: int)
  {
    clock <= v.now <= v.stamp <= v.lockAt <= v.lockStamp <= v.recordAt <= v.recordStamp
  }

  /** Admission first, the lock check second, and only then a verdict to record. */
  function VisitOps(lim: Limits, t: Table, v: Visit): seq<Op>
  {
    var ask := Allow(v.ip, v.now, v.stamp);
    var check := CheckLock(v.ip, v.lockAt, v.lockStamp);
    if !Allowed(lim, t, ask) then [ask]
    else if LockLeft(Apply(lim, t, ask), check).Some? then [ask, check]
    else
      match v.verdict
      case NoAuth => [ask, check]
      case AuthOk => [ask, check, Success(v.ip, v.recordStamp)]
      case AuthFailed => [ask, check, Failure(v.ip, v.recordAt, v.recordStamp)]
  }

  function VisitTable(lim: Limits, t: Table, v: Visit): Table
  {
    Run(lim, t, VisitOps(lim, t, v))
  }

  /** A request that was admitted is never seen as locked by the check that follows. */
  lemma AdmittedIsNotLocked(lim: Limits, t: Table, v: Visit)
    requires VisitClocked(v, v.now) && Allowed(lim, t, Allow(v.ip, v.now, v.stamp))
    ensures LockLeft(Apply(lim, t, Allow(v.ip, v.now, v.stamp)), CheckLock(v.ip, v.lockAt, v.lockStamp)) == None
  {
  }

  /** The client after a verdict was recorded. */
  function Judged(lim: Limits, c: Client, v: Visit): Client
  {
    if v.verdict == AuthOk then Cleared(c) else Failed(lim, c, v.recordAt)
  }

  /** What a visit leaves of its address's client. */
  lemma VisitEffect(lim: Limits, t: Table, v: Visit)
    requires VisitClocked(v, v.now)
    ensures var ask := Allow(v.ip, v.now, v.stamp);
            var asked := Apply(lim, t, ask);
            if !Allowed(lim, t, ask) || v.verdict == NoAuth
            then VisitTable(lim, t, v) == asked
            else v.ip in asked && VisitTable(lim, t, v) == asked[v.ip := Judged(lim, asked[v.ip], v)]
  {
    var ops := VisitOps(lim, t, v);
    var asked := Apply(lim, t, ops[0]);
    RunUpTo3(lim, t, ops);
    if Allowed(lim, t, ops[0]) {
      AdmittedIsNotLocked(lim, t, v);
      assert v.ip in asked && Reaches(asked, v.ip);
      assert Apply(lim, asked, ops[1]) == asked;
    }
  }

  lemma RunUpTo3(lim: Limits, t: Table, ops: seq<Op>)
    requires 1 <= |ops| <= 3
    ensures |ops| == 1 ==> Run(lim, t, ops) == Apply(lim, t, ops[0])
    ensures |ops| == 2 ==> Run(lim, t, ops) == Apply(lim, Apply(lim, t, ops[0]), ops[1])
    ensures |ops| == 3 ==> Run(lim, t, ops) == Apply(lim, Apply(lim, Apply(lim, t, ops[0]), ops[1]), ops[2])
  {
    hide Apply;
    if |ops| == 1 {
      RunSnoc(lim, t, [], ops[0]);
      assert [] + [ops[0]] == ops;
    } else if |ops| == 2 {
      RunUpTo3(lim, t, ops[..1]);
      RunSnoc(lim, t, ops[..1], ops[1]);
      assert ops[..1] + [ops[1]] == ops;
    } else {
      RunUpTo3(lim, t, ops[..2]);
      RunSnoc(lim, t, ops[..2], ops[2]);
      assert ops[..2] + [ops[2]] == ops;
    }
  }

  function Visits(lim: Limits, t: Table, vs: seq<Visit>): Table
    decreases |vs|
  {
    if vs == [] then t else Visits(lim, VisitTable(lim, t, vs[0]), vs[1..])
  }

  predicate VisitsClocked(vs: seq<Visit>, clock: int)
    decreases |vs|
  {
    vs == [] || (VisitClocked(vs[0], clock) && VisitsClocked(vs[1..], vs[0].recordStamp))
  }

  function VisitsEnd(visits: seq<Visit>, clock: int): int
  {
    if visits == [] then clock else visits[|visits| - 1].recordStamp
  }

  lemma {:induction false} VisitsSnoc(lim: Limits, t: Table, vs: seq<Visit>, v: Visit)
    ensures Visits(lim, t, vs + [v]) == VisitTable(lim, Visits(lim, t, vs), v)
    decreases |vs|
  {
    hide VisitTable;
    if vs == [] {
      assert [] + [v] == [v];
      assert Visits(lim, VisitTable(lim, t, v), []) == VisitTable(lim, t, v);
    } else {
      assert (vs + [v])[1..] == vs[1..] + [v];
      VisitsSnoc(lim, VisitTable(lim, t, vs[0]), vs[1..], v);
    }
  }

  lemma {:induction false} VisitsClockedSnoc(vs: seq<Visit>, clock: int, v: Visit)
    requires VisitsClocked(vs, clock)
    requires VisitClocked(v, VisitsEnd(vs, clock))
    ensures VisitsClocked(vs + [v], clock)
    decreases |vs|
  {
    if vs == [] {
      assert [] + [v] == [v];
    } else {
      assert (vs + [v])[1..] == vs[1..] + [v];
      VisitsClockedSnoc(vs[1..], vs[0].recordStamp, v);
    }
  }

  // ----- The calls of a series of visits -----

  function VisitsOps(lim: Limits, t: Table, vs: seq<Visit>): seq<Op>
    decreases |vs|
  {
    if vs == [] then []
    else VisitOps(lim, t, vs[0]) + VisitsOps(lim, VisitTable(lim, t, vs[0]), vs[1..])
  }

  lemma OpsJoin(a: seq<Op>, b: seq<Op>, c: seq<Op>)
    ensures a + (b + c) == a + b + c
  {
  }

  lemma {:induction false} VisitsOpsSnoc(lim: Limits, t: Table, vs: seq<Visit>, v: Visit)
    ensures VisitsOps(lim, t, vs + [v]) == VisitsOps(lim, t, vs) + VisitOps(lim, Visits(lim, t, vs), v)
    decreases |vs|
  {
    hide VisitTable, VisitOps;
    if vs == [] {
      assert [] + [v] == [v];
      assert VisitsOps(lim, VisitTable(lim, t, v), []) == [];
    } else {
      assert (vs + [v])[1..] == vs[1..] + [v];
      VisitsOpsSnoc(lim, VisitTable(lim, t, vs[0]), vs[1..], v);
      OpsJoin(VisitOps(lim, t, vs[0]), VisitsOps(lim, VisitTable(lim, t, vs[0]), vs[1..]),
              VisitOps(lim, Visits(lim, t, vs), v));
    }
  }

  lemma {:induction false} VisitsOpsRun(lim: Limits, t: Table, vs: seq<Visit>)
    ensures Run(lim, t, VisitsOps(lim, t, vs)) == Visits(lim, t, vs)
    decreases |vs|
  {
    hide VisitOps;
    if vs != [] {
      RunAppend(lim, t, VisitOps(lim, t, vs[0]), VisitsOps(lim, VisitTable(lim, t, vs[0]), vs[1..]));
      VisitsOpsRun(lim, VisitTable(lim, t, vs[0]), vs[1..]);
    }
  }

  lemma VisitOpsClocked(lim: Limits, t: Table, v: Visit, clock: int)
    requires VisitClocked(v, clock)
    ensures var ops := VisitOps(lim, t, v);
            && ops != [] && Clocked(ops, clock) && ops[|ops| - 1].stamp <= v.recordStamp
  {
    var ops := VisitOps(lim, t, v);
    hide Allowed, LockLeft, Apply;
    if |ops| == 1 {
      assert ops[1..] == [];
    } else {
      var rest := ops[1..];
      assert rest[0] == ops[1];
      if |ops| == 2 {
        assert rest[1..] == [];
      } else {
        assert rest[1..] == [ops[2]];
        assert Clocked([ops[2]], ops[1].stamp);
      }
      assert Clocked(rest, ops[0].stamp);
    }
  }

  lemma {:induction false} VisitsOpsClocked(lim: Limits, t: Table, vs: seq<Visit>, clock: int)
    requires VisitsClocked(vs, clock)
    ensures Clocked(VisitsOps(lim, t, vs), clock)
    decreases |vs|
  {
    hide VisitOps, VisitTable;
    if vs != [] {
      var first, t' := VisitOps(lim, t, vs[0]), VisitTable(lim, t, vs[0]);
      VisitOpsClocked(lim, t, vs[0], clock);
      VisitsOpsClocked(lim, t', vs[1..], vs[0].recordStamp);
      ClockedAppend(first, VisitsOps(lim, t', vs[1..]), clock, vs[0].recordStamp);
    }
  }

  /** A visit meets a new address with a request, and goes on only with a client. */
  lemma VisitAsksFirst(lim: Limits, t: Table, v: Visit)
    ensures AsksFirst(lim, t, VisitOps(lim, t, v))
  {
    var ops := VisitOps(lim, t, v);
    var asked := Apply(lim, t, ops[0]);
    if |ops| == 1 {
      assert ops[1..] == [];
    } else {
      var checked := Apply(lim, asked, ops[1]);
      assert v.ip in asked && v.ip in checked;
      hide Apply, Allowed, LockLeft;
      assert AsksFirst(lim, checked, ops[2..]) by {
        if |ops| == 3 {
          assert ops[2..][0] == ops[2] && ops[2..][1..] == [];
        } else {
          assert ops[2..] == [];
        }
      }
      assert ops[1..][0] == ops[1] && ops[1..][1..] == ops[2..];
    }
  }

  lemma {:induction false} VisitsAskFirst(lim: Limits, t: Table, vs: seq<Visit>)
    ensures AsksFirst(lim, t, VisitsOps(lim, t, vs))
    decreases |vs|
  {
    hide VisitOps;
    if vs != [] {
      VisitAsksFirst(lim, t, vs[0]);
      VisitsAskFirst(lim, VisitTable(lim, t, vs[0]), vs[1..]);
      AsksFirstAppend(lim, t, VisitOps(lim, t, vs[0]), VisitsOps(lim, VisitTable(lim, t, vs[0]), vs[1..]));
    }
  }

  // ----- What visits are granted -----

  function VisitGrants(lim: Limits, t: Table, vs: seq<Visit>, ip: Address): seq<int>
  {
    Granted(lim, t, VisitsOps(lim, t, vs), ip)
  }

  /** In any series of visits, any interval of one window's length grants one address at most
      2 * maxRequests - 1 requests, or maxRequests when the window is one second; with a quota
      of one it is never exceeded. */
  lemma {:induction false} VisitsWindow(lim: Limits, vs: seq<Visit>, ip: Address, from: int)
    requires Sensible(lim) && VisitsClocked(vs, 0)
    ensures CountIn(VisitGrants(lim, map[], vs, ip), from, from + lim.windowSeconds)
         <= if lim.windowSeconds == 1 then lim.maxRequests else 2 * lim.maxRequests - 1
  {
    VisitsOpsClocked(lim, map[], vs, 0);
    VisitsAskFirst(lim, map[], vs);
    hide VisitsOps, Granted, Clocked, AsksFirst, CountIn, Spread;
    AskFirstBound(lim, VisitsOps(lim, map[], vs), ip, 0, from);
  }

  // ----- Runs that meet the bounds -----

  /** A request at one reading of the clock. */
  function Ask(ip: Address, at: int): Visit
  {
    Visit(ip, at, at, at, at, NoAuth, at, at)
  }

  function Asks(ip: Address, at: int, n: nat): seq<Visit>
  {
    if n == 0 then [] else [Ask(ip, at)] + Asks(ip, at, n - 1)
  }

  function Repeat(at: int, n: nat): seq<int>
  {
    if n == 0 then [] else [at] + Repeat(at, n - 1)
  }

  lemma {:induction false} OneAsk(lim: Limits, t: Table, ip: Address, at: int, rest: seq<Visit>)
    requires Reaches(t, ip) && ClientOf(t, ip, at).lockedUntil <= at
    requires Counted(lim, ClientOf(t, ip, at), at).requestCount <= lim.maxRequests
    ensures VisitGrants(lim, t, [Ask(ip, at)] + rest, ip)
         == [at] + VisitGrants(lim, t[ip := Counted(lim, ClientOf(t, ip, at), at)], rest, ip)
  {
    var v := Ask(ip, at);
    var ops, t' := VisitOps(lim, t, v), VisitTable(lim, t, v);
    VisitEffect(lim, t, v);
    AdmittedIsNotLocked(lim, t, v);
    assert t' == t[ip := Counted(lim, ClientOf(t, ip, at), at)];
    assert Granted(lim, t, ops, ip) == [at] by {
      hide VisitTable;
      assert ops == [Allow(ip, at, at), CheckLock(ip, at, at)];
      var asked := Apply(lim, t, ops[0]);
      assert ops[1..][0] == ops[1] && ops[1..][1..] == [];
      assert Granted(lim, asked, ops[1..], ip) == [] + Granted(lim, Apply(lim, asked, ops[1]), [], ip);
      assert GrantedBy(lim, t, ops[0], ip) == [at];
      hide Apply, GrantedBy;
    }
    hide VisitOps, VisitTable, Counted, Reaches, Granted;
    var vs := [v] + rest;
    assert vs[1..] == rest && vs[0] == v;
    assert VisitsOps(lim, t, vs) == ops + VisitsOps(lim, t', rest);
    GrantedAppend(lim, t, ops, VisitsOps(lim, t', rest), ip);
    assert Run(lim, t, ops) == t' by { UnfoldVisit(lim, t, v); }
  }

  lemma UnfoldVisit(lim: Limits, t: Table, v: Visit)
    ensures VisitTable(lim, t, v) == Run(lim, t, VisitOps(lim, t, v))
  {
  }

  /** Requests that stay within an open window's quota are granted one and all. */
  lemma {:induction false} Burst(lim: Limits, t: Table, ip: Address, at: int, n: nat, rest: seq<Visit>)
    requires ip != "" && ip in t && t[ip].lockedUntil <= at
    requires at - t[ip].windowStart < lim.windowSeconds && t[ip].requestCount + n <= lim.maxRequests
    ensures VisitGrants(lim, t, Asks(ip, at, n) + rest, ip)
         == Repeat(at, n)
            + VisitGrants(lim, t[ip := t[ip].(requestCount := t[ip].requestCount + n)], rest, ip)
    decreases n
  {
    hide VisitGrants;
    var c := t[ip];
    if n == 0 {
      assert Asks(ip, at, 0) + rest == rest && t[ip := c] == t;
    } else {
      var more, t' := Asks(ip, at, n - 1) + rest, t[ip := c.(requestCount := c.requestCount + 1)];
      assert Asks(ip, at, n) + rest == [Ask(ip, at)] + more;
      OneAsk(lim, t, ip, at, more);
      Burst(lim, t', ip, at, n - 1, rest);
      var last := VisitGrants(lim, t[ip := c.(requestCount := c.requestCount + n)], rest, ip);
      assert t'[ip := c.(requestCount := c.requestCount + n)] == t[ip := c.(requestCount := c.requestCount + n)];
      GrantsJoin([at], Repeat(at, n - 1), last);
    }
  }

  /** A full quota at the start of the next window. */
  lemma {:induction false} NextWindow(lim: Limits, t: Table, ip: Address, at: int)
    requires Sensible(lim) && ip != "" && ip in t && t[ip].lockedUntil <= at
    requires at - t[ip].windowStart >= lim.windowSeconds
    ensures VisitGrants(lim, t, Asks(ip, at, lim.maxRequests), ip) == Repeat(at, lim.maxRequests)
  {
    var n := lim.maxRequests - 1;
    var t' := t[ip := Counted(lim, t[ip], at)];
    OneAsk(lim, t, ip, at, Asks(ip, at, n));
    Burst(lim, t', ip, at, n, []);
    assert Asks(ip, at, n) + [] == Asks(ip, at, n);
    assert Repeat(at, n) + [] == Repeat(at, n);
  }

  lemma {:induction false} AsksClocked(ip: Address, at: int, n: nat, rest: seq<Visit>, clock: int)
    requires clock <= at && VisitsClocked(rest, at)
    ensures VisitsClocked(Asks(ip, at, n) + rest, clock)
    decreases n
  {
    if n == 0 {
      assert Asks(ip, at, 0) + rest == rest;
    } else {
      AsksClocked(ip, at, n - 1, rest, at);
      assert (Asks(ip, at, n) + rest)[1..] == Asks(ip, at, n - 1) + rest;
    }
  }

  lemma {:induction false} CountRepeat(at: int, n: nat, rest: seq<int>, from: int, to: int)
    requires from <= at < to
    ensures CountIn(Repeat(at, n) + rest, from, to) == n + CountIn(rest, from, to)
    decreases n
  {
    if n == 0 {
      assert Repeat(at, 0) + rest == rest;
    } else {
      CountRepeat(at, n - 1, rest, from, to);
      assert (Repeat(at, n) + rest)[1..] == Repeat(at, n - 1) + rest;
    }
  }

  /** The quota but one at the end of a window, and the next one's at once. */
  function TightVisits(lim: Limits, ip: Address, first: nat): seq<Visit>
    requires Sensible(lim)
  {
    Asks(ip, lim.windowSeconds - 1, first) + Asks(ip, lim.windowSeconds, lim.maxRequests)
  }

  lemma {:induction false} TightGrants(lim: Limits, t: Table, ip: Address, first: nat)
    requires Sensible(lim) && 2 <= lim.windowSeconds && ip != "" && ip in t
    requires t[ip] == Client(0, lim.maxRequests - first, 0, 0)
    ensures VisitsClocked(TightVisits(lim, ip, first), 0)
    ensures var g := VisitGrants(lim, t, TightVisits(lim, ip, first), ip);
            CountIn(g, lim.windowSeconds - 1, 2 * lim.windowSeconds - 1) == first + lim.maxRequests
  {
    var w, max := lim.windowSeconds, lim.maxRequests;
    var t' := t[ip := Client(0, max, 0, 0)];
    var late := Asks(ip, w, max);
    hide VisitGrants, CountIn, Asks, Repeat, VisitsClocked;
    assert VisitsClocked([], w) by { NoVisits(w); }
    Burst(lim, t, ip, w - 1, first, late);
    NextWindow(lim, t', ip, w);
    assert late + [] == late && Repeat(w, max) + [] == Repeat(w, max);
    AsksClocked(ip, w, max, [], w - 1);
    AsksClocked(ip, w - 1, first, late, 0);
    CountRepeat(w - 1, first, Repeat(w, max), w - 1, 2 * w - 1);
    CountRepeat(w, max, [], w - 1, 2 * w - 1);
    assert CountIn([], w - 1, 2 * w - 1) == 0 by { NothingIn(w - 1, 2 * w - 1); }
  }

  lemma NoVisits(clock: int)
    ensures VisitsClocked([], clock)
  {
  }

  lemma NothingIn(from: int, to: int)
    ensures CountIn([], from, to) == 0
  {
  }

  /** A series that meets the bound of `VisitsWindow`: the address asks once at 0, fills its
      quota at the end of that window, and uses the next one's at once. */
  function TightRun(lim: Limits, ip: Address): seq<Visit>
    requires Sensible(lim)
  {
    [Ask(ip, 0)] + if lim.windowSeconds == 1 then Asks(ip, 0, lim.maxRequests - 1)
                   else TightVisits(lim, ip, lim.maxRequests - 1)
  }

  /** The bound of `VisitsWindow` cannot be lowered, whatever the limits. */
  lemma {:induction false} VisitsMeetBound(lim: Limits, ip: Address)
    requires Sensible(lim) && ip != ""
    ensures VisitsClocked(TightRun(lim, ip), 0)
    ensures var from := lim.windowSeconds - 1;
            CountIn(VisitGrants(lim, map[], TightRun(lim, ip), ip), from, from + lim.windowSeconds)
            == if lim.windowSeconds == 1 then lim.maxRequests else 2 * lim.maxRequests - 1
  {
    if lim.windowSeconds == 1 {
      OneSecondMeetsBound(lim, ip);
    } else {
      LongWindowMeetsBound(lim, ip);
    }
  }

  lemma {:induction false} OneSecondMeetsBound(lim: Limits, ip: Address)
    requires Sensible(lim) && lim.windowSeconds == 1 && ip != ""
    ensures var vs := [Ask(ip, 0)] + Asks(ip, 0, lim.maxRequests - 1);
            VisitsClocked(vs, 0) && CountIn(VisitGrants(lim, map[], vs, ip), 0, 1) == lim.maxRequests
  {
    var n := lim.maxRequests - 1;
    var t: Table := map[ip := Client(0, 1, 0, 0)];
    var t' := t[ip := Client(0, 1 + n, 0, 0)];
    assert map[][ip := Client(0, 1, 0, 0)] == t;
    OneAsk(lim, map[], ip, 0, Asks(ip, 0, n));
    assert Asks(ip, 0, n) + [] == Asks(ip, 0, n);
    Burst(lim, t, ip, 0, n, []);
    assert VisitGrants(lim, t', [], ip) == [];
    AsksClocked(ip, 0, n, [], 0);
    AskIs(ip, 0);
    CountRepeat(0, n, [], 0, 1);
    NothingIn(0, 1);
    hide VisitGrants, Asks, Repeat, Ask;
    assert ([Ask(ip, 0)] + Asks(ip, 0, n))[1..] == Asks(ip, 0, n);
    assert Repeat(0, n) + [] == Repeat(0, n);
    assert ([0] + Repeat(0, n))[1..] == Repeat(0, n);
  }

  lemma {:induction false} LongWindowMeetsBound(lim: Limits, ip: Address)
    requires Sensible(lim) && 2 <= lim.windowSeconds && ip != ""
    ensures var vs := [Ask(ip, 0)] + TightVisits(lim, ip, lim.maxRequests - 1);
            var from := lim.windowSeconds - 1;
            && VisitsClocked(vs, 0)
            && CountIn(VisitGrants(lim, map[], vs, ip), from, from + lim.windowSeconds) == 2 * lim.maxRequests - 1
  {
    var tight := TightVisits(lim, ip, lim.maxRequests - 1);
    var t: Table := map[ip := Client(0, 1, 0, 0)];
    assert map[][ip := Client(0, 1, 0, 0)] == t;
    OneAsk(lim, map[], ip, 0, tight);
    TightGrants(lim, t, ip, lim.maxRequests - 1);
    hide VisitGrants, TightVisits, Ask;
    assert ([Ask(ip, 0)] + tight)[1..] == tight;
    var more := VisitGrants(lim, t, tight, ip);
    assert ([0] + more)[1..] == more;
    assert VisitClocked(Ask(ip, 0), 0) && Ask(ip, 0).recordStamp == 0 by { AskIs(ip, 0); }
  }

  lemma AskIs(ip: Address, at: int)
    ensures VisitClocked(Ask(ip, at), at) && Ask(ip, at).recordStamp == at
  {
  }

  /** Nor that of `TwoWindowsBound` in windows of two seconds or more, for callers free to look an
      address up before it asks: a lock check opens the window, which then grants its whole
      quota at its end. */
  lemma {:induction false} TwoWindowsBoundIsMet(lim: Limits, ip: Address)
    requires Sensible(lim) && 2 <= lim.windowSeconds && ip != ""
    ensures var met: Table := map[ip := Client(0, 0, 0, 0)];
            var ops := [CheckLock(ip, 0, 0)] + VisitsOps(lim, met, TightVisits(lim, ip, lim.maxRequests));
            var from := lim.windowSeconds - 1;
            && Clocked(ops, 0)
            && CountIn(Granted(lim, map[], ops, ip), from, from + lim.windowSeconds) == 2 * lim.maxRequests
  {
    var met: Table := map[ip := Client(0, 0, 0, 0)];
    var tight := TightVisits(lim, ip, lim.maxRequests);
    hide TightVisits, VisitsOps, Granted, Clocked, CountIn;
    TightGrants(lim, met, ip, lim.maxRequests);
    VisitsOpsClocked(lim, met, tight, 0);
    LockCheckFirst(lim, ip, VisitsOps(lim, met, tight));
  }

  lemma LockCheckFirst(lim: Limits, ip: Address, calls: seq<Op>)
    requires ip != "" && Clocked(calls, 0)
    ensures Clocked([CheckLock(ip, 0, 0)] + calls, 0)
    ensures Granted(lim, map[], [CheckLock(ip, 0, 0)] + calls, ip)
         == Granted(lim, map[ip := Client(0, 0, 0, 0)], calls, ip)
  {
    var ops, met: Table := [CheckLock(ip, 0, 0)] + calls, map[ip := Client(0, 0, 0, 0)];
    assert Apply(lim, map[], CheckLock(ip, 0, 0)) == met;
    hide Apply;
    assert ops[1..] == calls && ops[0] == CheckLock(ip, 0, 0);
    assert [] + Granted(lim, met, calls, ip) == Granted(lim, met, calls, ip);
  }

  // ----- Failures in a row -----

  /** The failure times of one address since its last success, after one more visit. */
  function StreakAfter(lim: Limits, t: Table, v: Visit, ip: Address, streak: seq<int>): seq<int>
  {
    if v.ip != ip || !Allowed(lim, t, Allow(v.ip, v.now, v.stamp)) then streak
    else match v.verdict
         case NoAuth => streak
         case AuthOk => []
         case AuthFailed => streak + [v.recordAt]
  }

  function Streak(lim: Limits, t: Table, vs: seq<Visit>, ip: Address, streak: seq<int>): seq<int>
    decreases |vs|
  {
    if vs == [] then streak
    else Streak(lim, VisitTable(lim, t, vs[0]), vs[1..], ip, StreakAfter(lim, t, vs[0], ip, streak))
  }

  /** From the fifth failure on, the next one keeps the distance the lockout enforces. */
  predicate Spaced(lim: Limits, f: seq<int>)
  {
    forall i :: 4 <= i < |f| - 1 ==> f[i] + lim.lockoutSeconds * Backoff(i + 1) <= f[i + 1]
  }

  predicate StreakInv(lim: Limits, t: Table, ip: Address, f: seq<int>)
  {
    && Spaced(lim, f)
    && if ip in t
       then ip != "" && t[ip].failedAuth == |f|
            && t[ip].lockedUntil == if 5 <= |f| then f[|f| - 1] + lim.lockoutSeconds * Backoff(|f|) else 0
       else f == []
  }

  lemma VisitKeepsStreak(lim: Limits, t: Table, v: Visit, ip: Address, f: seq<int>)
    requires StreakInv(lim, t, ip, f) && VisitClocked(v, v.now)
    ensures StreakInv(lim, VisitTable(lim, t, v), ip, StreakAfter(lim, t, v, ip, f))
  {
    VisitEffect(lim, t, v);
    hide VisitTable, VisitOps, Run, LockLeft;
    var ask := Allow(v.ip, v.now, v.stamp);
    var asked := Apply(lim, t, ask);
    if v.ip == ip && Reaches(t, ip) {
      var c := ClientOf(t, ip, v.stamp);
      assert asked[ip].failedAuth == c.failedAuth == |f| && asked[ip].lockedUntil == c.lockedUntil;
    }
  }

  lemma {:induction false} VisitsKeepStreak(lim: Limits, t: Table, vs: seq<Visit>, ip: Address, f: seq<int>, clock: int)
    requires StreakInv(lim, t, ip, f) && VisitsClocked(vs, clock)
    ensures StreakInv(lim, Visits(lim, t, vs), ip, Streak(lim, t, vs, ip, f))
    decreases |vs|
  {
    if vs != [] {
      VisitKeepsStreak(lim, t, vs[0], ip, f);
      hide VisitTable, StreakAfter, StreakInv;
      VisitsKeepStreak(lim, VisitTable(lim, t, vs[0]), vs[1..], ip,
                       StreakAfter(lim, t, vs[0], ip, f), vs[0].recordStamp);
    }
  }

  /** The least time from the fifth failure to the k-th. */
  function LockoutTime(lim: Limits, k: nat): int
  {
    if k <= 5 then 0 else LockoutTime(lim, k - 1) + lim.lockoutSeconds * Backoff(k - 1)
  }

  lemma {:induction false} LockoutTimeClosed(lim: Limits, k: nat)
    requires 9 <= k
    ensures LockoutTime(lim, k) == lim.lockoutSeconds * (10 + 5 * (k - 9))
  {
    var l := lim.lockoutSeconds;
    if k == 9 {
      assert LockoutTime(lim, 6) == l * 1;
      assert LockoutTime(lim, 7) == l * 1 + l * 2;
      assert LockoutTime(lim, 8) == l * 1 + l * 2 + l * 3;
    } else {
      LockoutTimeClosed(lim, k - 1);
      assert l * (10 + 5 * (k - 1 - 9)) + l * 5 == l * (10 + 5 * (k - 9));
    }
  }

  lemma {:induction false} SpacedTakes(lim: Limits, f: seq<int>, k: nat)
    requires Spaced(lim, f) && 5 <= k <= |f|
    ensures f[k - 1] - f[4] >= LockoutTime(lim, k)
  {
    if k > 5 {
      SpacedTakes(lim, f, k - 1);
      assert f[k - 2] + lim.lockoutSeconds * Backoff(k - 1) <= f[k - 1];
    }
  }

  /** The lockout's arithmetic over whole gateway runs: of k >= 9 failures of one address with
      no success between, the k-th comes at least lockout * (10 + 5 * (k - 9)) seconds after
      the fifth, whatever other addresses do in between. */
  lemma {:induction false} LockoutArithmetic(lim: Limits, vs: seq<Visit>, ip: Address, start: int, k: nat)
    requires Sensible(lim) && VisitsClocked(vs, start)
    requires 9 <= k <= |Streak(lim, map[], vs, ip, [])|
    ensures var f := Streak(lim, map[], vs, ip, []);
            f[k - 1] - f[4] >= lim.lockoutSeconds * (10 + 5 * (k - 9))
  {
    VisitsKeepStreak(lim, map[], vs, ip, [], start);
    SpacedTakes(lim, Streak(lim, map[], vs, ip, []), k);
    LockoutTimeClosed(lim, k);
  }

  /** With failures at the times f: at x the lock check answers the seconds left, and the
      limiter refuses a request without counting it, exactly while there are 5 failures or more
      and x is less than the last one's time + lockout * (n - 4), or + lockout * 5 from the ninth
      on. Any other request is granted exactly while its window has room. */
  predicate LockDecides(lim: Limits, t: Table, f: seq<int>, ip: Address, x: int, stamp: int)
  {
    var n, c := |f|, ClientOf(t, ip, stamp);
    var left := if n < 5 then 0 else f[n - 1] + lim.lockoutSeconds * (if n >= 9 then 5 else n - 4) - x;
    if n >= 5 && 0 < left then
      && LockLeft(t, CheckLock(ip, x, stamp)) == Some(left)
      && !Allowed(lim, t, Allow(ip, x, stamp)) && Apply(lim, t, Allow(ip, x, stamp)) == t
    else
      && LockLeft(t, CheckLock(ip, x, stamp)) == None
      && (Reaches(t, ip) ==>
            (Allowed(lim, t, Allow(ip, x, stamp))
             <==> x - c.windowStart >= lim.windowSeconds || c.requestCount < lim.maxRequests))
  }

  /** The lock after every single failure, over any series of visits: the failures of an address
      since its last success decide it. */
  lemma {:induction false} LockAfterFailures(lim: Limits, vs: seq<Visit>, ip: Address, start: int, x: nat, stamp: int)
    requires Sensible(lim) && VisitsClocked(vs, start)
    ensures LockDecides(lim, Visits(lim, map[], vs), Streak(lim, map[], vs, ip, []), ip, x, stamp)
  {
    var t, f := Visits(lim, map[], vs), Streak(lim, map[], vs, ip, []);
    VisitsKeepStreak(lim, map[], vs, ip, [], start);
    hide Visits, Streak, VisitsClocked, Spaced;
    assert StreakInv(lim, t, ip, f);
    if ip in t {
      assert t[ip := t[ip]] == t;
    }
  }

  // ----- A run of failures that meets it -----

  /** The i-th failure's time, counted from 0: the first five a window apart, every later one
      at the end of the lock. */
  function FailTime(lim: Limits, i: nat): int
  {
    if i == 0 then 0
    else FailTime(lim, i - 1) + if i < 5 then lim.windowSeconds else lim.lockoutSeconds * Backoff(i)
  }

  function Fail(ip: Address, at: int): Visit
  {
    Visit(ip, at, at, at, at, AuthFailed, at, at)
  }

  function Fails(lim: Limits, ip: Address, k: nat): seq<Visit>
  {
    if k == 0 then [] else Fails(lim, ip, k - 1) + [Fail(ip, FailTime(lim, k - 1))]
  }

  function FailTimes(lim: Limits, k: nat): seq<int>
  {
    if k == 0 then [] else FailTimes(lim, k - 1) + [FailTime(lim, k - 1)]
  }

  lemma {:induction false} FailTimesAre(lim: Limits, k: nat)
    ensures |FailTimes(lim, k)| == k && forall i :: 0 <= i < k ==> FailTimes(lim, k)[i] == FailTime(lim, i)
  {
    if k > 0 {
      FailTimesAre(lim, k - 1);
    }
  }

  /** Failures come apart by a window, or by a lockout at least. */
  lemma {:induction false} FailGap(lim: Limits, i: nat)
    requires Sensible(lim)
    ensures 0 <= FailTime(lim, i)
    ensures 0 < i ==>
              FailTime(lim, i - 1) + (if i < 5 then lim.windowSeconds else lim.lockoutSeconds) <= FailTime(lim, i)
  {
    if i > 0 {
      FailGap(lim, i - 1);
      assert i >= 5 ==> lim.lockoutSeconds * Backoff(i) >= lim.lockoutSeconds * 1;
    }
  }

  /** The quota of the limiter does not come before its lockout: the window is no longer than
      the lockout, or it has room for all the failures. */
  predicate QuotaLeaves(lim: Limits, k: nat)
  {
    lim.windowSeconds <= lim.lockoutSeconds || k <= lim.maxRequests
  }

  /** The client after k failures in a row. */
  predicate FailedClient(lim: Limits, c: Client, k: nat)
    requires 0 < k
  {
    && c.failedAuth == k && c.lockedUntil == (if k < 5 then 0 else FailTime(lim, k))
    && 1 <= c.requestCount <= k && c.windowStart <= FailTime(lim, k - 1)
    && (lim.windowSeconds <= lim.lockoutSeconds ==> c.requestCount == 1)
  }

  lemma NextFails(lim: Limits, t: Table, ip: Address, k: nat)
    requires Sensible(lim) && ip != "" && QuotaLeaves(lim, k + 1)
    requires if k == 0 then t == map[] else ip in t && FailedClient(lim, t[ip], k)
    ensures var v := Fail(ip, FailTime(lim, k));
            && Allowed(lim, t, Allow(ip, v.now, v.stamp))
            && ip in VisitTable(lim, t, v) && FailedClient(lim, VisitTable(lim, t, v)[ip], k + 1)
  {
    var at := FailTime(lim, k);
    var v := Fail(ip, at);
    FailGap(lim, k);
    FailGap(lim, k + 1);
    VisitEffect(lim, t, v);
    hide VisitTable, VisitOps;
    var c := ClientOf(t, ip, at);
    assert Reaches(t, ip) && c.lockedUntil <= at;
    var d := Counted(lim, c, at);
    assert d.requestCount <= k + 1 && d.windowStart <= at;
    assert lim.windowSeconds <= lim.lockoutSeconds ==> d.requestCount == 1;
    assert FailTime(lim, k + 1) == at + if k + 1 < 5 then lim.windowSeconds else lim.lockoutSeconds * Backoff(k + 1);
  }

  lemma {:induction false} StreakSnoc(lim: Limits, t: Table, vs: seq<Visit>, v: Visit, ip: Address, streak: seq<int>)
    ensures Streak(lim, t, vs + [v], ip, streak)
         == StreakAfter(lim, Visits(lim, t, vs), v, ip, Streak(lim, t, vs, ip, streak))
    decreases |vs|
  {
    hide VisitTable, StreakAfter;
    if vs == [] {
      assert [] + [v] == [v];
      var t', s' := VisitTable(lim, t, v), StreakAfter(lim, t, v, ip, streak);
      assert [v][1..] == [] && Streak(lim, t', [], ip, s') == s';
    } else {
      assert (vs + [v])[1..] == vs[1..] + [v];
      StreakSnoc(lim, VisitTable(lim, t, vs[0]), vs[1..], v, ip, StreakAfter(lim, t, vs[0], ip, streak));
    }
  }

  lemma {:induction false} FailsRun(lim: Limits, ip: Address, k: nat)
    requires Sensible(lim) && ip != "" && QuotaLeaves(lim, k)
    ensures var t := Visits(lim, map[], Fails(lim, ip, k));
            if k == 0 then t == map[] else ip in t && FailedClient(lim, t[ip], k)
    ensures VisitsClocked(Fails(lim, ip, k), 0)
    ensures VisitsEnd(Fails(lim, ip, k), 0) == if k == 0 then 0 else FailTime(lim, k - 1)
    ensures Streak(lim, map[], Fails(lim, ip, k), ip, []) == FailTimes(lim, k)
  {
    hide Fails, FailTimes, FailedClient, Visits, Streak, VisitsClocked, FailTime;
    if k == 0 {
      NoFails(lim, ip);
    } else {
      FailsRun(lim, ip, k - 1);
      FailsUnfold(lim, ip, k);
      NextFailRuns(lim, ip, k, Fails(lim, ip, k - 1), FailTime(lim, k - 1));
    }
  }

  lemma NoFails(lim: Limits, ip: Address)
    ensures Fails(lim, ip, 0) == [] && FailTimes(lim, 0) == [] && Visits(lim, map[], []) == map[]
    ensures VisitsClocked([], 0) && Streak(lim, map[], [], ip, []) == []
  {
  }

  lemma FailsUnfold(lim: Limits, ip: Address, k: nat)
    requires 0 < k
    ensures Fails(lim, ip, k) == Fails(lim, ip, k - 1) + [Fail(ip, FailTime(lim, k - 1))]
    ensures FailTimes(lim, k) == FailTimes(lim, k - 1) + [FailTime(lim, k - 1)]
  {
  }

  lemma NextFailRuns(lim: Limits, ip: Address, k: nat, vs: seq<Visit>, at: int)
    requires Sensible(lim) && ip != "" && QuotaLeaves(lim, k) && 0 < k && at == FailTime(lim, k - 1)
    requires var t := Visits(lim, map[], vs);
             if k == 1 then t == map[] else ip in t && FailedClient(lim, t[ip], k - 1)
    requires VisitsClocked(vs, 0) && VisitsEnd(vs, 0) == if k == 1 then 0 else FailTime(lim, k - 2)
    ensures var after := vs + [Fail(ip, at)];
            && ip in Visits(lim, map[], after) && FailedClient(lim, Visits(lim, map[], after)[ip], k)
            && VisitsClocked(after, 0) && VisitsEnd(after, 0) == at
            && Streak(lim, map[], after, ip, []) == Streak(lim, map[], vs, ip, []) + [at]
  {
    var v, t := Fail(ip, at), Visits(lim, map[], vs);
    FailGap(lim, k - 1);
    FailIsClocked(ip, at);
    hide FailedClient, Allowed, Visits, VisitTable, Streak, VisitsClocked, FailTime;
    NextFails(lim, t, ip, k - 1);
    VisitsSnoc(lim, map[], vs, v);
    StreakSnoc(lim, map[], vs, v, ip, []);
    VisitsClockedSnoc(vs, 0, v);
  }

  lemma FailIsClocked(ip: Address, at: int)
    ensures VisitClocked(Fail(ip, at), at)
  {
  }

  lemma {:induction false} FailTimeIsLockoutTime(lim: Limits, k: nat)
    requires 5 <= k
    ensures FailTime(lim, k - 1) - FailTime(lim, 4) == LockoutTime(lim, k)
  {
    if k > 5 {
      FailTimeIsLockoutTime(lim, k - 1);
    }
  }

  /** The bound of `LockoutArithmetic` cannot be raised: where the quota leaves room, a series of
      k failures keeps no more than that distance. */
  lemma {:induction false} LockoutIsMet(lim: Limits, ip: Address, k: nat)
    requires Sensible(lim) && ip != "" && QuotaLeaves(lim, k) && 9 <= k
    ensures VisitsClocked(Fails(lim, ip, k), 0)
    ensures var f := Streak(lim, map[], Fails(lim, ip, k), ip, []);
            |f| == k && f[k - 1] - f[4] == lim.lockoutSeconds * (10 + 5 * (k - 9))
  {
    FailsRun(lim, ip, k);
    FailTimesAre(lim, k);
    FailTimeIsLockoutTime(lim, k);
    LockoutTimeClosed(lim, k);
  }
}
