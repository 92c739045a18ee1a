/** Whole histories of the rate limiter: how many requests any stretch of time admits, and how
    long a run of failures takes. */
module RateHistory {
  import opened RateLimit

  // ----- The table over any run -----

  /** One call touches one address: every other client stays as it is, nobody is forgotten, a
      newcomer is taken while there is room, and a full table of 128 takes none and refuses
      him. */
  lemma {:induction false} CallIsLocal(lim: Limits, t: Table, op: Op, other: Address)
    requires |t| <= 128
    ensures t.Keys <= Apply(lim, t, op).Keys && |Apply(lim, t, op)| <= 128
    ensures other != op.ip ==>
              (other in Apply(lim, t, op) <==> other in t)
              && (other in t ==> Apply(lim, t, op)[other] == t[other])
    ensures op.ip != "" && |t| < 128 ==> op.ip in Apply(lim, t, op)
    ensures op.ip !in t && |t| == 128 ==>
              Apply(lim, t, op) == t && (op.Allow? ==> !Allowed(lim, t, op))
  {
    var after := Apply(lim, t, op);
    if Reaches(t, op.ip) {
      assert after.Keys == t.Keys + {op.ip};
      assert op.ip in t ==> after.Keys == t.Keys;
      assert |after| == |after.Keys| && |t| == |t.Keys|;
    }
  }

  lemma {:induction false} RunKeepsClients(lim: Limits, t: Table, ops: seq<Op>)
    requires |t| <= 128
    ensures t.Keys <= Run(lim, t, ops).Keys && |Run(lim, t, ops)| <= 128
    decreases |ops|
  {
    if ops != [] {
      CallIsLocal(lim, t, ops[0], "");
      RunKeepsClients(lim, Apply(lim, t, ops[0]), ops[1..]);
    }
  }

  // ----- The clock -----

  /** The reading a call compares with. */
  function Reading(op: Op): int
  {
    if op.Success? then op.stamp else op.now
  }

  /** No reading precedes `clock`, and readings never go back. */
  predicate Clocked(ops: seq<Op>, clock: int)
    decreases |ops|
  {
    ops == [] || (clock <= Reading(ops[0]) <= ops[0].stamp && Clocked(ops[1..], ops[0].stamp))
  }

  function LastReading(ops: seq<Op>, clock: int): int
  {
    if ops == [] then clock else ops[|ops| - 1].stamp
  }

  // ----- Requests per window -----

  /** The times at which the requests of one address were granted, in order. */
  function Granted(lim: Limits, t: Table, ops: seq<Op>, ip: Address): seq<int>
    decreases |ops|
  {
    if ops == [] then []
    else GrantedBy(lim, t, ops[0], ip) + Granted(lim, Apply(lim, t, ops[0]), ops[1..], ip)
  }

  function GrantedBy(lim: Limits, t: Table, op: Op, ip: Address): seq<int>
  {
    if op.Allow? && op.ip == ip && Allowed(lim, t, op) then [op.now] else []
  }

  function Least(a: int, b: int): int
  {
    if a < b then a else b
  }

  /** Of the grants, ordered in time, any `span` + 1 consecutive ones span a window at least. */
  predicate Spread(lim: Limits, g: seq<int>, span: nat)
  {
    && (forall i, j :: 0 <= i <= j < |g| ==> g[i] <= g[j])
    && (forall i, j :: 0 <= i && j < |g| && j - i >= span ==> g[i] + lim.windowSeconds <= g[j])
  }

  type Opening = n: nat | n <= 1 witness 0

  /** The most grants an interval of one window's length can hold: those of two windows, less
      the request that opened the first; a window of one second is one reading long. */
  function Span(lim: Limits, opening: Opening): nat
    requires Sensible(lim)
  {
    if lim.windowSeconds == 1 then lim.maxRequests else 2 * lim.maxRequests - opening
  }

  /** What a run so far says about the client it left: the last `here` grants belong to the
      open window, the maxRequests before them at most to the one before, and all earlier
      ones lie a window or more before the open one. `opening` is 1 where every window is
      opened by a granted request: then the first grant of each is no later than its start. */
  predicate WindowInv(lim: Limits, c: Client, g: seq<int>, clock: int, opening: Opening)
    requires Sensible(lim)
  {
    var max, here := lim.maxRequests, Least(c.requestCount, lim.maxRequests);
    && Spread(lim, g, Span(lim, opening))
    && opening <= c.requestCount && here <= |g|
    && (forall j :: 0 <= j < |g| ==> g[j] <= clock)
    && (forall j :: 0 <= j < |g| ==> g[j] < c.windowStart + lim.windowSeconds)
    && (forall j :: 0 <= j < |g| - here ==> g[j] < c.windowStart)
    && (forall j :: 0 <= j < |g| - here + opening ==> g[j] <= c.windowStart)
    && (forall j :: 0 <= j < |g| - here - max + opening ==> g[j] + lim.windowSeconds <= c.windowStart)
    && (here < |g| + opening ==> c.windowStart <= clock)
  }

  lemma SpreadSnoc(lim: Limits, g: seq<int>, span: nat, now: int)
    requires Spread(lim, g, span) && 0 < span && forall j :: 0 <= j < |g| ==> g[j] <= now
    requires forall j :: 0 <= j <= |g| - span ==> g[j] + lim.windowSeconds <= now
    ensures Spread(lim, g + [now], span)
  {
  }

  /** A request that opens the next window. */
  lemma OpeningKeepsWindow(lim: Limits, c: Client, g: seq<int>, clock: int, opening: Opening, now: int)
    requires Sensible(lim) && WindowInv(lim, c, g, clock, opening)
    requires clock <= now && now - c.windowStart >= lim.windowSeconds
    ensures WindowInv(lim, c.(windowStart := now, requestCount := 1), g + [now], now, opening)
  {
    SpreadSnoc(lim, g, Span(lim, opening), now);
    hide Spread, Span;
  }

  /** A request that stays within the open window's quota. */
  lemma InsideKeepsWindow(lim: Limits, c: Client, g: seq<int>, clock: int, opening: Opening, now: int)
    requires Sensible(lim) && WindowInv(lim, c, g, clock, opening) && clock <= now
    requires now - c.windowStart < lim.windowSeconds && c.requestCount < lim.maxRequests
    ensures WindowInv(lim, c.(requestCount := c.requestCount + 1), g + [now], now, opening)
  {
    SpreadSnoc(lim, g, Span(lim, opening), now);
    hide Spread, Span;
  }

  lemma {:induction false} GrantKeepsWindow(lim: Limits, c: Client, g: seq<int>, clock: int, opening: Opening, now: int)
    requires Sensible(lim) && WindowInv(lim, c, g, clock, opening)
    requires clock <= now && c.lockedUntil <= now
    ensures var d := Counted(lim, c, now);
            WindowInv(lim, d, if d.requestCount <= lim.maxRequests then g + [now] else g, now, opening)
  {
    hide WindowInv;
    if now - c.windowStart >= lim.windowSeconds {
      OpeningKeepsWindow(lim, c, g, clock, opening, now);
    } else if c.requestCount < lim.maxRequests {
      InsideKeepsWindow(lim, c, g, clock, opening, now);
    } else {
      RefusalKeepsWindow(lim, c, g, clock, opening, now);
    }
  }

  /** A request beyond the open window's quota. */
  lemma RefusalKeepsWindow(lim: Limits, c: Client, g: seq<int>, clock: int, opening: Opening, now: int)
    requires Sensible(lim) && WindowInv(lim, c, g, clock, opening)
    requires clock <= now && lim.maxRequests <= c.requestCount
    ensures WindowInv(lim, c.(requestCount := c.requestCount + 1), g, now, opening)
  {
    assert Least(c.requestCount + 1, lim.maxRequests) == Least(c.requestCount, lim.maxRequests);
    hide Spread, Span, Least;
  }

  /** The request that makes a client opens its first window. */
  lemma FirstGrant(lim: Limits, now: int, stamp: int)
    requires Sensible(lim) && 0 <= now <= stamp
    ensures Counted(lim, Client(stamp, 0, 0, 0), now) == Client(stamp, 1, 0, 0)
    ensures WindowInv(lim, Client(stamp, 1, 0, 0), [now], stamp, 1)
  {
  }

  ghost predicate HistoryInv(lim: Limits, t: Table, g: seq<int>, ip: Address, clock: int, opening: Opening)
  {
    && Sensible(lim) && Spread(lim, g, Span(lim, opening))
    && if ip in t then WindowInv(lim, t[ip], g, clock, opening) else g == []
  }

  lemma WindowLater(lim: Limits, c: Client, d: Client, g: seq<int>, clock: int, opening: Opening, later: int)
    requires Sensible(lim) && WindowInv(lim, c, g, clock, opening) && clock <= later
    requires d.windowStart == c.windowStart && d.requestCount == c.requestCount
    ensures WindowInv(lim, d, g, later, opening)
  {
  }

  lemma CallKeepsWindow(lim: Limits, c: Client, op: Op, g: seq<int>, clock: int, opening: Opening)
    requires Sensible(lim) && WindowInv(lim, c, g, clock, opening) && Clocked([op], clock)
    ensures var granted := op.Allow? && c.lockedUntil <= op.now
                           && Counted(lim, c, op.now).requestCount <= lim.maxRequests;
            WindowInv(lim, After(lim, c, op), if granted then g + [op.now] else g, op.stamp, opening)
  {
    var d := After(lim, c, op);
    if op.Allow? && c.lockedUntil <= op.now {
      GrantKeepsWindow(lim, c, g, clock, opening, op.now);
      hide WindowInv;
      WindowLater(lim, d, d, if d.requestCount <= lim.maxRequests then g + [op.now] else g, op.now, opening, op.stamp);
    } else {
      hide WindowInv;
      WindowLater(lim, c, d, g, clock, opening, op.stamp);
    }
  }

  /** Whether a call may meet an address without a client: any call, or only a request. */
  predicate MayMeet(t: Table, op: Op, opening: Opening)
  {
    opening == 1 ==> op.ip in t || op.Allow?
  }

  lemma CallKeepsHistory(lim: Limits, t: Table, op: Op, g: seq<int>, ip: Address, clock: int, opening: Opening)
    requires HistoryInv(lim, t, g, ip, clock, opening) && Clocked([op], clock)
    requires MayMeet(t, op, opening) && (opening == 1 ==> 0 <= clock)
    ensures HistoryInv(lim, Apply(lim, t, op), g + GrantedBy(lim, t, op, ip), ip, op.stamp, opening)
  {
    if op.ip == ip && Reaches(t, ip) {
      var c := ClientOf(t, ip, op.stamp);
      var d, more := After(lim, c, op), g + GrantedBy(lim, t, op, ip);
      assert Apply(lim, t, op)[ip] == d;
      if ip !in t && opening == 1 {
        FirstGrant(lim, op.now, op.stamp);
        assert more == [op.now];
      } else {
        OwnCall(lim, t, op, g, clock, opening);
      }
      hide WindowInv, Spread, Span, After, Counted, GrantedBy;
      WindowSpread(lim, d, more, op.stamp, opening);
    } else {
      hide After, Counted, Spread, Span, WindowInv;
      assert g + [] == g;
      if ip in t {
        WindowLater(lim, t[ip], t[ip], g, clock, opening, op.stamp);
      }
    }
  }

  lemma OwnCall(lim: Limits, t: Table, op: Op, g: seq<int>, clock: int, opening: Opening)
    requires HistoryInv(lim, t, g, op.ip, clock, opening) && Clocked([op], clock)
    requires Reaches(t, op.ip) && (op.ip in t || opening == 0)
    ensures WindowInv(lim, After(lim, ClientOf(t, op.ip, op.stamp), op), g + GrantedBy(lim, t, op, op.ip),
                      op.stamp, opening)
  {
    var c := ClientOf(t, op.ip, op.stamp);
    assert g + [] == g;
    assert WindowInv(lim, c, g, clock, opening) by {
      hide After, Counted, Spread;
    }
    hide WindowInv, Spread, Span, After, Counted;
    CallKeepsWindow(lim, c, op, g, clock, opening);
  }

  lemma WindowSpread(lim: Limits, c: Client, g: seq<int>, clock: int, opening: Opening)
    requires Sensible(lim) && WindowInv(lim, c, g, clock, opening)
    ensures Spread(lim, g, Span(lim, opening))
  {
  }

  lemma GrantsJoin(a: seq<int>, b: seq<int>, c: seq<int>)
    ensures a + (b + c) == a + b + c
  {
  }

  /** An address without a client is met only by requests. */
  predicate AsksFirst(lim: Limits, t: Table, ops: seq<Op>)
    decreases |ops|
  {
    ops != [] ==> (ops[0].ip in t || ops[0].Allow?) && AsksFirst(lim, Apply(lim, t, ops[0]), ops[1..])
  }

  lemma {:induction false} RunKeepsHistory(lim: Limits, t: Table, ops: seq<Op>, g: seq<int>, ip: Address, clock: int,
                                           opening: Opening)
    requires HistoryInv(lim, t, g, ip, clock, opening) && Clocked(ops, clock)
    requires (opening == 1 ==> 0 <= clock && AsksFirst(lim, t, ops))
    ensures HistoryInv(lim, Run(lim, t, ops), g + Granted(lim, t, ops, ip), ip, LastReading(ops, clock), opening)
    decreases |ops|
  {
    hide HistoryInv, Apply, GrantedBy;
    if ops == [] {
      assert g + [] == g;
    } else {
      var op, t' := ops[0], Apply(lim, t, ops[0]);
      var more := GrantedBy(lim, t, op, ip);
      assert Clocked([op], clock);
      assert LastReading(ops, clock) == LastReading(ops[1..], op.stamp);
      hide LastReading;
      CallKeepsHistory(lim, t, op, g, ip, clock, opening);
      RunKeepsHistory(lim, t', ops[1..], g + more, ip, op.stamp, opening);
      GrantsJoin(g, more, Granted(lim, t', ops[1..], ip));
    }
  }

  /** How many of the times fall in [from, to). */
  function CountIn(g: seq<int>, from: int, to: int): nat
  {
    if g == [] then 0 else (if from <= g[0] < to then 1 else 0) + CountIn(g[1..], from, to)
  }

  lemma {:induction false} CountAtMost(g: seq<int>, from: int, to: int, n: nat)
    requires forall j :: n <= j < |g| ==> to <= g[j]
    ensures CountIn(g, from, to) <= n
  {
    if g != [] {
      CountAtMost(g[1..], from, to, if n == 0 then 0 else n - 1);
    }
  }

  lemma {:induction false} SpreadCount(lim: Limits, g: seq<int>, span: nat, from: int)
    requires Spread(lim, g, span)
    ensures CountIn(g, from, from + lim.windowSeconds) <= span
  {
    if g != [] {
      if g[0] < from {
        SpreadCount(lim, g[1..], span, from);
      } else {
        CountAtMost(g, from, from + lim.windowSeconds, span);
      }
    }
  }

  /** Over every run with a clock that does not go back, whatever the other calls and
      addresses do: any half-open interval of one window's length grants one address at most
      2 * maxRequests requests, or maxRequests when the window is one second, and any grants
      one more than these are at least a window apart. */
  lemma {:induction false} TwoWindowsBound(lim: Limits, ops: seq<Op>, ip: Address, start: int, from: int)
    requires Sensible(lim) && Clocked(ops, start)
    ensures var g := Granted(lim, map[], ops, ip);
            && Spread(lim, g, Span(lim, 0))
            && CountIn(g, from, from + lim.windowSeconds)
               <= if lim.windowSeconds == 1 then lim.maxRequests else 2 * lim.maxRequests
  {
    RunKeepsHistory(lim, map[], ops, [], ip, start, 0);
    var g := Granted(lim, map[], ops, ip);
    assert [] + g == g;
    hide Granted, Run, AsksFirst, Clocked, Spread;
    SpreadCount(lim, g, Span(lim, 0), from);
  }

  /** One grant less in longer windows where an address is first met by a request: whoever used
      his whole quota at the end of a window opened that window at its start. */
  lemma {:induction false} AskFirstBound(lim: Limits, ops: seq<Op>, ip: Address, start: nat, from: int)
    requires Sensible(lim) && Clocked(ops, start) && AsksFirst(lim, map[], ops)
    ensures var g := Granted(lim, map[], ops, ip);
            && Spread(lim, g, Span(lim, 1))
            && CountIn(g, from, from + lim.windowSeconds)
               <= if lim.windowSeconds == 1 then lim.maxRequests else 2 * lim.maxRequests - 1
  {
    RunKeepsHistory(lim, map[], ops, [], ip, start, 1);
    var g := Granted(lim, map[], ops, ip);
    assert [] + g == g;
    hide Granted, Run, AsksFirst, Clocked, Spread;
    SpreadCount(lim, g, Span(lim, 1), from);
  }

  // ----- The quota of one window -----

  /** A granted request and the start of the window it was counted in. */
  datatype Grant = Grant(at: int, window: int)

  function GrantOf(lim: Limits, t: Table, op: Op, ip: Address): seq<Grant>
  {
    if GrantedBy(lim, t, op, ip) == [] then []
    else [Grant(op.now, Counted(lim, ClientOf(t, ip, op.stamp), op.now).windowStart)]
  }

  function Grants(lim: Limits, t: Table, ops: seq<Op>, ip: Address): seq<Grant>
    decreases |ops|
  {
    if ops == [] then [] else GrantOf(lim, t, ops[0], ip) + Grants(lim, Apply(lim, t, ops[0]), ops[1..], ip)
  }

  function Times(gs: seq<Grant>): seq<int>
  {
    seq(|gs|, k requires 0 <= k < |gs| => gs[k].at)
  }

  /** The grants are those of `Granted`, in order. */
  lemma {:induction false} GrantsAreGranted(lim: Limits, t: Table, ops: seq<Op>, ip: Address)
    ensures Times(Grants(lim, t, ops, ip)) == Granted(lim, t, ops, ip)
    decreases |ops|
  {
    if ops != [] {
      var more := Grants(lim, Apply(lim, t, ops[0]), ops[1..], ip);
      GrantsAreGranted(lim, Apply(lim, t, ops[0]), ops[1..], ip);
      assert Times(GrantOf(lim, t, ops[0], ip)) == GrantedBy(lim, t, ops[0], ip);
      hide GrantOf, GrantedBy, Apply;
      assert Times(GrantOf(lim, t, ops[0], ip) + more) == Times(GrantOf(lim, t, ops[0], ip)) + Times(more);
    }
  }

  function InWindow(gs: seq<Grant>, w: int): nat
  {
    if gs == [] then 0 else InWindow(gs[..|gs| - 1], w) + (if gs[|gs| - 1].window == w then 1 else 0)
  }

  /** No window grants more than the quota, windows do not overlap, and every grant precedes
      the end of its window. */
  ghost predicate Quota(lim: Limits, gs: seq<Grant>)
  {
    && (forall w :: InWindow(gs, w) <= lim.maxRequests)
    && (forall i, j :: 0 <= i < |gs| && 0 <= j < |gs| && gs[i].window < gs[j].window
          ==> gs[i].window + lim.windowSeconds <= gs[j].window)
    && (forall i :: 0 <= i < |gs| ==> gs[i].at < gs[i].window + lim.windowSeconds)
  }

  ghost predicate QuotaInv(lim: Limits, c: Client, gs: seq<Grant>)
  {
    && Quota(lim, gs) && 0 <= c.requestCount && InWindow(gs, c.windowStart) == Least(c.requestCount, lim.maxRequests)
    && (forall i :: 0 <= i < |gs| ==>
          gs[i].window == c.windowStart || gs[i].window + lim.windowSeconds <= c.windowStart)
  }

  lemma {:induction false} NoneInWindow(gs: seq<Grant>, w: int)
    requires forall i :: 0 <= i < |gs| ==> gs[i].window != w
    ensures InWindow(gs, w) == 0
  {
    if gs != [] {
      NoneInWindow(gs[..|gs| - 1], w);
    }
  }

  lemma {:induction false} GrantKeepsQuota(lim: Limits, c: Client, gs: seq<Grant>, now: int)
    requires Sensible(lim) && QuotaInv(lim, c, gs) && c.lockedUntil <= now
    ensures var d := Counted(lim, c, now);
            QuotaInv(lim, d, if d.requestCount <= lim.maxRequests then gs + [Grant(now, d.windowStart)] else gs)
  {
    hide Quota, InWindow;
    var d := Counted(lim, c, now);
    var g := Grant(now, d.windowStart);
    if d.windowStart != c.windowStart {
      NoneInWindow(gs, d.windowStart);
    }
    if d.requestCount <= lim.maxRequests {
      assert forall i :: 0 <= i < |gs| ==>
        gs[i].window == g.window || gs[i].window + lim.windowSeconds <= g.window;
      QuotaSnoc(lim, gs, g);
      InWindowSnoc(gs, g, g.window);
    }
  }

  lemma QuotaSnoc(lim: Limits, gs: seq<Grant>, g: Grant)
    requires Quota(lim, gs) && 0 < lim.windowSeconds && InWindow(gs, g.window) < lim.maxRequests
    requires forall i :: 0 <= i < |gs| ==>
               gs[i].window == g.window || gs[i].window + lim.windowSeconds <= g.window
    requires g.at < g.window + lim.windowSeconds
    ensures Quota(lim, gs + [g])
  {
    hide InWindow;
    forall w ensures InWindow(gs + [g], w) <= lim.maxRequests {
      InWindowSnoc(gs, g, w);
    }
  }

  lemma InWindowSnoc(gs: seq<Grant>, g: Grant, w: int)
    ensures InWindow(gs + [g], w) == InWindow(gs, w) + (if g.window == w then 1 else 0)
  {
    assert (gs + [g])[..|gs|] == gs;
  }

  ghost predicate TableQuota(lim: Limits, t: Table, gs: seq<Grant>, ip: Address)
  {
    Sensible(lim) && if ip in t then QuotaInv(lim, t[ip], gs) else gs == []
  }

  lemma CallKeepsQuota(lim: Limits, t: Table, op: Op, gs: seq<Grant>, ip: Address)
    requires TableQuota(lim, t, gs, ip)
    ensures TableQuota(lim, Apply(lim, t, op), gs + GrantOf(lim, t, op, ip), ip)
  {
    assert gs + [] == gs;
    if op.ip == ip && Reaches(t, ip) {
      var c := ClientOf(t, ip, op.stamp);
      assert QuotaInv(lim, c, gs);
      if op.Allow? && c.lockedUntil <= op.now {
        GrantKeepsQuota(lim, c, gs, op.now);
        hide QuotaInv;
      }
    }
  }

  lemma {:induction false} RunKeepsQuota(lim: Limits, t: Table, ops: seq<Op>, gs: seq<Grant>, ip: Address)
    requires TableQuota(lim, t, gs, ip)
    ensures TableQuota(lim, Run(lim, t, ops), gs + Grants(lim, t, ops, ip), ip)
    decreases |ops|
  {
    if ops == [] {
      assert gs + [] == gs;
    } else {
      var t', more := Apply(lim, t, ops[0]), GrantOf(lim, t, ops[0], ip);
      CallKeepsQuota(lim, t, ops[0], gs, ip);
      hide TableQuota, Apply, GrantOf;
      RunKeepsQuota(lim, t', ops[1..], gs + more, ip);
      LogsJoin(gs, more, Grants(lim, t', ops[1..], ip));
    }
  }

  lemma LogsJoin(a: seq<Grant>, b: seq<Grant>, c: seq<Grant>)
    ensures a + (b + c) == a + b + c
  {
  }

  /** Over every run, whatever the clock does: one address is granted at most maxRequests
      requests in any one of its windows, and its windows do not overlap. */
  lemma {:induction false} WindowQuota(lim: Limits, ops: seq<Op>, ip: Address)
    requires Sensible(lim)
    ensures Quota(lim, Grants(lim, map[], ops, ip))
    ensures Times(Grants(lim, map[], ops, ip)) == Granted(lim, map[], ops, ip)
  {
    RunKeepsQuota(lim, map[], ops, [], ip);
    GrantsAreGranted(lim, map[], ops, ip);
    assert [] + Grants(lim, map[], ops, ip) == Grants(lim, map[], ops, ip);
  }

  /** When a request that no lock refuses is granted, behind any run: exactly when its window is
      over, or has granted fewer than maxRequests so far. */
  lemma {:induction false} AdmittedIffRoom(lim: Limits, ops: seq<Op>, ip: Address, now: int, stamp: int)
    requires Sensible(lim) && Reaches(Run(lim, map[], ops), ip)
    ensures var t, gs := Run(lim, map[], ops), Grants(lim, map[], ops, ip);
            var c := ClientOf(t, ip, stamp);
            (Allowed(lim, t, Allow(ip, now, stamp))
             <==> && c.lockedUntil <= now
                  && (now - c.windowStart >= lim.windowSeconds || InWindow(gs, c.windowStart) < lim.maxRequests))
  {
    RunKeepsQuota(lim, map[], ops, [], ip);
    var gs := Grants(lim, map[], ops, ip);
    assert [] + gs == gs;
    hide Run, Grants, Quota;
    assert ip !in Run(lim, map[], ops) ==> gs == [] && InWindow(gs, stamp) == 0;
  }

  // ----- Runs in parts -----

  lemma {:induction false} RunAppend(lim: Limits, t: Table, a: seq<Op>, b: seq<Op>)
    ensures Run(lim, t, a + b) == Run(lim, Run(lim, t, a), b)
    decreases |a|
  {
    hide Apply;
    if a == [] {
      assert [] + b == b;
    } else {
      assert (a + b)[1..] == a[1..] + b;
      RunAppend(lim, Apply(lim, t, a[0]), a[1..], b);
    }
  }

  lemma {:induction false} GrantedAppend(lim: Limits, t: Table, a: seq<Op>, b: seq<Op>, ip: Address)
    ensures Granted(lim, t, a + b, ip) == Granted(lim, t, a, ip) + Granted(lim, Run(lim, t, a), b, ip)
    decreases |a|
  {
    hide Apply, GrantedBy;
    if a == [] {
      assert [] + b == b;
      assert [] + Granted(lim, t, b, ip) == Granted(lim, t, b, ip);
    } else {
      assert (a + b)[1..] == a[1..] + b;
      GrantedAppend(lim, Apply(lim, t, a[0]), a[1..], b, ip);
      GrantsJoin(GrantedBy(lim, t, a[0], ip), Granted(lim, Apply(lim, t, a[0]), a[1..], ip),
                 Granted(lim, Run(lim, t, a), b, ip));
    }
  }

  lemma {:induction false} AsksFirstAppend(lim: Limits, t: Table, a: seq<Op>, b: seq<Op>)
    requires AsksFirst(lim, t, a) && AsksFirst(lim, Run(lim, t, a), b)
    ensures AsksFirst(lim, t, a + b)
    decreases |a|
  {
    hide Apply;
    if a == [] {
      assert [] + b == b;
    } else {
      assert (a + b)[1..] == a[1..] + b;
      AsksFirstAppend(lim, Apply(lim, t, a[0]), a[1..], b);
    }
  }

  lemma {:induction false} ClockedAppend(a: seq<Op>, b: seq<Op>, clock: int, mid: int)
    requires Clocked(a, clock) && LastReading(a, clock) <= mid && Clocked(b, mid)
    ensures Clocked(a + b, clock)
    decreases |a|
  {
    if a == [] {
      assert [] + b == b;
      ClockedEarlier(b, mid, clock);
    } else {
      assert (a + b)[1..] == a[1..] + b;
      ClockedAppend(a[1..], b, a[0].stamp, mid);
    }
  }

  lemma ClockedEarlier(ops: seq<Op>, clock: int, earlier: int)
    requires Clocked(ops, clock) && earlier <= clock
    ensures Clocked(ops, earlier)
  {
  }
}
