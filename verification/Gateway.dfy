/** The gates `mikroclaw_run` puts before a gateway request (`src/mikroclaw.c`): rate limit,
    lock check, pairing, task routes, bearer token. */
module Gateways {
  import opened Wrappers
  import opened CText
  import opened RateLimit
  import opened RateHistory
  import opened VisitHistory
  import opened GatewayAuth
  import opened GatewayHeaders

  const CODE_MAX := 64
  const TOKEN_MAX := 128

  /** A request whose request line was parsed; `pairingRequired` is PAIRING_REQUIRED == "1". */
  datatype Inbound = Inbound(verb: CString, path: CString, message: CString, ip: Address,
                             pairingRequired: bool, hasSubagent: bool)

  /** The clock readings of one pass, in the order they are made. */
  datatype Readings = Readings(allow: int, allowStamp: int, lock: int, lockStamp: int,
                               auth: int, record: int, recordStamp: int)

  predicate Ordered(r: Readings, clock: int)
  {
    clock <= r.allow <= r.allowStamp <= r.lock <= r.lockStamp <= r.auth <= r.record <= r.recordStamp
  }

  datatype Reply =
    | Health
    | Heartbeat
    | RateLimited
    | Locked(retryAfter: int)
    | Paired(token: CString)
    | PairRejected
    | TaskRoute
    | Unauthorized
    | Admitted

  predicate IsHealth(q: Inbound)
  {
    q.verb == "GET" && (q.path == "/health" || q.path == "/health/heartbeat")
  }

  predicate IsPair(q: Inbound)
  {
    q.verb == "POST" && q.path == "/pair"
  }

  /** The routes answered by the scheduler, before any bearer check. */
  predicate IsTaskRoute(q: Inbound)
  {
    q.hasSubagent &&
    (((q.verb == "POST" || q.verb == "GET") && q.path == "/tasks")
     || ((q.verb == "DELETE" || q.verb == "GET") && "/tasks/" <= q.path))
  }

  /** The bearer check of PAIRING_REQUIRED exempts two paths, whatever the verb. */
  predicate NeedsToken(q: Inbound)
  {
    q.pairingRequired && q.path != "/health" && q.path != "/pair"
  }

  // ----- What the gates decide, on the history of issued tokens -----

  predicate CarriesCode(q: Inbound, code: CString)
  {
    Header(q.message, "X-Pairing-Code", CODE_MAX) == Some(code)
  }

  predicate CarriesValidToken(q: Inbound, issued: seq<Issue>, ttl: int, now: int)
  {
    var b := Bearer(q.message, TOKEN_MAX);
    b.Some? && b.value != "" && Unexpired(issued, ttl, now, b.value)
  }

  /** The reply to a request the limiter let through. */
  function Decide(q: Inbound, code: CString, ttl: int, issued: seq<Issue>, bytes: seq<nat>, now: int): Reply
  {
    if IsPair(q) then
      if CarriesCode(q, code) && TOKEN_LENGTH <= |bytes| && |LiveIssues(issued, ttl, now)| < MAX_TOKENS
      then Paired(Drawn(bytes)) else PairRejected
    else if IsTaskRoute(q) then TaskRoute
    else if NeedsToken(q) && !CarriesValidToken(q, issued, ttl, now) then Unauthorized
    else Admitted
  }

  /** What the limiter is told about it. */
  function VerdictOf(q: Inbound, reply: Reply): Verdict
  {
    match reply
    case Paired(_) => AuthOk
    case PairRejected => AuthFailed
    case Unauthorized => AuthFailed
    case Admitted => if NeedsToken(q) then AuthOk else NoAuth
    case _ => NoAuth
  }

  function VisitOf(q: Inbound, r: Readings, v: Verdict): Visit
  {
    Visit(q.ip, r.allow, r.allowStamp, r.lock, r.lockStamp, v, r.record, r.recordStamp)
  }

  // ----- The record of a run -----

  /** A request behind the health routes, what the world delivered to it, and its reply. */
  datatype Answer = Answer(q: Inbound, bytes: seq<nat>, r: Readings, reply: Reply)

  function VisitsOf(answers: seq<Answer>): (vs: seq<Visit>)
    ensures |vs| == |answers|
  {
    seq(|answers|, k requires 0 <= k < |answers| =>
      VisitOf(answers[k].q, answers[k].r, VerdictOf(answers[k].q, answers[k].reply)))
  }

  /** The tokens the replies handed out. */
  function Handed(answers: seq<Answer>): seq<Issue>
  {
    if answers == [] then []
    else Handed(answers[..|answers| - 1]) + HandedBy(answers[|answers| - 1])
  }

  function HandedBy(a: Answer): seq<Issue>
  {
    if a.reply.Paired? then [Issue(a.reply.token, a.r.auth)] else []
  }

  /** The reply the gates owe to a request, after what was answered before. */
  function Owed(lim: Limits, code: CString, ttl: int, before: seq<Answer>, a: Answer): Reply
  {
    if !Allowed(lim, Visits(lim, map[], VisitsOf(before)), Allow(a.q.ip, a.r.allow, a.r.allowStamp))
    then RateLimited
    else Decide(a.q, code, ttl, Handed(before), a.bytes, a.r.auth)
  }

  ghost predicate Truthful(lim: Limits, code: CString, ttl: int, answers: seq<Answer>)
  {
    forall m :: 0 <= m < |answers| ==> answers[m].reply == Owed(lim, code, ttl, answers[..m], answers[m])
  }

  /** The limiter's calls are exactly those of the visits, on a clock that never goes back. */
  ghost predicate History(lim: Limits, ops: seq<Op>, visits: seq<Visit>, clock: int)
  {
    && ops == VisitsOps(lim, map[], visits)
    && VisitsClocked(visits, 0) && VisitsEnd(visits, 0) <= clock
  }

  lemma HistoryGrows(lim: Limits, ops: seq<Op>, visits: seq<Visit>, clock: int, v: Visit)
    requires History(lim, ops, visits, clock) && VisitClocked(v, clock)
    ensures History(lim, ops + VisitOps(lim, Visits(lim, map[], visits), v), visits + [v], v.recordStamp)
  {
    hide VisitsOps, VisitOps;
    VisitsOpsSnoc(lim, map[], visits, v);
    VisitsClockedSnoc(visits, 0, v);
  }

  lemma AnswersGrow(lim: Limits, code: CString, ttl: int, answers: seq<Answer>, a: Answer)
    requires Truthful(lim, code, ttl, answers) && a.reply == Owed(lim, code, ttl, answers, a)
    ensures Truthful(lim, code, ttl, answers + [a])
  {
    var more := answers + [a];
    hide Owed;
    forall m | 0 <= m < |more| ensures more[m].reply == Owed(lim, code, ttl, more[..m], more[m]) {
      assert more[..m] == answers[..m];
    }
  }

  lemma RecordsGrow(answers: seq<Answer>, a: Answer)
    ensures Handed(answers + [a]) == Handed(answers) + HandedBy(a)
    ensures VisitsOf(answers + [a]) == VisitsOf(answers) + [VisitOf(a.q, a.r, VerdictOf(a.q, a.reply))]
  {
    var more := answers + [a];
    hide HandedBy, VerdictOf;
    assert more[..|more| - 1] == answers;
  }

  class Gateway {
    const limiter: RateLimiter
    const auth: TokenTable
    ghost var answers: seq<Answer>
    ghost var clock: int

    /** The limiter went through exactly the recorded visits, the token table handed out
        exactly the tokens of the recorded replies, and every reply was the one owed. */
    ghost predicate Valid()
      reads this, limiter, limiter.entries, auth, auth.entries
    {
      && limiter.Valid() && auth.Valid() && auth.clock <= clock
      && History(limiter.limits, limiter.ops, VisitsOf(answers), clock)
      && auth.issued == Handed(answers)
      && Truthful(limiter.limits, auth.pairingCode, auth.ttl, answers)
    }

    constructor (limiter: RateLimiter, auth: TokenTable)
      requires limiter.Valid() && limiter.ops == [] && auth.Valid() && auth.issued == [] && 0 <= auth.clock
      ensures Valid() && answers == [] && this.limiter == limiter && this.auth == auth
    {
      this.limiter := limiter;
      this.auth := auth;
      answers := [];
      clock := auth.clock;
    }

    /** One request through the gates. Apart from the health routes, which touch nothing: the
        limiter sees exactly the calls of one visit, a refused request changes no token, and
        everyone else is answered as the history of issued tokens says. */
    method Handle(q: Inbound, bytes: seq<nat>, r: Readings) returns (reply: Reply)
      requires Valid() && Ordered(r, clock)
      modifies this`answers, this`clock, limiter, limiter.entries, auth`issued, auth`clock, auth.entries
      ensures Valid()
      ensures q.verb == "GET" && (q.path == "/health" || q.path == "/health/heartbeat") ==>
                && reply == (if q.path == "/health" then Health else Heartbeat) && answers == old(answers)
                && auth.issued == old(auth.issued)
                && limiter.Now() == old(limiter.Now()) && limiter.ops == old(limiter.ops)
      ensures !(q.verb == "GET" && (q.path == "/health" || q.path == "/health/heartbeat")) ==>
                && reply == (if !Allowed(limiter.limits, old(limiter.Now()), Allow(q.ip, r.allow, r.allowStamp))
                             then RateLimited
                             else Decide(q, auth.pairingCode, auth.ttl, old(auth.issued), bytes, r.auth))
                && answers == old(answers) + [Answer(q, bytes, r, reply)]
                && auth.issued == old(auth.issued) + (if reply.Paired? then [Issue(reply.token, r.auth)] else [])
                && limiter.ops == old(limiter.ops)
                     + VisitOps(limiter.limits, old(limiter.Now()), VisitOf(q, r, VerdictOf(q, reply)))
    {
      if IsHealth(q) {
        return if q.path == "/health" then Health else Heartbeat;
      }
      hide Valid, Ordered;
      reply := PassGates(q, bytes, r);
    }

    /** Everything behind the health routes. */
    method PassGates(q: Inbound, bytes: seq<nat>, r: Readings) returns (reply: Reply)
      requires Valid() && Ordered(r, clock)
      modifies this`answers, this`clock, limiter, limiter.entries, auth`issued, auth`clock, auth.entries
      ensures Valid()
      ensures reply == (if !Allowed(limiter.limits, old(limiter.Now()), Allow(q.ip, r.allow, r.allowStamp))
                        then RateLimited
                        else Decide(q, auth.pairingCode, auth.ttl, old(auth.issued), bytes, r.auth))
      ensures answers == old(answers) + [Answer(q, bytes, r, reply)]
      ensures auth.issued == old(auth.issued) + (if reply.Paired? then [Issue(reply.token, r.auth)] else [])
      ensures limiter.ops == old(limiter.ops)
                + VisitOps(limiter.limits, old(limiter.Now()), VisitOf(q, r, VerdictOf(q, reply)))
    {
      hide History, Truthful, Handed, Decide, Faithful, Run, Apply, Allowed, LockLeft, NeedsToken;
      ghost var table, ops, issued := limiter.Now(), limiter.ops, auth.issued;
      TableOfVisits(limiter.limits, ops, VisitsOf(answers), clock);
      var ok := limiter.AllowRequest(q.ip, r.allow, r.allowStamp);
      if !ok {
        Note(Answer(q, bytes, r, RateLimited), ops, issued);
        return RateLimited;
      }
      AdmittedIsNotLocked(limiter.limits, table, VisitOf(q, r, NoAuth));
      var left := limiter.IsLocked(q.ip, r.lock, r.lockStamp);
      if left.Some? {
        assert false;  // the 429 "auth locked" reply is never given to an admitted request
      }
      reply := Authenticate(q, bytes, r.auth);
      Tell(q.ip, VerdictOf(q, reply), r);
      Note(Answer(q, bytes, r, reply), ops, issued);
    }

    /** The limiter learns how authentication went. */
    method Tell(ip: Address, verdict: Verdict, r: Readings)
      requires limiter.Valid()
      modifies limiter, limiter.entries
      ensures limiter.Valid()
      ensures limiter.ops == old(limiter.ops) +
                (match verdict
                 case NoAuth => []
                 case AuthOk => [Success(ip, r.recordStamp)]
                 case AuthFailed => [Failure(ip, r.record, r.recordStamp)])
    {
      if verdict == AuthOk {
        limiter.RecordAuthSuccess(ip, r.recordStamp);
      } else if verdict == AuthFailed {
        var rc := limiter.RecordAuthFailure(ip, r.record, r.recordStamp);
      }
    }

    /** The pairing and bearer gates. */
    method Authenticate(q: Inbound, bytes: seq<nat>, now: int) returns (reply: Reply)
      requires auth.Valid() && auth.clock <= now
      modifies auth`issued, auth`clock, auth.entries
      ensures auth.Valid() && auth.clock <= now
      ensures reply == Decide(q, auth.pairingCode, auth.ttl, old(auth.issued), bytes, now)
      ensures auth.issued == old(auth.issued) + (if reply.Paired? then [Issue(reply.token, now)] else [])
    {
      hide Header, Bearer, LiveIssues, Unexpired, Held, Drawn;
      if q.verb == "POST" && q.path == "/pair" {
        var pairingCode := new char[CODE_MAX];
        var rc := ExtractHeader(q.message, "X-Pairing-Code", pairingCode);
        if rc != 0 {
          return PairRejected;
        }
        var token;
        rc, token := auth.Exchange(Held(pairingCode[..]), TOKEN_MAX, bytes, now);
        if rc != 0 {
          return PairRejected;
        }
        return Paired(token);
      }
      if IsTaskRoute(q) {
        return TaskRoute;
      }
      if NeedsToken(q) {
        var bearer := new char[TOKEN_MAX];
        var rc := ExtractBearer(q.message, bearer);
        if rc != 0 {
          return Unauthorized;
        }
        var valid := auth.Validate(Held(bearer[..]), now);
        if !valid {
          return Unauthorized;
        }
      }
      reply := Admitted;
    }

    /** Records the answer the limiter and the token table have just been through. */
    ghost method Note(a: Answer, ops: seq<Op>, issued: seq<Issue>)
      requires limiter.Valid() && auth.Valid() && auth.clock <= a.r.recordStamp
      requires Ordered(a.r, clock) && History(limiter.limits, ops, VisitsOf(answers), clock)
      requires issued == Handed(answers) && auth.issued == issued + HandedBy(a)
      requires Truthful(limiter.limits, auth.pairingCode, auth.ttl, answers)
      requires a.reply == Owed(limiter.limits, auth.pairingCode, auth.ttl, answers, a)
      requires limiter.ops == ops + VisitOps(limiter.limits, Visits(limiter.limits, map[], VisitsOf(answers)),
                                             VisitOf(a.q, a.r, VerdictOf(a.q, a.reply)))
      modifies this`answers, this`clock
      ensures Valid() && answers == old(answers) + [a]
    {
      hide History, Truthful, Handed, HandedBy, Owed, VisitOps, VerdictOf, Faithful, Run;
      HistoryGrows(limiter.limits, ops, VisitsOf(answers), clock, VisitOf(a.q, a.r, VerdictOf(a.q, a.reply)));
      AnswersGrow(limiter.limits, auth.pairingCode, auth.ttl, answers, a);
      RecordsGrow(answers, a);
      answers := answers + [a];
      clock := a.r.recordStamp;
    }
  }

  lemma TableOfVisits(lim: Limits, ops: seq<Op>, visits: seq<Visit>, clock: int)
    requires History(lim, ops, visits, clock)
    ensures Run(lim, map[], ops) == Visits(lim, map[], visits)
  {
    VisitsOpsRun(lim, map[], visits);
  }

  // ----- What follows for whole gateway runs -----

  /** In every reachable gateway: one address was granted at most its quota in each of its
      windows, which do not overlap, and at most twice the quota less one in any window-long
      interval, or the quota where that is one second. */
  lemma {:induction false} GatewayWindow(g: Gateway, ip: Address, from: int)
    requires g.Valid()
    ensures var lim := g.limiter.limits;
            && Quota(lim, Grants(lim, map[], g.limiter.ops, ip))
            && CountIn(Granted(lim, map[], g.limiter.ops, ip), from, from + lim.windowSeconds)
               <= if lim.windowSeconds == 1 then lim.maxRequests else 2 * lim.maxRequests - 1
  {
    hide History, Quota, Granted, Grants, CountIn, Faithful, Handed, Truthful, Run, Distinct;
    HistoryWindow(g.limiter.limits, g.limiter.ops, VisitsOf(g.answers), g.clock, ip, from);
  }

  lemma {:induction false} HistoryWindow(lim: Limits, ops: seq<Op>, visits: seq<Visit>, clock: int,
                                         ip: Address, from: int)
    requires Sensible(lim) && History(lim, ops, visits, clock)
    ensures Quota(lim, Grants(lim, map[], ops, ip))
    ensures CountIn(Granted(lim, map[], ops, ip), from, from + lim.windowSeconds)
         <= if lim.windowSeconds == 1 then lim.maxRequests else 2 * lim.maxRequests - 1
  {
    hide Quota, Granted, Grants, CountIn, VisitsOps, VisitsClocked;
    WindowQuota(lim, ops, ip);
    VisitsWindow(lim, visits, ip, from);
  }

  /** Some reply handed out the token, less than `ttl` before `now`. */
  ghost predicate HandedOut(answers: seq<Answer>, ttl: int, now: int, token: CString)
  {
    exists n :: 0 <= n < |answers| && answers[n].reply == Paired(token) && now < answers[n].r.auth + ttl
  }

  /** The tokens of a record are those of its paired replies. */
  lemma {:induction false} HandedIs(answers: seq<Answer>, ttl: int, now: int, token: CString)
    ensures Unexpired(Handed(answers), ttl, now, token) <==> HandedOut(answers, ttl, now, token)
  {
    if answers != [] {
      var init, last := answers[..|answers| - 1], answers[|answers| - 1];
      HandedIs(init, ttl, now, token);
      HandedOutSplit(answers, ttl, now, token);
      UnexpiredSplit(Handed(init), HandedBy(last), ttl, now, token);
      assert Unexpired(HandedBy(last), ttl, now, token)
        <==> last.reply == Paired(token) && now < last.r.auth + ttl by { OneHanded(last, ttl, now, token); }
      hide Unexpired, HandedOut;
    }
  }

  lemma OneHanded(a: Answer, ttl: int, now: int, token: CString)
    ensures Unexpired(HandedBy(a), ttl, now, token) <==> a.reply == Paired(token) && now < a.r.auth + ttl
  {
    if a.reply.Paired? {
      assert HandedBy(a)[0] == Issue(a.reply.token, a.r.auth);
    }
  }

  lemma HandedOutSplit(answers: seq<Answer>, ttl: int, now: int, token: CString)
    requires answers != []
    ensures var init, last := answers[..|answers| - 1], answers[|answers| - 1];
            (HandedOut(answers, ttl, now, token)
             <==> HandedOut(init, ttl, now, token) || (last.reply == Paired(token) && now < last.r.auth + ttl))
  {
    var init := answers[..|answers| - 1];
    if n :| 0 <= n < |init| && init[n].reply == Paired(token) && now < init[n].r.auth + ttl {
      assert answers[n] == init[n];
    }
    if n :| 0 <= n < |answers| && answers[n].reply == Paired(token) && now < answers[n].r.auth + ttl {
      assert n < |init| ==> init[n] == answers[n];
    }
  }

  lemma UnexpiredSplit(a: seq<Issue>, b: seq<Issue>, ttl: int, now: int, token: CString)
    ensures Unexpired(a + b, ttl, now, token) <==> Unexpired(a, ttl, now, token) || Unexpired(b, ttl, now, token)
  {
    if k :| 0 <= k < |a| && a[k].token == token && now < a[k].at + ttl {
      assert (a + b)[k] == a[k];
    }
    if k :| 0 <= k < |b| && b[k].token == token && now < b[k].at + ttl {
      assert (a + b)[|a| + k] == b[k];
    }
  }

  /** Every token handed out is a complete draw, and was handed out for the code. */
  lemma HandedTokens(lim: Limits, code: CString, ttl: int, answers: seq<Answer>, n: nat)
    requires Truthful(lim, code, ttl, answers) && n < |answers| && answers[n].reply.Paired?
    ensures |answers[n].reply.token| == TOKEN_LENGTH && IsPair(answers[n].q) && CarriesCode(answers[n].q, code)
  {
    hide Header, Bearer, LiveIssues, Unexpired, Handed, Allowed;
    assert answers[n].reply == Owed(lim, code, ttl, answers[..n], answers[n]);
  }

  /** The bearer gate on a record of replies. */
  lemma {:induction false} GateIsHanded(lim: Limits, code: CString, ttl: int, answers: seq<Answer>, m: nat)
    requires Truthful(lim, code, ttl, answers) && m < |answers| && answers[m].reply != RateLimited
    requires !IsPair(answers[m].q) && !IsTaskRoute(answers[m].q)
    ensures var a := answers[m]; var b := Bearer(a.q.message, TOKEN_MAX);
            && (a.reply == Admitted || a.reply == Unauthorized)
            && (a.reply == Admitted
                <==> !NeedsToken(a.q) || (b.Some? && HandedOut(answers[..m], ttl, a.r.auth, b.value)))
  {
    var a := answers[m];
    var b := Bearer(a.q.message, TOKEN_MAX);
    assert a.reply == Owed(lim, code, ttl, answers[..m], a);
    hide Bearer, Header, Allowed, LiveIssues, Unexpired, HandedOut, Handed, NeedsToken;
    if b.Some? {
      HandedIs(answers[..m], ttl, a.r.auth, b.value);
      if b.value == "" {
        NoEmptyToken(lim, code, ttl, answers, m, a.r.auth);
      }
    }
  }

  lemma NoEmptyToken(lim: Limits, code: CString, ttl: int, answers: seq<Answer>, m: nat, now: int)
    requires Truthful(lim, code, ttl, answers) && m <= |answers|
    ensures !HandedOut(answers[..m], ttl, now, "")
  {
    hide Truthful;
    forall n | 0 <= n < m && answers[n].reply.Paired? ensures |answers[n].reply.token| == TOKEN_LENGTH {
      HandedTokens(lim, code, ttl, answers, n);
    }
  }

  /** What passes the gates. In every reachable gateway, a request that was not rate limited was
      admitted exactly when it is neither a pairing nor a task route, and either no pairing is
      required, or its path is one the bearer check exempts, whatever its verb, or an earlier
      reply had handed out the token it carries, less than `ttl` seconds before and to a request
      with the pairing code. The task routes are answered without that check. */
  lemma {:induction false} AdmittedIffHanded(g: Gateway, m: nat)
    requires g.Valid() && m < |g.answers| && g.answers[m].reply != RateLimited
    ensures var a := g.answers[m]; var q, b := a.q, Bearer(a.q.message, TOKEN_MAX);
            var pair := q.verb == "POST" && q.path == "/pair";
            var task := q.hasSubagent
                        && (((q.verb == "POST" || q.verb == "GET") && q.path == "/tasks")
                            || ((q.verb == "DELETE" || q.verb == "GET") && "/tasks/" <= q.path));
            && (a.reply == Admitted
                <==> && !pair && !task
                     && (|| !q.pairingRequired || q.path == "/health" || q.path == "/pair"
                         || (b.Some? && HandedOut(g.answers[..m], g.auth.ttl, a.r.auth, b.value))))
            && (a.reply == TaskRoute <==> !pair && task)
            && (pair || a.reply in {Admitted, TaskRoute, Unauthorized})
  {
    RecordIsTruthful(g);
    hide Gateway.Valid, Truthful, HandedOut, Bearer, NeedsToken, IsPair, IsTaskRoute;
    GatesDecide(g.limiter.limits, g.auth.pairingCode, g.auth.ttl, g.answers, m);
    Routes(g.answers[m].q);
  }

  /** Tokens are handed out to pairing requests with the code only. */
  lemma {:induction false} HandedForCode(g: Gateway, n: nat)
    requires g.Valid() && n < |g.answers| && g.answers[n].reply.Paired?
    ensures IsPair(g.answers[n].q) && CarriesCode(g.answers[n].q, g.auth.pairingCode)
  {
    RecordIsTruthful(g);
    hide Gateway.Valid, Truthful, IsPair, CarriesCode;
    HandedTokens(g.limiter.limits, g.auth.pairingCode, g.auth.ttl, g.answers, n);
  }

  lemma PairsWithCode(q: Inbound, code: CString)
    ensures IsPair(q) <==> q.verb == "POST" && q.path == "/pair"
    ensures CarriesCode(q, code) <==> Header(q.message, "X-Pairing-Code", 64) == Some(code)
  {
    hide Header;
  }

  lemma RecordIsTruthful(g: Gateway)
    requires g.Valid()
    ensures Truthful(g.limiter.limits, g.auth.pairingCode, g.auth.ttl, g.answers)
  {
    hide Truthful, History, Faithful, Handed, Run, Distinct;
  }

  lemma Routes(q: Inbound)
    ensures IsPair(q) <==> q.verb == "POST" && q.path == "/pair"
    ensures IsTaskRoute(q) <==>
              q.hasSubagent
              && (((q.verb == "POST" || q.verb == "GET") && q.path == "/tasks")
                  || ((q.verb == "DELETE" || q.verb == "GET") && "/tasks/" <= q.path))
    ensures NeedsToken(q) <==> q.pairingRequired && q.path != "/health" && q.path != "/pair"
  {
  }

  lemma {:induction false} GatesDecide(lim: Limits, code: CString, ttl: int, answers: seq<Answer>, m: nat)
    requires Truthful(lim, code, ttl, answers) && m < |answers| && answers[m].reply != RateLimited
    ensures var a := answers[m]; var q, b := a.q, Bearer(a.q.message, TOKEN_MAX);
            && (a.reply == Admitted
                <==> && !IsPair(q) && !IsTaskRoute(q)
                     && (!NeedsToken(q) || (b.Some? && HandedOut(answers[..m], ttl, a.r.auth, b.value))))
            && (a.reply == TaskRoute <==> !IsPair(q) && IsTaskRoute(q))
            && (IsPair(q) || a.reply in {Admitted, TaskRoute, Unauthorized})
  {
    var a := answers[m];
    assert a.reply == Owed(lim, code, ttl, answers[..m], a);
    hide Truthful, IsPair, IsTaskRoute, NeedsToken, HandedOut, Handed, Bearer, Header, Allowed, LiveIssues;
    if !IsPair(a.q) && !IsTaskRoute(a.q) {
      GateIsHanded(lim, code, ttl, answers, m);
    }
  }

  lemma ExemptPaths(q: Inbound)
    requires (q.verb == "POST" && q.path == "/health") || (q.verb == "GET" && q.path == "/pair")
    ensures !IsHealth(q) && !IsPair(q) && !IsTaskRoute(q) && !NeedsToken(q)
  {
    assert q.path[1] != "/tasks/"[1];
  }

  /** The exempt paths are admitted with any verb: under PAIRING_REQUIRED, POST /health is no
      health route and GET /pair no pairing, yet neither needs a token. */
  lemma {:induction false} ExemptPathsAdmitted(g: Gateway, m: nat)
    requires g.Valid() && m < |g.answers| && g.answers[m].reply != RateLimited
    requires var q := g.answers[m].q;
             q.pairingRequired && ((q.verb == "POST" && q.path == "/health") || (q.verb == "GET" && q.path == "/pair"))
    ensures g.answers[m].reply == Admitted
    ensures !IsHealth(g.answers[m].q) && !IsPair(g.answers[m].q)
  {
    var lim, code, ttl := g.limiter.limits, g.auth.pairingCode, g.auth.ttl;
    assert Truthful(lim, code, ttl, g.answers);
    hide Truthful, History, Faithful, HandedOut, Bearer;
    ExemptPaths(g.answers[m].q);
    hide IsPair, IsTaskRoute, IsHealth, NeedsToken;
    GatesDecide(lim, code, ttl, g.answers, m);
  }

  /** Pair, then use. In every reachable gateway, a token handed out in any earlier reply and
      sent as the first Authorization line of a CR LF framed request passes the gate at every
      time before it expires, whatever happened in between: only the rate limit can stand in
      its way. */
  lemma {:induction false} PairThenUse(g: Gateway, n: nat, m: nat, ls: seq<CString>, body: CString, j: nat)
    requires g.Valid() && n < m < |g.answers| && g.answers[n].reply.Paired?
    requires var q := g.answers[m].q;
             !IsPair(q) && !IsTaskRoute(q) && q.message == Request(ls, body) && AllLines(ls)
    requires 1 <= j < |ls| && ls[j] == "Authorization: Bearer " + g.answers[n].reply.token
    requires forall i :: 1 <= i < j ==> !IsField(ls[i], "Authorization")
    requires g.answers[m].r.auth < g.answers[n].r.auth + g.auth.ttl
    ensures g.answers[m].reply == Admitted || g.answers[m].reply == RateLimited
  {
    var lim, code, ttl := g.limiter.limits, g.auth.pairingCode, g.auth.ttl;
    var token := g.answers[n].reply.token;
    assert Truthful(lim, code, ttl, g.answers);
    assert HandedOut(g.answers[..m], ttl, g.answers[m].r.auth, token) by {
      assert g.answers[..m][n] == g.answers[n];
    }
    hide Truthful, History, Faithful, HandedOut, Bearer, Request, AllLines, IsField;
    HandedTokens(lim, code, ttl, g.answers, n);
    BearerFound(ls, body, j, token, TOKEN_MAX);
    if g.answers[m].reply != RateLimited {
      GateIsHanded(lim, code, ttl, g.answers, m);
    }
  }
}
