/** What follows for whole gateway runs from the record of its replies: who is locked out and
    for how long, when a pairing succeeds, and which tokens are the same. */
module GatewayRuns {
  import opened Wrappers
  import opened CText
  import opened RateLimit
  import opened RateHistory
  import opened VisitHistory
  import opened GatewayAuth
  import opened GatewayHeaders
  import opened Gateways

  // ----- Failures and successes among the replies -----

  /** The reply restarts the count: a pairing, or an admission that needed a token. */
  predicate Restarts(a: Answer)
  {
    a.reply.Paired? || (a.reply == Admitted && a.q.pairingRequired && a.q.path != "/health" && a.q.path != "/pair")
  }

  /** The times of an address's failures since the last reply that restarts the count. */
  function FailuresOf(answers: seq<Answer>, ip: Address): seq<int>
  {
    if answers == [] then []
    else FailuresWith(FailuresOf(answers[..|answers| - 1], ip), answers[|answers| - 1], ip)
  }

  function FailuresWith(f: seq<int>, a: Answer, ip: Address): seq<int>
  {
    if a.q.ip != ip then f
    else if Restarts(a) then []
    else if a.reply == PairRejected || a.reply == Unauthorized then f + [a.r.record]
    else f
  }

  /** Each further reply counts, restarts the count, or leaves it alone. */
  lemma FailureCount(answers: seq<Answer>, a: Answer, ip: Address)
    ensures var f, after := FailuresOf(answers, ip), FailuresOf(answers + [a], ip);
            && (a.q.ip == ip && (a.reply == PairRejected || a.reply == Unauthorized) ==> after == f + [a.r.record])
            && (a.q.ip == ip && a.reply.Paired? ==> after == [])
            && (a.q.ip == ip && a.reply == Admitted ==>
                  after == if a.q.pairingRequired && a.q.path != "/health" && a.q.path != "/pair" then [] else f)
            && (a.q.ip != ip || a.reply in {Health, Heartbeat, RateLimited, TaskRoute} || a.reply.Locked?
                ==> after == f)
  {
    assert (answers + [a])[..|answers|] == answers;
  }

  /** One reply moves the limiter's count of failures just so. */
  lemma AnswerVerdict(lim: Limits, code: CString, ttl: int, before: seq<Answer>, a: Answer, ip: Address, f: seq<int>)
    requires a.reply == Owed(lim, code, ttl, before, a)
    ensures StreakAfter(lim, Visits(lim, map[], VisitsOf(before)), VisitOf(a.q, a.r, VerdictOf(a.q, a.reply)), ip, f)
         == FailuresWith(f, a, ip)
  {
    hide Allowed, Visits, VisitsOf, Header, Bearer, LiveIssues, Unexpired, Handed, Drawn, IsTaskRoute, IsPair;
    hide CarriesCode, CarriesValidToken;
  }

  lemma {:induction false} FailuresAreStreak(lim: Limits, code: CString, ttl: int, answers: seq<Answer>, ip: Address)
    requires Truthful(lim, code, ttl, answers)
    ensures FailuresOf(answers, ip) == Streak(lim, map[], VisitsOf(answers), ip, [])
  {
    hide Truthful, Owed, VisitsOf, FailuresWith, StreakAfter;
    if answers == [] {
      NothingYet(lim, answers, ip);
    } else {
      hide Streak, FailuresOf;
      var init, last := answers[..|answers| - 1], answers[|answers| - 1];
      assert answers == init + [last];
      TruthfulPrefix(lim, code, ttl, answers, |init|);
      LastIsOwed(lim, code, ttl, answers);
      FailuresAreStreak(lim, code, ttl, init, ip);
      OneMoreAnswer(lim, code, ttl, init, last, ip);
    }
  }

  lemma NothingYet(lim: Limits, answers: seq<Answer>, ip: Address)
    requires answers == []
    ensures FailuresOf(answers, ip) == [] == Streak(lim, map[], VisitsOf(answers), ip, [])
  {
  }

  lemma LastIsOwed(lim: Limits, code: CString, ttl: int, answers: seq<Answer>)
    requires Truthful(lim, code, ttl, answers) && answers != []
    ensures var last := answers[|answers| - 1]; last.reply == Owed(lim, code, ttl, answers[..|answers| - 1], last)
  {
  }

  lemma OneMoreAnswer(lim: Limits, code: CString, ttl: int, init: seq<Answer>, last: Answer, ip: Address)
    requires last.reply == Owed(lim, code, ttl, init, last)
    requires FailuresOf(init, ip) == Streak(lim, map[], VisitsOf(init), ip, [])
    ensures FailuresOf(init + [last], ip) == Streak(lim, map[], VisitsOf(init + [last]), ip, [])
  {
    assert (init + [last])[..|init|] == init;
    assert FailuresOf(init + [last], ip) == FailuresWith(FailuresOf(init, ip), last, ip);
    RecordsGrow(init, last);
    hide Owed, VisitsOf, VerdictOf, StreakAfter, Streak, Visits, FailuresWith, FailuresOf;
    StreakSnoc(lim, map[], VisitsOf(init), VisitOf(last.q, last.r, VerdictOf(last.q, last.reply)), ip, []);
    AnswerVerdict(lim, code, ttl, init, last, ip, FailuresOf(init, ip));
  }

  lemma TruthfulPrefix(lim: Limits, code: CString, ttl: int, answers: seq<Answer>, n: nat)
    requires Truthful(lim, code, ttl, answers) && n <= |answers|
    ensures Truthful(lim, code, ttl, answers[..n])
  {
    hide Owed;
    forall m | 0 <= m < n ensures answers[..n][m].reply == Owed(lim, code, ttl, answers[..n][..m], answers[..n][m]) {
      assert answers[..n][..m] == answers[..m];
    }
  }

  lemma {:induction false} ClockedPrefix(vs: seq<Visit>, clock: int, n: nat)
    requires VisitsClocked(vs, clock) && n <= |vs|
    ensures VisitsClocked(vs[..n], clock)
    decreases n
  {
    if n > 0 {
      assert vs[..n][1..] == vs[1..][..n - 1];
      ClockedPrefix(vs[1..], vs[0].recordStamp, n - 1);
    }
  }

  // ----- The lock, request by request -----

  /** In every reachable gateway the failures among the replies, since the last one that
      restarts the count, decide the lock of every further request. */
  lemma {:induction false} GatewayLock(g: Gateway, ip: Address, x: nat, stamp: int)
    requires g.Valid()
    ensures LockDecides(g.limiter.limits, g.limiter.Now(), FailuresOf(g.answers, ip), ip, x, stamp)
  {
    var lim, vs := g.limiter.limits, VisitsOf(g.answers);
    GatewayRecord(g);
    NowIsVisits(g);
    hide Gateway.Valid, Truthful, VisitsOf, VisitsClocked, FailuresOf, Visits, Streak, LockDecides;
    FailuresAreStreak(lim, g.auth.pairingCode, g.auth.ttl, g.answers, ip);
    LockAfterFailures(lim, vs, ip, 0, x, stamp);
  }

  lemma NowIsVisits(g: Gateway)
    requires g.Valid()
    ensures g.limiter.Now() == Visits(g.limiter.limits, map[], VisitsOf(g.answers))
  {
    hide Truthful, Faithful, Handed, Visits, VisitsOps, Run, VisitsOf, VisitsClocked, Distinct;
    TableOfVisits(g.limiter.limits, g.limiter.ops, VisitsOf(g.answers), g.clock);
  }

  // ----- The lockout over a run -----

  lemma {:induction false} FailuresSpaced(lim: Limits, code: CString, ttl: int, answers: seq<Answer>, ip: Address,
                                          n: nat)
    requires Truthful(lim, code, ttl, answers) && VisitsClocked(VisitsOf(answers), 0) && n <= |answers|
    ensures Spaced(lim, FailuresOf(answers[..n], ip))
  {
    TruthfulPrefix(lim, code, ttl, answers, n);
    FailuresAreStreak(lim, code, ttl, answers[..n], ip);
    ClockedPrefix(VisitsOf(answers), 0, n);
    assert VisitsOf(answers[..n]) == VisitsOf(answers)[..n];
    hide Truthful, VisitsOf, FailuresOf, VisitsClocked, Streak, Visits, Spaced;
    VisitsKeepStreak(lim, map[], VisitsOf(answers[..n]), ip, [], 0);
  }

  /** Without a restart the failures only grow. */
  lemma {:induction false} FailuresExtend(answers: seq<Answer>, ip: Address, m: nat, n: nat)
    requires m <= n <= |answers|
    requires forall j :: m <= j < n && answers[j].q.ip == ip ==> !Restarts(answers[j])
    ensures FailuresOf(answers[..m], ip) <= FailuresOf(answers[..n], ip)
    decreases n
  {
    if m < n {
      FailuresExtend(answers, ip, m, n - 1);
      assert answers[..n][..n - 1] == answers[..n - 1];
    }
  }

  lemma FailureTakesPlace(answers: seq<Answer>, ip: Address, j: nat)
    requires j < |answers| && answers[j].q.ip == ip
    requires answers[j].reply == PairRejected || answers[j].reply == Unauthorized
    ensures FailuresOf(answers[..j + 1], ip) == FailuresOf(answers[..j], ip) + [answers[j].r.record]
  {
    assert answers[..j + 1][..j] == answers[..j];
  }

  /** From the fifth failure on two of them are apart by the lock of the first at least. */
  lemma {:induction false} SpacedGap(lim: Limits, f: seq<int>, a: nat, b: nat)
    requires Sensible(lim) && Spaced(lim, f) && 4 <= a < b < |f|
    ensures f[a] + lim.lockoutSeconds * Backoff(a + 1) <= f[b]
    decreases b
  {
    if a + 1 < b {
      SpacedGap(lim, f, a, b - 1);
      assert lim.lockoutSeconds * Backoff(b) >= lim.lockoutSeconds * 1;
      assert f[b - 1] + lim.lockoutSeconds * Backoff(b) <= f[b];
    }
  }

  lemma BackoffGrows(lim: Limits, a: nat, b: nat)
    requires Sensible(lim) && 5 <= a <= b
    ensures lim.lockoutSeconds * Backoff(a) <= lim.lockoutSeconds * Backoff(b)
  {
    assert Backoff(a) <= Backoff(b);
  }

  /** Replies to one address, in order, that are all failures. */
  ghost predicate AreFailures(answers: seq<Answer>, ip: Address, js: seq<nat>)
  {
    && (forall i :: 0 <= i < |js| ==>
          && js[i] < |answers| && answers[js[i]].q.ip == ip
          && (answers[js[i]].reply == PairRejected || answers[js[i]].reply == Unauthorized))
    && forall i, k :: 0 <= i < k < |js| ==> js[i] < js[k]
  }

  /** A later failure without a restart between finds all those up to an earlier reply. */
  lemma FailureAfter(answers: seq<Answer>, ip: Address, a: nat, b: nat)
    requires a < b < |answers| && answers[b].q.ip == ip
    requires answers[b].reply == PairRejected || answers[b].reply == Unauthorized
    requires forall m :: a < m < b && answers[m].q.ip == ip ==> !Restarts(answers[m])
    ensures var e, f := FailuresOf(answers[..a + 1], ip), FailuresOf(answers[..b + 1], ip);
            |e| < |f| && f[..|e|] == e && f[|f| - 1] == answers[b].r.record
  {
    hide FailuresOf, Restarts;
    FailureTakesPlace(answers, ip, b);
    FailuresExtend(answers, ip, a + 1, b);
  }

  /** The failures up to the i-th of the list: it is the last of them, and at least the i-th. */
  lemma {:induction false} Places(answers: seq<Answer>, ip: Address, js: seq<nat>, i: nat)
    requires AreFailures(answers, ip, js) && i < |js|
    requires forall m :: js[0] <= m < js[|js| - 1] && answers[m].q.ip == ip ==> !Restarts(answers[m])
    ensures var f := FailuresOf(answers[..js[i] + 1], ip);
            i < |f| && f[|f| - 1] == answers[js[i]].r.record
    ensures 0 < i ==>
              var e, f := FailuresOf(answers[..js[i - 1] + 1], ip), FailuresOf(answers[..js[i] + 1], ip);
              |e| < |f| && f[..|e|] == e
    decreases i
  {
    if i == 0 {
      FailureTakesPlace(answers, ip, js[0]);
    } else {
      hide FailuresOf, Restarts;
      Places(answers, ip, js, i - 1);
      assert js[0] <= js[i - 1] < js[i] <= js[|js| - 1];
      FailureAfter(answers, ip, js[i - 1], js[i]);
    }
  }

  lemma {:induction false} FailuresTake(lim: Limits, code: CString, ttl: int, answers: seq<Answer>, ip: Address,
                                        js: seq<nat>, i: nat)
    requires Sensible(lim) && Truthful(lim, code, ttl, answers) && VisitsClocked(VisitsOf(answers), 0)
    requires AreFailures(answers, ip, js) && 4 <= i < |js|
    requires forall m :: js[0] <= m < js[|js| - 1] && answers[m].q.ip == ip ==> !Restarts(answers[m])
    ensures answers[js[i]].r.record - answers[js[4]].r.record >= LockoutTime(lim, i + 1)
    decreases i
  {
    hide FailuresOf, Truthful, VisitsOf, VisitsClocked, Spaced, Backoff, Restarts;
    if i > 4 {
      FailuresTake(lim, code, ttl, answers, ip, js, i - 1);
      Places(answers, ip, js, i - 1);
      Places(answers, ip, js, i);
      FailuresSpaced(lim, code, ttl, answers, ip, js[i] + 1);
      NextTakes(lim, FailuresOf(answers[..js[i - 1] + 1], ip), FailuresOf(answers[..js[i] + 1], ip), i);
    }
  }

  lemma NextTakes(lim: Limits, e: seq<int>, f: seq<int>, i: nat)
    requires Sensible(lim) && Spaced(lim, f) && 5 <= i <= |e| < |f| && f[..|e|] == e
    ensures f[|f| - 1] - e[|e| - 1] >= lim.lockoutSeconds * Backoff(i)
  {
    assert f[|e| - 1] == f[..|e|][|e| - 1];
    SpacedGap(lim, f, |e| - 1, |f| - 1);
    BackoffGrows(lim, i, |e|);
  }

  lemma {:induction false} AnswersLockout(lim: Limits, code: CString, ttl: int, answers: seq<Answer>, ip: Address,
                                          js: seq<nat>)
    requires Sensible(lim) && Truthful(lim, code, ttl, answers) && VisitsClocked(VisitsOf(answers), 0)
    requires AreFailures(answers, ip, js) && 9 <= |js|
    requires forall m :: js[0] <= m < js[|js| - 1] && answers[m].q.ip == ip ==> !Restarts(answers[m])
    ensures answers[js[|js| - 1]].r.record - answers[js[4]].r.record >= lim.lockoutSeconds * (10 + 5 * (|js| - 9))
  {
    hide Truthful, VisitsClocked, VisitsOf, Restarts, AreFailures;
    FailuresTake(lim, code, ttl, answers, ip, js, |js| - 1);
    LockoutTimeClosed(lim, |js|);
  }

  /** The lockout, told by replies alone: in every reachable gateway, of k >= 9 replies to one
      address that rejected a pairing code or a token, with neither a pairing nor an admission
      by token between, the k-th was recorded at least lockout * (10 + 5 * (k - 9)) seconds
      after the fifth. */
  lemma {:induction false} GatewayLockout(g: Gateway, ip: Address, js: seq<nat>)
    requires g.Valid() && 9 <= |js|
    requires forall i :: 0 <= i < |js| ==>
               && js[i] < |g.answers| && g.answers[js[i]].q.ip == ip
               && (g.answers[js[i]].reply == PairRejected || g.answers[js[i]].reply == Unauthorized)
    requires forall i, k :: 0 <= i < k < |js| ==> js[i] < js[k]
    requires forall m :: js[0] <= m < js[|js| - 1] && g.answers[m].q.ip == ip ==>
               && !g.answers[m].reply.Paired?
               && !(&& g.answers[m].reply == Admitted && g.answers[m].q.pairingRequired
                    && g.answers[m].q.path != "/health" && g.answers[m].q.path != "/pair")
    ensures g.answers[js[|js| - 1]].r.record - g.answers[js[4]].r.record
         >= g.limiter.limits.lockoutSeconds * (10 + 5 * (|js| - 9))
  {
    var lim, code, ttl := g.limiter.limits, g.auth.pairingCode, g.auth.ttl;
    GatewayRecord(g);
    hide Gateway.Valid, Truthful, VisitsClocked, VisitsOf;
    AnswersLockout(lim, code, ttl, g.answers, ip, js);
  }

  lemma GatewayRecord(g: Gateway)
    requires g.Valid()
    ensures Truthful(g.limiter.limits, g.auth.pairingCode, g.auth.ttl, g.answers)
    ensures VisitsClocked(VisitsOf(g.answers), 0) && Sensible(g.limiter.limits)
  {
    hide Truthful, VisitsClocked, VisitsOf, Faithful, Handed, VisitsOps, Run, Distinct;
  }

  // ----- Pairing -----

  /** How many replies handed out a token less than `ttl` before `now`. */
  function LiveHanded(answers: seq<Answer>, ttl: int, now: int): nat
  {
    if answers == [] then 0
    else
      var last := answers[|answers| - 1];
      LiveHanded(answers[..|answers| - 1], ttl, now) + if last.reply.Paired? && now < last.r.auth + ttl then 1 else 0
  }

  lemma {:induction false} LiveHandedIs(answers: seq<Answer>, ttl: int, now: int)
    ensures |LiveIssues(Handed(answers), ttl, now)| == LiveHanded(answers, ttl, now)
  {
    if answers != [] {
      var init, last := answers[..|answers| - 1], answers[|answers| - 1];
      LiveHandedIs(init, ttl, now);
      LiveIssuesJoin(Handed(init), HandedBy(last), ttl, now);
    }
  }

  lemma LiveIssuesJoin(a: seq<Issue>, b: seq<Issue>, ttl: int, now: int)
    requires |b| <= 1
    ensures |LiveIssues(a + b, ttl, now)|
         == |LiveIssues(a, ttl, now)| + if b != [] && now < b[0].at + ttl then 1 else 0
  {
    if b == [] {
      assert a + b == a;
    } else {
      assert (a + b)[..|a + b| - 1] == a;
    }
  }

  /** When a pairing succeeds. In every reachable gateway, a framed POST /pair that was not rate
      limited was answered with a token exactly when the first X-Pairing-Code line, cut to 63
      bytes, is the code, 95 random bytes came, and fewer than 16 replies had handed out tokens
      that are unexpired; it was rejected otherwise. */
  lemma {:induction false} PairedIff(g: Gateway, m: nat, ls: seq<CString>, body: CString, j: nat, sent: CString)
    requires g.Valid() && m < |g.answers| && g.answers[m].reply != RateLimited
    requires g.answers[m].q.verb == "POST" && g.answers[m].q.path == "/pair"
    requires g.answers[m].q.message == Request(ls, body) && AllLines(ls) && 1 <= j < |ls|
    requires forall i :: 1 <= i < j ==> !IsField(ls[i], "X-Pairing-Code")
    requires ls[j] == "X-Pairing-Code: " + sent && (sent != "" ==> sent[0] != ' ')
    ensures var a := g.answers[m];
            && (a.reply.Paired? <==>
                  && Fit(sent, 64) == g.auth.pairingCode && 95 <= |a.bytes|
                  && LiveHanded(g.answers[..m], g.auth.ttl, a.r.auth) < 16)
            && (a.reply.Paired? || a.reply == PairRejected)
  {
    var lim, code, ttl := g.limiter.limits, g.auth.pairingCode, g.auth.ttl;
    var a := g.answers[m];
    assert Truthful(lim, code, ttl, g.answers);
    assert a.reply == Owed(lim, code, ttl, g.answers[..m], a);
    hide Truthful, Faithful, History, Handed, LiveIssues, LiveHanded;
    hide Header, Request, AllLines, IsField, Allowed, Drawn;
    LiveHandedIs(g.answers[..m], ttl, a.r.auth);
    CodeLine(ls, body, j, sent);
  }

  lemma CodeLine(ls: seq<CString>, body: CString, j: nat, sent: CString)
    requires AllLines(ls) && 1 <= j < |ls|
    requires forall i :: 1 <= i < j ==> !IsField(ls[i], "X-Pairing-Code")
    requires ls[j] == "X-Pairing-Code: " + sent && (sent != "" ==> sent[0] != ' ')
    ensures Header(Request(ls, body), "X-Pairing-Code", 64) == Some(Fit(sent, 64))
  {
    hide Header, Request, IsField, Fit;
    assert seq(1, i => ' ') == " ";
    assert "X-Pairing-Code: " == "X-Pairing-Code" + ":" + " ";
    assert ls[j] == "X-Pairing-Code" + ":" + " " + sent;
    HeaderFound(ls, body, j, "X-Pairing-Code", 1, sent, 64);
  }

  /** The token of a reply: each character is the letter its random byte picks. */
  lemma {:induction false} PairedToken(g: Gateway, m: nat, k: nat)
    requires g.Valid() && m < |g.answers| && g.answers[m].reply.Paired? && k < 95
    ensures 95 <= |g.answers[m].bytes| && |g.answers[m].reply.token| == 95
    ensures g.answers[m].reply.token[k]
         == "abcdefghijklmnopqrstuvwxyzABCDEFGHIJKLMNOPQRSTUVWXYZ0123456789"[g.answers[m].bytes[k] % 62]
  {
    PairedIsDrawn(g, m);
    hide Drawn;
    DrawnCharacter(g.answers[m].bytes, k);
  }

  /** Two replies carry the same token exactly when their draws agree modulo 62. */
  lemma {:induction false} SameTokens(g: Gateway, m: nat, n: nat)
    requires g.Valid() && m < |g.answers| && n < |g.answers|
    requires g.answers[m].reply.Paired? && g.answers[n].reply.Paired?
    ensures 95 <= |g.answers[m].bytes| && 95 <= |g.answers[n].bytes|
    ensures g.answers[m].reply.token == g.answers[n].reply.token
       <==> forall k :: 0 <= k < 95 ==> g.answers[m].bytes[k] % 62 == g.answers[n].bytes[k] % 62
  {
    PairedIsDrawn(g, m);
    PairedIsDrawn(g, n);
    hide Drawn;
    SameTokenIff(g.answers[m].bytes, g.answers[n].bytes);
  }

  lemma PairedIsDrawn(g: Gateway, m: nat)
    requires g.Valid() && m < |g.answers| && g.answers[m].reply.Paired?
    ensures 95 <= |g.answers[m].bytes| && g.answers[m].reply.token == Drawn(g.answers[m].bytes)
  {
    GatewayRecord(g);
    hide Gateway.Valid, Truthful, VisitsOf, VisitsClocked, Drawn;
    AnswerIsDrawn(g.limiter.limits, g.auth.pairingCode, g.auth.ttl, g.answers, m);
  }

  lemma AnswerIsDrawn(lim: Limits, code: CString, ttl: int, answers: seq<Answer>, m: nat)
    requires Truthful(lim, code, ttl, answers) && m < |answers| && answers[m].reply.Paired?
    ensures 95 <= |answers[m].bytes| && answers[m].reply.token == Drawn(answers[m].bytes)
  {
    assert answers[m].reply == Owed(lim, code, ttl, answers[..m], answers[m]);
    hide Truthful, Handed, LiveIssues, Header, Bearer, Unexpired, Allowed, Drawn;
  }
}
