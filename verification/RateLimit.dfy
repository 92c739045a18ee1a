/** `src/rate_limit.c`: first what it means, a map from addresses to client automata; then
    the 128-slot table that implements it in place. */
module RateLimit {
  import opened Wrappers
  import opened CText

  const MAX_CLIENTS := 128
  const IP_MAX := 64

  /** The caller's address buffer has 64 bytes, so an address never loses its end. */
  type Address = a: CString | |a| < IP_MAX witness ""

  datatype Limits = Limits(maxRequests: int, windowSeconds: int, lockoutSeconds: int)

  predicate Sensible(lim: Limits)
  {
    0 < lim.maxRequests && 0 < lim.windowSeconds && 0 < lim.lockoutSeconds
  }

  // ----- The specification -----

  datatype Client = Client(windowStart: int, requestCount: int, failedAuth: int, lockedUntil: int)

  type Table = map<Address, Client>

  /** One call; `now` is the function's own clock reading, `stamp` the one its table lookup
      makes if it has to create the client. */
  datatype Op =
    | Allow(ip: Address, now: int, stamp: int)
    | Failure(ip: Address, now: int, stamp: int)
    | Success(ip: Address, stamp: int)
    | CheckLock(ip: Address, now: int, stamp: int)

  /** Whether the lookup finds or creates a client. */
  predicate Reaches(t: Table, ip: Address)
  {
    ip != "" && (ip in t || |t| < MAX_CLIENTS)
  }

  /** The client a successful lookup returns. */
  function ClientOf(t: Table, ip: Address, stamp: int): Client
  {
    if ip in t then t[ip] else Client(stamp, 0, 0, 0)
  }

  function Counted(lim: Limits, c: Client, now: int): Client
  {
    if c.lockedUntil > now then c
    else if now - c.windowStart >= lim.windowSeconds then c.(windowStart := now, requestCount := 1)
    else c.(requestCount := c.requestCount + 1)
  }

  function Failed(lim: Limits, c: Client, now: int): Client
  {
    var failures := c.failedAuth + 1;
    if failures < 5 then c.(failedAuth := failures)
    else c.(failedAuth := failures, lockedUntil := now + lim.lockoutSeconds * Backoff(failures))
  }

  function Backoff(failures: int): int
  {
    if failures - 4 > 5 then 5 else failures - 4
  }

  function Cleared(c: Client): Client
  {
    c.(failedAuth := 0, lockedUntil := 0)
  }

  function After(lim: Limits, c: Client, op: Op): Client
  {
    match op
    case Allow(_, now, _) => Counted(lim, c, now)
    case Failure(_, now, _) => Failed(lim, c, now)
    case Success(_, _) => Cleared(c)
    case CheckLock(_, _, _) => c
  }

  function Apply(lim: Limits, t: Table, op: Op): Table
  {
    if !Reaches(t, op.ip) then t else t[op.ip := After(lim, ClientOf(t, op.ip, op.stamp), op)]
  }

  function Run(lim: Limits, t: Table, ops: seq<Op>): Table
    decreases |ops|
  {
    if ops == [] then t else Run(lim, Apply(lim, t, ops[0]), ops[1..])
  }

  lemma {:induction false} RunSnoc(lim: Limits, t: Table, ops: seq<Op>, op: Op)
    ensures Run(lim, t, ops + [op]) == Apply(lim, Run(lim, t, ops), op)
    decreases |ops|
  {
    if ops == [] {
      assert [] + [op] == [op];
      assert Run(lim, Apply(lim, t, op), []) == Apply(lim, t, op);
    } else {
      assert (ops + [op])[1..] == ops[1..] + [op];
      RunSnoc(lim, Apply(lim, t, ops[0]), ops[1..], op);
    }
  }

  /** The answer of `rate_limit_allow_request`. */
  predicate Allowed(lim: Limits, t: Table, op: Op)
    requires op.Allow?
  {
    var c := ClientOf(t, op.ip, op.stamp);
    Reaches(t, op.ip) && c.lockedUntil <= op.now && Counted(lim, c, op.now).requestCount <= lim.maxRequests
  }

  /** The answer of `rate_limit_is_locked`: the seconds left, None when not locked. */
  function LockLeft(t: Table, op: Op): Option<int>
    requires op.CheckLock?
  {
    var c := ClientOf(t, op.ip, op.stamp);
    if Reaches(t, op.ip) && c.lockedUntil > op.now then Some(c.lockedUntil - op.now) else None
  }

  // ----- The table in place -----

  datatype Entry = Entry(ip: Address, client: Client, inUse: bool)

  const ZERO_ENTRY := Entry("", Client(0, 0, 0, 0), false)

  /** The map a table stands for. */
  function Clients(es: seq<Entry>): Table
  {
    if es == [] then map[]
    else if es[0].inUse then Clients(es[1..])[es[0].ip := es[0].client]
    else Clients(es[1..])
  }

  predicate Distinct(es: seq<Entry>)
  {
    forall i, j :: 0 <= i < j < |es| && es[i].inUse && es[j].inUse ==> es[i].ip != es[j].ip
  }

  predicate Tracked(es: seq<Entry>, ip: Address)
  {
    exists i :: 0 <= i < |es| && es[i].inUse && es[i].ip == ip
  }

  /** The map's addresses are those of the used slots. */
  lemma {:induction false} ClientsKeys(es: seq<Entry>)
    ensures forall ip: Address :: ip in Clients(es) <==> Tracked(es, ip)
  {
    if es != [] {
      ClientsKeys(es[1..]);
      forall ip: Address ensures ip in Clients(es) <==> Tracked(es, ip) {
        TrackedCons(es, ip);
      }
    }
  }

  /** Each used slot holds its address's client. */
  lemma {:induction false} ClientsValue(es: seq<Entry>, i: nat)
    requires Distinct(es) && i < |es| && es[i].inUse
    ensures es[i].ip in Clients(es) && Clients(es)[es[i].ip] == es[i].client
    decreases |es|
  {
    if i > 0 {
      assert es[1..][i - 1] == es[i];
      ClientsValue(es[1..], i - 1);
    }
  }

  /** There is one used slot for each address; so the map is full when every slot is used. */
  lemma {:induction false} ClientsSize(es: seq<Entry>)
    requires Distinct(es)
    ensures |Clients(es)| <= |es|
    ensures |Clients(es)| == |es| <==> forall i :: 0 <= i < |es| ==> es[i].inUse
    decreases |es|
  {
    if es != [] {
      var rest := es[1..];
      ClientsSize(rest);
      ClientsKeys(rest);
      assert forall i :: 0 < i < |es| ==> es[i] == rest[i - 1];
      assert es[0].inUse ==> es[0].ip !in Clients(rest) by {
        if es[0].inUse {
          FirstIsNew(es);
        }
      }
      hide Tracked, Distinct;
    }
  }

  lemma TrackedCons(es: seq<Entry>, ip: Address)
    requires es != []
    ensures Tracked(es, ip) <==> (es[0].inUse && es[0].ip == ip) || Tracked(es[1..], ip)
  {
    var rest := es[1..];
    if k :| 0 < k < |es| && es[k].inUse && es[k].ip == ip {
      assert rest[k - 1] == es[k];
    }
    if k :| 0 <= k < |rest| && rest[k].inUse && rest[k].ip == ip {
      assert es[k + 1] == rest[k];
    }
  }

  lemma FirstIsNew(es: seq<Entry>)
    requires es != [] && Distinct(es) && es[0].inUse
    ensures !Tracked(es[1..], es[0].ip)
  {
    assert forall k :: 0 <= k < |es[1..]| ==> es[1..][k] == es[k + 1];
  }

  predicate CanHold(es: seq<Entry>, i: nat, ip: Address)
    requires i < |es|
  {
    if es[i].inUse then ip == es[i].ip else !Tracked(es, ip)
  }

  lemma DistinctUpdate(es: seq<Entry>, i: nat, e: Entry)
    requires i < |es| && Distinct(es) && e.inUse && CanHold(es, i, e.ip)
    ensures Distinct(es[i := e])
    ensures forall k :: 0 <= k < |es| && k != i && es[k].inUse ==> es[k].ip != e.ip
  {
  }

  /** Rewriting one slot, to the same address or to a new one, rewrites one map entry. */
  lemma {:induction false} ClientsUpdate(es: seq<Entry>, i: nat, e: Entry)
    requires i < |es| && Distinct(es) && e.inUse && CanHold(es, i, e.ip)
    ensures Distinct(es[i := e])
    ensures Clients(es[i := e]) == Clients(es)[e.ip := e.client]
    decreases |es|
  {
    DistinctUpdate(es, i, e);
    var rest := es[1..];
    if i == 0 {
      assert es[0 := e][1..] == rest;
    } else {
      assert es[i := e][1..] == rest[i - 1 := e];
      assert rest[i - 1] == es[i];
      assert Tracked(rest, e.ip) ==> Tracked(es, e.ip) by {
        if k :| 0 <= k < |rest| && rest[k].inUse && rest[k].ip == e.ip {
          assert es[k + 1].ip == e.ip;
        }
      }
      ClientsUpdate(rest, i - 1, e);
    }
  }

  class RateLimiter {
    const limits: Limits
    const entries: array<Entry>
    ghost var ops: seq<Op>

    ghost function Now(): Table
      reads entries
    {
      Clients(entries[..])
    }

    ghost predicate Valid()
      reads this, entries
    {
      && Sensible(limits) && entries.Length == MAX_CLIENTS && Distinct(entries[..])
      && Now() == Run(limits, map[], ops)
    }

    constructor (maxRequests: int, windowSeconds: int, lockoutSeconds: int)
      ensures Valid() && fresh(entries) && Now() == map[] && ops == []
      ensures limits == Limits(if maxRequests > 0 then maxRequests else 10,
                               if windowSeconds > 0 then windowSeconds else 60,
                               if lockoutSeconds > 0 then lockoutSeconds else 60)
    {
      limits := Limits(if maxRequests > 0 then maxRequests else 10,
                       if windowSeconds > 0 then windowSeconds else 60,
                       if lockoutSeconds > 0 then lockoutSeconds else 60);
      entries := new Entry[MAX_CLIENTS](i => ZERO_ENTRY);
      ops := [];
      new;
      ClientsKeys(entries[..]);
      assert forall ip: Address :: !Tracked(entries[..], ip);
      assert Now() == map[];
    }

    /** `lookup_entry`: the slot of `ip`, a fresh one in the lowest free slot, or none. */
    method LookupEntry(ip: Address, stamp: int) returns (slot: Option<nat>)
      requires entries.Length == MAX_CLIENTS && Distinct(entries[..])
      modifies entries
      ensures Distinct(entries[..])
      ensures slot.Some? <==> Reaches(old(Now()), ip)
      ensures slot.None? ==> Now() == old(Now())
      ensures slot.Some? ==>
                && slot.value < entries.Length && entries[slot.value].inUse && entries[slot.value].ip == ip
                && entries[slot.value].client == ClientOf(old(Now()), ip, stamp)
                && Now() == old(Now())[ip := ClientOf(old(Now()), ip, stamp)]
    {
      hide Clients;
      ghost var before := entries[..];
      ClientsKeys(before);
      ClientsSize(before);
      if ip == "" {
        return None;
      }
      var freeIdx := -1;
      for i := 0 to entries.Length
        invariant entries[..] == before
        invariant forall k :: 0 <= k < i ==> !(before[k].inUse && before[k].ip == ip)
        invariant freeIdx == -1 ==> forall k :: 0 <= k < i ==> before[k].inUse
        invariant freeIdx != -1 ==> 0 <= freeIdx < i && !before[freeIdx].inUse
      {
        if entries[i].inUse {
          if entries[i].ip == ip {
            ClientsValue(before, i);
            return Some(i);
          }
        } else if freeIdx < 0 {
          freeIdx := i;
        }
      }
      assert !Tracked(before, ip);
      if freeIdx >= 0 {
        var e := Entry(Fit(ip, IP_MAX), Client(stamp, 0, 0, 0), true);
        ClientsUpdate(before, freeIdx, e);
        entries[freeIdx] := e;
        assert entries[..] == before[freeIdx := e];
        return Some(freeIdx);
      }
      slot := None;
    }

    /** Writes back the client of a looked-up slot: one map entry changes, no other. */
    method Store(slot: nat, c: Client)
      requires slot < entries.Length && Distinct(entries[..]) && entries[slot].inUse
      modifies entries
      ensures Distinct(entries[..])
      ensures Now() == old(Now())[old(entries[slot].ip) := c]
    {
      ClientsUpdate(entries[..], slot, entries[slot].(client := c));
      ghost var before := entries[..];
      entries[slot] := entries[slot].(client := c);
      assert entries[..] == before[slot := before[slot].(client := c)];
    }

    ghost method Record(op: Op)
      requires Sensible(limits) && entries.Length == MAX_CLIENTS && Distinct(entries[..])
      requires Now() == Apply(limits, Run(limits, map[], ops), op)
      modifies this`ops
      ensures Valid() && ops == old(ops) + [op]
    {
      RunSnoc(limits, map[], ops, op);
      ops := ops + [op];
    }

    method AllowRequest(ip: Address, now: int, stamp: int) returns (ok: bool)
      requires Valid()
      modifies this, entries
      ensures Valid() && ops == old(ops) + [Allow(ip, now, stamp)]
      ensures ok == Allowed(limits, old(Now()), Allow(ip, now, stamp))
      ensures Now() == Apply(limits, old(Now()), Allow(ip, now, stamp))
    {
      ok := false;
      var slot := LookupEntry(ip, stamp);
      if slot.Some? {
        var c := entries[slot.value].client;
        if c.lockedUntil <= now {
          if now - c.windowStart >= limits.windowSeconds {
            c := c.(windowStart := now, requestCount := 0);
          }
          c := c.(requestCount := c.requestCount + 1);
          ok := c.requestCount <= limits.maxRequests;
          Store(slot.value, c);
        }
      }
      Record(Allow(ip, now, stamp));
    }

    method RecordAuthFailure(ip: Address, now: int, stamp: int) returns (rc: int)
      requires Valid()
      modifies this, entries
      ensures Valid() && ops == old(ops) + [Failure(ip, now, stamp)]
      ensures rc == if Reaches(old(Now()), ip) then 0 else -1
      ensures Now() == Apply(limits, old(Now()), Failure(ip, now, stamp))
    {
      hide Run, Clients, Distinct;
      rc := -1;
      var slot := LookupEntry(ip, stamp);
      if slot.Some? {
        var c := entries[slot.value].client;
        c := c.(failedAuth := c.failedAuth + 1);
        if c.failedAuth >= 5 {
          var backoff := c.failedAuth - 4;
          if backoff > 5 {
            backoff := 5;
          }
          c := c.(lockedUntil := now + limits.lockoutSeconds * backoff);
        }
        Store(slot.value, c);
        rc := 0;
      }
      Record(Failure(ip, now, stamp));
    }

    method RecordAuthSuccess(ip: Address, stamp: int)
      requires Valid()
      modifies this, entries
      ensures Valid() && ops == old(ops) + [Success(ip, stamp)]
      ensures Now() == Apply(limits, old(Now()), Success(ip, stamp))
    {
      var slot := LookupEntry(ip, stamp);
      if slot.Some? {
        Store(slot.value, entries[slot.value].client.(failedAuth := 0, lockedUntil := 0));
      }
      Record(Success(ip, stamp));
    }

    method IsLocked(ip: Address, now: int, stamp: int) returns (retryAfter: Option<int>)
      requires Valid()
      modifies this, entries
      ensures Valid() && ops == old(ops) + [CheckLock(ip, now, stamp)]
      ensures retryAfter == LockLeft(old(Now()), CheckLock(ip, now, stamp))
      ensures Now() == Apply(limits, old(Now()), CheckLock(ip, now, stamp))
    {
      retryAfter := None;
      var slot := LookupEntry(ip, stamp);
      if slot.Some? {
        var c := entries[slot.value].client;
        if c.lockedUntil > now {
          retryAfter := Some(c.lockedUntil - now);
        }
      }
      Record(CheckLock(ip, now, stamp));
    }
  }
}
