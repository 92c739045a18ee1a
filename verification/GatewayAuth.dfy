/** The pairing code and the token table of `src/gateway_auth.c`. */
module GatewayAuth {
  import opened CText

  const MAX_TOKENS := 16
  const TOKEN_LENGTH := 95

  datatype Slot = Slot(token: CString, expiresAt: int, inUse: bool)

  const ZERO_SLOT := Slot("", 0, false)

  /** A token handed out, and when. */
  datatype Issue = Issue(token: CString, at: int)

  // ----- The history the table stands for -----

  predicate Live(slot: Slot, now: int)
  {
    slot.inUse && now < slot.expiresAt
  }

  function LiveTokens(slots: seq<Slot>, now: int): multiset<CString>
  {
    if slots == [] then multiset{}
    else (if Live(slots[0], now) then multiset{slots[0].token} else multiset{}) + LiveTokens(slots[1..], now)
  }

  function LiveIssues(issued: seq<Issue>, ttl: int, now: int): multiset<CString>
  {
    if issued == [] then multiset{}
    else LiveIssues(issued[..|issued| - 1], ttl, now)
         + (if now < issued[|issued| - 1].at + ttl then multiset{issued[|issued| - 1].token} else multiset{})
  }

  /** At `clock` and ever after, the live slots hold exactly the unexpired tokens of the
      history, each as often as it was issued; and a free slot is long expired. */
  ghost predicate Faithful(slots: seq<Slot>, issued: seq<Issue>, ttl: int, clock: int)
  {
    && (forall now :: clock <= now ==> LiveTokens(slots, now) == LiveIssues(issued, ttl, now))
    && (forall i :: 0 <= i < |slots| && !slots[i].inUse ==> slots[i].expiresAt <= clock)
  }

  lemma {:induction false} LiveAppend(a: seq<Slot>, b: seq<Slot>, now: int)
    ensures LiveTokens(a + b, now) == LiveTokens(a, now) + LiveTokens(b, now)
  {
    if a == [] {
      assert a + b == b;
    } else {
      assert (a + b)[1..] == a[1..] + b;
      LiveAppend(a[1..], b, now);
    }
  }

  function Own(slot: Slot, now: int): multiset<CString>
  {
    if Live(slot, now) then multiset{slot.token} else multiset{}
  }

  lemma LiveUpdate(slots: seq<Slot>, i: nat, slot: Slot, now: int)
    requires i < |slots|
    ensures LiveTokens(slots[i := slot], now) + Own(slots[i], now) == LiveTokens(slots, now) + Own(slot, now)
  {
    var pre, post := slots[..i], slots[i + 1..];
    assert slots == pre + ([slots[i]] + post);
    assert slots[i := slot] == pre + ([slot] + post);
    LiveAppend(pre, [slots[i]] + post, now);
    LiveAppend(pre, [slot] + post, now);
    LiveAppend([slots[i]], post, now);
    LiveAppend([slot], post, now);
  }

  predicate HeldLive(slots: seq<Slot>, now: int, token: CString)
  {
    exists i :: 0 <= i < |slots| && Live(slots[i], now) && slots[i].token == token
  }

  lemma {:induction false} LiveTokenIsInASlot(slots: seq<Slot>, now: int, token: CString)
    ensures token in LiveTokens(slots, now) <==> HeldLive(slots, now, token)
  {
    if slots != [] {
      var rest := slots[1..];
      LiveTokenIsInASlot(rest, now, token);
      assert forall i :: 0 < i < |slots| ==> slots[i] == rest[i - 1];
      assert HeldLive(rest, now, token) ==> HeldLive(slots, now, token) by {
        if i :| 0 <= i < |rest| && Live(rest[i], now) && rest[i].token == token {
          assert slots[i + 1] == rest[i];
        }
      }
    }
  }

  lemma {:induction false} LiveTokenCount(slots: seq<Slot>, now: int)
    ensures |LiveTokens(slots, now)| <= |slots|
    ensures |LiveTokens(slots, now)| == |slots| <==> forall i :: 0 <= i < |slots| ==> Live(slots[i], now)
  {
    if slots != [] {
      LiveTokenCount(slots[1..], now);
      assert forall i :: 0 < i < |slots| ==> slots[i] == slots[1..][i - 1];
    }
  }

  /** The token was issued and has not expired. */
  predicate Unexpired(issued: seq<Issue>, ttl: int, now: int, token: CString)
  {
    exists k :: 0 <= k < |issued| && issued[k].token == token && now < issued[k].at + ttl
  }

  lemma {:induction false} LiveIssueIsInHistory(issued: seq<Issue>, ttl: int, now: int, token: CString)
    ensures token in LiveIssues(issued, ttl, now) <==> Unexpired(issued, ttl, now, token)
  {
    if issued != [] {
      var init := issued[..|issued| - 1];
      LiveIssueIsInHistory(init, ttl, now, token);
      UnexpiredSnoc(issued, ttl, now, token);
      hide Unexpired;
    }
  }

  lemma UnexpiredSnoc(issued: seq<Issue>, ttl: int, now: int, token: CString)
    requires issued != []
    ensures Unexpired(issued, ttl, now, token) <==>
            Unexpired(issued[..|issued| - 1], ttl, now, token)
            || (issued[|issued| - 1].token == token && now < issued[|issued| - 1].at + ttl)
  {
    assert forall k :: 0 <= k < |issued| - 1 ==> issued[k] == issued[..|issued| - 1][k];
  }

  /** In a faithful table some live slot holds the token exactly when the history says it was
      issued less than `ttl` ago. */
  lemma ValidityIsHistory(slots: seq<Slot>, issued: seq<Issue>, ttl: int, clock: int, now: int, token: CString)
    requires Faithful(slots, issued, ttl, clock) && clock <= now
    ensures HeldLive(slots, now, token) <==> Unexpired(issued, ttl, now, token)
  {
    LiveTokenIsInASlot(slots, now, token);
    LiveIssueIsInHistory(issued, ttl, now, token);
  }

  /** A faithful table has an open slot exactly when fewer than all its slots' worth of tokens
      are unexpired. */
  lemma RoomIsHistory(slots: seq<Slot>, issued: seq<Issue>, ttl: int, clock: int, now: int)
    requires Faithful(slots, issued, ttl, clock) && clock <= now
    ensures (exists i :: 0 <= i < |slots| && !Live(slots[i], now))
       <==> |LiveIssues(issued, ttl, now)| < |slots|
  {
    LiveTokenCount(slots, now);
    assert LiveTokens(slots, now) == LiveIssues(issued, ttl, now);
  }

  /** Putting a fresh token into a slot that is not live adds it to the history. */
  lemma IssueKeepsFaith(slots: seq<Slot>, issued: seq<Issue>, ttl: int, clock: int, i: nat, token: CString, now: int)
    requires Faithful(slots, issued, ttl, clock) && clock <= now
    requires i < |slots| && !Live(slots[i], now)
    ensures Faithful(slots[i := Slot(token, now + ttl, true)], issued + [Issue(token, now)], ttl, now)
  {
    var slot := Slot(token, now + ttl, true);
    var issued' := issued + [Issue(token, now)];
    forall later | now <= later ensures LiveTokens(slots[i := slot], later) == LiveIssues(issued', ttl, later) {
      LiveUpdate(slots, i, slot, later);
      assert issued'[..|issued'| - 1] == issued;
      assert LiveTokens(slots, later) == LiveIssues(issued, ttl, later);
    }
  }

  /** Rewriting a slot that is not live into one that is not live changes no validity. */
  lemma DeadWriteKeepsFaith(slots: seq<Slot>, issued: seq<Issue>, ttl: int, clock: int, i: nat, slot: Slot, now: int)
    requires Faithful(slots, issued, ttl, clock) && clock <= now
    requires i < |slots| && !Live(slots[i], now) && slot.expiresAt <= now
    ensures Faithful(slots[i := slot], issued, ttl, now)
  {
    forall later | now <= later ensures LiveTokens(slots[i := slot], later) == LiveIssues(issued, ttl, later) {
      LiveUpdate(slots, i, slot, later);
      var a, b := LiveTokens(slots[i := slot], later), LiveTokens(slots, later);
      assert a + multiset{} == a && b + multiset{} == b;
      assert LiveTokens(slots, later) == LiveIssues(issued, ttl, later);
    }
  }

  // ----- Random tokens -----

  /** The characters drawn for the bytes the random source delivered before it failed, if it
      did; a complete draw has 95. */
  function Drawn(bytes: seq<nat>): (r: CString)
    ensures |r| == if |bytes| < TOKEN_LENGTH then |bytes| else TOKEN_LENGTH
  {
    var n := if |bytes| < TOKEN_LENGTH then |bytes| else TOKEN_LENGTH;
    Letters(bytes[..n])
  }

  /** The 62 letters and digits of the alphabet, in its order. */
  function Letter(v: nat): char
    requires v < 62
  {
    if v < 26 then 'a' + v as char
    else if v < 52 then 'A' + (v - 26) as char
    else '0' + (v - 52) as char
  }

  function Letters(bytes: seq<nat>): (r: CString)
    ensures |r| == |bytes|
    ensures forall k :: 0 <= k < |r| ==> 'a' <= r[k] <= 'z' || 'A' <= r[k] <= 'Z' || '0' <= r[k] <= '9'
  {
    if bytes == [] then "" else [Letter(bytes[0] % 62)] + Letters(bytes[1..])
  }

  const LOWER := "abcdefghijklmnopqrstuvwxyz"
  const UPPER := "ABCDEFGHIJKLMNOPQRSTUVWXYZ"
  const DIGITS := "0123456789"

  lemma LowerIs(v: nat)
    requires v < 26
    ensures |LOWER| == 26 && LOWER[v] == 'a' + v as char
  {
  }

  lemma UpperIs(v: nat)
    requires v < 26
    ensures |UPPER| == 26 && UPPER[v] == 'A' + v as char
  {
  }

  lemma DigitIs(v: nat)
    requires v < 10
    ensures |DIGITS| == 10 && DIGITS[v] == '0' + v as char
  {
  }

  lemma AlphabetParts()
    ensures "abcdefghijklmnopqrstuvwxyzABCDEFGHIJKLMNOPQRSTUVWXYZ0123456789" == LOWER + (UPPER + DIGITS)
  {
  }

  lemma ThreeParts(a: string, b: string, d: string, v: nat)
    requires |a| == 26 && |b| == 26 && |d| == 10 && v < 62
    ensures (a + (b + d))[v] == if v < 26 then a[v] else if v < 52 then b[v - 26] else d[v - 52]
  {
  }

  lemma LetterIs(v: nat)
    requires v < 62
    ensures "abcdefghijklmnopqrstuvwxyzABCDEFGHIJKLMNOPQRSTUVWXYZ0123456789"[v] == Letter(v)
  {
    AlphabetParts();
    LowerIs(if v < 26 then v else 0);
    UpperIs(if 26 <= v < 52 then v - 26 else 0);
    DigitIs(if 52 <= v then v - 52 else 0);
    hide LOWER, UPPER, DIGITS;
    ThreeParts(LOWER, UPPER, DIGITS, v);
  }

  lemma {:induction false} LettersAre(bytes: seq<nat>, k: nat)
    requires k < |bytes|
    ensures Letters(bytes)[k] == Letter(bytes[k] % 62)
  {
    if k > 0 {
      LettersAre(bytes[1..], k - 1);
    }
  }

  /** Every character of a complete draw is the letter its random byte picks. */
  lemma DrawnCharacter(bytes: seq<nat>, k: nat)
    requires 95 <= |bytes| && k < 95
    ensures |Drawn(bytes)| == 95
    ensures Drawn(bytes)[k] == "abcdefghijklmnopqrstuvwxyzABCDEFGHIJKLMNOPQRSTUVWXYZ0123456789"[bytes[k] % 62]
  {
    LettersAre(bytes[..95], k);
    LetterIs(bytes[k] % 62);
  }

  lemma LettersDiffer(v: nat, w: nat)
    requires v < 62 && w < 62
    ensures Letter(v) == Letter(w) <==> v == w
  {
  }

  /** Two complete draws give the same token exactly when their first 95 bytes agree modulo 62. */
  lemma {:induction false} SameTokenIff(a: seq<nat>, b: seq<nat>)
    requires 95 <= |a| && 95 <= |b|
    ensures Drawn(a) == Drawn(b) <==> forall k :: 0 <= k < 95 ==> a[k] % 62 == b[k] % 62
  {
    forall k | 0 <= k < 95
      ensures |Drawn(a)| == 95 && |Drawn(b)| == 95
      ensures Drawn(a)[k] == Drawn(b)[k] <==> a[k] % 62 == b[k] % 62
    {
      LettersAre(a[..95], k);
      LettersAre(b[..95], k);
      LettersDiffer(a[k] % 62, b[k] % 62);
    }
    hide Drawn;
  }

  /** What a failed draw leaves: the characters drawn, then the slot's former ones. */
  function HalfWritten(former: CString, drawn: CString): CString
  {
    drawn + (if |drawn| < |former| then former[|drawn|..] else "")
  }

  // ----- The table in place -----

  class TokenTable {
    const pairingCode: CString
    const ttl: int
    const entries: array<Slot>
    ghost var issued: seq<Issue>
    ghost var clock: int

    ghost predicate Valid()
      reads this, entries
    {
      entries.Length == MAX_TOKENS && 0 < ttl && Faithful(entries[..], issued, ttl, clock)
    }

    /** `gateway_auth_init` after its random pairing code was drawn. */
    constructor (code: CString, ttl: int, ghost start: int)
      requires 0 <= start
      ensures Valid() && fresh(entries) && issued == [] && clock == start
      ensures pairingCode == code && this.ttl == if ttl > 0 then ttl else 300
    {
      pairingCode := code;
      this.ttl := if ttl > 0 then ttl else 300;
      entries := new Slot[MAX_TOKENS](i => ZERO_SLOT);
      issued := [];
      clock := start;
      new;
      NoneLive(entries[..]);
    }

    /** `gateway_auth_exchange_pairing_code`. `bytes` is what the random source delivers, up to
        its first failure. The right code and a complete draw succeed exactly while fewer than
        16 tokens are unexpired; no call but a successful one changes which tokens are valid. */
    method Exchange(code: CString, tokenLen: nat, bytes: seq<nat>, now: int) returns (rc: int, tokenOut: CString)
      requires Valid() && clock <= now
      modifies this`issued, this`clock, entries
      ensures Valid() && clock == now
      ensures rc == 0 || rc == -1
      ensures rc == 0 <==>
                code == pairingCode && 0 < tokenLen && TOKEN_LENGTH <= |bytes|
                && |LiveIssues(old(issued), ttl, now)| < MAX_TOKENS
      ensures rc == 0 ==> issued == old(issued) + [Issue(Drawn(bytes), now)] && tokenOut == Fit(Drawn(bytes), tokenLen)
      ensures rc == -1 ==> issued == old(issued)
    {
      rc, tokenOut := -1, "";
      hide Drawn;
      RoomIsHistory(entries[..], issued, ttl, clock, now);
      if tokenLen == 0 || pairingCode != code {
        clock := now;
        return;
      }
      for i := 0 to MAX_TOKENS
        invariant entries[..] == old(entries[..]) && issued == old(issued) && clock == old(clock)
        invariant rc == -1
        invariant forall k :: 0 <= k < i ==> Live(entries[k], now)
      {
        if !entries[i].inUse || entries[i].expiresAt <= now {
          rc := FillSlot(i, bytes, now);
          if rc == 0 {
            tokenOut := Fit(Drawn(bytes), tokenLen);
          }
          return;
        }
      }
      clock := now;
    }

    /** The body of the scan, on a slot that is free or expired. */
    method FillSlot(i: nat, bytes: seq<nat>, now: int) returns (rc: int)
      requires Valid() && clock <= now && i < MAX_TOKENS && !Live(entries[i], now)
      modifies this`issued, this`clock, entries
      ensures Valid() && clock == now
      ensures rc == if TOKEN_LENGTH <= |bytes| then 0 else -1
      ensures issued == old(issued) + (if rc == 0 then [Issue(Drawn(bytes), now)] else [])
    {
      hide Drawn;
      ghost var before := entries[..];
      entries[i] := entries[i].(inUse := true);
      var drawn := Drawn(bytes);
      if |bytes| < TOKEN_LENGTH {
        entries[i] := entries[i].(token := HalfWritten(entries[i].token, drawn));
        DeadWriteKeepsFaith(before, issued, ttl, clock, i, entries[i], now);
        assert entries[..] == before[i := entries[i]];
        rc := -1;
      } else {
        entries[i] := entries[i].(token := drawn);
        entries[i] := entries[i].(expiresAt := now + ttl);
        IssueKeepsFaith(before, issued, ttl, clock, i, drawn, now);
        assert entries[..] == before[i := entries[i]];
        issued := issued + [Issue(drawn, now)];
        rc := 0;
      }
      clock := now;
    }

    /** `gateway_auth_validate_token`: a non-empty token is accepted exactly when it was issued
        less than `ttl` seconds ago, for every history of exchanges and validations. */
    method Validate(token: CString, now: int) returns (valid: bool)
      requires Valid() && clock <= now
      modifies this`clock, entries
      ensures Valid() && clock == now
      ensures valid <==> token != "" && Unexpired(issued, ttl, now, token)
    {
      valid := false;
      ValidityIsHistory(entries[..], issued, ttl, clock, now, token);
      if token == "" {
        clock := now;
        return;
      }
      ghost var before := entries[..];
      for i := 0 to MAX_TOKENS
        invariant Faithful(entries[..], issued, ttl, clock) && clock <= now
        invariant !valid
        invariant forall k :: i <= k < MAX_TOKENS ==> entries[k] == before[k]
        invariant forall k :: 0 <= k < i ==> !(Live(before[k], now) && before[k].token == token)
      {
        if !entries[i].inUse {
          continue;
        }
        if entries[i].expiresAt <= now {
          ghost var current := entries[..];
          var freed := entries[i].(inUse := false);
          DeadWriteKeepsFaith(current, issued, ttl, clock, i, freed, now);
          entries[i] := freed;
          assert entries[..] == current[i := freed];
          clock := now;
          continue;
        }
        if entries[i].token == token {
          clock := now;
          return true;
        }
      }
      clock := now;
    }
  }

  lemma {:induction false} NoneLive(slots: seq<Slot>)
    requires forall i :: 0 <= i < |slots| ==> slots[i] == ZERO_SLOT
    ensures forall now :: LiveTokens(slots, now) == multiset{}
  {
    if slots != [] {
      NoneLive(slots[1..]);
    }
  }
}
