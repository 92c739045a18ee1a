/** The sender allowlist of `src/channels/allowlist.c`: a hand-written tokenizer against the
    plain reading of a comma-separated list. */
module Allowlist {
  import opened Wrappers
  import opened CText

  predicate IsBlank(c: char)
  {
    c == ' ' || c == '\t'
  }

  /** The index of the first comma at or after i, or the end. */
  function CommaFrom(s: string, i: nat): (q: nat)
    requires i <= |s|
    ensures i <= q <= |s| && (q < |s| ==> s[q] == ',')
    ensures forall k :: i <= k < q ==> s[k] != ','
    decreases |s| - i
  {
    if i == |s| || s[i] == ',' then i else CommaFrom(s, i + 1)
  }

  /** The comma-separated items of a list; an empty list has one empty item. */
  function Items(s: string): (r: seq<string>)
    ensures r != []
    decreases |s|
  {
    var q := CommaFrom(s, 0);
    if q == |s| then [s] else [s[..q]] + Items(s[q + 1..])
  }

  function TrimRight(s: string): (r: string)
    ensures r <= s && (r != "" ==> !IsBlank(r[|r| - 1]))
    decreases |s|
  {
    if s != "" && IsBlank(s[|s| - 1]) then TrimRight(s[..|s| - 1]) else s
  }

  /** Blanks gone at both ends. */
  function Trim(s: string): string
    decreases |s|
  {
    if s != "" && IsBlank(s[0]) then Trim(s[1..]) else TrimRight(s)
  }

  /** Some item, trimmed, is the sender. */
  predicate Listed(list: string, sender: string)
  {
    exists k :: 0 <= k < |Items(list)| && Trim(Items(list)[k]) == sender
  }

  lemma ListedFirst(list: string, sender: string)
    ensures var q := CommaFrom(list, 0);
            Listed(list, sender) <==>
              Trim(list[..q]) == sender || (q < |list| && Listed(list[q + 1..], sender))
  {
    var q := CommaFrom(list, 0);
    var items := Items(list);
    if q == |list| {
      assert list[..q] == list && items == [list];
    } else {
      assert items == [list[..q]] + Items(list[q + 1..]);
    }
    hide Items, CommaFrom, Trim;
    if q == |list| {
      assert items[0] == list;
    } else {
      ListedInFront(items, list[..q], Items(list[q + 1..]), sender);
    }
  }

  lemma ListedInFront(items: seq<string>, first: string, rest: seq<string>, sender: string)
    requires items == [first] + rest
    ensures (exists k :: 0 <= k < |items| && Trim(items[k]) == sender)
       <==> Trim(first) == sender || exists k :: 0 <= k < |rest| && Trim(rest[k]) == sender
  {
    hide Trim;
    assert items[0] == first && forall k :: 0 <= k < |rest| ==> items[k + 1] == rest[k];
    if k :| 0 < k < |items| && Trim(items[k]) == sender {
      assert rest[k - 1] == items[k];
    }
  }

  /** Leading blanks and commas add no item a non-empty sender could match. */
  lemma SkipKeepsListed(list: string, sender: string)
    requires sender != "" && list != "" && (IsBlank(list[0]) || list[0] == ',')
    ensures Listed(list, sender) <==> Listed(list[1..], sender)
  {
    var q := CommaFrom(list, 0);
    ListedFirst(list, sender);
    if list[0] == ',' {
      assert list[..0] == "" && Trim("") == "";
    } else {
      ListedFirst(list[1..], sender);
      CommaShifts(list);
      assert list[..q][1..] == list[1..][..q - 1];
      assert q < |list| ==> list[1..][q - 1 + 1..] == list[q + 1..];
    }
  }

  lemma CommaShifts(list: string)
    requires list != "" && list[0] != ','
    ensures CommaFrom(list[1..], 0) == CommaFrom(list, 0) - 1
  {
    var q, r := CommaFrom(list, 0), CommaFrom(list[1..], 0);
    assert forall k :: 0 <= k < |list[1..]| ==> list[1..][k] == list[k + 1];
    hide CommaFrom;
    if q < |list| {
      assert list[1..][q - 1] == ',';
    }
    if r < |list| - 1 {
      assert list[r + 1] == ',';
    }
  }

  /** `p[n]`'s right trim, as the inner loop computes it. */
  lemma TrimRightIs(s: string, n: nat)
    requires n <= |s| && (n > 0 ==> !IsBlank(s[n - 1]))
    requires forall k :: n <= k < |s| ==> IsBlank(s[k])
    ensures TrimRight(s) == s[..n]
    decreases |s|
  {
    if n < |s| {
      TrimRightIs(s[..|s| - 1], n);
      assert s[..|s| - 1][..n] == s[..n];
    } else {
      assert s[..n] == s;
    }
  }

  /** `sender_allowed`; None is a NULL list. A non-empty sender is accepted by no list, by
      `*`, and otherwise exactly when some item, trimmed of spaces and tabs, equals him. */
  method SenderAllowed(allowlist: Option<CString>, sender: CString) returns (ok: bool)
    ensures sender == "" ==> !ok
    ensures sender != "" && (allowlist.None? || allowlist.value == "*") ==> ok
    ensures sender != "" && allowlist.Some? && allowlist.value != "*" ==> (ok <==> Listed(allowlist.value, sender))
  {
    if sender == "" {
      return false;
    }
    if allowlist.None? {
      return true;
    }
    var list := allowlist.value;
    if list == "*" {
      return true;
    }
    hide Items, Listed, Trim;
    if list == "" {
      NothingListed(list, sender);
      return false;
    }
    var p := 0;
    assert list[0..] == list;
    while At(list, p) != '\0'
      invariant 0 <= p <= |list|
      invariant Listed(list, sender) <==> Listed(list[p..], sender)
      invariant p < |list| && 0 < p ==> list[p] == ','
      decreases |list| - p
    {
      ghost var start := p;
      while At(list, p) == ' ' || At(list, p) == '\t' || At(list, p) == ','
        invariant start <= p <= |list|
        invariant start == p ==> p < |list| && (0 < p ==> list[p] == ',')
        invariant Listed(list, sender) <==> Listed(list[p..], sender)
        decreases |list| - p
      {
        SkipKeepsListed(list[p..], sender);
        assert list[p..][1..] == list[p + 1..];
        p := p + 1;
      }
      if At(list, p) == '\0' {
        break;
      }
      var q, n := ItemAt(list, p);
      ItemDecides(list, p, q, n, sender);
      if |sender| == n && sender == list[p..p + n] {
        return true;
      }
      p := q;
    }
    NothingListed(list[p..], sender);
    ok := false;
  }

  /** The two inner loops: the item's end and its length without trailing blanks. */
  method ItemAt(list: CString, p: nat) returns (q: nat, n: nat)
    requires p < |list| && list[p] != ',' && !IsBlank(list[p])
    ensures p < q <= |list| && (q < |list| ==> list[q] == ',') && forall k :: p <= k < q ==> list[k] != ','
    ensures 0 < n <= q - p && !IsBlank(list[p + n - 1]) && forall k :: p + n <= k < q ==> IsBlank(list[k])
  {
    q := p;
    while At(list, q) != '\0' && At(list, q) != ','
      invariant p <= q <= |list| && forall k :: p <= k < q ==> list[k] != ','
      decreases |list| - q
    {
      q := q + 1;
    }
    n := q - p;
    while n > 0 && (list[p + n - 1] == ' ' || list[p + n - 1] == '\t')
      invariant 0 <= n <= q - p && forall k :: p + n <= k < q ==> IsBlank(list[k])
    {
      n := n - 1;
    }
  }

  lemma TrimItem(item: string, n: nat)
    requires 0 < n <= |item| && !IsBlank(item[0]) && !IsBlank(item[n - 1])
    requires forall k :: n <= k < |item| ==> IsBlank(item[k])
    ensures Trim(item) == item[..n]
  {
    TrimRightIs(item, n);
  }

  /** One item decides for itself; whatever follows it decides the rest. */
  lemma ItemDecides(list: CString, p: nat, q: nat, n: nat, sender: CString)
    requires sender != "" && p < q <= |list| && (q < |list| ==> list[q] == ',')
    requires !IsBlank(list[p]) && forall k :: p <= k < q ==> list[k] != ','
    requires 0 < n <= q - p && !IsBlank(list[p + n - 1]) && forall k :: p + n <= k < q ==> IsBlank(list[k])
    ensures Listed(list[p..], sender) <==> sender == list[p..p + n] || Listed(list[q..], sender)
  {
    var tail, item := list[p..], list[p..q];
    hide Items, Listed, Trim;
    CommaIs(tail, q - p);
    ListedFirst(tail, sender);
    assert tail[..q - p] == item;
    TrimItem(item, n);
    assert item[..n] == list[p..p + n];
    if q < |list| {
      SkipKeepsListed(list[q..], sender);
      assert list[q..][1..] == list[q + 1..] == tail[q - p + 1..];
    } else {
      NothingListed(list[q..], sender);
    }
  }

  lemma CommaIs(s: string, q: nat)
    requires q <= |s| && (q < |s| ==> s[q] == ',') && forall k :: 0 <= k < q ==> s[k] != ','
    ensures CommaFrom(s, 0) == q
  {
    var r := CommaFrom(s, 0);
    hide CommaFrom;
  }

  lemma NothingListed(list: string, sender: string)
    requires list == "" && sender != ""
    ensures !Listed(list, sender)
  {
    ListedFirst(list, sender);
    assert Trim("") == "";
  }
}
