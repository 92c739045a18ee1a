/** The slot table of `src/task_queue.c` as a value: slots, the scans over them, and the
    counters the scheduler's proofs are about. */
module TaskTable {
  import opened CText
  import Decimal

  const TASK_ID_MAX := 32
  const TASK_TYPE_MAX := 32
  const TASK_PARAMS_MAX := 1024
  const TASK_RESULT_MAX := 4096

  type Pid = p: int | 0 < p < 0x8000_0000 witness 1

  datatype Status = Queued | Running | Complete | Failed | Cancelled

  datatype TaskItem = TaskItem(
    inUse: bool,
    id: CString,
    kind: CString,
    params: CString,
    status: Status,
    result: CString,
    workerPid: int,
    createdAt: int,
    completedAt: int)

  /** What `memset(item, 0, sizeof(*item))` leaves. */
  const ZERO_ITEM := TaskItem(false, "", "", "", Queued, "", 0, 0, 0)

  predicate Terminal(s: Status)
  {
    s == Complete || s == Failed || s == Cancelled
  }

  /** The conditions the table's scans look for. */
  datatype Query = Free | Holding(id: string) | Worker(pid: int) | Waiting | Busy

  predicate Selects(q: Query, t: TaskItem)
  {
    match q
    case Free => !t.inUse
    case Holding(id) => t.inUse && t.id == id
    case Worker(pid) => t.inUse && t.workerPid == pid
    case Waiting => t.inUse && t.status == Queued
    case Busy => t.inUse && t.status == Running
  }

  /** The lowest selected slot, or |slots|. */
  function First(q: Query, slots: seq<TaskItem>): (i: nat)
    ensures i <= |slots|
    ensures i < |slots| ==> Selects(q, slots[i])
    ensures forall k :: 0 <= k < i ==> !Selects(q, slots[k])
  {
    if slots == [] || Selects(q, slots[0]) then 0 else First(q, slots[1..]) + 1
  }

  lemma FirstIs(q: Query, slots: seq<TaskItem>, i: nat)
    requires i <= |slots| && (i < |slots| ==> Selects(q, slots[i]))
    requires forall k :: 0 <= k < i ==> !Selects(q, slots[k])
    ensures First(q, slots) == i
  {
  }

  function Count(q: Query, slots: seq<TaskItem>): nat
  {
    if slots == [] then 0
    else (if Selects(q, slots[0]) then 1 else 0) + Count(q, slots[1..])
  }

  lemma {:induction false} CountAppend(q: Query, a: seq<TaskItem>, b: seq<TaskItem>)
    ensures Count(q, a + b) == Count(q, a) + Count(q, b)
  {
    if a == [] {
      assert a + b == b;
    } else {
      assert (a + b)[1..] == a[1..] + b;
      CountAppend(q, a[1..], b);
    }
  }

  /** Overwriting one slot moves a count by that slot's own contribution. */
  lemma CountUpdate(q: Query, slots: seq<TaskItem>, i: nat, t: TaskItem)
    requires i < |slots|
    ensures Count(q, slots[i := t]) + (if Selects(q, slots[i]) then 1 else 0)
         == Count(q, slots) + (if Selects(q, t) then 1 else 0)
  {
    var pre, post := slots[..i], slots[i + 1..];
    assert slots == pre + ([slots[i]] + post);
    assert slots[i := t] == pre + ([t] + post);
    CountAppend(q, pre, [slots[i]] + post);
    CountAppend(q, pre, [t] + post);
  }

  lemma {:induction false} CountZero(q: Query, slots: seq<TaskItem>)
    ensures Count(q, slots) == 0 <==> First(q, slots) == |slots|
    ensures Count(q, slots) == 0 <==> forall i :: 0 <= i < |slots| ==> !Selects(q, slots[i])
    ensures Count(q, slots) <= |slots|
  {
    if slots != [] {
      CountZero(q, slots[1..]);
      assert forall i :: 0 < i < |slots| ==> slots[i] == slots[1..][i - 1];
    }
  }

  // ----- Task identifiers -----

  /** `snprintf(item->id, 32, "task_%u_%d", seq, getpid())`, before any truncation. */
  function IdText(n: nat, self: Pid): CString
  {
    Decimal.PrintIsDigits(n);
    Decimal.PrintIsDigits(self);
    "task_" + Decimal.Print(n) + "_" + Decimal.Print(self)
  }

  function IdOf(n: nat, self: Pid): CString
  {
    Fit(IdText(n, self), TASK_ID_MAX)
  }

  /** Both numbers can be read off an identifier, and the 32-byte field never cuts one. */
  lemma IdInjective(n: nat, m: nat, self: Pid, other: Pid)
    requires n < 0x1_0000_0000 && m < 0x1_0000_0000
    ensures IdOf(n, self) == IdText(n, self)
    ensures IdOf(n, self) == IdOf(m, other) <==> n == m && self == other
  {
    IdFits(n, self);
    IdFits(m, other);
    if IdText(n, self) == IdText(m, other) {
      var a, b := Decimal.Print(n), Decimal.Print(m);
      var x, y := Decimal.Print(self), Decimal.Print(other);
      assert IdText(n, self)[5..] == a + "_" + x;
      assert IdText(m, other)[5..] == b + "_" + y;
      SplitAtMark(a, x, b, y, n, m);
      Decimal.ReadPrint(n);
      Decimal.ReadPrint(m);
      Decimal.ReadPrint(self);
      Decimal.ReadPrint(other);
    }
  }

  /** What an identifier looks like: `task_`, the counter's digits, `_`, the process id's. */
  lemma IdReads(n: nat, self: Pid) returns (counter: string, pid: string)
    requires n < 0x1_0000_0000
    ensures IdOf(n, self) == "task_" + counter + "_" + pid && |IdOf(n, self)| <= 31
    ensures Decimal.Read(counter) == n && Decimal.Read(pid) == self
    ensures forall i :: 0 <= i < |counter| ==> '0' <= counter[i] <= '9'
    ensures forall i :: 0 <= i < |pid| ==> '0' <= pid[i] <= '9'
  {
    counter, pid := Decimal.Print(n), Decimal.Print(self);
    IdFits(n, self);
    Decimal.ReadPrint(n);
    Decimal.ReadPrint(self);
    Decimal.PrintIsDigits(n);
    Decimal.PrintIsDigits(self);
  }

  lemma IdFits(n: nat, self: Pid)
    requires n < 0x1_0000_0000
    ensures |IdText(n, self)| < TASK_ID_MAX
  {
    assert Decimal.Power10(5) == 100000;
    assert Decimal.Power10(10) == 10000000000;
    Decimal.PrintLength(n, 10, 10000000000);
    Decimal.PrintLength(self, 10, 10000000000);
  }

  lemma SplitAtMark(a: string, x: string, b: string, y: string, n: nat, m: nat)
    requires a == Decimal.Print(n) && b == Decimal.Print(m)
    requires a + "_" + x == b + "_" + y
    ensures a == b && x == y
  {
    Decimal.PrintIsDigits(n);
    Decimal.PrintIsDigits(m);
    var s := a + "_" + x;
    assert s == b + "_" + y;
    assert s[|a|] == '_' && forall k :: 0 <= k < |a| ==> s[k] == a[k];
    assert s[|b|] == '_' && forall k :: 0 <= k < |b| ==> s[k] == b[k];
    assert |a| == |b|;
    assert a == s[..|a|] && b == s[..|b|];
    assert x == s[|a| + 1..] && y == s[|b| + 1..];
  }
}
