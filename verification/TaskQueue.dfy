/** `src/task_queue.c`: the slot array, scanned and rewritten in place. */
module TaskQueues {
  import opened Wrappers
  import opened CText
  import opened TaskTable
  import opened Scheduler
  import opened TaskListing

  const DEFAULT_TASKS := 100

  class TaskQueue {
    const items: array<TaskItem>
    var seqNo: nat

    constructor (maxTasks: int)
      ensures fresh(this.items)
      ensures items.Length == if maxTasks <= 0 then DEFAULT_TASKS else maxTasks
      ensures items[..] == seq(items.Length, i => ZERO_ITEM) && seqNo == 0
    {
      var size := if maxTasks <= 0 then DEFAULT_TASKS else maxTasks;
      items := new TaskItem[size](i => ZERO_ITEM);
      seqNo := 0;
      new;
      assert items[..] == seq(items.Length, i => ZERO_ITEM);
    }

    /** `task_queue_add`: fills the lowest free slot; `idOutLen` is the caller's buffer size. */
    method Add(kind: CString, params: Option<CString>, idOutLen: nat, self: Pid, now: int)
      returns (rc: int, idOut: CString)
      modifies this`seqNo, items
      ensures rc == 0 || rc == -1
      ensures rc == 0 <==> kind != "" && 0 < idOutLen && First(Free, old(items[..])) < items.Length
      ensures rc == -1 ==> seqNo == old(seqNo) && items[..] == old(items[..])
      ensures rc == 0 ==>
                && seqNo == (old(seqNo) + 1) % SEQ_LIMIT
                && items[..] == old(items[..])[First(Free, old(items[..])) :=
                                  NewTask(kind, params, IdOf(seqNo, self), now)]
                && idOut == Fit(IdOf(seqNo, self), idOutLen)
    {
      rc, idOut := -1, "";
      if kind == "" || idOutLen == 0 {
        return;
      }
      for i := 0 to items.Length
        invariant items[..] == old(items[..]) && seqNo == old(seqNo) && rc == -1
        invariant forall k :: 0 <= k < i ==> !Selects(Free, items[k])
      {
        if !items[i].inUse {
          FirstIs(Free, items[..], i);
          seqNo := (seqNo + 1) % SEQ_LIMIT;
          items[i] := NewTask(kind, params, IdOf(seqNo, self), now);
          return 0, Fit(IdOf(seqNo, self), idOutLen);
        }
      }
      FirstIs(Free, items[..], items.Length);
    }

    method Get(id: CString) returns (slot: Option<nat>)
      ensures slot == if First(Holding(id), items[..]) < items.Length then Some(First(Holding(id), items[..])) else None
    {
      for i := 0 to items.Length
        invariant forall k :: 0 <= k < i ==> !Selects(Holding(id), items[k])
      {
        if items[i].inUse && items[i].id == id {
          FirstIs(Holding(id), items[..], i);
          return Some(i);
        }
      }
      FirstIs(Holding(id), items[..], items.Length);
      slot := None;
    }

    method FindByPid(pid: int) returns (slot: Option<nat>)
      ensures slot == if 0 < pid && First(Worker(pid), items[..]) < items.Length
                      then Some(First(Worker(pid), items[..])) else None
    {
      if pid <= 0 {
        return None;
      }
      for i := 0 to items.Length
        invariant forall k :: 0 <= k < i ==> !Selects(Worker(pid), items[k])
      {
        if items[i].inUse && items[i].workerPid == pid {
          FirstIs(Worker(pid), items[..], i);
          return Some(i);
        }
      }
      FirstIs(Worker(pid), items[..], items.Length);
      slot := None;
    }

    method NextQueued() returns (slot: Option<nat>)
      ensures slot == if First(Waiting, items[..]) < items.Length then Some(First(Waiting, items[..])) else None
    {
      for i := 0 to items.Length
        invariant forall k :: 0 <= k < i ==> !Selects(Waiting, items[k])
      {
        if items[i].inUse && items[i].status == Queued {
          FirstIs(Waiting, items[..], i);
          return Some(i);
        }
      }
      FirstIs(Waiting, items[..], items.Length);
      slot := None;
    }

    method CountRunning() returns (count: nat)
      ensures count == Count(Busy, items[..])
    {
      count := 0;
      for i := 0 to items.Length
        invariant count == Count(Busy, items[..i])
      {
        assert items[..i + 1] == items[..i] + [items[i]];
        CountAppend(Busy, items[..i], [items[i]]);
        if items[i].inUse && items[i].status == Running {
          count := count + 1;
        }
      }
      assert items[..items.Length] == items[..];
    }

    /** `task_queue_cleanup`: frees exactly the tasks terminal for more than `ttl` seconds, or
        300 if `ttl` is not positive. */
    method Cleanup(ttl: int, now: int)
      modifies items
      ensures var kept := if ttl <= 0 then RETENTION_SECONDS else ttl;
              forall k :: 0 <= k < items.Length ==>
                items[k] == if Expired(old(items[k]), kept, now) then ZERO_ITEM else old(items[k])
    {
      var kept := if ttl <= 0 then RETENTION_SECONDS else ttl;
      for i := 0 to items.Length
        invariant forall k :: 0 <= k < i ==>
                    items[k] == if Expired(old(items[k]), kept, now) then ZERO_ITEM else old(items[k])
        invariant forall k :: i <= k < items.Length ==> items[k] == old(items[k])
      {
        var it := items[i];
        if it.inUse && (it.status == Complete || it.status == Failed || it.status == Cancelled) &&
           it.completedAt > 0 && now - it.completedAt > kept {
          items[i] := ZERO_ITEM;
        }
      }
    }

    /** `task_queue_list_json`: with three bytes or more the buffer ends up holding a complete
        listing of the slot-order prefix the headroom rule admits, whatever the table. */
    method ListJson(out: array<char>) returns (rc: int)
      requires IdsFit(items[..])
      modifies out
      ensures rc == if out.Length == 0 then -1 else 0
      ensures 3 <= out.Length ==>
                exists shown :: IsShown(InUse(items[..]), out.Length, shown) && Held(out[..]) == Listing(shown)
    {
      if out.Length == 0 {
        return -1;
      }
      rc := 0;
      hide Open, Element, InUse, Piece, Admitted, Held, IsShown, Listing, Scanned;
      ghost var slots := items[..];
      var used: nat := StartOpen(out);
      ghost var shown: seq<TaskItem> := [];
      ScanStarts(slots);
      var i := 0;
      while i < items.Length
        invariant 0 <= i <= items.Length
        invariant items[..] == slots && Scanned(slots, i, shown)
        invariant Printed(out, used, shown) && Admitted(shown, out.Length)
      {
        var t := items[i];
        assert t == slots[i];
        ScanStep(slots, i, shown);
        if t.inUse {
          if used + HEADROOM >= out.Length {
            break;
          }
          used := PrintElement(out, used, shown, t);
          shown := shown + [t];
        }
        i := i + 1;
      }
      ScanEnds(slots, i, shown, out.Length);
      CloseListing(out, used, shown);
    }

    /** The buffer holds the listing so far, with room for the bracket and the NUL. */
    static ghost predicate Printed(out: array<char>, used: nat, shown: seq<TaskItem>)
      reads out
    {
      used == |Open(shown)| && (3 <= out.Length ==> used + 2 <= out.Length && out[..used] == Open(shown))
    }

    static method PrintElement(out: array<char>, used: nat, ghost shown: seq<TaskItem>, t: TaskItem)
      returns (now: nat)
      requires Printed(out, used, shown) && Admitted(shown, out.Length)
      requires used + HEADROOM < out.Length && |t.id| < TASK_ID_MAX
      modifies out
      ensures Printed(out, now, shown + [t]) && Admitted(shown + [t], out.Length)
    {
      hide Open, Element, Piece, Admitted;
      var text := ElementText(shown, t, used);
      PrintAfter(out, used, Open(shown), text);
      now := used + |text|;
      OpenGrows(shown, t);
      AdmittedGrows(shown, t, out.Length);
    }

    static method CloseListing(out: array<char>, used: nat, ghost shown: seq<TaskItem>)
      requires Printed(out, used, shown)
      modifies out
      ensures 3 <= out.Length ==> Held(out[..]) == Listing(shown)
    {
      hide Open, Held;
      if 3 <= out.Length {
        PrintAfter(out, used, Open(shown), "]");
        OpenIsCString(shown);
        HeldIs(out[..], Listing(shown));
      } else if used <= out.Length {
        var _ := PrintInto(out, used, "]");
      }
    }

    static method StartOpen(out: array<char>) returns (used: nat)
      requires out.Length > 0
      modifies out
      ensures Printed(out, used, []) && Admitted([], out.Length)
    {
      hide Admitted;
      var wrote := PrintInto(out, 0, "[");
      used := wrote;
      StartListing(out.Length);
    }

    /** The text `snprintf` prints for one element; `used > 1` tells whether one precedes. */
    static method ElementText(ghost shown: seq<TaskItem>, t: TaskItem, used: nat) returns (text: CString)
      requires used == |Open(shown)| && |t.id| < TASK_ID_MAX
      ensures text == Piece(shown, t) && |text| < HEADROOM
    {
      OpenIsCString(shown);
      ElementLength(t);
      ElementIsCString(t);
      text := (if used > 1 then "," else "") + Element(t);
    }
  }
}
