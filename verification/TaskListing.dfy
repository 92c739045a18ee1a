/** What `task_queue_list_json` and `subagent_get_json` print, and when a byte-level JSON reader
    gets it back. */
module TaskListing {
  import opened Wrappers
  import opened CText
  import opened TaskTable
  import opened Json
  import Decimal

  const HEADROOM := 128
  const REPLY_MAX := 4096

  function StatusName(s: Status): CString
  {
    match s
    case Queued => "queued"
    case Running => "running"
    case Complete => "complete"
    case Failed => "failed"
    case Cancelled => "cancelled"
  }

  function InUse(slots: seq<TaskItem>): seq<TaskItem>
  {
    if slots == [] then [] else (if slots[0].inUse then [slots[0]] else []) + InUse(slots[1..])
  }

  function Element(t: TaskItem): string
  {
    "{" + Quoted("task_id", t.id) + "," + Quoted("status", StatusName(t.status)) + "}"
  }

  /** One element with its separator, behind `ts`. */
  function Piece(ts: seq<TaskItem>, t: TaskItem): string
  {
    (if ts == [] then "" else ",") + Element(t)
  }

  /** The opening bracket and the elements, before the closing bracket. */
  function Open(ts: seq<TaskItem>): string
  {
    if ts == [] then "["
    else Open(ts[..|ts| - 1]) + Piece(ts[..|ts| - 1], ts[|ts| - 1])
  }

  function Listing(ts: seq<TaskItem>): string
  {
    Open(ts) + "]"
  }

  ghost predicate Admitted(shown: seq<TaskItem>, size: nat)
  {
    forall k :: 0 <= k < |shown| ==> |Open(shown[..k])| + 128 < size
  }

  lemma AdmittedGrows(shown: seq<TaskItem>, t: TaskItem, size: nat)
    requires Admitted(shown, size) && |Open(shown)| + HEADROOM < size
    ensures Admitted(shown + [t], size)
  {
    hide Open;
    forall k | 0 <= k < |shown + [t]| ensures |Open((shown + [t])[..k])| + HEADROOM < size {
      assert (shown + [t])[..k] == if k == |shown| then shown else shown[..k];
    }
  }

  /** `shown` is the longest slot-order prefix the printer's headroom rule admits: it adds an
      element only while fewer than `size` bytes are used by 128. */
  ghost predicate IsShown(ts: seq<TaskItem>, size: nat, shown: seq<TaskItem>)
  {
    && shown <= ts
    && Admitted(shown, size)
    && (shown == ts || |Open(shown)| + 128 >= size)
  }

  /** The rule picks exactly one prefix. */
  lemma ShownIsUnique(ts: seq<TaskItem>, size: nat, a: seq<TaskItem>, b: seq<TaskItem>)
    requires IsShown(ts, size, a) && IsShown(ts, size, b)
    ensures a == b
  {
    assert a == ts[..|a|] && b == ts[..|b|];
    assert |a| < |b| ==> b[..|a|] == a;
    assert |b| < |a| ==> a[..|b|] == b;
  }

  lemma ElementLength(t: TaskItem)
    requires |t.id| < TASK_ID_MAX
    ensures 0 < |Element(t)| && |Element(t)| + 1 < HEADROOM
  {
  }

  lemma {:induction false} OpenIsCString(ts: seq<TaskItem>)
    ensures '\0' !in Open(ts) && 1 <= |Open(ts)|
    ensures ts != [] ==> 1 < |Open(ts)|
  {
    if ts != [] {
      ElementIsCString(ts[|ts| - 1]);
      hide Element;
      OpenIsCString(ts[..|ts| - 1]);
    }
  }

  lemma ElementIsCString(t: TaskItem)
    ensures '\0' !in Element(t) && 0 < |Element(t)|
  {
  }

  lemma OpenGrows(ts: seq<TaskItem>, t: TaskItem)
    ensures Open(ts + [t]) == Open(ts) + Piece(ts, t)
  {
    hide Piece;
    assert (ts + [t])[..|ts + [t]| - 1] == ts;
  }

  /** Identifiers live in `char id[32]`. */
  predicate IdsFit(slots: seq<TaskItem>)
  {
    forall i :: 0 <= i < |slots| ==> |slots[i].id| < TASK_ID_MAX
  }

  lemma StartListing(size: nat)
    ensures Open([]) == "[" && Admitted([], size)
  {
  }

  /** `shown` is what the scan met in the first i slots. */
  ghost predicate Scanned(slots: seq<TaskItem>, i: nat, shown: seq<TaskItem>)
  {
    i <= |slots| && InUse(slots) == shown + InUse(slots[i..])
  }

  lemma ScanStarts(slots: seq<TaskItem>)
    ensures Scanned(slots, 0, [])
  {
    assert slots[0..] == slots;
  }

  lemma ScanStep(slots: seq<TaskItem>, i: nat, shown: seq<TaskItem>)
    requires i < |slots| && Scanned(slots, i, shown)
    ensures Scanned(slots, i + 1, if slots[i].inUse then shown + [slots[i]] else shown)
  {
    var rest := InUse(slots[i + 1..]);
    assert slots[i..][1..] == slots[i + 1..];
    if slots[i].inUse {
      assert shown + ([slots[i]] + rest) == shown + [slots[i]] + rest;
    } else {
      assert [] + rest == rest;
    }
  }

  lemma ScanEnds(slots: seq<TaskItem>, i: nat, shown: seq<TaskItem>, size: nat)
    requires Scanned(slots, i, shown) && Admitted(shown, size)
    requires i == |slots| || |Open(shown)| + HEADROOM >= size
    ensures IsShown(InUse(slots), size, shown)
  {
    if i == |slots| {
      assert slots[i..] == [];
    }
  }

  // ----- Reading the listing back -----

  function Entry(t: TaskItem): seq<Member>
  {
    [Member("task_id", t.id), Member("status", StatusName(t.status))]
  }

  function Entries(ts: seq<TaskItem>): seq<seq<Member>>
  {
    if ts == [] then [] else [Entry(ts[0])] + Entries(ts[1..])
  }

  ghost predicate PlainIds(ts: seq<TaskItem>)
  {
    forall k :: 0 <= k < |ts| ==> Plain(ts[k].id)
  }

  /** Elements from the left: the separator comes before every element but the first. */
  function Elements(ts: seq<TaskItem>): string
    requires ts != []
  {
    if |ts| == 1 then Element(ts[0]) else Element(ts[0]) + ("," + Elements(ts[1..]))
  }

  lemma {:induction false} ElementsSnoc(ts: seq<TaskItem>, t: TaskItem)
    requires ts != []
    ensures Elements(ts + [t]) == Elements(ts) + "," + Element(t)
  {
    hide Element;
    if |ts| == 1 {
      assert (ts + [t])[1..] == [t];
      CommaAssoc(Element(ts[0]), Element(t));
    } else {
      assert (ts + [t])[1..] == ts[1..] + [t];
      ElementsSnoc(ts[1..], t);
      MoreAssoc(Element(ts[0]), Elements(ts[1..]), Element(t));
    }
  }

  lemma CommaAssoc(a: string, b: string)
    ensures a + ("," + b) == a + "," + b
  {
  }

  lemma MoreAssoc(a: string, b: string, c: string)
    ensures a + ("," + (b + "," + c)) == a + ("," + b) + "," + c
  {
  }

  lemma {:induction false} OpenIsElements(ts: seq<TaskItem>)
    requires ts != []
    ensures Open(ts) == "[" + Elements(ts)
  {
    var init, last := ts[..|ts| - 1], ts[|ts| - 1];
    assert ts == init + [last];
    hide Open, Elements, Element;
    if init == [] {
      FirstPiece(last);
      assert ts == [last];
    } else {
      OpenIsElements(init);
      OpenMore(init, last);
    }
  }

  lemma OpenMore(init: seq<TaskItem>, last: TaskItem)
    requires init != [] && Open(init) == "[" + Elements(init)
    ensures Open(init + [last]) == "[" + Elements(init + [last])
  {
    OpenGrows(init, last);
    ElementsSnoc(init, last);
    hide Open, Elements, Element;
    BracketAssoc(Elements(init), Element(last));
  }

  lemma FirstPiece(t: TaskItem)
    ensures Open([t]) == "[" + Elements([t])
  {
    hide Element;
    assert [t][..0] == [];
    assert "" + Element(t) == Element(t);
  }

  lemma BracketAssoc(a: string, b: string)
    ensures ("[" + a) + ("," + b) == "[" + (a + "," + b)
  {
  }

  lemma ReadElement(w: string, i: nat, t: TaskItem, next: nat)
    requires Plain(t.id) && OccursAt(w, Element(t), i) && next == i + |Element(t)|
    ensures ReadObject(w, i) == Some(Read(Entry(t), next))
  {
    NameIsPlain(t.status);
    PlainMember("task_id", t.id);
    PlainMember("status", StatusName(t.status));
    hide StatusName, Quoted, MemberText, ReadObject;
    ReadPair(w, i, "task_id", t.id, "status", StatusName(t.status), next);
  }

  /** An object of two printed members. */
  lemma ReadPair(w: string, i: nat, k: CString, v: CString, k': CString, v': CString, next: nat)
    requires var a, b := MemberText(k, v), MemberText(k', v');
             && a != "" && a[0] == '\"'
             && OccursAt(w, "{" + a + "," + b + "}", i) && next == i + |a| + |b| + 3
    ensures ReadObject(w, i) == Some(Read([Member(k, v), Member(k', v')], next))
  {
    hide MemberText, ReadObject, ReadMember;
    var comma := ElementParts(w, i, MemberText(k, v), MemberText(k', v'), next);
    ReadPrintedMember(w, i + 1, k, v, comma);
    ReadPrintedMember(w, comma + 1, k', v', next - 1);
    TwoMembers(w, i, Member(k, v), comma, Member(k', v'), next);
  }

  lemma NameIsPlain(s: Status)
    ensures Plain(StatusName(s))
  {
  }

  lemma PlainMember(key: CString, value: CString)
    requires Plain(key) && Plain(value)
    ensures MemberText(key, value) == Quoted(key, value)
    ensures Quoted(key, value) != "" && Quoted(key, value)[0] == '\"'
  {
    EscapedFixedIff(key);
    EscapedFixedIff(value);
  }

  lemma ElementParts(w: string, i: nat, a: string, b: string, next: nat) returns (comma: nat)
    requires OccursAt(w, "{" + a + "," + b + "}", i) && next == i + |a| + |b| + 3
    requires a != "" && a[0] == '\"'
    ensures OccursAt(w, "{", i) && !OccursAt(w, "{}", i)
    ensures OccursAt(w, a, i + 1) && comma == i + 1 + |a| && OccursAt(w, ",", comma)
    ensures OccursAt(w, b, comma + 1) && next == comma + |b| + 2 && OccursAt(w, "}", next - 1)
  {
    comma := i + 1 + |a|;
    OccursConcat(w, "{" + a + "," + b, "}", i);
    OccursConcat(w, "{" + a + ",", b, i);
    OccursConcat(w, "{" + a, ",", i);
    OccursConcat(w, "{", a, i);
    ObjectNotEmpty(w, i, a);
  }

  lemma TwoMembers(w: string, i: nat, a: Member, comma: nat, b: Member, next: nat)
    requires OccursAt(w, "{", i) && !OccursAt(w, "{}", i) && 1 <= next
    requires ReadMember(w, i + 1) == Some(Read(a, comma)) && OccursAt(w, ",", comma)
    requires ReadMember(w, comma + 1) == Some(Read(b, next - 1)) && OccursAt(w, "}", next - 1)
    ensures ReadObject(w, i) == Some(Read([a, b], next))
  {
    hide ReadMember;
    assert !OccursAt(w, "}", comma) by {
      OccursChars(w, ",", comma);
      assert w[comma] == ","[0];
    }
    assert ReadMembers(w, comma + 1) == Some(Read([b], next));
    assert [a] + [b] == [a, b];
  }

  lemma {:induction false} ReadListed(w: string, i: nat, ts: seq<TaskItem>, next: nat)
    requires ts != [] && PlainIds(ts)
    requires OccursAt(w, Elements(ts), i) && next == i + |Elements(ts)| + 1 && OccursAt(w, "]", next - 1)
    ensures ReadElements(w, i) == Some(Read(Entries(ts), next))
    decreases |ts|
  {
    hide ReadObject, Element;
    var e := Element(ts[0]);
    if |ts| == 1 {
      ReadElement(w, i, ts[0], next - 1);
      assert Entries(ts[1..]) == [];
      assert Entries(ts) == [Entry(ts[0])];
    } else {
      var comma := ListedParts(w, i, e, Elements(ts[1..]));
      ReadElement(w, i, ts[0], comma);
      ReadListed(w, comma + 1, ts[1..], next);
    }
  }

  lemma ListedParts(w: string, i: nat, e: string, rest: string) returns (comma: nat)
    requires OccursAt(w, e + ("," + rest), i)
    ensures OccursAt(w, e, i) && comma == i + |e| && OccursAt(w, ",", comma) && !OccursAt(w, "]", comma)
    ensures OccursAt(w, rest, comma + 1)
  {
    comma := i + |e|;
    OccursConcat(w, e, "," + rest, i);
    OccursConcat(w, ",", rest, comma);
    OccursChars(w, ",", comma);
    assert w[comma] == ","[0];
  }

  lemma {:induction false} EntriesAre(ts: seq<TaskItem>)
    ensures |Entries(ts)| == |ts|
    ensures forall k :: 0 <= k < |ts| ==> Entries(ts)[k] == Entry(ts[k])
  {
    if ts != [] {
      EntriesAre(ts[1..]);
      assert forall k :: 0 < k < |ts| ==> ts[k] == ts[1..][k - 1];
    }
  }

  /** The listing is one complete JSON array; its elements are the tasks' (id, status) pairs
      in order. */
  lemma {:induction false} ListingReadsBack(ts: seq<TaskItem>)
    requires PlainIds(ts)
    ensures ReadArray(Listing(ts)) == Some(Entries(ts)) && |Entries(ts)| == |ts|
    ensures forall k :: 0 <= k < |ts| ==> Describes(Entries(ts)[k], ts[k])
  {
    EntriesAre(ts);
    ListingIsRead(ts);
    hide Entries, ReadArray, Listing, Entry, Describes;
    forall k | 0 <= k < |ts| ensures Describes(Entries(ts)[k], ts[k]) {
      EntryDescribes(ts[k]);
    }
  }

  /** An object's members tell the task's identifier and status, by name. */
  predicate Describes(e: seq<Member>, t: TaskItem)
  {
    && |e| == 2 && e[0] == Member("task_id", t.id) && e[1].key == "status"
    && e[1].value == (match t.status
                      case Queued => "queued"
                      case Running => "running"
                      case Complete => "complete"
                      case Failed => "failed"
                      case Cancelled => "cancelled")
  }

  lemma EntryDescribes(t: TaskItem)
    ensures Describes(Entry(t), t)
  {
  }

  lemma ListingIsRead(ts: seq<TaskItem>)
    requires PlainIds(ts)
    ensures ReadArray(Listing(ts)) == Some(Entries(ts))
  {
    var w := Listing(ts);
    if ts != [] {
      OpenIsElements(ts);
      var es := Elements(ts);
      assert w == "[" + es + "]";
      assert w[1..1 + |es|] == es && w[1 + |es|..1 + |es| + 1] == "]" && w[0..1] == "[";
      ReadListed(w, 1, ts, |w|);
    }
  }

  /** Identifiers the queue issues have nothing to escape. */
  lemma IssuedIdsArePlain(n: nat, self: Pid)
    ensures Plain(IdOf(n, self))
  {
    Decimal.PrintIsDigits(n);
    Decimal.PrintIsDigits(self);
  }

  // ----- One task's status -----

  /** What `subagent_get_json` prints. The result goes in as it is, not escaped. */
  function StatusText(t: TaskItem): CString
  {
    StatusTextIsCString(t);
    ThreeIn(Quoted("task_id", t.id), Quoted("status", StatusName(t.status)), Quoted("result", t.result))
  }

  function ThreeIn(a: string, b: string, c: string): string
  {
    "{" + a + "," + b + "," + c + "}"
  }

  lemma StatusTextIsCString(t: TaskItem)
    ensures '\0' !in ThreeIn(Quoted("task_id", t.id), Quoted("status", StatusName(t.status)),
                             Quoted("result", t.result))
  {
    QuotedIsCString("task_id", t.id);
    QuotedIsCString("status", StatusName(t.status));
    QuotedIsCString("result", t.result);
    hide Quoted, ThreeIn;
    ThreeInIsCString(Quoted("task_id", t.id), Quoted("status", StatusName(t.status)), Quoted("result", t.result));
  }

  lemma QuotedIsCString(k: CString, v: CString)
    ensures '\0' !in Quoted(k, v)
  {
  }

  lemma ThreeInIsCString(a: CString, b: CString, c: CString)
    ensures '\0' !in ThreeIn(a, b, c)
  {
  }

  /** The members a reader should find in it. */
  function StatusEntry(t: TaskItem): seq<Member>
  {
    Entry(t) + [Member("result", t.result)]
  }

  /** The string grammar never makes text longer than what it read, and keeps its length only
      where there was nothing to unescape. */
  lemma {:induction false} ReadLength(w: string, i: nat)
    requires ReadString(w, i).Some?
    ensures var r := ReadString(w, i).value;
            && i + |r.text| <= r.end
            && (i + |r.text| == r.end ==> Plain(w[i..r.end]) && r.text == w[i..r.end])
    decreases |w| - i
  {
    if w[i] == '\"' {
    } else if w[i] == '\\' {
      var esc := ReadEscape(w, i + 1).value;
      EscapeShrinks(w, i + 1);
      hide ReadEscape, Plain;
      ReadLength(w, esc.end);
    } else {
      var rest := ReadString(w, i + 1);
      assert ReadString(w, i) == Prepend([w[i]], rest);
      hide ReadString, ReadEscape, Plain;
      ReadLength(w, i + 1);
      PlainCons(w, i, rest.value.end);
    }
  }

  lemma PlainCons(w: string, i: nat, end: nat)
    requires i < end <= |w| && 0x20 as char <= w[i] && w[i] != '\"' && w[i] != '\\'
    ensures w[i..end] == [w[i]] + w[i + 1..end]
    ensures Plain(w[i + 1..end]) ==> Plain(w[i..end])
  {
    var rest := w[i + 1..end];
    assert w[i..end] == [w[i]] + rest;
    assert forall k :: 0 < k < |w[i..end]| ==> w[i..end][k] == rest[k - 1];
  }

  lemma EscapeShrinks(w: string, i: nat)
    requires ReadEscape(w, i).Some?
    ensures var r := ReadEscape(w, i).value; i + |r.text| <= r.end
  {
    hide ReadHex4, HexValue;
  }

  /** A string printed raw, as the last thing before a closing quote and brace, is read back
      exactly when it has nothing to escape. */
  lemma {:induction false} RawReadsIff(w: string, i: nat, raw: CString, end: nat)
    requires OccursAt(w, raw, i) && end == i + |raw| && |w| == end + 2
    requires OccursAt(w, "\"", end) && OccursAt(w, "}", end + 1)
    ensures ReadString(w, i) == Some(Scan(raw, end)) <==> Plain(raw)
    ensures ReadString(w, i).Some? && ReadString(w, i).value.text == raw ==> Plain(raw)
  {
    hide ReadString, Escaped, Plain;
    EscapedFixedIff(raw);
    if Plain(raw) {
      ReadEscaped(w, i, raw, end);
    }
    assert w[i..end] == raw;
    LastCharIs(w, end);
    hide OccursAt;
    if ReadString(w, i).Some? {
      ReadLength(w, i);
      assert ReadString(w, i).value.end <= end;
    }
  }

  lemma LastCharIs(w: string, end: nat)
    requires |w| == end + 2 && OccursAt(w, "}", end + 1)
    ensures w[end + 1] == '}'
  {
    OccursChars(w, "}", end + 1);
    assert w[end + 1 + 0] == "}"[0];
  }

  /** One member in front of a comma. */
  lemma ReadMembersStep(w: string, i: nat, m: Member, comma: nat)
    requires ReadMember(w, i) == Some(Read(m, comma)) && OccursAt(w, ",", comma)
    ensures var rest := ReadMembers(w, comma + 1);
            ReadMembers(w, i) == if rest.None? then None else Some(Read([m] + rest.value.what, rest.value.next))
  {
    hide ReadMember;
    assert !OccursAt(w, "}", comma) by {
      OccursChars(w, ",", comma);
      assert w[comma] == ","[0];
    }
  }

  /** The last member, with a raw value: read as intended exactly when the value is plain. */
  lemma {:induction false} RawMemberIff(w: string, i: nat, key: CString, raw: CString)
    requires Plain(key) && OccursAt(w, Quoted(key, raw) + "}", i) && |w| == i + |Quoted(key, raw)| + 1
    ensures ReadMembers(w, i) == Some(Read([Member(key, raw)], |w|)) <==> Plain(raw)
    ensures ReadMembers(w, i).Some? && ReadMembers(w, i).value.what == [Member(key, raw)] ==> Plain(raw)
  {
    QuotedLength(key, raw);
    EscapedFixedIff(key);
    hide ReadString, Escaped, Quoted, Plain, ReadMembers;
    OccursConcat(w, Quoted(key, raw), "}", i);
    var colon, start, end := MemberParts(w, i, key, raw, |w| - 1);
    ReadEscaped(w, i + 1, key, colon);
    RawReadsIff(w, start, raw, end);
    RawMemberCases(w, i, key, colon, raw, end);
  }

  lemma RawMemberCases(w: string, i: nat, key: string, colon: nat, raw: string, end: nat)
    requires OccursAt(w, "\"", i) && ReadString(w, i + 1) == Some(Scan(key, colon)) && OccursAt(w, "\":\"", colon)
    requires end + 2 == |w| && OccursAt(w, "}", end + 1)
    requires ReadString(w, colon + 3) == Some(Scan(raw, end)) <==> Plain(raw)
    requires ReadString(w, colon + 3).Some? && ReadString(w, colon + 3).value.text == raw ==> Plain(raw)
    ensures ReadMembers(w, i) == Some(Read([Member(key, raw)], |w|)) <==> Plain(raw)
    ensures ReadMembers(w, i).Some? && ReadMembers(w, i).value.what == [Member(key, raw)] ==> Plain(raw)
  {
    hide ReadString, Plain;
    var value := ReadString(w, colon + 3);
    assert ReadMember(w, i) == if value.None? then None
                               else Some(Read(Member(key, value.value.text), value.value.end + 1));
    hide ReadMember;
    if ReadMembers(w, i).Some? && ReadMembers(w, i).value.what == [Member(key, raw)] {
      assert ReadMembers(w, i).value.what[0] == Member(key, raw);
    }
  }

  /** The uncut status text is JSON for the task, result included, exactly when the result
      has nothing to escape. */
  lemma {:induction false} UncutReadsIff(t: TaskItem)
    requires Plain(t.id)
    ensures ReadObject(StatusText(t), 0) == Some(Read(StatusEntry(t), |StatusText(t)|)) <==> Plain(t.result)
  {
    hide StatusText, Quoted, MemberText, StatusName, ReadObject, Plain, ThreeIn;
    KeysArePlain();
    StatusMembers(t);
    MemberTextStarts("task_id", t.id);
    RawObjectIff(StatusText(t), Member("task_id", t.id), Member("status", StatusName(t.status)),
                 Member("result", t.result), t.id, StatusName(t.status), t.result);
  }

  /** The status reply in a buffer of any size is JSON for the task, result included, exactly
      when the result has nothing to escape and the text is not cut. */
  lemma {:induction false} StatusReadsIff(t: TaskItem, size: nat)
    requires Plain(t.id) && 0 < size
    ensures var reply := Fit(StatusText(t), size);
            (ReadObject(reply, 0) == Some(Read(StatusEntry(t), |reply|))
             <==> Plain(t.result) && |StatusText(t)| < size)
  {
    hide StatusText, StatusEntry, ReadObject, Plain;
    UncutReadsIff(t);
    StatusLength(t);
    var reply := Fit(StatusText(t), size);
    if ReadObject(reply, 0).Some? {
      ObjectLength(reply, 0);
    }
  }

  /** The longest result a task can hold never comes back in the buffer the program
      prints the reply into. */
  lemma {:induction false} FullResultIsLost(t: TaskItem)
    requires Plain(t.id) && |t.result| == TASK_RESULT_MAX - 1
    ensures var reply := Fit(StatusText(t), REPLY_MAX);
            ReadObject(reply, 0) != Some(Read(StatusEntry(t), |reply|))
  {
    StatusReadsIff(t, REPLY_MAX);
    QuotedLength("result", t.result);
  }

  /** The least number of characters members take, with what separates or closes them. */
  function LeastLength(ms: seq<Member>): nat
  {
    if ms == [] then 0 else |ms[0].key| + |ms[0].value| + 6 + LeastLength(ms[1..])
  }

  /** The status text has no character to spare. */
  lemma StatusLength(t: TaskItem)
    ensures 1 + LeastLength(StatusEntry(t)) == |StatusText(t)|
  {
    var ms := StatusEntry(t);
    hide StatusName;
    QuotedLength("task_id", t.id);
    QuotedLength("status", StatusName(t.status));
    QuotedLength("result", t.result);
    hide Quoted;
    ThreeLength(ms[0], ms[1], ms[2]);
    assert ms == [ms[0], ms[1], ms[2]];
  }

  lemma QuotedLength(k: string, v: string)
    ensures |Quoted(k, v)| == |k| + |v| + 5
  {
  }

  lemma ThreeLength(a: Member, b: Member, c: Member)
    ensures LeastLength([a, b, c]) == |a.key| + |a.value| + |b.key| + |b.value| + |c.key| + |c.value| + 18
  {
    assert [a, b, c][1..] == [b, c] && [b, c][1..] == [c] && [c][1..] == [];
    assert LeastLength([c]) == |c.key| + |c.value| + 6;
    assert LeastLength([b, c]) == |b.key| + |b.value| + 6 + LeastLength([c]);
  }

  lemma MemberLength(w: string, i: nat)
    requires ReadMember(w, i).Some?
    ensures var r := ReadMember(w, i).value; i + |r.what.key| + |r.what.value| + 5 <= r.next
  {
    hide ReadString, Plain, OccursAt;
    var key := ReadString(w, i + 1);
    MemberUnfold(w, i);
    hide ReadMember;
    ReadLength(w, i + 1);
    ReadLength(w, key.value.end + 3);
  }

  lemma MemberUnfold(w: string, i: nat)
    requires ReadMember(w, i).Some?
    ensures ReadString(w, i + 1).Some?
    ensures var key := ReadString(w, i + 1).value;
            var value := ReadString(w, key.end + 3);
            value.Some? && ReadMember(w, i).value == Read(Member(key.text, value.value.text), value.value.end + 1)
  {
    hide ReadString, OccursAt;
  }

  lemma {:induction false} MembersLength(w: string, i: nat)
    requires ReadMembers(w, i).Some?
    ensures var r := ReadMembers(w, i).value; i + LeastLength(r.what) <= r.next
    decreases |w| - i
  {
    hide ReadMember, ReadMembers, LeastLength, OccursAt;
    var first, more := MembersUnfold(w, i);
    MemberLength(w, i);
    if more {
      MembersLength(w, first.next + 1);
      LeastCons(first.what, ReadMembers(w, first.next + 1).value.what);
    } else {
      LeastOne(first.what);
    }
  }

  lemma MembersUnfold(w: string, i: nat) returns (first: Read<Member>, more: bool)
    requires ReadMembers(w, i).Some?
    ensures ReadMember(w, i) == Some(first) && i < first.next <= |w|
    ensures !more ==> ReadMembers(w, i).value == Read([first.what], first.next + 1)
    ensures more ==>
              var rest := ReadMembers(w, first.next + 1);
              rest.Some? && ReadMembers(w, i).value == Read([first.what] + rest.value.what, rest.value.next)
  {
    hide ReadMember;
    first := ReadMember(w, i).value;
    more := !OccursAt(w, "}", first.next);
    hide OccursAt;
  }

  lemma LeastOne(m: Member)
    ensures LeastLength([m]) == |m.key| + |m.value| + 6
  {
    assert [m][1..] == [];
  }

  lemma LeastCons(m: Member, ms: seq<Member>)
    ensures LeastLength([m] + ms) == |m.key| + |m.value| + 6 + LeastLength(ms)
  {
    assert ([m] + ms)[1..] == ms;
  }

  lemma ObjectLength(w: string, i: nat)
    requires ReadObject(w, i).Some?
    ensures var r := ReadObject(w, i).value; i + 1 + LeastLength(r.what) <= r.next <= |w|
  {
    if !OccursAt(w, "{}", i) {
      MembersLength(w, i + 1);
    }
  }

  lemma StatusMembers(t: TaskItem)
    requires Plain(t.id)
    ensures StatusText(t) == ThreeIn(MemberText("task_id", t.id), MemberText("status", StatusName(t.status)),
                                     Quoted("result", t.result))
  {
    hide Quoted, MemberText, StatusName, ThreeIn, Plain;
    KeysArePlain();
    NameIsPlain(t.status);
    PlainMember("task_id", t.id);
    PlainMember("status", StatusName(t.status));
  }

  lemma KeysArePlain()
    ensures Plain("task_id") && Plain("status") && Plain("result")
  {
  }

  lemma {:induction false} RawObjectIff(w: string, m: Member, m': Member, last: Member,
                                        v: CString, v': CString, raw: CString)
    requires m == Member("task_id", v) && m' == Member("status", v') && last == Member("result", raw)
    requires Plain("result") && MemberText("task_id", v) != "" && MemberText("task_id", v)[0] == '\"'
    requires w == ThreeIn(MemberText("task_id", v), MemberText("status", v'), Quoted("result", raw))
    ensures ReadObject(w, 0) == Some(Read([m, m'] + [last], |w|)) <==> Plain(raw)
  {
    hide Quoted, MemberText, ReadMember, ReadMembers, ReadObject, Plain, ThreeIn;
    var comma, comma2 := StatusParts(w, MemberText("task_id", v), MemberText("status", v'), Quoted("result", raw));
    ReadPrintedMember(w, 1, "task_id", v, comma);
    ReadPrintedMember(w, comma + 1, "status", v', comma2);
    RawMemberIff(w, comma2 + 1, "result", raw);
    ReadMembersStep(w, 1, m, comma);
    ReadMembersStep(w, comma + 1, m', comma2);
    ThreeMembers(w, m, m', last, ReadMembers(w, comma2 + 1), Plain(raw));
  }

  lemma StatusParts(w: string, a: string, b: string, c: string) returns (comma: nat, comma2: nat)
    requires w == ThreeIn(a, b, c) && a != "" && a[0] == '\"'
    ensures OccursAt(w, "{", 0) && !OccursAt(w, "{}", 0)
    ensures OccursAt(w, a, 1) && comma == 1 + |a| && OccursAt(w, ",", comma)
    ensures OccursAt(w, b, comma + 1) && comma2 == comma + 1 + |b| && OccursAt(w, ",", comma2)
    ensures OccursAt(w, c + "}", comma2 + 1) && |w| == comma2 + 1 + |c| + 1
  {
    comma := 1 + |a|;
    comma2 := comma + 1 + |b|;
    var front := "{" + a + "," + b + ",";
    assert w == front + (c + "}") && w[0..|w|] == w;
    OccursConcat(w, front, c + "}", 0);
    OccursConcat(w, "{" + a + "," + b, ",", 0);
    OccursConcat(w, "{" + a + ",", b, 0);
    OccursConcat(w, "{" + a, ",", 0);
    OccursConcat(w, "{", a, 0);
    ObjectNotEmpty(w, 0, a);
  }

  lemma ThreeMembers(w: string, a: Member, b: Member, c: Member, last: Option<Read<seq<Member>>>, good: bool)
    requires OccursAt(w, "{", 0) && !OccursAt(w, "{}", 0)
    requires last == Some(Read([c], |w|)) <==> good
    requires last.Some? && last.value.what == [c] ==> good
    requires ReadMembers(w, 1)
          == if last.None? then None else Some(Read([a] + ([b] + last.value.what), last.value.next))
    ensures ReadObject(w, 0) == Some(Read([a, b] + [c], |w|)) <==> good
  {
    hide ReadMembers;
    assert [a] + ([b] + [c]) == [a, b] + [c];
    if last.Some? && [a] + ([b] + last.value.what) == [a, b] + [c] {
      assert last.value.what == ([a] + ([b] + last.value.what))[2..] == [c];
    }
  }
}
