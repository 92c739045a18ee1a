/** The field scanner and the message bodies of `src/channels/discord.c` and
    `src/channels/slack.c`; the two files differ in the field's name only. */
module Channels {
  import opened Wrappers
  import opened CText
  import opened Json

  const ESCAPED_MAX := 4096
  const BODY_MAX := 4352
  const PATTERN_MAX := 64

  /** The body a channel posts: one object whose only member is the message. */
  function Body(field: CString, message: CString): string
  {
    "{" + MemberText(field, message) + "}"
  }

  /** `discord_send` and `slack_send` up to the POST: refused exactly when the escaped
      message does not fit, and never cut. */
  method BuildBody(field: CString, message: CString, body: array<char>) returns (rc: int)
    requires field == "content" || field == "text"  // the two channels' fields
    requires body.Length == BODY_MAX
    modifies body
    ensures rc == 0 || rc == -1
    ensures rc == 0 <==> |Escaped(message)| <= 4095
    ensures rc == 0 ==> Held(body[..]) == Body(field, message)
    ensures rc == -1 ==> body[..] == old(body[..])
  {
    var escaped := new char[ESCAPED_MAX];
    rc := JsonEscape(message, escaped);
    if rc != 0 {
      return -1;
    }
    BodyText(field, message);
    var text: CString := "{\"" + field + "\":\"" + Escaped(message) + "\"}";
    var wrote := PrintInto(body, 0, text);
    assert body[0..0 + |text|] == body[..][..|text|];
    HeldIs(body[..], text);
  }

  /** What the format string prints is the body. */
  lemma BodyText(field: CString, message: CString)
    requires Plain(field)
    ensures "{\"" + field + "\":\"" + Escaped(message) + "\"}" == Body(field, message)
    ensures '\0' !in Body(field, message)
    ensures |Body(field, message)| == |field| + |Escaped(message)| + 7
  {
    EscapedFixedIff(field);
    EscapedIsPlain(message);
    hide Escaped;
    var f, e := field, Escaped(message);
    assert "{\"" + f + "\":\"" + e + "\"}" == "{" + ("\"" + f + "\":\"" + e + "\"") + "}";
  }

  // ----- The scanner -----

  function Pattern(field: CString): CString
  {
    Fit("\"" + field + "\":\"", PATTERN_MAX)
  }

  /** The scanner stops at a quote that opens the value's own end: not preceded by a
      backslash, or standing at the very start. */
  predicate Closes(json: CString, start: nat, k: nat)
  {
    k < |json| && json[k] == '\"' && (k == start || (start < k && json[k - 1] != '\\'))
  }

  /** The first closing quote at or after k, or the end of the text. */
  function CloseFrom(json: CString, start: nat, k: nat): (end: nat)
    requires start <= k <= |json|
    ensures k <= end <= |json|
    ensures end < |json| ==> Closes(json, start, end)
    ensures forall m :: k <= m < end ==> !Closes(json, start, m)
    decreases |json| - k
  {
    if k == |json| || Closes(json, start, k) then k else CloseFrom(json, start, k + 1)
  }

  lemma CloseIs(json: CString, start: nat, k: nat, end: nat)
    requires start <= k <= end <= |json| && (end < |json| ==> Closes(json, start, end))
    requires forall m :: k <= m < end ==> !Closes(json, start, m)
    ensures CloseFrom(json, start, k) == end
  {
  }

  /** What the scanner delivers into a buffer of `size` bytes, None for its return value 0. */
  function Extracted(json: CString, field: CString, size: nat): Option<CString>
  {
    var p := Find(json, Pattern(field), 0);
    if size == 0 || p < 0 then None
    else
      var start := p + |Pattern(field)|;
      var end := CloseFrom(json, start, start);
      if end == |json| || Fit(json[start..end], size) == "" then None
      else Some(Fit(json[start..end], size))
  }

  /** The scanner on any text. Nothing is found where the pattern does not occur, or where no
      closing quote follows; otherwise the value between is delivered, cut to the buffer,
      unless nothing of it is left. */
  method ExtractJsonStringField(json: CString, field: CString, out: array<char>) returns (found: bool)
    modifies out
    ensures found <==> Extracted(json, field, out.Length).Some?
    ensures found ==> Held(out[..]) == Extracted(json, field, out.Length).value
    ensures |field| <= 59 && (forall k :: !OccursAt(json, "\"" + field + "\":\"", k)) ==> !found
    ensures forall pre, tail :: |field| <= 59 && LeadsTo(json, field, pre, tail) && QuotesGuarded(tail) ==> !found
    ensures forall pre, e: CString, rest :: |field| <= 59 && Holds(json, field, pre, e, rest) && 0 < out.Length ==>
              (found <==> Fit(e, out.Length) != "") && (found ==> Held(out[..]) == Fit(e, out.Length))
  {
    hide Held, Find, CloseFrom, Pattern, Fit, Extracted, LeadsTo, Holds, OccursAt;
    ExtractedLaws(json, field, out.Length);
    found := ScanField(json, field, out);
  }

  method ScanField(json: CString, field: CString, out: array<char>) returns (found: bool)
    modifies out
    ensures found <==> Extracted(json, field, out.Length).Some?
    ensures found ==> Held(out[..]) == Extracted(json, field, out.Length).value
  {
    hide Held, Find, CloseFrom, Pattern;
    if out.Length == 0 {
      return false;
    }
    var pattern := Pattern(field);
    var p := Find(json, pattern, 0);
    if p < 0 {
      return false;
    }
    var start := p + |pattern|;
    var end := FindClose(json, start);
    if At(json, end) == '\0' {
      return false;
    }
    CopyCut(json, start, end, out);
    found := (if end - start >= out.Length then out.Length - 1 else end - start) > 0;
  }

  /** The scanner's loop. */
  method FindClose(json: CString, start: nat) returns (end: nat)
    requires start <= |json|
    ensures end == CloseFrom(json, start, start)
  {
    hide CloseFrom;
    end := start;
    while At(json, end) != '\0'
      invariant start <= end <= |json|
      invariant forall m :: start <= m < end ==> !Closes(json, start, m)
      decreases |json| - end
    {
      if At(json, end) == '\"' && (end == start || json[end - 1] != '\\') {
        break;
      }
      end := end + 1;
    }
    CloseIs(json, start, start, end);
  }

  // ----- The scanner on any text -----

  /** The field's first announcement in the text stands behind `pre`, and `tail` behind it. */
  ghost predicate LeadsTo(json: string, field: string, pre: string, tail: string)
  {
    && json == pre + "\"" + field + "\":\"" + tail
    && forall k :: 0 <= k < |pre| ==> !OccursAt(json, "\"" + field + "\":\"", k)
  }

  /** And it announces the value e: every quote in it stands behind a backslash, the one that
      ends it does not. */
  ghost predicate Holds(json: string, field: string, pre: string, e: string, rest: string)
  {
    LeadsTo(json, field, pre, e + "\"" + rest) && QuotesGuarded(e) && (e == "" || e[|e| - 1] != '\\')
  }

  lemma PatternWhole(field: CString)
    requires |field| <= 59
    ensures Pattern(field) == "\"" + field + "\":\""
  {
  }

  lemma TextParts(pre: string, field: string, tail: string)
    ensures var json, pat := pre + "\"" + field + "\":\"" + tail, "\"" + field + "\":\"";
            && json == pre + (pat + tail) && json[|pre|..|pre| + |pat|] == pat && json[|pre| + |pat|..] == tail
  {
    var pat := "\"" + field + "\":\"";
    assert pre + "\"" + field + "\":\"" + tail == pre + (pat + tail);
  }

  /** Where the scanner begins to read the value. */
  lemma FoundBehind(json: CString, field: CString, pre: string, tail: string) returns (start: nat)
    requires |field| <= 59 && LeadsTo(json, field, pre, tail)
    ensures Find(json, Pattern(field), 0) == |pre| && start == |pre| + |Pattern(field)| <= |json|
    ensures json[start..] == tail
  {
    var pat := "\"" + field + "\":\"";
    PatternWhole(field);
    TextParts(pre, field, tail);
    start := |pre| + |pat|;
    FindIs(json, pat, 0, |pre|);
  }

  /** No quote behind `start` closes when all of them stand behind a backslash. */
  lemma GuardedUpTo(json: CString, start: nat, e: string)
    requires start + |e| <= |json| && json[start..start + |e|] == e && QuotesGuarded(e)
    ensures forall m :: start <= m < start + |e| ==> !Closes(json, start, m)
  {
    forall m | start <= m < start + |e| ensures !Closes(json, start, m) {
      var part := json[start..start + |e|];
      assert json[m] == part[m - start] == e[m - start];
      if e[m - start] == '\"' {
        assert json[m - 1] == part[m - start - 1] == e[m - start - 1];
      }
    }
  }

  lemma ExtractedUnclosed(json: CString, field: CString, pre: string, tail: string, size: nat)
    requires |field| <= 59 && LeadsTo(json, field, pre, tail) && QuotesGuarded(tail)
    ensures Extracted(json, field, size) == None
  {
    var start := FoundBehind(json, field, pre, tail);
    hide Find, Pattern, LeadsTo, CloseFrom, Closes, QuotesGuarded;
    assert json[start..start + |tail|] == tail;
    GuardedUpTo(json, start, tail);
    CloseIs(json, start, start, |json|);
  }

  lemma ExtractedHeld(json: CString, field: CString, pre: string, e: CString, rest: string, size: nat)
    requires |field| <= 59 && Holds(json, field, pre, e, rest) && 0 < size
    ensures Extracted(json, field, size) == if Fit(e, size) == "" then None else Some(Fit(e, size))
  {
    hide Find, Pattern, LeadsTo, CloseFrom, Closes, QuotesGuarded, Extracted, Fit;
    var start := FoundBehind(json, field, pre, e + "\"" + rest);
    ValueParts(json, start, e, rest);
    GuardedUpTo(json, start, e);
    ClosesBehind(json, start, e);
    CloseIs(json, start, start, start + |e|);
    ExtractedIs(json, field, size, |pre|, start, start + |e|);
  }

  lemma ClosesBehind(json: CString, start: nat, e: string)
    requires start + |e| < |json| && json[start..start + |e|] == e && json[start + |e|] == '\"'
    requires e == "" || e[|e| - 1] != '\\'
    ensures Closes(json, start, start + |e|)
  {
    if e != "" {
      assert json[start + |e| - 1] == json[start..start + |e|][|e| - 1];
    }
  }

  lemma ExtractedIs(json: CString, field: CString, size: nat, p: nat, start: nat, end: nat)
    requires 0 < size && Find(json, Pattern(field), 0) == p && start == p + |Pattern(field)| <= |json|
    requires CloseFrom(json, start, start) == end < |json|
    ensures Extracted(json, field, size)
         == if Fit(json[start..end], size) == "" then None else Some(Fit(json[start..end], size))
  {
  }

  lemma ValueParts(json: string, start: nat, e: string, rest: string)
    requires start <= |json| && json[start..] == e + "\"" + rest
    ensures start + |e| < |json| && json[start..start + |e|] == e && json[start + |e|] == '\"'
  {
    var tail := e + "\"" + rest;
    assert tail[..|e|] == e && tail[|e|] == '\"';
    assert json[start..start + |e|] == tail[..|e|];
    assert json[start + |e|] == tail[|e|];
  }

  lemma ExtractedLaws(json: CString, field: CString, size: nat)
    ensures |field| <= 59 && (forall k :: !OccursAt(json, "\"" + field + "\":\"", k)) ==>
              Extracted(json, field, size) == None
    ensures forall pre, tail :: |field| <= 59 && LeadsTo(json, field, pre, tail) && QuotesGuarded(tail) ==>
              Extracted(json, field, size) == None
    ensures forall pre, e: CString, rest :: |field| <= 59 && Holds(json, field, pre, e, rest) && 0 < size ==>
              Extracted(json, field, size) == if Fit(e, size) == "" then None else Some(Fit(e, size))
  {
    if |field| <= 59 {
      if forall k :: !OccursAt(json, "\"" + field + "\":\"", k) {
        NeverFound(json, field, size);
      }
      hide Extracted, LeadsTo, Holds, QuotesGuarded, Fit, OccursAt;
      forall pre, tail | LeadsTo(json, field, pre, tail) && QuotesGuarded(tail)
        ensures Extracted(json, field, size) == None
      {
        ExtractedUnclosed(json, field, pre, tail, size);
      }
      if 0 < size {
        forall pre, e: CString, rest | Holds(json, field, pre, e, rest)
          ensures Extracted(json, field, size) == if Fit(e, size) == "" then None else Some(Fit(e, size))
        {
          ExtractedHeld(json, field, pre, e, rest, size);
        }
      }
    }
  }

  lemma NeverFound(json: CString, field: CString, size: nat)
    requires |field| <= 59 && forall k :: !OccursAt(json, "\"" + field + "\":\"", k)
    ensures Extracted(json, field, size) == None
  {
    PatternWhole(field);
    hide OccursAt, CloseFrom;
    assert Find(json, Pattern(field), 0) == -1;
  }

  // ----- Scanner against printer -----

  predicate QuotesGuarded(e: string)
  {
    forall k :: 0 <= k < |e| && e[k] == '\"' ==> 0 < k && e[k - 1] == '\\'
  }

  lemma QuoteInEscape(c: char)
    ensures QuotesGuarded(EscapeOf(c))
  {
    assert forall d: nat :: d < 16 ==> HexDigit(d) != '\"';
  }

  /** In escaped text every quote stands behind a backslash. */
  lemma {:induction false} QuotesAreEscaped(s: CString)
    ensures QuotesGuarded(Escaped(s))
  {
    if s != "" {
      QuotesAreEscaped(s[1..]);
      QuoteInEscape(s[0]);
      QuotesInTwo(EscapeOf(s[0]), Escaped(s[1..]));
    }
  }

  lemma QuotesInTwo(a: string, b: string)
    requires QuotesGuarded(a) && QuotesGuarded(b)
    ensures QuotesGuarded(a + b)
  {
    forall k | |a| <= k < |a + b| && (a + b)[k] == '\"' ensures 0 < k && (a + b)[k - 1] == '\\' {
      assert (a + b)[k] == b[k - |a|];
      assert (a + b)[k - 1] == b[k - |a| - 1];
    }
  }

  lemma LastOfEscape(c: char)
    ensures EscapeOf(c) != ""
    ensures EscapeOf(c)[|EscapeOf(c)| - 1] == '\\' <==> c == '\\'
  {
    assert forall d: nat :: d < 16 ==> HexDigit(d) != '\\';
  }

  /** Escaped text ends in a backslash exactly when the text itself does. */
  lemma LastEscaped(s: CString)
    requires s != ""
    ensures Escaped(s) != ""
    ensures Escaped(s)[|Escaped(s)| - 1] == '\\' <==> s[|s| - 1] == '\\'
  {
    hide Escaped, EscapeOf;
    EscapedSnoc(s, |s| - 1);
    LastOfEscape(s[|s| - 1]);
    assert s[..|s| - 1 + 1] == s;
  }

  /** Where the scanner stops when what follows `start` is guarded text, a quote and a brace. */
  lemma ScanOfGuarded(json: CString, start: nat, e: string)
    requires QuotesGuarded(e) && |json| == start + |e| + 2 && json[start..] == e + "\"}"
    ensures CloseFrom(json, start, start)
         == if e != "" && e[|e| - 1] == '\\' then |json| else start + |e|
  {
    hide CloseFrom;
    var q := start + |e|;
    forall k | 0 <= k < |e| ensures json[start + k] == e[k] {
      assert json[start..][k] == (e + "\"}")[k];
    }
    assert json[q] == json[start..][|e|] == '\"' && json[q + 1] == json[start..][|e| + 1] == '}';
    forall m | start <= m < q ensures !Closes(json, start, m) {
      assert json[start + (m - start)] == e[m - start];
      if e[m - start] == '\"' {
        assert json[start + (m - start - 1)] == e[m - start - 1];
      }
    }
    if e != "" {
      assert json[start + (|e| - 1)] == e[|e| - 1];
    }
    CloseIs(json, start, start, if e != "" && e[|e| - 1] == '\\' then |json| else q);
  }

  lemma PatternFirst(body: string, pat: string, e: string)
    requires body == "{" + pat + e + "\"}" && pat != "" && pat[0] == '\"'
    ensures Find(body, pat, 0) == 1
    ensures body[1 + |pat|..] == e + "\"}" && body[1 + |pat|..1 + |pat| + |e|] == e
  {
    assert body[1..1 + |pat|] == pat;
    assert body[0] == '{' && body[0..0 + |pat|][0] == body[0];
    FindIs(body, pat, 0, 1);
  }

  lemma PatternLeads(field: CString, message: CString)
    requires Plain(field) && |field| + 4 < PATTERN_MAX
    ensures var body := Body(field, message);
            && '\0' !in body
            && body == "{" + Pattern(field) + Escaped(message) + "\"}"
  {
    BodyText(field, message);
    hide Escaped, Body;
    PatternText(field, Escaped(message));
  }

  lemma PatternText(f: string, e: string)
    ensures "{\"" + f + "\":\"" + e + "\"}" == "{" + ("\"" + f + "\":\"") + e + "\"}"
  {
  }

  /** Read back with a large enough buffer, a channel's own body yields exactly the escaped
      message when the message is non-empty and does not end in a backslash, and nothing
      otherwise. */
  lemma {:induction false} ScannerMeetsPrinter(field: CString, message: CString, size: nat)
    requires Plain(field) && |field| + 4 < PATTERN_MAX && |Escaped(message)| < size
    ensures '\0' !in Body(field, message)
    ensures Extracted(Body(field, message), field, size)
         == if message != "" && message[|message| - 1] != '\\' then Some(Escaped(message)) else None
  {
    PatternLeads(field, message);
    QuotesAreEscaped(message);
    EscapedIsPlain(message);
    if message != "" {
      LastEscaped(message);
    }
    assert message == "" ==> Escaped(message) == "";
    hide Escaped, Body, Extracted;
    ExtractedGuarded(Body(field, message), field, Escaped(message), size);
  }

  lemma ExtractedGuarded(body: CString, field: CString, e: string, size: nat)
    requires body == "{" + Pattern(field) + e + "\"}" && |field| + 4 < PATTERN_MAX
    requires QuotesGuarded(e) && |e| < size && '\0' !in e
    ensures Extracted(body, field, size)
         == if e != "" && e[|e| - 1] != '\\' then Some(e) else None
  {
    var pat := Pattern(field);
    PatternFirst(body, pat, e);
    ScanOfGuarded(body, 1 + |pat|, e);
  }

  /** The scanner does not undo escapes, so it returns the message itself exactly when the
      message is non-empty and has nothing to escape. */
  lemma {:induction false} MessageSurvivesIff(field: CString, message: CString, size: nat)
    requires Plain(field) && |field| + 4 < PATTERN_MAX && |Escaped(message)| < size
    ensures '\0' !in Body(field, message)
    ensures Extracted(Body(field, message), field, size) == Some(message) <==> message != "" && Plain(message)
  {
    ScannerMeetsPrinter(field, message, size);
    EscapedFixedIff(message);
  }

  /** Read byte by byte, the posted body is one JSON object carrying exactly the message. */
  lemma {:induction false} BodyCarriesMessage(field: CString, message: CString)
    ensures ReadObject(Body(field, message), 0)
         == Some(Read([Member(field, message)], |Body(field, message)|))
  {
    var body := Body(field, message);
    assert body[0..|body|] == body;
    ReadPrintedObject(body, 0, field, message, |body|);
  }
}
