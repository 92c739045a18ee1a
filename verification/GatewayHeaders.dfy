/** The header scanner of `src/gateway_auth.c`, and what it finds in a request framed as
    section 5 of RFC 9112 asks. */
module GatewayHeaders {
  import opened Wrappers
  import opened CText

  const PATTERN_MAX := 128
  const AUTH_MAX := 256
  const BEARER: CString := "Bearer "

  // ----- The scanner -----

  function Pattern(name: CString): CString
  {
    Fit("\n" + name + ":", PATTERN_MAX)
  }

  /** The first index at or after i that holds no blank. */
  function SkipBlanks(s: CString, i: nat): (r: nat)
    requires i <= |s|
    ensures i <= r <= |s|
    ensures r < |s| ==> s[r] != ' '
    ensures forall k :: i <= k < r ==> s[k] == ' '
    decreases |s| - i
  {
    if i < |s| && s[i] == ' ' then SkipBlanks(s, i + 1) else i
  }

  /** The end of the value: the first CR LF, else the first LF, else the end of the text. */
  function ValueEnd(s: CString, i: nat): (r: nat)
    requires i <= |s|
    ensures i <= r <= |s|
  {
    var crlf := Find(s, "\r\n", i);
    var lf := Find(s, "\n", i);
    if 0 <= crlf then crlf else if 0 <= lf then lf else |s|
  }

  /** Where the field's value starts behind its colon, -1 if there is no such field. */
  function FieldStart(request: CString, name: CString): (r: int)
    ensures r <= |request|
  {
    var p := Find(request, Pattern(name), 0);
    if 0 <= p then p + |Pattern(name)|
    else if OccursAt(request, name + ":", 0) then |Pattern(name)| - 1
    else -1
  }

  /** What `gateway_auth_extract_header` copies into a buffer of `size` bytes. */
  function Header(request: CString, name: CString, size: nat): Option<CString>
  {
    var start := FieldStart(request, name);
    if size == 0 || start < 0 then None
    else
      var from := SkipBlanks(request, start);
      Some(Fit(request[from..ValueEnd(request, from)], size))
  }

  method ExtractHeader(request: CString, name: CString, out: array<char>) returns (rc: int)
    modifies out
    ensures rc == if Header(request, name, out.Length).Some? then 0 else -1
    ensures rc == 0 ==> Held(out[..]) == Header(request, name, out.Length).value
  {
    hide Held;
    if out.Length == 0 {
      return -1;
    }
    var pat := Pattern(name);
    var p := Find(request, pat, 0);
    if p < 0 {
      if !OccursAt(request, name + ":", 0) {
        return -1;
      }
      p := -1;
    }
    p := p + |pat|;
    assert p == FieldStart(request, name);
    hide FieldStart, Find, Pattern;
    CopyValue(request, p, out);
    rc := 0;
  }

  /** The second half of the header scanner: blanks, the end of the value, the cut copy. */
  method CopyValue(request: CString, start: nat, out: array<char>)
    requires start <= |request| && 0 < out.Length
    modifies out
    ensures var from := SkipBlanks(request, start);
            Held(out[..]) == Fit(request[from..ValueEnd(request, from)], out.Length)
  {
    hide Held;
    var p := start;
    while At(request, p) == ' '
      invariant start <= p <= |request|
      invariant SkipBlanks(request, p) == SkipBlanks(request, start)
      decreases |request| - p
    {
      p := p + 1;
    }
    var lineEnd := Find(request, "\r\n", p);
    if lineEnd < 0 {
      lineEnd := Find(request, "\n", p);
    }
    if lineEnd < 0 {
      lineEnd := |request|;
    }
    assert lineEnd == ValueEnd(request, p);
    hide Find, SkipBlanks, ValueEnd;
    CopyCut(request, p, lineEnd, out);
  }

  /** What `gateway_auth_extract_bearer` copies into a buffer of `size` bytes. */
  function Bearer(request: CString, size: nat): Option<CString>
  {
    var auth := Header(request, "Authorization", AUTH_MAX);
    if auth.None? || !OccursAt(auth.value, BEARER, 0) then None
    else if size == 0 then Some("")
    else Some(Fit(auth.value[|BEARER|..], size))
  }

  method ExtractBearer(request: CString, out: array<char>) returns (rc: int)
    modifies out
    ensures rc == if Bearer(request, out.Length).Some? then 0 else -1
    ensures rc == 0 && 0 < out.Length ==> Held(out[..]) == Bearer(request, out.Length).value
  {
    hide Held, Header;
    var auth := new char[AUTH_MAX];
    rc := ExtractHeader(request, "Authorization", auth);
    if rc != 0 {
      return -1;
    }
    var value: CString := Held(auth[..]);
    if !OccursAt(value, BEARER, 0) {
      return -1;
    }
    var token: CString := value[|BEARER|..];
    var wrote := PrintInto(out, 0, token);
    if 0 < out.Length {
      HeldIs(out[..], Fit(token, out.Length));
    }
    rc := 0;
  }

  // ----- Framed requests -----

  const CRLF: CString := "\r\n"

  predicate IsLine(l: string)
  {
    '\r' !in l && '\n' !in l
  }

  predicate AllLines(ls: seq<CString>)
  {
    forall i :: 0 <= i < |ls| ==> IsLine(ls[i])
  }

  function Lines(ls: seq<CString>): CString
  {
    if ls == [] then "" else ls[0] + CRLF + Lines(ls[1..])
  }

  /** Request line and field lines, each ended by CR LF, an empty line, the body. */
  function Request(ls: seq<CString>, body: CString): CString
  {
    Lines(ls) + CRLF + body
  }

  /** The line is a field line for `name`. */
  predicate IsField(l: string, name: string)
  {
    OccursAt(l, name + ":", 0)
  }

  /** One line and what follows it. */
  lemma LineParts(w: string, at: nat, l: string, rest: string) returns (next: nat)
    requires at <= |w| && w[at..] == l + CRLF + rest
    ensures next == at + |l| + 2 <= |w| && w[next..] == rest
    ensures w[at..at + |l|] == l && w[next - 2] == '\r' && w[next - 1] == '\n'
  {
    next := at + |l| + 2;
    var tail := l + CRLF + rest;
    assert w == w[..at] + tail;
    assert tail[..|l|] == l && tail[|l|] == CRLF[0] && tail[|l| + 1] == CRLF[1] && tail[|l| + 2..] == rest;
  }

  /** Inside a line nothing starting with LF occurs, and behind its LF the name occurs only if
      the next line is a field line for it. */
  lemma NotInLine(w: string, at: nat, l: string, next: nat, name: string)
    requires IsLine(l) && next == at + |l| + 2 <= |w|
    requires w[at..at + |l|] == l && w[next - 2] == '\r'
    ensures forall k: int :: at <= k < next - 1 ==> !OccursAt(w, "\n" + name + ":", k)
  {
    var pat := "\n" + name + ":";
    forall k: int | at <= k < next - 1 ensures !OccursAt(w, pat, k) {
      if k < at + |l| {
        assert w[k] == w[at..at + |l|][k - at] == l[k - at];
        assert l[k - at] in l;
      }
      if k + |pat| <= |w| {
        assert w[k..k + |pat|][0] == w[k] && pat[0] == '\n';
      }
    }
  }

  /** Behind a line's LF the pattern occurs exactly when the next line is a field for it. */
  lemma FieldAfterLf(w: string, lf: nat, l: string, name: string)
    requires IsLine(name) && |l| + 2 < |w| - lf && w[lf] == '\n'
    requires w[lf + 1..lf + 1 + |l|] == l && w[lf + 1 + |l|] == '\r'
    ensures OccursAt(w, "\n" + name + ":", lf) <==> IsField(l, name)
  {
    var field := name + ":";
    assert "\n" + name + ":" == "\n" + field;
    OccursConcat(w, "\n", field, lf);
    assert w[lf..lf + 1] == "\n";
    if OccursAt(w, field, lf + 1) {
      OccursChars(w, field, lf + 1);
      assert forall k :: 0 <= k < |field| ==> field[k] != '\r' by {
        assert forall k :: 0 <= k < |name| ==> field[k] == name[k] && name[k] in name;
      }
      assert forall k :: 0 <= k < |field| ==> w[lf + 1 + k] == field[k];
      assert l[0..|field|] == w[lf + 1..lf + 1 + |field|];
    }
    if IsField(l, name) {
      assert w[lf + 1..lf + 1 + |field|] == w[lf + 1..lf + 1 + |l|][..|field|];
    }
  }

  lemma LinesStep(ls: seq<CString>, rest: string)
    requires ls != []
    ensures Lines(ls) + rest == ls[0] + CRLF + (Lines(ls[1..]) + rest)
  {
  }

  /** Over the first of two lines or more: inside it nothing occurs, and behind it the pattern
      occurs exactly when the second is a field line. */
  lemma OverLine(w: string, at: nat, ls: seq<CString>, rest: string, name: string) returns (next: nat)
    requires 2 <= |ls| && AllLines(ls) && IsLine(name) && at <= |w| && w[at..] == Lines(ls) + rest
    ensures at < next <= |w| && w[next..] == Lines(ls[1..]) + rest
    ensures forall k: int :: at <= k < next - 1 ==> !OccursAt(w, "\n" + name + ":", k)
    ensures OccursAt(w, "\n" + name + ":", next - 1) <==> IsField(ls[1], name)
  {
    hide Lines, OccursAt, IsField;
    LinesStep(ls, rest);
    next := LineParts(w, at, ls[0], Lines(ls[1..]) + rest);
    NotInLine(w, at, ls[0], next, name);
    LinesStep(ls[1..], rest);
    var next2 := LineParts(w, next, ls[1], Lines(ls[1..][1..]) + rest);
    assert w[next2 - 2] == '\r';
    FieldAfterLf(w, next - 1, ls[1], name);
  }

  /** From the start of a line on, the first place the pattern occurs is the LF before the
      first field line for the name. */
  lemma {:induction false} FirstField(w: string, at: nat, ls: seq<CString>, rest: string, j: nat, name: string)
    returns (lf: nat)
    requires AllLines(ls) && IsLine(name) && at <= |w| && w[at..] == Lines(ls) + rest
    requires 1 <= j < |ls| && IsField(ls[j], name) && forall i :: 1 <= i < j ==> !IsField(ls[i], name)
    ensures at <= lf && lf + 1 <= |w| && w[lf + 1..] == Lines(ls[j..]) + rest
    ensures OccursAt(w, "\n" + name + ":", lf)
    ensures forall k: int :: at <= k < lf ==> !OccursAt(w, "\n" + name + ":", k)
    decreases j
  {
    hide Lines, IsField, OccursAt;
    var next := OverLine(w, at, ls, rest, name);
    if j == 1 {
      lf := next - 1;
    } else {
      assert ls[1..][j - 1] == ls[j] && ls[1..][j - 1..] == ls[j..];
      assert forall i :: 1 <= i < j - 1 ==> ls[1..][i] == ls[i + 1];
      lf := FirstField(w, next, ls[1..], rest, j - 1, name);
    }
  }

  /** In a framed request, the value of the first field line for a name is found whole: its
      leading blanks go, and it is cut only where the buffer ends. */
  lemma {:induction false} HeaderFound(ls: seq<CString>, body: CString, j: nat, name: CString, blanks: nat,
                                       value: CString, size: nat)
    requires AllLines(ls) && IsLine(name) && |name| + 2 < PATTERN_MAX && 0 < size
    requires 1 <= j < |ls| && forall i :: 1 <= i < j ==> !IsField(ls[i], name)
    requires ls[j] == name + ":" + seq(blanks, i => ' ') + value && (value != "" ==> value[0] != ' ')
    ensures Header(Request(ls, body), name, size) == Some(Fit(value, size))
  {
    var w, gap := Request(ls, body), seq(blanks, i => ' ');
    var field := name + ":";
    assert w[0..] == w;
    assert ls[j] == field + (gap + value);
    assert IsField(ls[j], name) by {
      assert ls[j][0..|field|] == field;
    }
    RequestRest(ls, body);
    var lf := FirstField(w, 0, ls, CRLF + body, j, name);
    LinesStep(ls[j..], CRLF + body);
    var next := LineParts(w, lf + 1, ls[j], Lines(ls[j..][1..]) + (CRLF + body));
    assert value == ls[j][|field| + blanks..];
    hide Lines, IsField, Request, FieldStart;
    FieldStartIs(w, name, lf);
    FoundAt(w, lf, name, gap, value, next, size);
  }

  lemma RequestRest(ls: seq<CString>, body: CString)
    ensures Request(ls, body) == Lines(ls) + (CRLF + body)
  {
  }

  lemma FoundAt(w: CString, lf: nat, name: CString, gap: string, value: CString, next: nat, size: nat)
    requires 0 < size && '\r' !in value && FieldStart(w, name) == lf + 2 + |name|
    requires (forall i :: 0 <= i < |gap| ==> gap[i] == ' ') && (value != "" ==> value[0] != ' ')
    requires next == lf + 1 + (|name| + 1 + |gap| + |value|) + 2 <= |w|
    requires w[lf + 1..next - 2] == name + ":" + gap + value && w[next - 2] == '\r' && w[next - 1] == '\n'
    ensures Header(w, name, size) == Some(Fit(value, size))
  {
    var start := lf + 2 + |name|;
    var from := start + |gap|;
    hide Find, Fit, SkipBlanks, ValueEnd, Pattern, FieldStart, Header, OccursAt;
    LineAt(w, lf + 1, name, gap, value);
    SkipsTo(w, start, from, gap, value, next);
    EndsAt(w, from, value, next);
    HeaderIs(w, name, size, start, from, next - 2);
  }

  lemma FieldStartIs(w: CString, name: CString, lf: nat)
    requires |name| + 2 < PATTERN_MAX
    requires OccursAt(w, "\n" + name + ":", lf) && forall k: int :: 0 <= k < lf ==> !OccursAt(w, "\n" + name + ":", k)
    ensures FieldStart(w, name) == lf + 2 + |name|
  {
    FindIs(w, Pattern(name), 0, lf);
  }

  lemma HeaderIs(w: CString, name: CString, size: nat, start: nat, from: nat, end: nat)
    requires 0 < size && start <= from <= end <= |w|
    requires FieldStart(w, name) == start && SkipBlanks(w, start) == from && ValueEnd(w, from) == end
    ensures Header(w, name, size) == Some(Fit(w[from..end], size))
  {
  }

  lemma LineSlices(name: string, gap: string, value: string)
    ensures var line := name + ":" + gap + value;
            && line[|name| + 1..|name| + 1 + |gap|] == gap
            && line[|name| + 1 + |gap|..|line|] == value
  {
  }

  lemma LineAt(w: string, at: nat, name: string, gap: string, value: string)
    requires var n := |name| + 1 + |gap| + |value|;
             at + n <= |w| && w[at..at + n] == name + ":" + gap + value
    ensures var start := at + |name| + 1;
            && w[start..start + |gap|] == gap
            && w[start + |gap|..start + |gap| + |value|] == value
  {
    var line, n := name + ":" + gap + value, |name| + 1;
    LineSlices(name, gap, value);
    SliceOf(w, at, line, n, n + |gap|);
    SliceOf(w, at, line, n + |gap|, |line|);
  }

  lemma SkipsTo(w: CString, start: nat, from: nat, gap: string, value: CString, next: nat)
    requires start <= from <= next - 2 < |w| && w[start..from] == gap && w[from..next - 2] == value
    requires (forall i :: 0 <= i < |gap| ==> gap[i] == ' ') && (value != "" ==> value[0] != ' ') && w[next - 2] == '\r'
    ensures SkipBlanks(w, start) == from
  {
    var r := SkipBlanks(w, start);
    hide SkipBlanks;
    assert forall k :: start <= k < from ==> w[k] == gap[k - start];
    assert w[from] == if value == "" then '\r' else value[0];
  }

  lemma EndsAt(w: CString, from: nat, value: CString, next: nat)
    requires from <= next - 2 && next <= |w| && w[from..next - 2] == value
    requires '\r' !in value && w[next - 2] == '\r' && w[next - 1] == '\n'
    ensures ValueEnd(w, from) == next - 2
  {
    forall k: int | from <= k < next - 2 ensures !OccursAt(w, "\r\n", k) {
      assert w[k] == value[k - from] && value[k - from] in value;
      assert w[k..k + 2][0] == w[k];
    }
    assert w[next - 2..next] == "\r\n";
    FindIs(w, "\r\n", from, next - 2);
  }

  /** A token in the first Authorization line of a framed request is extracted byte for byte,
      as far as the header's buffer of 256 bytes and the caller's go. */
  lemma {:induction false} BearerFound(ls: seq<CString>, body: CString, j: nat, token: CString, size: nat)
    requires AllLines(ls) && 1 <= j < |ls| && 0 < size
    requires forall i :: 1 <= i < j ==> !IsField(ls[i], "Authorization")
    requires ls[j] == "Authorization: Bearer " + token
    ensures Bearer(Request(ls, body), size) == Some(Fit(Fit(token, 249), size))
  {
    var value: CString := BEARER + token;
    assert seq(1, i => ' ') == " ";
    assert ls[j] == "Authorization" + ":" + " " + value;
    HeaderFound(ls, body, j, "Authorization", 1, value, AUTH_MAX);
    hide Header, Request, IsField;
    assert Fit(value, AUTH_MAX) == BEARER + Fit(token, 249);
    var kept: CString := BEARER + Fit(token, 249);
    assert kept[0..|BEARER|] == BEARER && kept[|BEARER|..] == Fit(token, 249);
  }

  // ----- Requests without the field -----

  /** Lines ended by CR LF of which none but perhaps the first is a field line for the name:
      the pattern starts at no place before the LF that ends the last. */
  lemma {:induction false} NowhereInLines(w: string, at: nat, ls: seq<CString>, rest: string, name: string)
    returns (end: nat)
    requires ls != [] && AllLines(ls) && IsLine(name) && at <= |w| && w[at..] == Lines(ls) + rest
    requires forall i :: 1 <= i < |ls| ==> !IsField(ls[i], name)
    ensures at < end <= |w| && w[end..] == rest && w[end - 1] == '\n'
    ensures forall k: int :: at <= k < end - 1 ==> !OccursAt(w, "\n" + name + ":", k)
    decreases |ls|
  {
    hide IsField, OccursAt, Lines;
    if |ls| == 1 {
      LinesStep(ls, rest);
      NoLines(ls, rest);
      end := LineParts(w, at, ls[0], rest);
      NotInLine(w, at, ls[0], end, name);
    } else {
      var next := OverLine(w, at, ls, rest, name);
      assert forall i :: 1 <= i < |ls[1..]| ==> ls[1..][i] == ls[i + 1];
      end := NowhereInLines(w, next, ls[1..], rest, name);
    }
  }

  lemma NoLines(ls: seq<CString>, rest: string)
    requires |ls| == 1
    ensures Lines(ls[1..]) + rest == rest
  {
    assert ls[1..] == [] && "" + rest == rest;
  }

  lemma {:induction false} LinesAppend(a: seq<CString>, b: seq<CString>)
    ensures Lines(a + b) == Lines(a) + Lines(b)
  {
    if a == [] {
      assert [] + b == b;
    } else {
      assert (a + b)[1..] == a[1..] + b;
      LinesAppend(a[1..], b);
      LineAssoc(a[0], Lines(a[1..]), Lines(b));
    }
  }

  lemma LineAssoc(l: string, a: string, b: string)
    ensures l + CRLF + (a + b) == l + CRLF + a + b
  {
  }

  /** The empty line before the body is one more line. */
  lemma RequestLines(ls: seq<CString>, body: CString)
    ensures Request(ls, body) == Lines(ls + [""]) + body
  {
    LinesAppend(ls, [""]);
    assert Lines([""][1..]) == "";
    assert Lines([""]) == CRLF;
  }

  lemma OccursBehind(w: string, start: nat, body: string, pat: string, k: nat)
    requires start <= |w| && w[start..] == body
    ensures OccursAt(w, pat, start + k) <==> OccursAt(body, pat, k)
  {
    if k + |pat| <= |body| {
      assert w[start..][k..k + |pat|] == w[start + k..start + k + |pat|];
    }
  }

  /** Behind the LF of the empty line the body begins. */
  lemma PatternBehind(w: string, start: nat, body: string, name: string)
    requires 0 < start <= |w| && w[start..] == body && w[start - 1] == '\n'
    ensures OccursAt(w, "\n" + name + ":", start - 1) <==> IsField(body, name)
    ensures (exists k: nat :: start <= k && OccursAt(w, "\n" + name + ":", k))
       <==> exists k: nat :: OccursAt(body, "\n" + name + ":", k)
  {
    var field := name + ":";
    assert "\n" + name + ":" == "\n" + field;
    OccursConcat(w, "\n", field, start - 1);
    assert w[start - 1..start] == "\n";
    OccursBehind(w, start, body, field, 0);
    hide OccursAt;
    forall k: nat ensures OccursAt(w, "\n" + field, start + k) <==> OccursAt(body, "\n" + field, k) {
      OccursBehind(w, start, body, "\n" + field, k);
    }
    if k: nat :| start <= k && OccursAt(w, "\n" + field, k) {
      assert start + (k - start) == k;
      assert OccursAt(body, "\n" + field, k - start);
    }
  }

  /** The scanner takes the first line for a field too: it does exactly when the line starts
      with the name and a colon. */
  lemma FirstLineField(w: string, l: string, name: string)
    requires IsLine(name) && |l| < |w| && w[..|l|] == l && w[|l|] == '\r'
    ensures OccursAt(w, name + ":", 0) <==> IsField(l, name)
  {
    var field := name + ":";
    if OccursAt(w, field, 0) {
      OccursChars(w, field, 0);
      assert forall k :: 0 <= k < |field| ==> field[k] != '\r' by {
        assert forall k :: 0 <= k < |name| ==> field[k] == name[k] && name[k] in name;
      }
      assert l[0..|field|] == w[0..|field|];
    }
    if IsField(l, name) {
      assert w[0..|field|] == w[..|l|][0..|field|];
    }
  }

  lemma FieldStartExists(w: CString, name: CString)
    requires |name| + 2 < PATTERN_MAX
    ensures 0 <= FieldStart(w, name)
       <==> (exists k: nat :: OccursAt(w, "\n" + name + ":", k)) || OccursAt(w, name + ":", 0)
  {
    assert Pattern(name) == "\n" + name + ":";
    var r := Find(w, Pattern(name), 0);
    hide Find, OccursAt;
  }

  /** A framed request without a field line for the name: the scanner finds a value all the
      same exactly when the request line or the body starts with the name and a colon, or a
      line feed in the body is followed by them. */
  lemma {:induction false} FoundWithoutFieldIff(ls: seq<CString>, body: CString, name: CString, size: nat)
    requires ls != [] && AllLines(ls) && IsLine(name) && |name| + 2 < PATTERN_MAX && 0 < size
    requires forall i :: 1 <= i < |ls| ==> !IsField(ls[i], name)
    ensures Header(Request(ls, body), name, size).Some?
       <==> || IsField(ls[0], name) || IsField(body, name)
            || exists k: nat :: OccursAt(body, "\n" + name + ":", k)
  {
    hide Header, FieldStart, Request, Lines, IsField, OccursAt;
    var w := Request(ls, body);
    FoundIffStarts(w, name, size);
    FieldStartExists(w, name);
    FirstLineOf(ls, body, name);
    var end := BodyStart(ls, body, name);
    PatternBehind(w, end, body, name);
    if k: nat :| OccursAt(w, "\n" + name + ":", k) {
      assert end - 1 <= k;
    }
  }

  lemma FoundIffStarts(w: CString, name: CString, size: nat)
    requires 0 < size
    ensures Header(w, name, size).Some? <==> 0 <= FieldStart(w, name)
  {
  }

  lemma FirstLineOf(ls: seq<CString>, body: CString, name: string)
    requires ls != [] && AllLines(ls) && IsLine(name)
    ensures OccursAt(Request(ls, body), name + ":", 0) <==> IsField(ls[0], name)
  {
    var w := Request(ls, body);
    assert w[0..] == w;
    RequestRest(ls, body);
    LinesStep(ls, CRLF + body);
    hide Request, Lines, IsField, OccursAt;
    var next := LineParts(w, 0, ls[0], Lines(ls[1..]) + (CRLF + body));
    FirstLineField(w, ls[0], name);
  }

  lemma BodyStart(ls: seq<CString>, body: CString, name: string) returns (end: nat)
    requires ls != [] && AllLines(ls) && IsLine(name)
    requires forall i :: 1 <= i < |ls| ==> !IsField(ls[i], name)
    ensures var w := Request(ls, body);
            && 0 < end <= |w| && w[end..] == body && w[end - 1] == '\n'
            && forall k: int :: 0 <= k < end - 1 ==> !OccursAt(w, "\n" + name + ":", k)
  {
    var w, all := Request(ls, body), ls + [""];
    assert w[0..] == w;
    RequestLines(ls, body);
    assert !IsField("", name);
    hide Request, Lines, IsField, OccursAt;
    end := NowhereInLines(w, 0, all, body, name);
  }

  lemma FieldStarts(l: string, name: string)
    requires name != ""
    ensures IsField(l, name) ==> l != "" && l[0] == name[0]
  {
    if IsField(l, name) {
      OccursChars(l, name + ":", 0);
      assert (name + ":")[0] == name[0];
    }
  }

  lemma NothingInEmpty(name: string)
    ensures !IsField("", name) && forall k: nat :: !OccursAt("", "\n" + name + ":", k)
  {
  }

  /** In a framed request without a body no field is found that no line spells as the name. */
  lemma {:induction false} NoneSpelled(ls: seq<CString>, name: CString, size: nat)
    requires ls != [] && AllLines(ls) && IsLine(name) && |name| + 2 < PATTERN_MAX && 0 < size
    requires forall i :: 0 <= i < |ls| ==> !IsField(ls[i], name)
    ensures Header(Request(ls, ""), name, size) == None
  {
    hide Header, Request, IsField, OccursAt, Lines;
    FoundWithoutFieldIff(ls, "", name, size);
    NothingInEmpty(name);
  }

  const LOWER_CASE: CString := "authorization: Bearer "

  /** The scanner compares bytes, although field names are case-insensitive (section 5.1 of
      RFC 9110): an Authorization field in lower case is not found. */
  lemma {:induction false} OtherSpellingIsMissed(first: CString, token: CString, size: nat)
    requires IsLine(first) && !IsField(first, "Authorization") && IsLine(token) && 0 < size
    ensures Header(Request([first, LOWER_CASE + token], ""), "Authorization", size) == None
  {
    var field: CString := LOWER_CASE + token;
    var ls := [first, field];
    LowerCaseLine(token);
    FieldStarts(field, "Authorization");
    hide Header, Request, IsField;
    assert forall i :: 0 <= i < 2 ==> IsLine(ls[i]) && !IsField(ls[i], "Authorization");
    assert IsLine("Authorization");
    NoneSpelled(ls, "Authorization", size);
  }

  lemma LowerCaseLine(token: CString)
    requires IsLine(token)
    ensures IsLine(LOWER_CASE + token) && (LOWER_CASE + token)[0] == 'a'
  {
    assert IsLine(LOWER_CASE);
  }
}
