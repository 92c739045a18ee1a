/** `json_escape` of `src/json.c`, and a reader for the JSON text it is meant for: the string
    grammar of section 7 of RFC 8259 and, without insignificant whitespace, objects whose
    members are strings (section 4) and arrays of those (section 5). It reads bytes: every byte
    from 0x20 up stands for itself, whether or not the whole is UTF-8. */
module Json {
  import opened Wrappers
  import opened CText

  // ----- The printer -----

  /** One digit of `%X`. */
  function HexDigit(d: nat): char
    requires d < 16
  {
    if d < 10 then '0' + d as char else 'A' + (d - 10) as char
  }

  function EscapeOf(c: char): string
  {
    if c == '\"' then "\\\""
    else if c == '\\' then "\\\\"
    else if c == 8 as char then "\\b"
    else if c == 12 as char then "\\f"
    else if c == '\n' then "\\n"
    else if c == '\r' then "\\r"
    else if c == '\t' then "\\t"
    else if c < 0x20 as char then "\\u00" + [HexDigit(c as int / 16), HexDigit(c as int % 16)]
    else [c]
  }

  function Escaped(s: string): string
  {
    if s == "" then "" else EscapeOf(s[0]) + Escaped(s[1..])
  }

  /** The escape of every byte: two characters where JSON has a short form, six for the other
      control characters, none for the rest. */
  lemma EscapeIs(c: char)
    ensures EscapeOf('\"') == "\\\"" && EscapeOf('\\') == "\\\\"
    ensures EscapeOf(8 as char) == "\\b" && EscapeOf(12 as char) == "\\f" && EscapeOf('\n') == "\\n"
    ensures EscapeOf('\r') == "\\r" && EscapeOf('\t') == "\\t"
    ensures |EscapeOf(c)| == if c in {'\"', '\\', 8 as char, 12 as char, '\n', '\r', '\t'} then 2
                            else if c < 0x20 as char then 6 else 1
  {
  }

  lemma {:induction false} EscapedAppend(a: string, b: string)
    ensures Escaped(a + b) == Escaped(a) + Escaped(b)
  {
    if a == "" {
      assert a + b == b;
    } else {
      assert (a + b)[1..] == a[1..] + b;
      EscapedAppend(a[1..], b);
    }
  }

  lemma EscapedSnoc(s: string, i: nat)
    requires i < |s|
    ensures Escaped(s[..i + 1]) == Escaped(s[..i]) + EscapeOf(s[i])
    ensures |Escaped(s[..i + 1])| <= |Escaped(s)|
  {
    assert s[..i + 1] == s[..i] + [s[i]];
    EscapedAppend(s[..i], [s[i]]);
    assert Escaped([s[i]]) == EscapeOf(s[i]) + Escaped("");
    assert s == s[..i + 1] + s[i + 1..];
    EscapedAppend(s[..i + 1], s[i + 1..]);
  }

  /** Escaped text contains no NUL and no control character at all. */
  lemma {:induction false} EscapedIsPlain(s: CString)
    ensures forall k :: 0 <= k < |Escaped(s)| ==> 0x20 as char <= Escaped(s)[k]
  {
    if s != "" {
      EscapedIsPlain(s[1..]);
    }
  }

  // ----- The reader -----

  datatype Scan = Scan(text: string, end: nat)

  /** A string from just behind its opening quote; `end` is the closing quote's index. */
  function ReadString(s: string, i: nat): (r: Option<Scan>)
    ensures r.Some? ==> i <= r.value.end < |s| && s[r.value.end] == '\"'
    decreases |s| - i
  {
    if |s| <= i then None
    else if s[i] == '\"' then Some(Scan("", i))
    else if s[i] == '\\' then
      var esc := ReadEscape(s, i + 1);
      if esc.None? then None else Prepend(esc.value.text, ReadString(s, esc.value.end))
    else if s[i] < 0x20 as char then None
    else Prepend([s[i]], ReadString(s, i + 1))
  }

  function Prepend(t: string, r: Option<Scan>): Option<Scan>
  {
    if r.None? then None else Some(Scan(t + r.value.text, r.value.end))
  }

  /** An escape from just behind its backslash; `end` is where the text goes on. */
  function ReadEscape(s: string, i: nat): (r: Option<Scan>)
    ensures r.Some? ==> i < r.value.end <= |s|
  {
    if |s| <= i then None
    else if s[i] == '\"' || s[i] == '\\' || s[i] == '/' then Some(Scan([s[i]], i + 1))
    else if s[i] == 'b' then Some(Scan([8 as char], i + 1))
    else if s[i] == 'f' then Some(Scan([12 as char], i + 1))
    else if s[i] == 'n' then Some(Scan("\n", i + 1))
    else if s[i] == 'r' then Some(Scan("\r", i + 1))
    else if s[i] == 't' then Some(Scan("\t", i + 1))
    else if s[i] != 'u' then None
    else
      var unit := ReadHex4(s, i + 1);
      if unit.None? then None
      else if unit.value < 0xD800 || 0xE000 <= unit.value then Some(Scan(Utf8(unit.value), i + 5))
      else if 0xDC00 <= unit.value || !OccursAt(s, "\\u", i + 5) then None
      else
        var low := ReadHex4(s, i + 7);
        if low.None? || low.value < 0xDC00 || 0xE000 <= low.value then None
        else Some(Scan(Utf8(0x10000 + (unit.value - 0xD800) * 0x400 + (low.value - 0xDC00)), i + 11))
  }

  function HexValue(c: char): Option<nat>
  {
    if '0' <= c <= '9' then Some(c as int - '0' as int)
    else if 'A' <= c <= 'F' then Some(c as int - 'A' as int + 10)
    else if 'a' <= c <= 'f' then Some(c as int - 'a' as int + 10)
    else None
  }

  function ReadHex4(s: string, i: nat): (r: Option<nat>)
    ensures r.Some? ==> i + 4 <= |s| && r.value < 0x10000
  {
    if |s| < i + 4 then None
    else
      var a, b, c, d := HexValue(s[i]), HexValue(s[i + 1]), HexValue(s[i + 2]), HexValue(s[i + 3]);
      if a.None? || b.None? || c.None? || d.None? then None
      else Some(0x1000 * a.value + 0x100 * b.value + 0x10 * c.value + d.value)
  }

  /** The bytes of one code point (section 3 of RFC 3629). */
  function Utf8(cp: nat): string
    requires cp < 0x110000
  {
    if cp < 0x80 then [cp as char]
    else if cp < 0x800 then [(0xC0 + cp / 0x40) as char, (0x80 + cp % 0x40) as char]
    else if cp < 0x10000 then
      [(0xE0 + cp / 0x1000) as char, (0x80 + cp / 0x40 % 0x40) as char, (0x80 + cp % 0x40) as char]
    else
      [(0xF0 + cp / 0x40000) as char, (0x80 + cp / 0x1000 % 0x40) as char,
       (0x80 + cp / 0x40 % 0x40) as char, (0x80 + cp % 0x40) as char]
  }

  datatype Member = Member(key: string, value: string)
  datatype Read<T> = Read(what: T, next: nat)

  function ReadMember(s: string, i: nat): (r: Option<Read<Member>>)
    ensures r.Some? ==> i < r.value.next <= |s|
  {
    if !OccursAt(s, "\"", i) then None
    else
      var key := ReadString(s, i + 1);
      if key.None? || !OccursAt(s, "\":\"", key.value.end) then None
      else
        var value := ReadString(s, key.value.end + 3);
        if value.None? then None
        else Some(Read(Member(key.value.text, value.value.text), value.value.end + 1))
  }

  /** Members separated by commas, up to and including the closing brace. */
  function ReadMembers(s: string, i: nat): (r: Option<Read<seq<Member>>>)
    ensures r.Some? ==> i < r.value.next <= |s|
    decreases |s| - i
  {
    var first := ReadMember(s, i);
    if first.None? then None
    else if OccursAt(s, "}", first.value.next) then Some(Read([first.value.what], first.value.next + 1))
    else if !OccursAt(s, ",", first.value.next) then None
    else
      var rest := ReadMembers(s, first.value.next + 1);
      if rest.None? then None else Some(Read([first.value.what] + rest.value.what, rest.value.next))
  }

  function ReadObject(s: string, i: nat): (r: Option<Read<seq<Member>>>)
    ensures r.Some? ==> i < r.value.next <= |s|
  {
    if OccursAt(s, "{}", i) then Some(Read([], i + 2))
    else if OccursAt(s, "{", i) then ReadMembers(s, i + 1)
    else None
  }

  /** Objects separated by commas, up to and including the closing bracket. */
  function ReadElements(s: string, i: nat): (r: Option<Read<seq<seq<Member>>>>)
    ensures r.Some? ==> i < r.value.next <= |s|
    decreases |s| - i
  {
    var first := ReadObject(s, i);
    if first.None? then None
    else if OccursAt(s, "]", first.value.next) then Some(Read([first.value.what], first.value.next + 1))
    else if !OccursAt(s, ",", first.value.next) then None
    else
      var rest := ReadElements(s, first.value.next + 1);
      if rest.None? then None else Some(Read([first.value.what] + rest.value.what, rest.value.next))
  }

  /** A whole text that is one array of objects. */
  function ReadArray(s: string): Option<seq<seq<Member>>>
  {
    if s == "[]" then Some([])
    else if !OccursAt(s, "[", 0) then None
    else
      var r := ReadElements(s, 1);
      if r.None? || r.value.next != |s| then None else Some(r.value.what)
  }

  // ----- What one escape means -----

  lemma ReadUnicodeEscape(w: string, i: nat, c: char)
    requires '\0' != c < 0x20 as char && |EscapeOf(c)| == 6 && OccursAt(w, EscapeOf(c), i)
    ensures ReadEscape(w, i + 1) == Some(Scan([c], i + 6))
  {
    var hi, lo := c as int / 16, c as int % 16;
    var e := "\\u00" + [HexDigit(hi), HexDigit(lo)];
    OccursChars(w, e, i);
    assert e[1] == 'u' && e[2] == '0' && e[3] == '0' && e[4] == HexDigit(hi) && e[5] == HexDigit(lo);
    assert HexValue(HexDigit(lo)) == Some(lo) && HexValue(HexDigit(hi)) == Some(hi);
    assert ReadHex4(w, i + 2) == Some(c as int);
  }

  /** Every escape the printer writes is read back as the byte it came from. */
  lemma ReadOneEscape(w: string, i: nat, c: char)
    requires c != '\0' && OccursAt(w, EscapeOf(c), i)
    ensures ReadString(w, i) == Prepend([c], ReadString(w, i + |EscapeOf(c)|))
  {
    var e := EscapeOf(c);
    OccursChars(w, e, i);
    if |e| == 6 {
      assert w[i] == e[0] == '\\';
      ReadUnicodeEscape(w, i, c);
    } else if |e| == 2 {
      assert w[i] == e[0] == '\\' && w[i + 1] == e[1];
      assert ReadEscape(w, i + 1) == Some(Scan([c], i + 2));
    } else {
      assert w[i] == e[0] == c;
    }
  }

  lemma ReadClosingQuote(w: string, i: nat)
    requires OccursAt(w, "\"", i)
    ensures ReadString(w, i) == Some(Scan("", i))
  {
    OccursChars(w, "\"", i);
    assert w[i] == "\""[0];
  }

  /** The first printed character of s, and where the rest of s is printed. */
  lemma ReadFirstEscape(w: string, i: nat, s: CString) returns (j: nat)
    requires s != "" && OccursAt(w, Escaped(s), i)
    ensures OccursAt(w, Escaped(s[1..]), j) && j + |Escaped(s[1..])| == i + |Escaped(s)|
    ensures ReadString(w, i) == Prepend([s[0]], ReadString(w, j))
  {
    var head := EscapeOf(s[0]);
    assert Escaped(s) == head + Escaped(s[1..]);
    hide Escaped, EscapeOf, ReadString, OccursAt;
    j := i + |head|;
    OccursConcat(w, head, Escaped(s[1..]), i);
    ReadOneEscape(w, i, s[0]);
  }

  /** The grammar's scan of a printed string ends exactly at the quote that closes it, and
      what it read is the string that was printed. */
  lemma {:induction false} ReadEscaped(w: string, i: nat, s: CString, end: nat)
    requires OccursAt(w, Escaped(s), i) && end == i + |Escaped(s)| && OccursAt(w, "\"", end)
    ensures ReadString(w, i) == Some(Scan(s, end))
    decreases |s|
  {
    if s == "" {
      ReadClosingQuote(w, i);
    } else {
      var j := ReadFirstEscape(w, i, s);
      ReadEscaped(w, j, s[1..], end);
      ReadStringStep(w, i, s, j, end);
    }
  }

  lemma ReadStringStep(w: string, i: nat, s: string, j: nat, end: nat)
    requires s != "" && ReadString(w, i) == Prepend([s[0]], ReadString(w, j))
    requires ReadString(w, j) == Some(Scan(s[1..], end))
    ensures ReadString(w, i) == Some(Scan(s, end))
  {
    assert s == [s[0]] + s[1..];
  }

  /** A string with nothing to escape is printed as it stands. */
  predicate Plain(s: string)
  {
    forall k :: 0 <= k < |s| ==> 0x20 as char <= s[k] && s[k] != '\"' && s[k] != '\\'
  }

  lemma {:induction false} EscapedFixedIff(s: CString)
    ensures |s| <= |Escaped(s)|
    ensures Escaped(s) == s <==> Plain(s)
  {
    if s != "" {
      EscapedFixedIff(s[1..]);
      PlainSplits(s);
      var e, rest := EscapeOf(s[0]), Escaped(s[1..]);
      hide Plain;
      assert s == [s[0]] + s[1..];
      if |e| == 1 {
        assert (e + rest)[1..] == rest && (e + rest)[0] == e[0];
      }
    }
  }

  lemma PlainSplits(s: string)
    requires s != ""
    ensures Plain(s) <==> Plain([s[0]]) && Plain(s[1..])
    ensures Plain([s[0]]) <==> 0x20 as char <= s[0] && s[0] != '\"' && s[0] != '\\'
  {
    var first, rest := [s[0]], s[1..];
    assert first[0] == s[0];
    assert forall k :: 0 < k < |s| ==> s[k] == rest[k - 1];
    assert forall k :: 0 <= k < |rest| ==> rest[k] == s[k + 1];
  }

  // ----- Objects and members made of printed strings -----

  function Quoted(k: string, v: string): string
  {
    "\"" + k + "\":\"" + v + "\""
  }

  function MemberText(key: CString, value: CString): string
  {
    Quoted(Escaped(key), Escaped(value))
  }

  lemma ReadPrintedMember(w: string, i: nat, key: CString, value: CString, next: nat)
    requires OccursAt(w, MemberText(key, value), i) && next == i + |MemberText(key, value)|
    ensures ReadMember(w, i) == Some(Read(Member(key, value), next))
  {
    ReadMemberParts(w, i, key, value, Escaped(key), Escaped(value), next);
  }

  lemma ReadMemberParts(w: string, i: nat, key: CString, value: CString, k: string, v: string, next: nat)
    requires k == Escaped(key) && v == Escaped(value)
    requires OccursAt(w, Quoted(k, v), i) && next == i + |k| + |v| + 5
    ensures ReadMember(w, i) == Some(Read(Member(key, value), next))
  {
    hide ReadString, Escaped, MemberText;
    var colon, start, end := MemberParts(w, i, k, v, next);
    ReadEscaped(w, i + 1, key, colon);
    ReadEscaped(w, start, value, end);
    ReadMemberStep(w, i, key, colon, value, end);
  }

  lemma ReadMemberStep(w: string, i: nat, key: string, colon: nat, value: string, end: nat)
    requires OccursAt(w, "\"", i) && ReadString(w, i + 1) == Some(Scan(key, colon))
    requires OccursAt(w, "\":\"", colon) && ReadString(w, colon + 3) == Some(Scan(value, end))
    ensures ReadMember(w, i) == Some(Read(Member(key, value), end + 1))
  {
  }

  lemma MemberParts(w: string, i: nat, k: string, v: string, next: nat)
    returns (colon: nat, start: nat, end: nat)
    requires OccursAt(w, Quoted(k, v), i) && next == i + |k| + |v| + 5
    ensures OccursAt(w, "\"", i)
    ensures OccursAt(w, k, i + 1) && colon == i + 1 + |k| && OccursAt(w, "\"", colon)
    ensures OccursAt(w, "\":\"", colon) && start == colon + 3
    ensures OccursAt(w, v, start) && end == start + |v| && OccursAt(w, "\"", end) && next == end + 1
  {
    colon, start, end := i + 1 + |k|, i + |k| + 4, i + |k| + |v| + 4;
    OccursConcat(w, "\"" + k + "\":\"" + v, "\"", i);
    OccursConcat(w, "\"" + k + "\":\"", v, i);
    OccursConcat(w, "\"" + k, "\":\"", i);
    OccursConcat(w, "\"", k, i);
    assert "\":\"" == "\"" + ":\"";
    OccursConcat(w, "\"", ":\"", colon);
  }

  /** `{"key":"escaped value"}` is one object carrying exactly the value. */
  lemma ReadPrintedObject(w: string, i: nat, key: CString, value: CString, next: nat)
    requires OccursAt(w, "{" + MemberText(key, value) + "}", i)
    requires next == i + |MemberText(key, value)| + 2
    ensures ReadObject(w, i) == Some(Read([Member(key, value)], next))
  {
    hide MemberText, ReadMember, ReadObject, OccursAt;
    var m := MemberText(key, value);
    MemberTextStarts(key, value);
    ObjectParts(w, i, m, next);
    ReadPrintedMember(w, i + 1, key, value, next - 1);
    OneMember(w, i, Member(key, value), next);
  }

  lemma MemberTextStarts(key: CString, value: CString)
    ensures var m := MemberText(key, value); m != "" && m[0] == '\"'
  {
    hide Escaped;
  }

  lemma ObjectParts(w: string, i: nat, m: string, next: nat)
    requires OccursAt(w, "{" + m + "}", i) && next == i + |m| + 2 && m != "" && m[0] == '\"'
    ensures OccursAt(w, "{", i) && !OccursAt(w, "{}", i) && OccursAt(w, m, i + 1) && OccursAt(w, "}", next - 1)
  {
    OccursConcat(w, "{" + m, "}", i);
    OccursConcat(w, "{", m, i);
    hide OccursAt;
    ObjectNotEmpty(w, i, m);
  }

  lemma OneMember(w: string, i: nat, m: Member, next: nat)
    requires OccursAt(w, "{", i) && !OccursAt(w, "{}", i) && 1 <= next
    requires ReadMember(w, i + 1) == Some(Read(m, next - 1)) && OccursAt(w, "}", next - 1)
    ensures ReadObject(w, i) == Some(Read([m], next))
  {
  }

  lemma ObjectNotEmpty(w: string, i: nat, m: string)
    requires m != "" && m[0] == '\"' && OccursAt(w, m, i + 1)
    ensures !OccursAt(w, "{}", i)
  {
    OccursChars(w, m, i + 1);
    assert w[i + 1] == m[0];
    if i + 2 <= |w| {
      assert w[i..i + 2][1] == w[i + 1];
    }
  }

  // ----- The method -----

  /** Escapes into `output`: succeeds exactly when the escaped text and its NUL fit. */
  method JsonEscape(input: CString, output: array<char>) returns (rc: int)
    modifies output
    ensures rc == 0 || rc == -1
    ensures rc == 0 <==> |Escaped(input)| < output.Length
    ensures rc == 0 ==> Held(output[..]) == Escaped(input)
    ensures rc == -1 ==> Held(output[..]) == ""
  {
    if output.Length == 0 {
      return -1;
    }
    var j := 0;
    var i := 0;
    while i < |input|
      invariant 0 <= i <= |input|
      invariant j == |Escaped(input[..i])| < output.Length
      invariant output[..j] == Escaped(input[..i])
    {
      var escape := EscapeOf(input[i]);
      EscapedSnoc(input, i);
      if j + |escape| >= output.Length {
        output[0] := '\0';
        return -1;
      }
      CopyInto(output, j, escape);
      j := j + |escape|;
      i := i + 1;
    }
    assert input[..|input|] == input;
    output[j] := '\0';
    EscapedIsPlain(input);
    HeldIs(output[..], Escaped(input));
    rc := 0;
  }
}
