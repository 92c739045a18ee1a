/** What the channels' scanner takes from the payloads it is called on: objects of several
    printed members, the field at any position. */
module Inbound {
  import opened Wrappers
  import opened CText
  import opened Json
  import opened Channels

  datatype Printed = Printed(key: CString, value: CString)

  function MembersText(ms: seq<Printed>): string
    requires ms != []
  {
    if |ms| == 1 then MemberText(ms[0].key, ms[0].value)
    else MemberText(ms[0].key, ms[0].value) + ("," + MembersText(ms[1..]))
  }

  /** The object a JSON printer writes for the members, without white space. */
  function ObjectText(ms: seq<Printed>): string
    requires ms != []
  {
    "{" + (MembersText(ms) + "}")
  }

  predicate PlainKeys(ms: seq<Printed>)
  {
    forall i :: 0 <= i < |ms| ==> Plain(ms[i].key)
  }

  /** A field name like the channels' own: nothing to escape, and none of the marks that follow
      a string in an object. */
  predicate FieldName(f: string)
  {
    && 0 < |f| <= 59 && Plain(f)
    && forall k :: 0 <= k < |f| ==> f[k] != ',' && f[k] != ':' && f[k] != '}'
  }

  // ----- Character by character -----

  /** `"f":"` stands at k. */
  predicate PatternAt(w: string, f: string, k: int)
  {
    && 0 <= k && k + |f| + 4 <= |w| && w[k] == '\"' && (forall i :: 0 <= i < |f| ==> w[k + 1 + i] == f[i])
    && w[k + |f| + 1] == '\"' && w[k + |f| + 2] == ':' && w[k + |f| + 3] == '\"'
  }

  lemma PatternIs(f: string)
    ensures var pat := "\"" + f + "\":\"";
            && |pat| == |f| + 4 && pat[0] == '\"' && (forall i :: 0 <= i < |f| ==> pat[1 + i] == f[i])
            && pat[|f| + 1] == '\"' && pat[|f| + 2] == ':' && pat[|f| + 3] == '\"'
  {
  }

  lemma PatternChars(w: string, f: string, k: int)
    ensures OccursAt(w, "\"" + f + "\":\"", k) <==> PatternAt(w, f, k)
  {
    var pat := "\"" + f + "\":\"";
    PatternIs(f);
    if OccursAt(w, pat, k) {
      OccursChars(w, pat, k);
      assert w[k + 0] == pat[0] && w[k + (|f| + 1)] == pat[|f| + 1];
      assert w[k + (|f| + 2)] == pat[|f| + 2] && w[k + (|f| + 3)] == pat[|f| + 3];
      forall i | 0 <= i < |f| ensures w[k + 1 + i] == f[i] {
        assert w[k + (1 + i)] == pat[1 + i];
      }
    }
    if PatternAt(w, f, k) {
      var part := w[k..k + |pat|];
      forall i | 0 <= i < |pat| ensures part[i] == pat[i] {
        assert part[i] == w[k + i];
        assert 1 <= i <= |f| ==> w[k + 1 + (i - 1)] == f[i - 1] == pat[1 + (i - 1)];
      }
      assert part == pat;
    }
  }

  /** `"key":"value"` stands at `at`, and c is where its last quote stands. */
  predicate MemberAt(w: string, at: nat, key: string, value: string, c: nat)
  {
    && c == at + |key| + |value| + 4 < |w|
    && w[at] == '\"' && (forall i :: 0 <= i < |key| ==> w[at + 1 + i] == key[i])
    && w[at + |key| + 1] == '\"' && w[at + |key| + 2] == ':' && w[at + |key| + 3] == '\"'
    && (forall i :: 0 <= i < |value| ==> w[at + |key| + 4 + i] == value[i])
    && w[c] == '\"'
  }

  lemma MemberChars(w: string, at: nat, key: string, value: string, rest: string)
    requires at <= |w| && w[at..] == Quoted(key, value) + rest
    ensures MemberAt(w, at, key, value, at + |key| + |value| + 4)
    ensures w[at + |key| + |value| + 5..] == rest
  {
    var m, c := Quoted(key, value), at + |key| + |value| + 4;
    assert |m| == |key| + |value| + 5;
    forall i | 0 <= i < |m| ensures w[at + i] == m[i] {
      assert w[at..][i] == w[at + i];
    }
    assert m[0] == '\"' && m[|key| + 1] == '\"' && m[|key| + 2] == ':' && m[|key| + 3] == '\"';
    assert m[|key| + |value| + 4] == '\"';
    assert forall i :: 0 <= i < |key| ==> m[1 + i] == key[i];
    assert forall i :: 0 <= i < |value| ==> m[|key| + 4 + i] == value[i];
    forall i | 0 <= i < |key| ensures w[at + 1 + i] == key[i] {
      assert w[at + (1 + i)] == m[1 + i];
    }
    forall i | 0 <= i < |value| ensures w[at + |key| + 4 + i] == value[i] {
      assert w[at + (|key| + 4 + i)] == m[|key| + 4 + i];
    }
    assert w[at..][|m|..] == rest;
  }

  lemma CharOf(w: string, at: nat, part: string, n: nat)
    requires at + 1 + |part| <= |w| && forall i :: 0 <= i < |part| ==> w[at + 1 + i] == part[i]
    ensures n < |part| ==> w[at + 1 + n] == part[n]
  {
  }

  lemma FieldChar(w: string, f: string, k: int, n: nat)
    ensures PatternAt(w, f, k) && n < |f| ==> w[k + 1 + n] == f[n]
    ensures PatternAt(w, f, k) && n == |f| ==> w[k + 1 + n] == '\"'
  {
  }

  /** The pattern stands at a member exactly when its key is the field. */
  lemma KeyDecides(w: string, at: nat, key: string, value: string, c: nat, f: string)
    requires MemberAt(w, at, key, value, c) && Plain(key) && Plain(f)
    ensures PatternAt(w, f, at) <==> key == f
  {
    CharOf(w, at, key, |f|);
    FieldChar(w, f, at, |f|);
    FieldChar(w, f, at, |key|);
    if PatternAt(w, f, at) {
      assert |key| == |f|;
      forall i | 0 <= i < |f| ensures key[i] == f[i] {
        CharOf(w, at, key, i);
        FieldChar(w, f, at, i);
      }
      assert key == f;
    }
  }

  /** Behind the start of a member, and up to its end, the pattern stands nowhere. */
  lemma NoFieldInside(w: string, at: nat, key: string, value: string, c: nat, f: string, k: nat)
    requires MemberAt(w, at, key, value, c) && Plain(key) && QuotesGuarded(value) && FieldName(f)
    requires c + 1 < |w| && (w[c + 1] == ',' || w[c + 1] == '}')
    requires at < k <= c + 1
    ensures !PatternAt(w, f, k)
  {
    if k <= at + |key| {
      CharOf(w, at, key, k - at - 1);
    } else if k < at + |key| + 3 {
      FieldChar(w, f, k, 0);
    } else if k <= c {
      NoFieldInValue(w, at + |key| + 3, value, c, f, k);
    }
  }

  lemma NoFieldInValue(w: string, open: nat, value: string, c: nat, f: string, k: nat)
    requires c == open + |value| + 1 && c + 1 < |w| && w[open] == '\"' && w[c] == '\"'
    requires forall i :: 0 <= i < |value| ==> w[open + 1 + i] == value[i]
    requires QuotesGuarded(value) && FieldName(f) && (w[c + 1] == ',' || w[c + 1] == '}')
    requires open <= k <= c
    ensures !PatternAt(w, f, k)
  {
    FieldChar(w, f, k, |f| - 1);
    FieldChar(w, f, k, |f|);
    if k == c {
      FieldChar(w, f, k, 0);
    } else if k + |f| + 1 < c {
      CharOf(w, open, value, k + |f| - open);
      CharOf(w, open, value, k + |f| - open - 1);
    } else {
      FieldChar(w, f, k, c - k - 1);
    }
  }

  // ----- Member by member -----

  lemma MemberIsQuoted(m: Printed)
    requires Plain(m.key)
    ensures MemberText(m.key, m.value) == Quoted(m.key, Escaped(m.value)) && QuotesGuarded(Escaped(m.value))
  {
    EscapedFixedIff(m.key);
    QuotesAreEscaped(m.value);
  }

  /** What follows the first member: a comma and the others, or the closing brace. */
  function Behind(ms: seq<Printed>): string
    requires ms != []
  {
    if |ms| == 1 then "}" else "," + (MembersText(ms[1..]) + "}")
  }

  lemma MembersSplit(ms: seq<Printed>)
    requires ms != [] && Plain(ms[0].key)
    ensures MembersText(ms) + "}" == Quoted(ms[0].key, Escaped(ms[0].value)) + Behind(ms)
  {
    MemberIsQuoted(ms[0]);
    hide MemberText, Quoted, Escaped;
    if |ms| > 1 {
      var m, more := MemberText(ms[0].key, ms[0].value), MembersText(ms[1..]);
      SplitAssoc(m, more);
    }
  }

  lemma SplitAssoc(m: string, more: string)
    ensures m + ("," + more) + "}" == m + ("," + (more + "}"))
  {
  }

  /** One member whose key is not the field: the pattern stands nowhere up to the next. */
  lemma PassMember(w: string, at: nat, ms: seq<Printed>, f: string) returns (next: nat)
    requires ms != [] && Plain(ms[0].key) && FieldName(f) && ms[0].key != f
    requires at <= |w| && w[at..] == MembersText(ms) + "}"
    ensures at < next <= |w| && forall k :: at <= k < next ==> !PatternAt(w, f, k)
    ensures |ms| == 1 ==> next == |w|
    ensures 1 < |ms| ==> w[next..] == MembersText(ms[1..]) + "}"
  {
    var key, value := ms[0].key, Escaped(ms[0].value);
    hide Escaped, MembersText, Quoted, FieldName, Plain, PatternAt, MemberAt, QuotesGuarded;
    MemberIsQuoted(ms[0]);
    MembersSplit(ms);
    MemberChars(w, at, key, value, Behind(ms));
    var c := at + |key| + |value| + 4;
    BehindAt(w, c, ms);
    OutsideField(w, at, key, value, c, f);
    next := c + 2;
  }

  /** What the text holds from a member's last quote on. */
  lemma BehindAt(w: string, c: nat, ms: seq<Printed>)
    requires ms != [] && c < |w| && w[c + 1..] == Behind(ms)
    ensures c + 2 <= |w| && (w[c + 1] == ',' || w[c + 1] == '}')
    ensures |ms| == 1 ==> c + 2 == |w|
    ensures 1 < |ms| ==> w[c + 2..] == MembersText(ms[1..]) + "}"
  {
    hide MembersText;
    var tail := w[c + 1..];
    assert tail[0] == w[c + 1] && tail[1..] == w[c + 2..];
  }

  lemma OutsideField(w: string, at: nat, key: string, value: string, c: nat, f: string)
    requires MemberAt(w, at, key, value, c) && Plain(key) && QuotesGuarded(value) && FieldName(f) && key != f
    requires c + 1 < |w| && (w[c + 1] == ',' || w[c + 1] == '}')
    ensures forall k :: at <= k < c + 2 ==> !PatternAt(w, f, k)
  {
    KeyDecides(w, at, key, value, c, f);
    forall k | at < k <= c + 1 ensures !PatternAt(w, f, k) {
      NoFieldInside(w, at, key, value, c, f, k);
    }
  }

  /** The first member whose key is the field. */
  lemma {:induction false} FirstNamed(w: string, at: nat, ms: seq<Printed>, f: string, j: nat) returns (pos: nat)
    requires PlainKeys(ms) && FieldName(f) && j < |ms| && ms[j].key == f
    requires forall i :: 0 <= i < j ==> ms[i].key != f
    requires at <= |w| && w[at..] == MembersText(ms) + "}"
    ensures at <= pos <= |w| && w[pos..] == MembersText(ms[j..]) + "}"
    ensures forall k :: at <= k < pos ==> !PatternAt(w, f, k)
    decreases j
  {
    if j == 0 {
      pos := at;
      assert ms[0..] == ms;
    } else {
      var next := PassMember(w, at, ms, f);
      hide MembersText, PatternAt, Plain, FieldName;
      assert ms[1..][j - 1..] == ms[j..];
      pos := FirstNamed(w, next, ms[1..], f, j - 1);
    }
  }

  lemma {:induction false} NoneNamed(w: string, at: nat, ms: seq<Printed>, f: string)
    requires ms != [] && PlainKeys(ms) && FieldName(f)
    requires forall i :: 0 <= i < |ms| ==> ms[i].key != f
    requires at <= |w| && w[at..] == MembersText(ms) + "}"
    ensures forall k :: at <= k < |w| ==> !PatternAt(w, f, k)
    decreases |ms|
  {
    var next := PassMember(w, at, ms, f);
    hide MembersText, PatternAt, Plain, FieldName;
    if |ms| > 1 {
      NoneNamed(w, next, ms[1..], f);
    }
  }

  lemma {:induction false} ObjectIsCString(ms: seq<Printed>)
    requires ms != []
    ensures '\0' !in MembersText(ms) && '\0' !in ObjectText(ms)
    decreases |ms|
  {
    MemberIsCString(ms[0]);
    hide MemberText;
    if |ms| > 1 {
      ObjectIsCString(ms[1..]);
    }
  }

  lemma MemberIsCString(m: Printed)
    ensures '\0' !in MemberText(m.key, m.value)
  {
    EscapedIsPlain(m.key);
    EscapedIsPlain(m.value);
    hide Escaped;
  }

  lemma ObjectStart(ms: seq<Printed>, f: string)
    requires ms != []
    ensures ObjectText(ms)[1..] == MembersText(ms) + "}" && !PatternAt(ObjectText(ms), f, 0)
  {
    hide MembersText;
  }

  /** Of an object of printed members, whatever their values and wherever the field stands, the
      scanner delivers the escaped value of the first member with that key, cut to the buffer;
      nothing for an empty value, and nothing where no member has the key. The value must not
      end in a backslash, whose escape would hide its closing quote. */
  lemma {:induction false} FieldOfObject(ms: seq<Printed>, f: CString, j: nat, size: nat)
    requires PlainKeys(ms) && FieldName(f) && j < |ms| && ms[j].key == f && 1 < size
    requires forall i :: 0 <= i < j ==> ms[i].key != f
    requires ms[j].value != "" ==> ms[j].value[|ms[j].value| - 1] != '\\'
    ensures '\0' !in ObjectText(ms) && '\0' !in Escaped(ms[j].value)
    ensures Extracted(ObjectText(ms), f, size)
         == if ms[j].value == "" then None else Some(Fit(Escaped(ms[j].value), size))
  {
    var e := Escaped(ms[j].value);
    ObjectIsCString(ms);
    ObjectStart(ms, f);
    var w: CString := ObjectText(ms);
    var pos := FirstNamed(w, 1, ms, f, j);
    assert ms[j..][0] == ms[j];
    MembersSplit(ms[j..]);
    EscapedIsPlain(ms[j].value);
    MemberIsQuoted(ms[j]);
    if ms[j].value != "" {
      LastEscaped(ms[j].value);
    }
    assert ms[j].value == "" ==> e == "";
    hide ObjectText, MembersText, Escaped, Extracted, Behind, Plain, FieldName;
    ValueHeld(w, f, pos, e, Behind(ms[j..]));
    ExtractedHeld(w, f, w[..pos], e, Behind(ms[j..]), size);
  }

  lemma ValueHeld(w: string, f: CString, pos: nat, e: string, rest: string)
    requires pos <= |w| && w[pos..] == Quoted(f, e) + rest && forall k :: 0 <= k < pos ==> !PatternAt(w, f, k)
    requires QuotesGuarded(e) && (e == "" || e[|e| - 1] != '\\')
    ensures Holds(w, f, w[..pos], e, rest)
  {
    var pre := w[..pos];
    assert w == pre + (Quoted(f, e) + rest);
    QuotedAssoc(pre, f, e, rest);
    forall k | 0 <= k < pos ensures !OccursAt(w, "\"" + f + "\":\"", k) {
      PatternChars(w, f, k);
    }
  }

  lemma QuotedAssoc(pre: string, f: string, e: string, rest: string)
    ensures pre + (Quoted(f, e) + rest) == pre + "\"" + f + "\":\"" + (e + "\"" + rest)
  {
  }

  /** An object none of whose members has the key yields nothing. */
  lemma {:induction false} NoFieldOfObject(ms: seq<Printed>, f: CString, size: nat)
    requires ms != [] && PlainKeys(ms) && FieldName(f)
    requires forall i :: 0 <= i < |ms| ==> ms[i].key != f
    ensures '\0' !in ObjectText(ms)
    ensures Extracted(ObjectText(ms), f, size) == None
  {
    ObjectIsCString(ms);
    ObjectStart(ms, f);
    var w: CString := ObjectText(ms);
    NoneNamed(w, 1, ms, f);
    hide ObjectText, Extracted;
    forall k ensures !OccursAt(w, "\"" + f + "\":\"", k) {
      PatternChars(w, f, k);
    }
    NeverFound(w, f, size);
  }
}
