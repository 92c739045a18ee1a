/** `base64_encode` of `src/base64.c` and the strict decoder of section 4 of RFC 4648. */
module Base64 {
  import opened Wrappers
  import opened CText

  /** Every character is one octet. */
  predicate IsOctets(s: string)
  {
    forall i :: 0 <= i < |s| ==> s[i] < 256 as char
  }

  /** The alphabet, `BASE64_CHARS[v]`. */
  function Symbol(v: nat): char
    requires v < 64
  {
    if v < 26 then 'A' + v as char
    else if v < 52 then 'a' + (v - 26) as char
    else if v < 62 then '0' + (v - 52) as char
    else if v == 62 then '+' else '/'
  }

  function SymbolValue(c: char): Option<nat>
  {
    if 'A' <= c <= 'Z' then Some(c as int - 'A' as int)
    else if 'a' <= c <= 'z' then Some(c as int - 'a' as int + 26)
    else if '0' <= c <= '9' then Some(c as int - '0' as int + 52)
    else if c == '+' then Some(62)
    else if c == '/' then Some(63)
    else None
  }

  /** The four characters of one round of the loop, from up to three octets; shifts and masks
      of the 24-bit triple are written as division and remainder. */
  function Group(a: nat, b: nat, c: nat, rem: nat): string
    requires a < 256 && b < 256 && c < 256
  {
    var triple := a * 0x10000 + b * 0x100 + c;
    [Symbol(triple / 0x40000 % 0x40), Symbol(triple / 0x1000 % 0x40),
     if rem > 1 then Symbol(triple / 0x40 % 0x40) else '=',
     if rem > 2 then Symbol(triple % 0x40) else '=']
  }

  function OctetOr0(s: string, i: nat): nat
    requires IsOctets(s)
    ensures OctetOr0(s, i) < 256
  {
    if i < |s| then s[i] as int else 0
  }

  function Rest(s: string): (r: string)
    ensures s != "" ==> |r| < |s|
    ensures |r| == if |s| < 3 then 0 else |s| - 3
    ensures IsOctets(s) ==> IsOctets(r)
  {
    if |s| < 3 then "" else s[3..]
  }

  function Encode(s: string): string
    requires IsOctets(s)
    decreases |s|
  {
    if s == "" then ""
    else Group(OctetOr0(s, 0), OctetOr0(s, 1), OctetOr0(s, 2), |s|) + Encode(Rest(s))
  }

  lemma GroupIsPlain(a: nat, b: nat, c: nat, rem: nat)
    requires a < 256 && b < 256 && c < 256
    ensures |Group(a, b, c, rem)| == 4 && '\0' !in Group(a, b, c, rem)
  {
  }

  lemma {:induction false} EncodeLength(s: string)
    requires IsOctets(s)
    ensures |Encode(s)| == 4 * ((|s| + 2) / 3)
    ensures '\0' !in Encode(s)
    decreases |s|
  {
    if s != "" {
      GroupIsPlain(OctetOr0(s, 0), OctetOr0(s, 1), OctetOr0(s, 2), |s|);
      hide Group;
      EncodeLength(Rest(s));
      assert (|s| + 2) / 3 == 1 + (|Rest(s)| + 2) / 3;
    }
  }

  // ----- The decoder -----

  /** One group of four symbols, strict: unused bits must be zero. */
  function DecodeGroup(t: string, last: bool): (r: Option<string>)
    requires |t| == 4
    ensures r.Some? ==> 1 <= |r.value| <= 3 && IsOctets(r.value)
  {
    var a, b, c, d := SymbolValue(t[0]), SymbolValue(t[1]), SymbolValue(t[2]), SymbolValue(t[3]);
    if a.None? || b.None? then None
    else if c.Some? && d.Some? then
      var n := ((a.value * 0x40 + b.value) * 0x40 + c.value) * 0x40 + d.value;
      Some([(n / 0x10000) as char, (n / 0x100 % 0x100) as char, (n % 0x100) as char])
    else if !last then None
    else if c.Some? && t[3] == '=' && c.value % 4 == 0 then
      var n := (a.value * 0x40 + b.value) * 0x10 + c.value / 4;
      Some([(n / 0x100) as char, (n % 0x100) as char])
    else if t[2..] == "==" && b.value % 16 == 0 then
      Some([(a.value * 4 + b.value / 16) as char])
    else None
  }

  function Decode(t: string): (r: Option<string>)
    ensures r.Some? ==> IsOctets(r.value)
    decreases |t|
  {
    if t == "" then Some("")
    else if |t| < 4 then None
    else
      var head := DecodeGroup(t[..4], |t| == 4);
      if head.None? then None
      else
        var tail := Decode(t[4..]);
        if tail.None? then None else Some(head.value + tail.value)
  }

  lemma Div64(k: nat, r: nat)
    requires r < 0x40
    ensures (k * 0x40 + r) / 0x40 == k && (k * 0x40 + r) % 0x40 == r
  {
  }

  lemma Div256(k: nat, r: nat)
    requires r < 0x100
    ensures (k * 0x100 + r) / 0x100 == k && (k * 0x100 + r) % 0x100 == r
  {
  }

  lemma DivTwice(n: nat)
    ensures n / 0x40 / 0x40 == n / 0x1000 && n / 0x1000 / 0x40 == n / 0x40000
    ensures n / 0x100 / 0x100 == n / 0x10000
  {
  }

  /** Three octets and four sextets are two readings of one number. */
  lemma Regroup(a: nat, b: nat, c: nat)
    ensures var p, q, r, s := a / 4, a % 4 * 16 + b / 16, b % 16 * 4 + c / 64, c % 64;
            ((p * 0x40 + q) * 0x40 + r) * 0x40 + s == (a * 0x100 + b) * 0x100 + c
  {
  }

  /** The four sextets of a triple, from its octets. */
  lemma Sextets(a: nat, b: nat, c: nat)
    requires a < 256 && b < 256 && c < 256
    ensures var n := a * 0x10000 + b * 0x100 + c;
            && n / 0x40000 % 0x40 == a / 4 && n / 0x1000 % 0x40 == a % 4 * 16 + b / 16
            && n / 0x40 % 0x40 == b % 16 * 4 + c / 64 && n % 0x40 == c % 64
  {
    var p, q, r, s := a / 4, a % 4 * 16 + b / 16, b % 16 * 4 + c / 64, c % 64;
    Regroup(a, b, c);
    ReadSextets(p, q, r, s);
  }

  lemma ReadSextets(p: nat, q: nat, r: nat, s: nat)
    requires p < 0x40 && q < 0x40 && r < 0x40 && s < 0x40
    ensures var n := ((p * 0x40 + q) * 0x40 + r) * 0x40 + s;
            && n / 0x40000 % 0x40 == p && n / 0x1000 % 0x40 == q && n / 0x40 % 0x40 == r && n % 0x40 == s
  {
    var k := p * 0x40 + q;
    var m := k * 0x40 + r;
    Div64(m, s);
    Div64(k, r);
    Div64(p, q);
    DivTwice(m * 0x40 + s);
  }

  lemma ThreeOctets(a: nat, b: nat, c: nat)
    requires a < 256 && b < 256 && c < 256
    ensures var n := ((a / 4 * 0x40 + (a % 4 * 16 + b / 16)) * 0x40 + (b % 16 * 4 + c / 64)) * 0x40 + c % 64;
            n / 0x10000 == a && n / 0x100 % 0x100 == b && n % 0x100 == c
  {
    Regroup(a, b, c);
    Div256(a * 0x100 + b, c);
    Div256(a, b);
    DivTwice((a * 0x100 + b) * 0x100 + c);
  }

  lemma TwoOctets(a: nat, b: nat)
    requires a < 256 && b < 256
    ensures (b % 16 * 4) % 4 == 0
    ensures var n := (a / 4 * 0x40 + (a % 4 * 16 + b / 16)) * 0x10 + b % 16 * 4 / 4;
            n / 0x100 == a && n % 0x100 == b
  {
    var n := (a / 4 * 0x40 + (a % 4 * 16 + b / 16)) * 0x10 + b % 16 * 4 / 4;
    assert n == a * 0x100 + b;
  }

  lemma SymbolInverts(v: nat)
    requires v < 64
    ensures SymbolValue(Symbol(v)) == Some(v) && Symbol(v) != '=' && SymbolValue('=') == None
  {
  }

  lemma FourValues(t: string, p: nat, q: nat, r: nat, s: nat, last: bool)
    requires |t| == 4 && p < 64 && q < 64 && r < 64 && s < 64
    requires SymbolValue(t[0]) == Some(p) && SymbolValue(t[1]) == Some(q)
    requires SymbolValue(t[2]) == Some(r) && SymbolValue(t[3]) == Some(s)
    ensures var n := ((p * 0x40 + q) * 0x40 + r) * 0x40 + s;
            DecodeGroup(t, last) == Some([(n / 0x10000) as char, (n / 0x100 % 0x100) as char, (n % 0x100) as char])
  {
    hide SymbolValue;
  }

  lemma ThreeValues(t: string, p: nat, q: nat, r: nat)
    requires |t| == 4 && p < 64 && q < 64 && r < 64 && r % 4 == 0 && t[3] == '='
    requires SymbolValue(t[0]) == Some(p) && SymbolValue(t[1]) == Some(q)
    requires SymbolValue(t[2]) == Some(r) && SymbolValue('=') == None
    ensures var n := (p * 0x40 + q) * 0x10 + r / 4;
            DecodeGroup(t, true) == Some([(n / 0x100) as char, (n % 0x100) as char])
  {
    hide SymbolValue;
  }

  lemma FullGroupDecodes(a: nat, b: nat, c: nat, rem: nat)
    requires a < 256 && b < 256 && c < 256 && 3 <= rem
    ensures DecodeGroup(Group(a, b, c, rem), rem <= 3) == Some([a as char, b as char, c as char])
  {
    var p, q, r, s := a / 4, a % 4 * 16 + b / 16, b % 16 * 4 + c / 64, c % 64;
    Sextets(a, b, c);
    SymbolInverts(p);
    SymbolInverts(q);
    SymbolInverts(r);
    SymbolInverts(s);
    hide Symbol, SymbolValue, DecodeGroup;
    assert Group(a, b, c, rem) == [Symbol(p), Symbol(q), Symbol(r), Symbol(s)];
    hide Group;
    FourValues(Group(a, b, c, rem), p, q, r, s, rem <= 3);
    ThreeOctets(a, b, c);
  }

  lemma TwoGroupDecodes(a: nat, b: nat)
    requires a < 256 && b < 256
    ensures DecodeGroup(Group(a, b, 0, 2), true) == Some([a as char, b as char])
  {
    var p, q, r := a / 4, a % 4 * 16 + b / 16, b % 16 * 4;
    Sextets(a, b, 0);
    SymbolInverts(p);
    SymbolInverts(q);
    SymbolInverts(r);
    hide Symbol, SymbolValue, DecodeGroup;
    assert Group(a, b, 0, 2) == [Symbol(p), Symbol(q), Symbol(r), '='];
    hide Group;
    TwoOctets(a, b);
    ThreeValues(Group(a, b, 0, 2), p, q, r);
  }

  lemma OneGroupDecodes(a: nat)
    requires a < 256
    ensures DecodeGroup(Group(a, 0, 0, 1), true) == Some([a as char])
  {
    Sextets(a, 0, 0);
    SymbolInverts(a / 4);
    SymbolInverts(a % 4 * 16);
    hide Symbol, SymbolValue;
    assert Group(a, 0, 0, 1)[2..] == "==";
  }

  lemma GroupDecodes(a: nat, b: nat, c: nat, rem: nat)
    requires a < 256 && b < 256 && c < 256 && 1 <= rem
    requires (rem < 3 ==> c == 0) && (rem < 2 ==> b == 0)
    ensures DecodeGroup(Group(a, b, c, rem), rem <= 3)
         == Some([a as char, b as char, c as char][..if rem < 3 then rem else 3])
  {
    var octets := [a as char, b as char, c as char];
    assert octets[..3] == octets && octets[..2] == [a as char, b as char] && octets[..1] == [a as char];
    hide DecodeGroup, Group;
    if rem > 2 {
      FullGroupDecodes(a, b, c, rem);
    } else if rem == 2 {
      TwoGroupDecodes(a, b);
    } else {
      OneGroupDecodes(a);
    }
  }

  /** Decoding undoes encoding, for every string of octets. */
  lemma {:induction false} DecodeEncode(s: string)
    requires IsOctets(s)
    ensures Decode(Encode(s)) == Some(s)
    decreases |s|
  {
    if s != "" {
      var g, rest := Group(OctetOr0(s, 0), OctetOr0(s, 1), OctetOr0(s, 2), |s|), Encode(Rest(s));
      GroupDecodes(OctetOr0(s, 0), OctetOr0(s, 1), OctetOr0(s, 2), |s|);
      DecodeEncode(Rest(s));
      EncodeLength(Rest(s));
      assert (g + rest)[..4] == g && (g + rest)[4..] == rest;
      var octets := [OctetOr0(s, 0) as char, OctetOr0(s, 1) as char, OctetOr0(s, 2) as char];
      assert s == octets[..if |s| < 3 then |s| else 3] + Rest(s);
    }
  }

  lemma {:induction false} DecodeLength(t: string)
    ensures Decode(t).Some? ==> |t| % 4 == 0
    decreases |t|
  {
    if |t| >= 4 {
      hide DecodeGroup;
      DecodeLength(t[4..]);
      assert |t| % 4 == (|t| - 4) % 4;
    }
  }

  /** The encoder's output identifies its input. */
  lemma {:induction false} EncodeInjective(s: string, t: string)
    requires IsOctets(s) && IsOctets(t)
    ensures Encode(s) == Encode(t) <==> s == t
  {
    DecodeEncode(s);
    DecodeEncode(t);
  }

  /** The symbols are those of table 1 of RFC 4648, in its order. */
  lemma SymbolIs(v: nat)
    requires v < 64
    ensures v < 26 ==> Symbol(v) == "ABCDEFGHIJKLMNOPQRSTUVWXYZ"[v]
    ensures 26 <= v < 52 ==> Symbol(v) == "abcdefghijklmnopqrstuvwxyz"[v - 26]
    ensures 52 <= v ==> Symbol(v) == "0123456789+/"[v - 52]
  {
  }

  /** `base64_encode`: refused exactly when the text and its NUL do not fit, in bounds
      otherwise, and nothing behind the NUL is touched. */
  method Base64Encode(input: string, output: array<char>) returns (rc: int)
    requires IsOctets(input)
    modifies output
    ensures rc == 0 || rc == -1
    ensures rc == 0 <==> 4 * ((|input| + 2) / 3) + 1 <= output.Length
    ensures rc == 0 ==> |Encode(input)| < output.Length && Held(output[..]) == Encode(input)
    ensures rc == 0 ==> output[|Encode(input)| + 1..] == old(output[|Encode(input)| + 1..])
    ensures rc == -1 ==> output[..] == old(output[..])
  {
    var outLen := 4 * ((|input| + 2) / 3);
    if output.Length < outLen + 1 {
      return -1;
    }
    EncodeLength(input);
    hide Encode, Held;
    EncodeInto(input, output);
    HeldIs(output[..], Encode(input));
    rc := 0;
  }

  /** The loop, into a buffer that has room. */
  method EncodeInto(input: string, output: array<char>)
    requires IsOctets(input) && |Encode(input)| < output.Length
    modifies output
    ensures output[..|Encode(input)|] == Encode(input) && output[|Encode(input)|] == '\0'
    ensures output[|Encode(input)| + 1..] == old(output[|Encode(input)| + 1..])
  {
    hide Encode, Group, Rest, OctetOr0;
    EncodeOfEmpty();
    var i, j := 0, 0;
    ghost var todo := input;
    while i < |input|
      invariant 0 <= i <= |input| && todo == input[i..] && IsOctets(todo)
      invariant j + |Encode(todo)| == |Encode(input)|
      invariant output[..j] + Encode(todo) == Encode(input)
      invariant output[|Encode(input)| + 1..] == old(output[|Encode(input)| + 1..])
    {
      ghost var done := output[..j];
      var group;
      group, i := NextGroup(input, i);
      RoundOf(done, todo, group);
      todo := Rest(todo);
      StoreFour(output, j, group);
      j := j + 4;
    }
    assert todo == "";
    output[j] := '\0';
  }

  /** The reading half of one round: up to three octets, and the four characters for them. */
  method NextGroup(input: string, i: nat) returns (group: string, next: nat)
    requires i < |input| && IsOctets(input)
    ensures next == i + (if |input| - i < 3 then |input| - i else 3)
    ensures IsOctets(input[i..])
    ensures group == Group(OctetOr0(input[i..], 0), OctetOr0(input[i..], 1), OctetOr0(input[i..], 2), |input[i..]|)
  {
    hide Group;
    var rem := |input| - i;
    next := i;
    var a := input[next] as int;
    next := next + 1;
    var b := 0;
    if rem > 1 {
      b := input[next] as int;
      next := next + 1;
    }
    var c := 0;
    if rem > 2 {
      c := input[next] as int;
      next := next + 1;
    }
    group := Group(a, b, c, rem);
  }

  /** `output[j++] = ...`, four times. */
  method StoreFour(output: array<char>, j: nat, group: string)
    requires |group| == 4 && j + 4 <= output.Length
    modifies output
    ensures output[..j + 4] == old(output[..j]) + group
    ensures output[j + 4..] == old(output[j + 4..])
  {
    output[j], output[j + 1], output[j + 2], output[j + 3] := group[0], group[1], group[2], group[3];
  }

  lemma EncodeOfEmpty()
    ensures Encode("") == ""
  {
  }

  lemma RoundOf(before: string, todo: string, group: string)
    requires todo != "" && IsOctets(todo)
    requires group == Group(OctetOr0(todo, 0), OctetOr0(todo, 1), OctetOr0(todo, 2), |todo|)
    ensures before + Encode(todo) == before + group + Encode(Rest(todo))
    ensures |Encode(todo)| == 4 + |Encode(Rest(todo))| && |group| == 4
    ensures Rest(todo) == todo[if |todo| < 3 then |todo| else 3..]
  {
    var rest := Encode(Rest(todo));
    assert Encode(todo) == group + rest;
    hide Encode, Group;
    assert before + (group + rest) == before + group + rest;
  }
}
