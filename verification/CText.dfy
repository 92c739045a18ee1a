/** C strings and character buffers.
    A `char` of the model stands for one byte of the C program. A C string is its
    content without the terminating NUL; a `char[N]` buffer is an `array<char>`. */
module CText {

  type CString = s: string | '\0' !in s witness ""

  /** Reading one byte of a C string: the terminator may be read, nothing behind it. */
  function At(s: CString, i: nat): char
    requires i <= |s|
  {
    if i < |s| then s[i] else '\0'
  }

  /** What `snprintf(dst, size, "%s", s)` leaves in a buffer of `size` bytes, size > 0. */
  function Fit(s: CString, size: nat): CString
    requires 0 < size
  {
    if |s| < size then s else s[..size - 1]
  }

  /** The string held by a buffer: everything before the first NUL. */
  function Held(buf: seq<char>): string
  {
    if buf == [] || buf[0] == '\0' then "" else [buf[0]] + Held(buf[1..])
  }

  lemma {:induction false} HeldIs(buf: seq<char>, s: string)
    requires '\0' !in s
    requires |s| < |buf| && buf[..|s|] == s && buf[|s|] == '\0'
    ensures Held(buf) == s
  {
    if s == "" {
    } else {
      assert buf[0] == s[0] && s[0] in s;
      assert buf[1..][..|s| - 1] == s[1..] by { assert buf[..|s|][1..] == s[1..]; }
      HeldIs(buf[1..], s[1..]);
    }
  }

  /** `pat` occurs in `s` at index `i`. */
  predicate OccursAt(s: string, pat: string, i: int)
  {
    0 <= i && i + |pat| <= |s| && s[i..i + |pat|] == pat
  }

  lemma OccursChars(s: string, pat: string, i: nat)
    requires OccursAt(s, pat, i)
    ensures forall k {:trigger pat[k]} :: 0 <= k < |pat| ==> s[i + k] == pat[k]
  {
    var part := s[i..i + |pat|];
    forall k | 0 <= k < |pat| ensures s[i + k] == pat[k] {
      assert part[k] == s[i + k];
    }
  }

  lemma SliceOf(w: string, base: nat, line: string, a: nat, b: nat)
    requires base + |line| <= |w| && w[base..base + |line|] == line && a <= b <= |line|
    ensures w[base + a..base + b] == line[a..b]
  {
    var whole, part := w[base..base + |line|], w[base + a..base + b];
    forall k | 0 <= k < b - a ensures part[k] == line[a..b][k] {
      assert whole[a + k] == w[base + a + k];
    }
  }

  /** A concatenation occurs where its first part does and the second follows. */
  lemma OccursConcat(s: string, a: string, b: string, i: nat)
    ensures OccursAt(s, a + b, i) <==> OccursAt(s, a, i) && OccursAt(s, b, i + |a|)
  {
    if i + |a| + |b| <= |s| {
      var whole := s[i..i + |a| + |b|];
      assert whole == s[i..i + |a|] + s[i + |a|..i + |a| + |b|];
      assert (a + b)[..|a|] == a && (a + b)[|a|..] == b;
      assert whole[..|a|] == s[i..i + |a|] && whole[|a|..] == s[i + |a|..i + |a| + |b|];
    }
  }

  /** `strstr`: the least index at or after `from` where `pat` occurs, or -1. */
  function Find(s: string, pat: string, from: nat): (r: int)
    requires from <= |s|
    ensures r == -1 || (from <= r && OccursAt(s, pat, r))
    ensures forall i: int :: from <= i && (r == -1 || i < r) ==> !OccursAt(s, pat, i)
    decreases |s| - from
  {
    if OccursAt(s, pat, from) then from
    else if from == |s| then -1
    else Find(s, pat, from + 1)
  }

  lemma FindIs(s: string, pat: string, from: nat, at: nat)
    requires from <= at && OccursAt(s, pat, at)
    requires forall i: int :: from <= i < at ==> !OccursAt(s, pat, i)
    ensures Find(s, pat, from) == at
  {
  }

  /** `memcpy(dst + at, text, |text|)`. */
  method CopyInto(dst: array<char>, at: nat, text: string)
    requires at + |text| <= dst.Length
    modifies dst
    ensures dst[..] == old(dst[..at]) + text + old(dst[at + |text|..])
  {
    ghost var before := dst[..];
    for i := 0 to |text|
      invariant forall k :: 0 <= k < dst.Length ==> dst[k] == if at <= k < at + i then text[k - at] else before[k]
    {
      dst[at + i] := text[i];
    }
  }

  /** `snprintf(dst + at, Length - at, "%s", text)`: returns the untruncated length. */
  method PrintInto(dst: array<char>, at: nat, text: CString) returns (wrote: nat)
    requires at <= dst.Length
    modifies dst
    ensures wrote == |text|
    ensures dst[..at] == old(dst[..at])
    ensures at == dst.Length ==> dst[..] == old(dst[..])
    ensures at < dst.Length ==>
              var kept := Fit(text, dst.Length - at);
              && dst[at..at + |kept|] == kept
              && dst[at + |kept|] == '\0'
  {
    wrote := |text|;
    if at < dst.Length {
      var kept := Fit(text, dst.Length - at);
      CopyInto(dst, at, kept);
      assert dst[at..at + |kept|] == kept;
      assert dst[..at] == old(dst[..at]);
      dst[at + |kept|] := '\0';
      assert dst[at..at + |kept|] == kept;
    }
  }

  /** The copy at the end of every scanner: `src[from..to]`, cut to the buffer, and a NUL. */
  method CopyCut(src: CString, from: nat, to: nat, dst: array<char>)
    requires from <= to <= |src| && 0 < dst.Length
    modifies dst
    ensures Held(dst[..]) == Fit(src[from..to], dst.Length)
  {
    hide Held;
    var n := to - from;
    if n >= dst.Length {
      n := dst.Length - 1;
    }
    CutIsFit(src, from, to, n, dst.Length);
    CopyInto(dst, 0, src[from..from + n]);
    dst[n] := '\0';
    HeldIs(dst[..], src[from..from + n]);
  }

  lemma CutIsFit(src: CString, from: nat, to: nat, n: nat, size: nat)
    requires from <= to <= |src| && 0 < size && n == if to - from < size then to - from else size - 1
    ensures src[from..from + n] == Fit(src[from..to], size)
  {
    var whole := src[from..to];
    assert whole[..n] == src[from..from + n];
    assert n == |whole| ==> whole[..n] == whole;
  }

  /** Printing behind a prefix already in place, with room to spare. */
  method PrintAfter(dst: array<char>, at: nat, ghost before: string, text: CString)
    requires at + |text| < dst.Length && dst[..at] == before
    modifies dst
    ensures dst[..at + |text|] == before + text && dst[at + |text|] == '\0'
  {
    var wrote := PrintInto(dst, at, text);
    assert dst[..at + |text|] == dst[..at] + dst[at..at + |text|];
  }
}
