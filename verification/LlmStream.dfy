/** The server-sent-event text extraction of `src/llm_stream.c`. */
module LlmStream {
  import opened Wrappers
  import opened CText

  const NEEDLE: CString := "\"content\":\""
  const CHUNK_MAX := 512

  datatype Chunk = Chunk(text: CString, next: nat)

  /** The next value from cursor i, cut to `size`, and the cursor behind its closing quote. */
  function NextChunk(body: CString, i: nat, size: nat): (r: Option<Chunk>)
    requires i <= |body| && 0 < size
    ensures r.Some? ==> i < r.value.next <= |body|
  {
    var p := Find(body, NEEDLE, i);
    if p < 0 then None
    else
      var start := p + |NEEDLE|;
      var quote := Find(body, "\"", start);
      if quote < 0 then None else Some(Chunk(Fit(body[start..quote], size), quote + 1))
  }

  /** All chunks from cursor i on; the cursor strictly advances, so they are finitely many. */
  function Chunks(body: CString, i: nat): seq<CString>
    requires i <= |body|
    decreases |body| - i
  {
    var c := NextChunk(body, i, CHUNK_MAX);
    if c.None? then [] else [c.value.text] + Chunks(body, c.value.next)
  }

  function Concat(chunks: seq<CString>): CString
  {
    if chunks == [] then "" else chunks[0] + Concat(chunks[1..])
  }

  /** `next_content_value` on a cursor into `body`. */
  method NextContentValue(body: CString, i: nat, out: array<char>) returns (next: Option<nat>)
    requires i <= |body| && 0 < out.Length
    modifies out
    ensures next.Some? <==> NextChunk(body, i, out.Length).Some?
    ensures next.Some? ==>
              && next.value == NextChunk(body, i, out.Length).value.next
              && Held(out[..]) == NextChunk(body, i, out.Length).value.text
  {
    var p := Find(body, NEEDLE, i);
    if p < 0 {
      return None;
    }
    p := p + |NEEDLE|;
    var q := Find(body, "\"", p);
    if q < 0 {
      return None;
    }
    CopyCut(body, p, q, out);
    next := Some(q + 1);
  }

  /** One value through a chunk buffer of 512 bytes. */
  method NextText(body: CString, i: nat) returns (next: Option<nat>, text: CString)
    requires i <= |body|
    ensures next.Some? <==> NextChunk(body, i, CHUNK_MAX).Some?
    ensures next.Some? ==> NextChunk(body, i, CHUNK_MAX) == Some(Chunk(text, next.value))
  {
    hide Held, NextChunk;
    var chunk := new char[CHUNK_MAX];
    next := NextContentValue(body, i, chunk);
    text := if next.Some? then Held(chunk[..]) else "";
  }

  // ----- Text extraction -----

  /** `llm_sse_extract_text`, input and output being different buffers: returns 0 exactly when
      the chunks' total length is below the buffer's, and in any case leaves as much of their
      concatenation as fits. */
  method ExtractText(body: CString, out: array<char>) returns (rc: int)
    modifies out
    ensures rc == 0 || rc == -1
    ensures rc == 0 <==> |Concat(Chunks(body, 0))| < out.Length
    ensures 0 < out.Length ==> Held(out[..]) == Fit(Concat(Chunks(body, 0)), out.Length)
  {
    if out.Length == 0 {
      return -1;
    }
    hide Held, NextChunk, Gathered, Chunks, Concat, Fit;
    out[0] := '\0';
    var used, cursor := 0, 0;
    ghost var got: CString := "";
    GatherStart(body);
    assert out[..0] == "";
    while true
      invariant Gathered(body, got, cursor) && used == |got| < out.Length
      invariant out[..used] == got && out[used] == '\0'
      decreases |body| - cursor
    {
      CursorInBody(body, got, cursor);
      var next, text := NextText(body, cursor);
      if next.None? {
        break;
      }
      ghost var more := GatherMore(body, got, cursor);
      var wrote := PrintText(out, used, got, text, more);
      if wrote >= out.Length - used {
        GatherCut(body, more, next.value, out.Length);
        return -1;
      }
      got := more;
      used := used + wrote;
      cursor := next.value;
    }
    GatherEnd(body, got, cursor);
    HeldIs(out[..], got);
    FitsWhole(got, out.Length);
    rc := 0;
  }

  /** `got` is the text of the chunks before the cursor. */
  ghost predicate Gathered(body: CString, got: CString, cursor: nat)
  {
    cursor <= |body| && Concat(Chunks(body, 0)) == got + Concat(Chunks(body, cursor))
  }

  lemma FitsWhole(s: CString, size: nat)
    requires |s| < size
    ensures Fit(s, size) == s
  {
  }

  lemma CursorInBody(body: CString, got: CString, cursor: nat)
    requires Gathered(body, got, cursor)
    ensures cursor <= |body|
  {
  }

  lemma GatherStart(body: CString)
    ensures Gathered(body, "", 0)
  {
    hide Chunks;
  }

  lemma GatherMore(body: CString, got: CString, cursor: nat) returns (more: CString)
    requires Gathered(body, got, cursor) && cursor <= |body| && NextChunk(body, cursor, CHUNK_MAX).Some?
    ensures var c := NextChunk(body, cursor, CHUNK_MAX).value;
            more == got + c.text && Gathered(body, more, c.next)
  {
    var c := NextChunk(body, cursor, CHUNK_MAX).value;
    more := got + c.text;
    ChunksStep(body, cursor);
    hide Chunks, NextChunk, Concat;
    Associate(got, c.text, Concat(Chunks(body, c.next)));
  }

  lemma GatherEnd(body: CString, got: CString, cursor: nat)
    requires Gathered(body, got, cursor) && cursor <= |body| && NextChunk(body, cursor, CHUNK_MAX).None?
    ensures Concat(Chunks(body, 0)) == got
  {
    ChunksStep(body, cursor);
    hide Chunks, NextChunk, Concat;
    assert got + "" == got;
  }

  lemma GatherCut(body: CString, front: CString, cursor: nat, size: nat)
    requires Gathered(body, front, cursor) && 0 < size <= |front|
    ensures Fit(Concat(Chunks(body, 0)), size) == Fit(front, size) && size <= |Concat(Chunks(body, 0))|
  {
    hide Chunks, Concat;
    CutAll(Concat(Chunks(body, 0)), front, Concat(Chunks(body, cursor)), size);
  }

  /** One `snprintf` behind what is there: all of it, or as much as fits. */
  method PrintText(out: array<char>, used: nat, ghost got: CString, text: CString, ghost more: CString)
    returns (wrote: nat)
    requires used == |got| < out.Length && out[..used] == got && more == got + text
    modifies out
    ensures wrote == |text|
    ensures used + wrote < out.Length ==> out[..used + wrote] == more && out[used + wrote] == '\0'
    ensures used + wrote >= out.Length ==> Held(out[..]) == Fit(more, out.Length)
  {
    hide Held;
    wrote := PrintInto(out, used, text);
    ghost var kept := Fit(text, out.Length - used);
    assert out[..used + |kept|] == out[..used] + out[used..used + |kept|];
    if used + wrote >= out.Length {
      assert got + kept == Fit(more, out.Length);
      HeldIs(out[..], got + kept);
    }
  }

  lemma ChunksStep(body: CString, i: nat)
    requires i <= |body|
    ensures var c := NextChunk(body, i, CHUNK_MAX);
            if c.None? then Chunks(body, i) == [] && Concat(Chunks(body, i)) == ""
            else Concat(Chunks(body, i)) == c.value.text + Concat(Chunks(body, c.value.next))
  {
    var c := NextChunk(body, i, CHUNK_MAX);
    if c.Some? {
      assert Chunks(body, i)[1..] == Chunks(body, c.value.next);
    }
  }

  lemma Associate(a: string, b: string, c: string)
    ensures a + (b + c) == (a + b) + c
  {
  }

  lemma CutAll(all: CString, front: CString, rest: string, size: nat)
    requires all == front + rest && 0 < size <= |front|
    ensures Fit(all, size) == Fit(front, size) && size <= |all|
  {
  }

  // ----- Streaming -----

  /** The caller's callback: it keeps what it is given and answers from a fixed script. */
  class Consumer {
    var delivered: seq<CString>
    const verdicts: seq<int>

    constructor (verdicts: seq<int>)
      ensures delivered == [] && this.verdicts == verdicts
    {
      this.verdicts := verdicts;
      delivered := [];
    }

    /** Its k-th answer. */
    function Verdict(k: nat): int
    {
      if k < |verdicts| then verdicts[k] else 0
    }

    method Deliver(chunk: CString) returns (rc: int)
      modifies this
      ensures delivered == old(delivered) + [chunk] && rc == Verdict(|old(delivered)|)
    {
      rc := Verdict(|delivered|);
      delivered := delivered + [chunk];
    }
  }

  /** `llm_sse_for_each_chunk`: delivers exactly the chunks, in order, up to and including the
      first one the callback answers with non-zero. */
  method ForEachChunk(body: CString, cb: Consumer) returns (rc: int)
    modifies cb
    ensures rc == 0 || rc == -1
    ensures var chunks, before := Chunks(body, 0), old(cb.delivered);
            && (rc == 0 <==> forall j :: |before| <= j < |before| + |chunks| ==> cb.Verdict(j) == 0)
            && (rc == 0 ==> cb.delivered == before + chunks)
            && (rc == -1 ==> exists n :: 0 < n <= |chunks| && StopsAfter(cb, |before|, n)
                                         && cb.delivered == before + chunks[..n])
  {
    hide Held, NextChunk, Chunks;
    var cursor := 0;
    ghost var before, n := cb.delivered, 0;
    ghost var chunks := Chunks(body, 0);
    while true
      invariant cursor <= |body| && n <= |chunks|
      invariant chunks[n..] == Chunks(body, cursor)
      invariant cb.delivered == before + chunks[..n]
      invariant forall j :: |before| <= j < |before| + n ==> cb.Verdict(j) == 0
      decreases |body| - cursor
    {
      var next, text := NextText(body, cursor);
      ChunksSplit(body, cursor);
      if next.None? {
        break;
      }
      assert chunks[n..][0] == text && chunks[n + 1..] == chunks[n..][1..];
      assert chunks[..n + 1] == chunks[..n] + [text];
      var answer := cb.Deliver(text);
      n := n + 1;
      if answer != 0 {
        assert StopsAfter(cb, |before|, n);
        return -1;
      }
      cursor := next.value;
    }
    assert n == |chunks| && chunks[..n] == chunks;
    rc := 0;
  }

  /** Of the answers from index `base` on, the n-th is the first that is not zero. */
  ghost predicate StopsAfter(cb: Consumer, base: nat, n: nat)
  {
    0 < n && cb.Verdict(base + n - 1) != 0 && forall j :: base <= j < base + n - 1 ==> cb.Verdict(j) == 0
  }

  lemma ChunksSplit(body: CString, i: nat)
    requires i <= |body|
    ensures var c := NextChunk(body, i, CHUNK_MAX);
            Chunks(body, i) == if c.None? then [] else [c.value.text] + Chunks(body, c.value.next)
  {
  }

  // ----- What a well-framed stream delivers -----

  /** Anything, then the needle, one value and its closing quote. */
  datatype Frame = Frame(gap: CString, piece: CString)

  function Stream(frames: seq<Frame>, tail: CString): CString
  {
    if frames == [] then tail
    else frames[0].gap + "\"content\":\"" + frames[0].piece + "\"" + Stream(frames[1..], tail)
  }

  /** No needle starts before the one that announces the value. */
  ghost predicate Announced(f: Frame)
  {
    Find(f.gap + NEEDLE, NEEDLE, 0) == |f.gap|
  }

  /** And the value contains no quote. */
  ghost predicate WellFramed(f: Frame)
  {
    '\"' !in f.piece && Announced(f)
  }

  function Pieces(frames: seq<Frame>): seq<CString>
  {
    if frames == [] then [] else [Fit(frames[0].piece, CHUNK_MAX)] + Pieces(frames[1..])
  }

  lemma FrameDelivers(body: CString, i: nat, f: Frame, rest: string) returns (next: nat)
    requires WellFramed(f) && i <= |body| && body[i..] == f.gap + NEEDLE + f.piece + "\"" + rest
    ensures i <= next <= |body| && body[next..] == rest
    ensures NextChunk(body, i, CHUNK_MAX) == Some(Chunk(Fit(f.piece, CHUNK_MAX), next))
  {
    hide NextChunk, WellFramed, Fit;
    var start, quote := FrameParts(body, i, f, rest);
    next := quote + 1;
    DeliversAt(body, i, f, start, quote);
  }

  lemma DeliversAt(body: CString, i: nat, f: Frame, start: nat, quote: nat)
    requires WellFramed(f)
    requires start == i + |f.gap| + |NEEDLE| && quote == start + |f.piece| < |body|
    requires body[i..start] == f.gap + NEEDLE && body[start..quote] == f.piece && OccursAt(body, "\"", quote)
    ensures NextChunk(body, i, CHUNK_MAX) == Some(Chunk(Fit(f.piece, CHUNK_MAX), quote + 1))
  {
    hide NextChunk, Find, Fit;
    NeedleComesFirst(body, i, f.gap);
    QuoteComesFirst(body, start, f.piece);
    NextChunkIs(body, i, start, quote);
  }

  lemma NextChunkIs(body: CString, i: nat, start: nat, quote: nat)
    requires i <= start <= quote < |body|
    requires Find(body, NEEDLE, i) + |NEEDLE| == start && 0 <= Find(body, NEEDLE, i)
    requires Find(body, "\"", start) == quote
    ensures NextChunk(body, i, CHUNK_MAX) == Some(Chunk(Fit(body[start..quote], CHUNK_MAX), quote + 1))
  {
  }

  lemma NeedleComesFirst(body: CString, i: nat, gap: CString)
    requires var start := i + |gap| + |NEEDLE|; start <= |body| && body[i..start] == gap + NEEDLE
    requires Find(gap + NEEDLE, NEEDLE, 0) == |gap|
    ensures Find(body, NEEDLE, i) == i + |gap|
  {
    var lead := gap + NEEDLE;
    var start := i + |lead|;
    hide Find;
    forall k: int | i <= k < i + |gap| ensures !OccursAt(body, NEEDLE, k) {
      assert !OccursAt(lead, NEEDLE, k - i);
      SliceOf(body, i, lead, k - i, k - i + |NEEDLE|);
    }
    assert lead[|gap|..|lead|] == NEEDLE;
    SliceOf(body, i, lead, |gap|, |lead|);
    FindIs(body, NEEDLE, i, i + |gap|);
  }

  lemma QuoteComesFirst(body: CString, start: nat, piece: CString)
    requires '\"' !in piece && start + |piece| < |body|
    requires body[start..start + |piece|] == piece && OccursAt(body, "\"", start + |piece|)
    ensures Find(body, "\"", start) == start + |piece|
  {
    hide Find;
    forall k: int | start <= k < start + |piece| ensures !OccursAt(body, "\"", k) {
      assert body[k] == body[start..start + |piece|][k - start] == piece[k - start];
      assert piece[k - start] in piece;
      assert body[k..k + 1][0] == body[k];
    }
    FindIs(body, "\"", start, start + |piece|);
  }

  lemma FrameParts(body: CString, i: nat, f: Frame, rest: string) returns (start: nat, quote: nat)
    requires i <= |body| && body[i..] == f.gap + NEEDLE + f.piece + "\"" + rest
    ensures start == i + |f.gap| + |NEEDLE| && quote == start + |f.piece| < |body|
    ensures body[i..start] == f.gap + NEEDLE
    ensures body[start..quote] == f.piece && OccursAt(body, "\"", quote)
    ensures body[quote + 1..] == rest
  {
    var whole := f.gap + NEEDLE + f.piece + "\"" + rest;
    var g, n, l := |f.gap|, |NEEDLE|, |f.piece|;
    start, quote := i + g + n, i + g + n + l;
    assert body == body[..i] + whole;
    assert whole[..g + n] == f.gap + NEEDLE;
    assert whole[g + n..g + n + l] == f.piece && whole[g + n + l..g + n + l + 1] == "\"";
    assert whole[g + n + l + 1..] == rest;
  }

  /** Well-framed values are delivered one by one, each cut to 511 bytes: all of them, nothing
      else, in order. */
  lemma {:induction false} FramesDeliver(body: CString, i: nat, frames: seq<Frame>, tail: CString)
    requires forall k :: 0 <= k < |frames| ==> WellFramed(frames[k])
    requires Find(tail, NEEDLE, 0) < 0
    requires i <= |body| && body[i..] == Stream(frames, tail)
    ensures Chunks(body, i) == Pieces(frames)
    decreases |frames|
  {
    if frames == [] {
      TailDeliversNothing(body, i, tail);
    } else {
      var next := FrameDelivers(body, i, frames[0], Stream(frames[1..], tail));
      hide NextChunk, Stream, Find, Fit, Chunks;
      FramesDeliver(body, next, frames[1..], tail);
      ChunksSplit(body, i);
    }
  }

  lemma TailDeliversNothing(body: CString, i: nat, tail: CString)
    requires Find(tail, NEEDLE, 0) < 0 && i <= |body| && body[i..] == tail
    ensures Chunks(body, i) == []
  {
    hide Find, Chunks, NextChunk;
    forall k: int | i <= k ensures !OccursAt(body, NEEDLE, k) {
      assert !OccursAt(tail, NEEDLE, k - i);
      if k + |NEEDLE| <= |body| {
        SliceOf(body, i, tail, k - i, k - i + |NEEDLE|);
      }
    }
    NoNeedleNoChunk(body, i);
  }

  lemma NoNeedleNoChunk(body: CString, i: nat)
    requires i <= |body| && forall k: int :: i <= k ==> !OccursAt(body, NEEDLE, k)
    ensures Chunks(body, i) == []
  {
  }

  // ----- When a stream delivers its pieces -----

  /** A value the scanner neither ends early nor cuts. */
  predicate Intact(piece: CString)
  {
    '\"' !in piece && |piece| < CHUNK_MAX
  }

  function Values(frames: seq<Frame>): seq<CString>
  {
    if frames == [] then [] else [frames[0].piece] + Values(frames[1..])
  }

  /** The scanner ends a value at its first quote. */
  lemma QuoteEndsEarly(body: CString, start: nat, piece: CString, quote: nat)
    requires quote == start + |piece| < |body| && body[start..quote] == piece && OccursAt(body, "\"", quote)
    ensures var q := Find(body, "\"", start);
            && start <= q <= quote
            && ('\"' in piece ==> q < quote)
  {
    var q := Find(body, "\"", start);
    hide Find;
    if '\"' in piece {
      var k :| 0 <= k < |piece| && piece[k] == '\"';
      assert body[start..quote][k] == body[start + k];
      assert body[start + k..start + k + 1] == "\"";
      assert OccursAt(body, "\"", start + k);
    }
  }

  /** The chunk of a frame is its value exactly when the value is intact, and then the rest of
      the stream is what follows. */
  lemma FrameIff(body: CString, i: nat, f: Frame, rest: string) returns (next: nat)
    requires Announced(f) && i <= |body| && body[i..] == f.gap + NEEDLE + f.piece + "\"" + rest
    ensures i <= next <= |body| && (Intact(f.piece) ==> body[next..] == rest)
    ensures var c := NextChunk(body, i, CHUNK_MAX);
            c.Some? && c.value.next == next && (c.value.text == f.piece <==> Intact(f.piece))
  {
    hide NextChunk, Announced, Fit;
    if Intact(f.piece) {
      next := FrameDelivers(body, i, f, rest);
      FitsInChunk(f.piece);
    } else {
      var start, quote := FrameParts(body, i, f, rest);
      next := BrokenFrame(body, i, f, start, quote);
    }
  }

  lemma FitsInChunk(piece: CString)
    requires |piece| < CHUNK_MAX
    ensures Fit(piece, CHUNK_MAX) == piece
  {
  }

  lemma BrokenFrame(body: CString, i: nat, f: Frame, start: nat, quote: nat) returns (next: nat)
    requires Announced(f) && start == i + |f.gap| + |NEEDLE| <= quote == start + |f.piece| < |body|
    requires body[i..start] == f.gap + NEEDLE && body[start..quote] == f.piece && OccursAt(body, "\"", quote)
    requires !Intact(f.piece)
    ensures i <= next <= |body|
    ensures var c := NextChunk(body, i, CHUNK_MAX); c.Some? && c.value.next == next && c.value.text != f.piece
  {
    hide NextChunk, Find, Announced, OccursAt;
    NeedleLeads(body, i, f, start);
    QuoteEndsEarly(body, start, f.piece, quote);
    var q := Find(body, "\"", start);
    NextChunkIs(body, i, start, q);
    next := q + 1;
    ShortChunk(body[start..q], |f.piece|);
  }

  lemma ShortChunk(value: CString, n: nat)
    requires |value| <= n && (|value| < n || CHUNK_MAX <= n)
    ensures |Fit(value, CHUNK_MAX)| < n
  {
  }

  lemma NeedleLeads(body: CString, i: nat, f: Frame, start: nat)
    requires Announced(f) && start == i + |f.gap| + |NEEDLE| <= |body| && body[i..start] == f.gap + NEEDLE
    ensures Find(body, NEEDLE, i) == i + |f.gap|
  {
    NeedleComesFirst(body, i, f.gap);
  }

  lemma {:induction false} ValuesIff(body: CString, i: nat, frames: seq<Frame>, tail: CString)
    requires forall k :: 0 <= k < |frames| ==> Announced(frames[k])
    requires Find(tail, NEEDLE, 0) < 0
    requires i <= |body| && body[i..] == Stream(frames, tail)
    ensures Chunks(body, i) == Values(frames) <==> forall k :: 0 <= k < |frames| ==> Intact(frames[k].piece)
    decreases |frames|
  {
    if frames == [] {
      TailDeliversNothing(body, i, tail);
    } else {
      var first, more := frames[0].piece, frames[1..];
      var next := FrameIff(body, i, frames[0], Stream(more, tail));
      ChunksSplit(body, i);
      assert forall k :: 0 <= k < |more| ==> more[k] == frames[k + 1];
      hide NextChunk, Stream, Find, Chunks, Announced, Intact;
      if Intact(first) {
        ValuesIff(body, next, more, tail);
        assert ([first] + Chunks(body, next))[1..] == Chunks(body, next);
        assert ([first] + Values(more))[1..] == Values(more);
        AllIntact(frames);
      } else {
        assert Chunks(body, i)[0] != Values(frames)[0];
      }
    }
  }

  lemma AllIntact(frames: seq<Frame>)
    requires frames != []
    ensures (forall k :: 0 <= k < |frames| ==> Intact(frames[k].piece))
       <==> Intact(frames[0].piece) && forall k :: 0 <= k < |frames[1..]| ==> Intact(frames[1..][k].piece)
  {
    assert forall k :: 0 < k < |frames| ==> frames[k] == frames[1..][k - 1];
    assert forall k :: 0 <= k < |frames[1..]| ==> frames[1..][k] == frames[k + 1];
  }

  /** The scanner ends a value at its first quote, escaped or not, and cuts it to 511 bytes. So
      a stream whose needles are only those of its frames is delivered as its values exactly
      when no value contains a quote or is longer. */
  lemma {:induction false} StreamIsItsPieces(frames: seq<Frame>, tail: CString)
    requires forall k :: 0 <= k < |frames| ==> Announced(frames[k])
    requires Find(tail, NEEDLE, 0) < 0
    ensures var chunks := Chunks(Stream(frames, tail), 0);
            ((|chunks| == |frames| && forall k :: 0 <= k < |frames| ==> chunks[k] == frames[k].piece)
             <==> forall k :: 0 <= k < |frames| ==> '\"' !in frames[k].piece && |frames[k].piece| <= 511)
  {
    var body := Stream(frames, tail);
    var chunks := Chunks(body, 0);
    assert body[0..] == body;
    ValuesIff(body, 0, frames, tail);
    ValuesAre(frames);
    hide Stream, Chunks, Find, Announced, Values;
    assert (|chunks| == |frames| && forall k :: 0 <= k < |frames| ==> chunks[k] == frames[k].piece)
      ==> chunks == Values(frames);
  }

  lemma {:induction false} ValuesAre(frames: seq<Frame>)
    ensures |Values(frames)| == |frames|
    ensures forall k :: 0 <= k < |frames| ==> Values(frames)[k] == frames[k].piece
  {
    if frames != [] {
      ValuesAre(frames[1..]);
      assert forall k :: 0 < k < |frames| ==> frames[k] == frames[1..][k - 1];
    }
  }
}
