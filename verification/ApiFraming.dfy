/** The RouterOS API framing of `install/mikroclaw-install.py`: length-prefixed words, an
    empty word ending each sentence. A word is its UTF-8 payload. */
module ApiFraming {
  import opened Wrappers

  type Octet = x: int | 0 <= x < 256
  type Word = seq<Octet>
  type Sentence = seq<Word>

  const LENGTH_LIMIT := 0x200000

  /** `_api_encode_length`; None is its ValueError. The marker bits it ORs in are clear in the
      length, so they are written as sums. */
  function EncodeLength(length: int): Option<seq<Octet>>
  {
    if length < 0 then None
    else if length < 0x80 then Some([length])
    else if length < 0x4000 then
      var encoded := length + 0x8000;
      Some([encoded / 0x100, encoded % 0x100])
    else if length < LENGTH_LIMIT then
      var encoded := length + 0xC00000;
      Some([encoded / 0x10000, encoded / 0x100 % 0x100, encoded % 0x100])
    else None
  }

  // ----- The receiving side -----

  datatype Item<T> = Item(what: T, rest: seq<Octet>)

  function DecodeLength(s: seq<Octet>): (r: Option<Item<nat>>)
    ensures r.Some? ==> |r.value.rest| < |s|
  {
    if s == [] then None
    else if s[0] < 0x80 then Some(Item(s[0], s[1..]))
    else if s[0] < 0xC0 then
      if |s| < 2 then None else Some(Item((s[0] as int - 0x80) * 0x100 + s[1] as int, s[2..]))
    else if s[0] < 0xE0 then
      if |s| < 3 then None else Some(Item((s[0] as int - 0xC0) * 0x10000 + s[1] as int * 0x100 + s[2] as int, s[3..]))
    else None
  }

  /** Words up to and including the empty one that ends the sentence. */
  function ReadSentence(s: seq<Octet>): (r: Option<Item<Sentence>>)
    ensures r.Some? ==> |r.value.rest| < |s|
    decreases |s|
  {
    var len := DecodeLength(s);
    if len.None? || |len.value.rest| < len.value.what then None
    else if len.value.what == 0 then Some(Item([], len.value.rest))
    else
      var word, rest := len.value.rest[..len.value.what], len.value.rest[len.value.what..];
      var more := ReadSentence(rest);
      if more.None? then None else Some(Item([word] + more.value.what, more.value.rest))
  }

  function Decode(s: seq<Octet>): Option<seq<Sentence>>
    decreases |s|
  {
    if s == [] then Some([])
    else
      var first := ReadSentence(s);
      if first.None? then None
      else
        var more := Decode(first.value.rest);
        if more.None? then None else Some([first.value.what] + more.value)
  }

  // ----- The sending side -----

  predicate Sendable(words: Sentence)
  {
    forall i :: 0 <= i < |words| ==> |words[i]| < LENGTH_LIMIT
  }

  function EncodeWords(words: Sentence): seq<Octet>
    requires Sendable(words)
  {
    if words == [] then [] else EncodeLength(|words[0]|).value + words[0] + EncodeWords(words[1..])
  }

  function EncodeSentence(words: Sentence): seq<Octet>
    requires Sendable(words)
  {
    EncodeWords(words) + [0]
  }

  function EncodeAll(sentences: seq<Sentence>): seq<Octet>
    requires forall i :: 0 <= i < |sentences| ==> Sendable(sentences[i])
  {
    if sentences == [] then [] else EncodeSentence(sentences[0]) + EncodeAll(sentences[1..])
  }

  class Socket {
    var sent: seq<Octet>

    method SendAll(data: seq<Octet>)
      modifies this
      ensures sent == old(sent) + data
    {
      sent := sent + data;
    }
  }

  /** `_api_send_sentence`: sends the whole sentence, or raises at the first oversized word
      with the words before it already sent and no terminator. */
  method SendSentence(sock: Socket, words: Sentence) returns (raised: bool)
    modifies sock
    ensures raised <==> !Sendable(words)
    ensures !raised ==> sock.sent == old(sock.sent) + EncodeSentence(words)
    ensures raised ==>
              exists k :: 0 <= k < |words| && |words[k]| >= LENGTH_LIMIT && Sendable(words[..k])
                          && sock.sent == old(sock.sent) + EncodeWords(words[..k])
  {
    hide EncodeWords;
    EmptyWords();
    for k := 0 to |words|
      invariant Sendable(words[..k])
      invariant sock.sent == old(sock.sent) + EncodeWords(words[..k])
    {
      var code := EncodeLength(|words[k]|);
      if code.None? {
        return true;
      }
      WordsSnoc(words[..k], words[k]);
      assert words[..k + 1] == words[..k] + [words[k]];
      sock.SendAll(code.value + words[k]);
    }
    assert words[..|words|] == words;
    sock.SendAll([0]);
    raised := false;
  }

  lemma EmptyWords()
    ensures EncodeWords([]) == []
  {
  }

  lemma {:induction false} WordsSnoc(words: Sentence, w: Word)
    requires Sendable(words) && |w| < LENGTH_LIMIT
    ensures Sendable(words + [w])
    ensures EncodeWords(words + [w]) == EncodeWords(words) + (EncodeLength(|w|).value + w)
  {
    if words == [] {
      assert words + [w] == [w];
      assert EncodeWords([w]) == EncodeLength(|w|).value + w + EncodeWords([]);
    } else {
      assert (words + [w])[1..] == words[1..] + [w];
      WordsSnoc(words[1..], w);
    }
  }

  // ----- The round trip -----

  /** A length code is read back whatever follows it, and is the shortest there is. */
  lemma LengthRoundTrip(n: nat, rest: seq<Octet>)
    requires n < 2097152
    ensures DecodeLength(EncodeLength(n).value + rest) == Some(Item(n, rest))
    ensures |EncodeLength(n).value| == if n < 128 then 1 else if n < 16384 then 2 else 3
  {
    var code := EncodeLength(n).value;
    assert (code + rest)[|code|..] == rest;
    assert forall i :: 0 <= i < |code| ==> (code + rest)[i] == code[i];
  }

  /** Hence no code is a prefix of another. */
  lemma LengthPrefixFree(n: nat, m: nat)
    requires n < 2097152 && m < 2097152
    requires EncodeLength(n).value <= EncodeLength(m).value
    ensures n == m
  {
    var a, b := EncodeLength(n).value, EncodeLength(m).value;
    LengthRoundTrip(n, b[|a|..]);
    LengthRoundTrip(m, []);
    assert a + b[|a|..] == b && b + [] == b;
  }

  /** A sentence cut at its empty words: what a receiver makes of it. */
  function Split(words: Sentence): (r: seq<Sentence>)
    ensures |r| >= 1
  {
    if words == [] then [[]]
    else
      var rest := Split(words[1..]);
      if words[0] == [] then [[]] + rest else [[words[0]] + rest[0]] + rest[1..]
  }

  function SplitAll(sentences: seq<Sentence>): seq<Sentence>
  {
    if sentences == [] then [] else Split(sentences[0]) + SplitAll(sentences[1..])
  }

  /** A word in front of a decodable stream joins its first sentence. */
  lemma DecodeWord(w: Word, s: seq<Octet>, out: seq<Sentence>)
    requires |w| < LENGTH_LIMIT && s != [] && Decode(s) == Some(out)
    ensures out != []
    ensures Decode(EncodeLength(|w|).value + w + s)
         == if w == [] then Some([[]] + out) else Some([[w] + out[0]] + out[1..])
  {
    var code := EncodeLength(|w|).value;
    assert code + w + s == code + (w + s);
    LengthRoundTrip(|w|, w + s);
    assert (w + s)[..|w|] == w && (w + s)[|w|..] == s;
    hide EncodeLength, DecodeLength;
    var whole := code + (w + s);
    if w == [] {
      assert w + s == s;
      assert ReadSentence(whole) == Some(Item([], s));
    } else {
      var first := ReadSentence(s);
      assert ReadSentence(whole) == Some(Item([w] + first.value.what, first.value.rest));
    }
  }

  lemma {:induction false} DecodeSentence(words: Sentence, tail: seq<Octet>, out: seq<Sentence>)
    requires Sendable(words) && Decode(tail) == Some(out)
    ensures Decode(EncodeSentence(words) + tail) == Some(Split(words) + out)
  {
    if words == [] {
      DecodeTerminator(tail, out);
      assert EncodeWords([]) + [0] + tail == [0] + tail;
    } else {
      var w, rest := words[0], words[1..];
      DecodeSentence(rest, tail, out);
      DecodeWord(w, EncodeSentence(rest) + tail, Split(rest) + out);
      hide EncodeLength, Decode;
      Regroup(EncodeLength(|w|).value, w, EncodeWords(rest), [0], tail);
      SplitStep(words, out);
    }
  }

  lemma Regroup(code: seq<Octet>, w: Word, more: seq<Octet>, end: seq<Octet>, tail: seq<Octet>)
    ensures (code + w + more) + end + tail == code + w + ((more + end) + tail)
  {
  }

  lemma SplitStep(words: Sentence, out: seq<Sentence>)
    requires words != []
    ensures var rest := Split(words[1..]);
            Split(words) + out == if words[0] == [] then [[]] + (rest + out)
                                  else [[words[0]] + (rest + out)[0]] + (rest + out)[1..]
  {
    JoinFront(words[0], Split(words[1..]), out);
  }

  lemma JoinFront(w: Word, rest: seq<Sentence>, out: seq<Sentence>)
    requires rest != []
    ensures [[]] + rest + out == [[]] + (rest + out)
    ensures [[w] + rest[0]] + rest[1..] + out == [[w] + (rest + out)[0]] + (rest + out)[1..]
  {
  }

  lemma DecodeTerminator(tail: seq<Octet>, out: seq<Sentence>)
    requires Decode(tail) == Some(out)
    ensures Decode([0] + tail) == Some([[]] + out)
  {
    assert ([0] + tail)[1..] == tail;
    assert ReadSentence([0] + tail) == Some(Item([], tail));
  }

  /** Whatever sentences are sent, back to back, the receiver gets them cut at their empty
      words. */
  lemma {:induction false} StreamDecodes(sentences: seq<Sentence>)
    requires forall i :: 0 <= i < |sentences| ==> Sendable(sentences[i])
    ensures Decode(EncodeAll(sentences)) == Some(SplitAll(sentences))
  {
    if sentences != [] {
      StreamDecodes(sentences[1..]);
      DecodeSentence(sentences[0], EncodeAll(sentences[1..]), SplitAll(sentences[1..]));
    }
  }

  predicate NoEmptyWord(words: Sentence)
  {
    forall i :: 0 <= i < |words| ==> words[i] != []
  }

  lemma {:induction false} SplitIsWholeIff(words: Sentence)
    ensures NoEmptyWord(words) ==> Split(words) == [words]
    ensures !NoEmptyWord(words) ==> |Split(words)| > 1
  {
    if words != [] {
      SplitIsWholeIff(words[1..]);
      assert forall i :: 0 < i < |words| ==> words[i] == words[1..][i - 1];
      if NoEmptyWord(words) {
        assert words == [words[0]] + words[1..];
      }
    }
  }

  lemma {:induction false} SplitAllIsWholeIff(sentences: seq<Sentence>)
    ensures |SplitAll(sentences)| >= |sentences|
    ensures (forall i :: 0 <= i < |sentences| ==> NoEmptyWord(sentences[i])) ==> SplitAll(sentences) == sentences
    ensures !(forall i :: 0 <= i < |sentences| ==> NoEmptyWord(sentences[i])) ==>
              |SplitAll(sentences)| > |sentences|
  {
    if sentences != [] {
      SplitAllIsWholeIff(sentences[1..]);
      SplitIsWholeIff(sentences[0]);
      assert forall i :: 0 < i < |sentences| ==> sentences[i] == sentences[1..][i - 1];
      assert sentences == [sentences[0]] + sentences[1..];
    }
  }

  /** Any series of sentences is decoded to exactly itself if and only if none of its words is
      empty. */
  lemma {:induction false} StreamRoundTripIff(sentences: seq<Sentence>)
    requires forall i :: 0 <= i < |sentences| ==> Sendable(sentences[i])
    ensures Decode(EncodeAll(sentences)) == Some(sentences)
       <==> forall i :: 0 <= i < |sentences| ==> NoEmptyWord(sentences[i])
  {
    StreamDecodes(sentences);
    SplitAllIsWholeIff(sentences);
  }
}
