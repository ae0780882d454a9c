/** The bytes behind the output of legacy/gui/src/HelperRunner.cpp: readOutput decodes every
    chunk by itself (1264-1265).  In a UTF-8 locale (RFC 3629) that gives the text of the
    whole output if and only if no chunk begins inside a character. */
module HelperDecoding {
  import Utf16
  import opened HelperStream

  type Bytes = seq<Utf16.Byte>

  // ----- UTF-8 ----------------------------------------------------------------

  /** A byte that continues a character. */
  predicate IsTail(b: int) { 0x80 <= b < 0xC0 }

  /** How many bytes the character has whose first byte is b, or 0. */
  function Announced(b: int): nat {
    if b < 0x80 then 1
    else if b < 0xC0 then 0
    else if b < 0xE0 then 2
    else if b < 0xF0 then 3
    else if b < 0xF8 then 4
    else 0
  }

  predicate AllTails(b: Bytes) {
    forall i | 0 <= i < |b| :: IsTail(b[i])
  }

  function Bits(b: Bytes): int
    requires 1 <= |b| <= 4
  {
    var head: int := b[0];
    if |b| == 1 then head
    else if |b| == 2 then More(head - 0xC0, b[1])
    else if |b| == 3 then More(More(head - 0xE0, b[1]), b[2])
    else More(More(More(head - 0xF0, b[1]), b[2]), b[3])
  }

  /** Six bits more. */
  function More(v: int, tail: int): int { v * 0x40 + (tail - 0x80) }

  /** The smallest number that takes n bytes. */
  function Smallest(n: nat): int {
    if n == 2 then 0x80 else if n == 3 then 0x800 else if n == 4 then 0x1_0000 else 0
  }

  predicate IsScalar(v: int) { 0 <= v < 0x11_0000 && !Utf16.IsSurrogate(v) }

  /** The bytes of one character, in its shortest form. */
  predicate IsCharacter(b: Bytes) {
    && b != [] && |b| == Announced(b[0]) && AllTails(b[1..])
    && Smallest(|b|) <= Bits(b) && IsScalar(Bits(b))
  }

  /** The length of the character that the bytes begin with, or 0. */
  function First(b: Bytes): (n: nat)
    ensures n <= |b| && n <= 4
    ensures n > 0 <==> exists k | 0 < k <= |b| :: IsCharacter(b[..k])
    ensures n > 0 ==> IsCharacter(b[..n]) && n == Announced(b[0])
  {
    if b == [] then 0
    else
      var n := Announced(b[0]);
      assert forall k | 0 < k <= |b| && IsCharacter(b[..k]) :: k == n;
      if 0 < n <= |b| && IsCharacter(b[..n]) then n else 0
  }

  const REPLACEMENT := '\U{FFFD}'

  /** The decoder: a character where one begins, and a replacement for any other byte. */
  function Decode(b: Bytes): string {
    if b == [] then ""
    else if First(b) > 0 then [Bits(b[..First(b)]) as char] + Decode(b[First(b)..])
    else [REPLACEMENT] + Decode(b[1..])
  }

  /** Characters from the first byte to the last. */
  predicate WellFormed(b: Bytes) {
    b == [] || (First(b) > 0 && WellFormed(b[First(b)..]))
  }

  // ----- The encoder, to say what is decoded ----------------------------------

  function EncodeChar(c: char): Bytes {
    var v := c as int;
    if v < 0x80 then [v]
    else if v < 0x800 then [0xC0 + v / 0x40, TailOf(v)]
    else if v < 0x1_0000 then [0xE0 + v / 0x40 / 0x40, TailOf(v / 0x40), TailOf(v)]
    else [0xF0 + v / 0x40 / 0x40 / 0x40, TailOf(v / 0x40 / 0x40), TailOf(v / 0x40), TailOf(v)]
  }

  function TailOf(v: nat): (b: Utf16.Byte)
    ensures IsTail(b) && More(v / 0x40, b) == v
  {
    0x80 + v % 0x40
  }

  function Encode(text: string): Bytes {
    if text == "" then [] else EncodeChar(text[0]) + Encode(text[1..])
  }

  lemma CharIsScalar(c: char)
    ensures IsScalar(c as int)
  {
  }

  lemma EncodedChar(c: char)
    ensures IsCharacter(EncodeChar(c)) && Bits(EncodeChar(c)) == c as int
  {
    CharIsScalar(c);
    var b, v := EncodeChar(c), c as int;
    if v >= 0x80 {
      var t := TailOf(v);
      if v >= 0x800 {
        var u := TailOf(v / 0x40);
        if v >= 0x1_0000 {
          var w := TailOf(v / 0x40 / 0x40);
          assert b[1..] == [w, u, t];
        } else {
          assert b[1..] == [u, t];
        }
      } else {
        assert b[1..] == [t];
      }
    }
  }

  lemma FirstIs(b: Bytes, n: nat)
    requires n <= |b| && IsCharacter(b[..n])
    ensures First(b) == n > 0
  {
    assert b[..n][0] == b[0];
  }

  /** Encoded texts are well formed and are decoded back. */
  lemma {:induction false} DecodeEncode(text: string)
    ensures WellFormed(Encode(text)) && Decode(Encode(text)) == text
  {
    if text != "" {
      var head, rest := EncodeChar(text[0]), Encode(text[1..]);
      EncodedChar(text[0]);
      assert (head + rest)[..|head|] == head && (head + rest)[|head|..] == rest;
      FirstIs(head + rest, |head|);
      DecodeEncode(text[1..]);
    }
  }

  // ----- Chunks ---------------------------------------------------------------

  function Concat(chunks: seq<Bytes>): Bytes {
    if chunks == [] then [] else Concat(chunks[..|chunks| - 1]) + chunks[|chunks| - 1]
  }

  /** readOutput decodes every chunk by itself. */
  function DecodedChunks(chunks: seq<Bytes>): string {
    if chunks == [] then "" else DecodedChunks(chunks[..|chunks| - 1]) + Decode(chunks[|chunks| - 1])
  }

  lemma OneCharacter(b: Bytes, head: Bytes, rest: Bytes)
    requires b == head + rest && IsCharacter(head)
    ensures Decode(b) == [Bits(head) as char] + Decode(rest)
    ensures WellFormed(b) <==> WellFormed(rest)
  {
    assert b[..|head|] == head && b[|head|..] == rest;
    FirstIs(b, |head|);
  }

  /** What follows does not change how the bytes are decoded. */
  ghost predicate Independent(a: Bytes, b: Bytes) {
    && Decode(a + b) == Decode(a) + Decode(b)
    && (WellFormed(a + b) <==> WellFormed(b))
  }

  lemma OneCharacterMore(head: Bytes, rest: Bytes, b: Bytes)
    requires IsCharacter(head) && Independent(rest, b)
    ensures Independent(head + rest, b)
  {
    OneCharacter(head + rest, head, rest);
    assert head + rest + b == head + (rest + b);
    OneCharacter(head + rest + b, head, rest + b);
  }

  lemma {:induction false} WellFormedFirst(a: Bytes, b: Bytes)
    requires WellFormed(a)
    ensures Independent(a, b)
    decreases |a|
  {
    if a == [] {
      assert a + b == b;
    } else {
      var head, rest := a[..First(a)], a[First(a)..];
      WellFormedFirst(rest, b);
      OneCharacterMore(head, rest, b);
      assert a == head + rest;
    }
  }

  /** The bytes that are not tails. */
  function Leads(b: Bytes): nat {
    if b == [] then 0 else (if IsTail(b[0]) then 0 else 1) + Leads(b[1..])
  }

  lemma {:induction false} LeadsAppend(a: Bytes, b: Bytes)
    ensures Leads(a + b) == Leads(a) + Leads(b)
  {
    if a == [] {
      assert a + b == b;
    } else {
      assert (a + b)[1..] == a[1..] + b;
      LeadsAppend(a[1..], b);
    }
  }

  lemma {:induction false} TailsHaveNoLeads(b: Bytes)
    requires AllTails(b)
    ensures Leads(b) == 0
  {
    if b != [] {
      TailsHaveNoLeads(b[1..]);
    }
  }

  /** A character has one lead. */
  lemma CharacterLeads(b: Bytes, n: nat)
    requires n <= |b| && IsCharacter(b[..n])
    ensures Leads(b) == 1 + Leads(b[n..]) && !IsTail(b[0])
  {
    var head := b[..n];
    assert head + b[n..] == b;
    LeadsAppend(head, b[n..]);
    TailsHaveNoLeads(head[1..]);
  }

  /** Decoding gives a character for every lead, and more if there are bytes outside of
      characters: it gives exactly one for every lead if the bytes are well formed, and
      more if they begin with a tail. */
  lemma {:induction false} DecodedLength(b: Bytes)
    ensures |Decode(b)| >= Leads(b)
    ensures WellFormed(b) ==> |Decode(b)| == Leads(b)
    ensures b != [] && IsTail(b[0]) ==> |Decode(b)| > Leads(b)
    decreases |b|
  {
    if b != [] {
      var n := First(b);
      if n > 0 {
        CharacterLeads(b, n);
        DecodedLength(b[n..]);
      } else {
        DecodedLength(b[1..]);
      }
    }
  }

  /** A chunk that begins inside a character. */
  predicate BeginsInside(chunk: Bytes) { chunk != [] && IsTail(chunk[0]) }

  ghost predicate CutBetween(chunks: seq<Bytes>) {
    forall i | 0 <= i < |chunks| :: !BeginsInside(chunks[i])
  }

  lemma {:induction false} ChunksLength(chunks: seq<Bytes>)
    ensures |DecodedChunks(chunks)| >= Leads(Concat(chunks))
    ensures !CutBetween(chunks) ==> |DecodedChunks(chunks)| > Leads(Concat(chunks))
  {
    if chunks != [] {
      var init, last := chunks[..|chunks| - 1], chunks[|chunks| - 1];
      ChunksLength(init);
      DecodedLength(last);
      LeadsAppend(Concat(init), last);
      if i :| 0 <= i < |chunks| && BeginsInside(chunks[i]) {
        assert i == |chunks| - 1 || BeginsInside(init[i]);
      }
    }
  }

  /** In well-formed bytes a place is between characters exactly if no tail follows. */
  lemma {:induction false} BetweenIff(a: Bytes, b: Bytes)
    requires WellFormed(a + b)
    ensures WellFormed(a) <==> !BeginsInside(b)
    decreases |a|
  {
    if a == [] {
      assert a + b == b;
    } else {
      var n := First(a + b);
      if n <= |a| {
        assert (a + b)[..n] == a[..n] && (a + b)[n..] == a[n..] + b;
        FirstIs(a, n);
        BetweenIff(a[n..], b);
      } else {
        InsideFirst(a, b, n);
      }
    }
  }

  lemma InsideFirst(a: Bytes, b: Bytes, n: nat)
    requires a != [] && |a| < n <= |a + b| && IsCharacter((a + b)[..n])
    ensures !WellFormed(a) && BeginsInside(b)
  {
    var head := (a + b)[..n];
    assert head[1..][|a| - 1] == b[0];
    assert head[0] == a[0];
    assert First(a + b) == n by { FirstIs(a + b, n); }
  }

  lemma {:induction false} CutBetweenDecodes(chunks: seq<Bytes>)
    requires WellFormed(Concat(chunks)) && CutBetween(chunks)
    ensures DecodedChunks(chunks) == Decode(Concat(chunks))
  {
    if chunks != [] {
      var init, last := chunks[..|chunks| - 1], chunks[|chunks| - 1];
      BetweenIff(Concat(init), last);
      WellFormedFirst(Concat(init), last);
      CutBetweenDecodes(init);
    }
  }

  /** The text of a well-formed output is independent of its chunks if and only if no
      chunk begins inside a character. */
  lemma ChunkedDecodingIff(chunks: seq<Bytes>)
    requires WellFormed(Concat(chunks))
    ensures DecodedChunks(chunks) == Decode(Concat(chunks)) <==> CutBetween(chunks)
  {
    if CutBetween(chunks) {
      CutBetweenDecodes(chunks);
    } else {
      ChunksLength(chunks);
      DecodedLength(Concat(chunks));
    }
  }

  /** A run that reads its bytes in such chunks emits the lines of the whole text, however
      reads, exit signals and polls interleave. */
  lemma WholeLines(r: Runner, events: seq<Event>, chunks: seq<Bytes>)
    requires r.process.Some? && !r.reported && r.buffer == ""
    requires EndOf(events).Some? && Output(events) == DecodedChunks(chunks)
    requires WellFormed(Concat(chunks)) && CutBetween(chunks)
    ensures Steps(r, events).emitted == r.emitted + AllLines(Decode(Concat(chunks)))
  {
    RunStream(r, events);
    CutBetweenDecodes(chunks);
  }

  lemma OneChunk(chunk: Bytes)
    ensures Concat([chunk]) == chunk && DecodedChunks([chunk]) == Decode(chunk)
  {
    assert [chunk][..0] == [];
  }

  lemma TwoChunks(a: Bytes, b: Bytes)
    ensures Concat([a, b]) == a + b && DecodedChunks([a, b]) == Decode(a) + Decode(b)
  {
    assert [a, b][..1] == [a];
    OneChunk(a);
  }

  /** The two bytes of one letter: read at once they are that letter, read one at a time
      they are two replacements. */
  lemma LetterCutInTwo()
    ensures Concat([[0xC3], [0xA9]]) == Concat([[0xC3, 0xA9]]) == Encode("\U{E9}")
    ensures DecodedChunks([[0xC3, 0xA9]]) == "\U{E9}"
    ensures DecodedChunks([[0xC3], [0xA9]]) == [REPLACEMENT, REPLACEMENT]
  {
    var text := "\U{E9}";
    assert Encode(text) == EncodeChar(text[0]) + Encode("") == [0xC3, 0xA9];
    DecodeEncode(text);
    OneChunk([0xC3, 0xA9]);
    TwoChunks([0xC3], [0xA9]);
    assert [0xC3] + [0xA9] == [0xC3, 0xA9];
    assert Decode([0xC3]) == [REPLACEMENT] + Decode([]);
    assert Decode([0xA9]) == [REPLACEMENT] + Decode([]);
  }

  // ----- The layout -----------------------------------------------------------

  /** The bits of a character stand from its first byte to its last, six in each tail. */
  lemma TailsInOrder(b: Bytes)
    requires IsCharacter(b) && |b| >= 3
    ensures |b| == 3 ==>
              Bits(b) == (b[0] as int - 0xE0) * 0x1000 + (b[1] as int - 0x80) * 0x40 + (b[2] as int - 0x80)
    ensures |b| == 4 ==>
              Bits(b) == (b[0] as int - 0xF0) * 0x4_0000 + (b[1] as int - 0x80) * 0x1000
                         + (b[2] as int - 0x80) * 0x40 + (b[3] as int - 0x80)
  {
  }

  /** Two characters of section 7 of RFC 3629. */
  lemma StandardExamples()
    ensures EncodeChar('\U{2262}') == [0xE2, 0x89, 0xA2] && EncodeChar('\U{233B4}') == [0xF0, 0xA3, 0x8E, 0xB4]
    ensures Bits([0xE2, 0x89, 0xA2]) == 0x2262 && Bits([0xF0, 0xA3, 0x8E, 0xB4]) == 0x2_33B4
  {
    EncodedChar('\U{2262}');
    EncodedChar('\U{233B4}');
  }
}
