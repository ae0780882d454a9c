/** A line in pieces: plain characters and the fragments that sentinels stand for. */
module SentinelPieces {
  import opened SentinelRules
  import opened SentinelWords

  /** A placeholder keeps the possessive that is dropped behind it, a mnemonic the
      number of spaces behind it, a name the way it was spelled. */
  datatype Piece =
    | Plain(c: char)
    | Placeholder(body: string, possessive: string)
    | Mark(glyph: nat)
    | Line(line: nat, count: nat)
    | Accel(spaces: nat)
    | Name(index: nat, spelled: string)

  function SourceOf(piece: Piece): string {
    match piece
    case Plain(c) => [c]
    case Placeholder(body, possessive) => "%" + body + possessive
    case Mark(glyph) => [GlyphChar(glyph)]
    case Line(line, count) => Repeat(LineChar(line), count)
    case Accel(spaces) => "&" + Repeat(' ', spaces)
    case Name(_, spelled) => spelled
  }

  /** The line the pieces were cut from. */
  function Source(pieces: seq<Piece>): string {
    if pieces == [] then "" else SourceOf(pieces[0]) + Source(pieces[1..])
  }

  function Core(piece: Piece): string {
    match piece
    case Plain(c) => [c]
    case Placeholder(body, _) => if body == "n" then "PHNX" else DigitsToken(body)
    case Mark(glyph) => GlyphToken(glyph)
    case Line(line, count) => RunToken(line, count)
    case Accel(_) => "GLAMX"
    case Name(index, _) => TermToken(index)
  }

  function Trail(piece: Piece): string {
    if piece.Accel? then Repeat(' ', piece.spaces + 1) else ""
  }

  function CanonicalOf(terms: seq<string>, piece: Piece): string {
    match piece
    case Plain(c) => [c]
    case Placeholder(body, _) => "%" + body
    case Mark(glyph) => [GlyphChar(glyph)]
    case Line(line, count) => Repeat(LineChar(line), count)
    case Accel(_) => "&"
    case Name(index, _) => if index < |terms| then terms[index] else ""
  }

  /** The line with canonical terms, without the possessives cut off with placeholders and
      without spaces behind mnemonics. */
  function Canonical(terms: seq<string>, pieces: seq<Piece>): string {
    if pieces == [] then "" else CanonicalOf(terms, pieces[0]) + Canonical(terms, pieces[1..])
  }

  /** Which of the restoring substitutions brings a piece back. */
  function Stage(piece: Piece): nat {
    match piece
    case Plain(_) => 0
    case Placeholder(body, _) => if body == "n" then 1 else 0
    case Mark(glyph) => 2 + glyph
    case Line(line, _) => 8 + line
    case Accel(_) => 10
    case Name(index, _) => 12 + index
  }

  /** A piece after the first so many restoring substitutions. */
  function ShownOf(stage: nat, terms: seq<string>, piece: Piece): string {
    if stage <= Stage(piece) then Core(piece) + Trail(piece)
    else if piece.Accel? && stage == 11 then "&" + Trail(piece)
    else CanonicalOf(terms, piece)
  }

  function Shown(stage: nat, terms: seq<string>, pieces: seq<Piece>): string {
    if pieces == [] then "" else ShownOf(stage, terms, pieces[0]) + Shown(stage, terms, pieces[1..])
  }

  /** The protected line. */
  function Sealed(pieces: seq<Piece>): string {
    if pieces == [] then "" else Core(pieces[0]) + Trail(pieces[0]) + Sealed(pieces[1..])
  }

  lemma {:induction false} NothingRestored(terms: seq<string>, pieces: seq<Piece>)
    ensures Shown(0, terms, pieces) == Sealed(pieces)
  {
    if pieces != [] {
      NothingRestored(terms, pieces[1..]);
    }
  }

  // ----- Well-made pieces -----------------------------------------------------

  /** What is asked of a protected term: it holds no sentinel in any case and no percent
      sign, ends in a word character and does not start with a space. */
  predicate TermOk(term: string) {
    term != "" && term[0] != ' ' && '%' !in term && IsWord(term[|term| - 1]) && Clean(UpperAll(term))
  }

  ghost predicate TableOk(terms: seq<string>) {
    forall i | 0 <= i < |terms| :: TermOk(terms[i])
  }

  predicate PieceOk(terms: seq<string>, piece: Piece) {
    match piece
    case Plain(_) => true
    case Placeholder(body, possessive) =>
      && (body == "n" || (body != "" && AllDigits(body)))
      && (possessive == "" || (PossessiveAt(possessive) && |possessive| == 2))
    case Mark(glyph) => glyph < 6
    case Line(line, count) => line < 2 && count >= 2
    case Accel(_) => true
    case Name(index, spelled) =>
      index < |terms| && SpelledAt(terms[index], spelled) && |spelled| == |terms[index]|
  }

  /** Names stand between characters that are not word characters, and a mnemonic
      has all spaces behind it. */
  predicate PairOk(piece: Piece, next: Piece) {
    && (next.Name? ==> piece.Accel? || (piece.Plain? && !IsWord(piece.c)))
    && (piece.Name? ==> next.Plain? && !IsWord(next.c))
    && (piece.Accel? ==> next != Plain(' '))
  }

  predicate WellMade(terms: seq<string>, pieces: seq<Piece>) {
    pieces == []
    || (PieceOk(terms, pieces[0]) && (|pieces| > 1 ==> PairOk(pieces[0], pieces[1])) && WellMade(terms, pieces[1..]))
  }

  // ----- Reading the tokens ---------------------------------------------------

  function Code(piece: Piece): Sentinel {
    match piece
    case Plain(_) => Nothing
    case Placeholder(body, _) => if body == "n" then Plural else Digits(body)
    case Mark(glyph) => Glyph(glyph)
    case Line(line, count) => Run(line, Decimal(count))
    case Accel(_) => Mnemonic
    case Name(index, _) => Term(Decimal(index + 1))
  }

  /** The token of a piece is read back, whatever follows. */
  lemma ReadCore(terms: seq<string>, piece: Piece, rest: string)
    requires PieceOk(terms, piece) && !piece.Plain?
    ensures Read(Core(piece) + rest) == (Code(piece), |Core(piece)|)
  {
    match piece
    case Placeholder(body, _) =>
      if body == "n" { ReadFixed(rest); } else { ReadDigits(body, rest); }
    case Mark(glyph) => ReadGlyph(glyph, rest);
    case Line(line, count) => ReadRun(line, count, rest);
    case Accel(_) => ReadFixed(rest);
    case Name(index, _) => ReadTerm(index, rest);
  }

  lemma CoreTail(terms: seq<string>, piece: Piece)
    requires PieceOk(terms, piece) && !piece.Plain?
    ensures Core(piece) != "" && Tail(Core(piece)[1..])
    ensures Core(piece)[0] == 'P' || Core(piece)[0] == 'G' || Core(piece)[0] == 'T'
            || (Core(piece)[0] == 'R' && |Core(piece)| > 1 && Core(piece)[1] == 'L')
  {
    ReadCore(terms, piece, "");
    assert Core(piece) + "" == Core(piece);
    ReadTail(Core(piece));
  }

  lemma {:induction false} TailChars(tail: string)
    requires Tail(tail)
    ensures forall i | 0 <= i < |tail| :: IsWord(tail[i]) && Upper(tail[i]) == tail[i]
  {
    if tail != "" {
      TailChars(tail[1..]);
      assert forall i | 1 <= i < |tail| :: tail[i] == tail[1..][i - 1];
    }
  }

  /** Sentinels consist of digits and upper-case letters. */
  lemma ReadChars(text: string)
    requires !Read(text).0.Nothing?
    ensures Read(text).1 <= |text|
    ensures forall i | 0 <= i < Read(text).1 :: IsWord(text[i]) && Upper(text[i]) == text[i]
  {
    ReadTail(text);
    TailChars(text[1..Read(text).1]);
    assert forall i | 1 <= i < Read(text).1 :: text[i] == text[1..Read(text).1][i - 1];
  }

  /** No sentinel starts at any place of front, with rest behind it. */
  predicate Silent(front: string, rest: string)
    decreases |front|
  {
    front == "" || (Read(front + rest).0.Nothing? && Silent(front[1..], rest))
  }

  lemma {:induction false} SilentChars(front: string, rest: string)
    requires forall i | 0 <= i < |front| :: front[i] !in "PGRT"
    ensures Silent(front, rest)
    decreases |front|
  {
    if front != "" {
      SilentChars(front[1..], rest);
      if !Read(front + rest).0.Nothing? {
        ReadTail(front + rest);
      }
    }
  }

  lemma {:induction false} SilentTail(tail: string, rest: string)
    requires Tail(tail)
    ensures Silent(tail, rest)
    decreases |tail|
  {
    if tail != "" {
      TailReadsNothing(tail, rest);
      SilentTail(tail[1..], rest);
    }
  }

  lemma {:induction false} UpperAllAt(text: string)
    ensures forall i | 0 <= i < |text| :: UpperAll(text)[i] == Upper(text[i])
  {
    if text != "" {
      UpperAllAt(text[1..]);
    }
  }

  /** A restored term holds no start of a sentinel: neither inside, nor across its end. */
  lemma {:induction false} SilentTerm(term: string, rest: string)
    requires Clean(UpperAll(term)) && (rest == "" || !IsWord(rest[0]))
    ensures Silent(term, rest)
    decreases |term|
  {
    if term != "" {
      assert UpperAll(term)[1..] == UpperAll(term[1..]);
      SilentTerm(term[1..], rest);
      var text := term + rest;
      assert rest != "" ==> text[|term|] == rest[0];
      if !Read(text).0.Nothing? {
        ReadChars(text);
        UpperAllAt(term);
        var n := Read(text).1;
        if n <= |term| {
          assert text[..n] == UpperAll(term)[..n];
          ReadFront(text, UpperAll(term));
        }
      }
    }
  }
}
