/** The substitutions of protect_segment (tools/translate_ts.py, 596-606) that start at
    one character no token holds: glyphs, separator lines and mnemonics. */
module SentinelGlyphs {
  import opened SentinelRules
  import opened SentinelPieces
  import opened SentinelRestore
  import opened SentinelProtect

  /** A rule that takes nothing unless a text starts with its key. */
  ghost predicate Keyed(rule: Rule, key: char) {
    && !IsWord(key) && key != ' '
    && forall behind: bool, text: string :: rule.take(behind, text) > 0 ==> text != "" && text[0] == key
  }

  lemma KeyedRules(stage: nat)
    requires 2 <= stage < 11
    ensures stage < 8 ==> Keyed(GlyphIn(stage - 2), GlyphChar(stage - 2))
    ensures 8 <= stage < 10 ==> Keyed(RunIn(stage - 8), LineChar(stage - 8))
    ensures stage == 10 ==> Keyed(MnemonicIn(), '&')
  {
  }

  lemma {:induction false} KeyedQuiet(rule: Rule, key: char, behind: bool, front: string, rest: string)
    requires Keyed(rule, key) && key !in front
    ensures Quiet(rule, behind, front, rest)
    decreases |front|
  {
    if front != "" {
      KeyedQuiet(rule, key, IsWord(front[0]), front[1..], rest);
      assert Misses(rule, behind, front + rest) by {
        assert (front + rest)[0] == front[0];
      }
    }
  }

  /** Tokens hold word characters and spaces only. */
  lemma TokenChars(piece: Piece)
    requires PieceOk([], piece) && !piece.Plain?
    ensures var front := Core(piece) + Trail(piece);
            forall i | 0 <= i < |front| :: IsWord(front[i]) || front[i] == ' '
  {
    CoreTail([], piece);
    TailChars(Core(piece)[1..]);
    assert forall i | 1 <= i < |Core(piece)| :: Core(piece)[i] == Core(piece)[1..][i - 1];
    if piece.Accel? {
      RepeatChars(' ', piece.spaces + 1);
    }
  }

  /** A piece that is not the key stays. */
  lemma KeyedKeep(rule: Rule, key: char, behind: bool, piece: Piece, rest: string, pieces: seq<Piece>)
    requires Keyed(rule, key) && PieceOk([], piece) && piece != Plain(key)
    requires forall b :: Sub(rule, b, rest) == Sealed(pieces)
    ensures Sub(rule, behind, Core(piece) + Trail(piece) + rest) == Sealed([piece] + pieces)
  {
    if !piece.Plain? {
      TokenChars(piece);
    }
    KeyedQuiet(rule, key, behind, Core(piece) + Trail(piece), rest);
    CutKeep(rule, behind, piece, rest, pieces);
  }

  // ----- Glyphs ---------------------------------------------------------------

  function CutMarks(glyph: nat, pieces: seq<Piece>): seq<Piece> {
    if pieces == [] then []
    else [if pieces[0] == Plain(GlyphChar(glyph)) then Mark(glyph) else pieces[0]] + CutMarks(glyph, pieces[1..])
  }

  lemma MarkHit(glyph: nat, behind: bool, rest: string, pieces: seq<Piece>)
    requires glyph < 6 && forall b :: Sub(GlyphIn(glyph), b, rest) == Sealed(pieces)
    ensures Sub(GlyphIn(glyph), behind, [GlyphChar(glyph)] + rest) == Sealed([Mark(glyph)] + pieces)
  {
    var front := [GlyphChar(glyph)];
    assert front <= front + rest;
    CutHit(GlyphIn(glyph), behind, front, rest, Mark(glyph), pieces);
  }

  lemma {:induction false} MarksSealed(glyph: nat, behind: bool, pieces: seq<Piece>)
    requires glyph < 6 && Basic(pieces)
    ensures Sub(GlyphIn(glyph), behind, Sealed(pieces)) == Sealed(CutMarks(glyph, pieces))
    decreases |pieces|
  {
    if pieces != [] {
      var piece, rest := pieces[0], pieces[1..];
      forall b ensures Sub(GlyphIn(glyph), b, Sealed(rest)) == Sealed(CutMarks(glyph, rest)) {
        MarksSealed(glyph, b, rest);
      }
      if piece == Plain(GlyphChar(glyph)) {
        MarkHit(glyph, behind, Sealed(rest), CutMarks(glyph, rest));
        assert Core(piece) + Trail(piece) == [piece.c];
      } else {
        KeyedRules(glyph + 2);
        KeyedKeep(GlyphIn(glyph), GlyphChar(glyph), behind, piece, Sealed(rest), CutMarks(glyph, rest));
      }
    }
  }

  lemma {:induction false} MarksSource(glyph: nat, pieces: seq<Piece>)
    requires glyph < 6 && Basic(pieces)
    ensures Source(CutMarks(glyph, pieces)) == Source(pieces) && Basic(CutMarks(glyph, pieces))
  {
    if pieces != [] {
      MarksSource(glyph, pieces[1..]);
    }
  }

  // ----- Separator lines ------------------------------------------------------

  /** How many copies of a character stand in front. */
  function Leading(c: char, pieces: seq<Piece>): (n: nat)
    ensures n <= |pieces|
  {
    if pieces != [] && pieces[0] == Plain(c) then 1 + Leading(c, pieces[1..]) else 0
  }

  lemma RepeatFront(c: char, n: nat, text: string)
    requires n > 0
    ensures [c] + "" + (Repeat(c, n - 1) + text) == Repeat(c, n) + text
    ensures [c] + (Repeat(c, n - 1) + text) == Repeat(c, n) + text
  {
  }

  lemma LeadingSplit(c: char, pieces: seq<Piece>)
    requires pieces != [] && pieces[0] == Plain(c)
    ensures Leading(c, pieces) == 1 + Leading(c, pieces[1..])
    ensures pieces[1..][Leading(c, pieces[1..])..] == pieces[Leading(c, pieces)..]
  {
  }

  lemma {:induction false} LeadingSealed(c: char, pieces: seq<Piece>)
    ensures Sealed(pieces) == Repeat(c, Leading(c, pieces)) + Sealed(pieces[Leading(c, pieces)..])
  {
    if pieces != [] && pieces[0] == Plain(c) {
      LeadingSealed(c, pieces[1..]);
      LeadingSplit(c, pieces);
      RepeatFront(c, Leading(c, pieces), Sealed(pieces[Leading(c, pieces)..]));
    } else {
      assert pieces[0..] == pieces;
    }
  }

  lemma {:induction false} LeadingSource(c: char, pieces: seq<Piece>)
    ensures Source(pieces) == Repeat(c, Leading(c, pieces)) + Source(pieces[Leading(c, pieces)..])
  {
    if pieces != [] && pieces[0] == Plain(c) {
      LeadingSource(c, pieces[1..]);
      LeadingSplit(c, pieces);
      RepeatFront(c, Leading(c, pieces), Source(pieces[Leading(c, pieces)..]));
    } else {
      assert pieces[0..] == pieces;
    }
  }

  lemma {:induction false} LeadingBasic(c: char, pieces: seq<Piece>)
    requires Basic(pieces)
    ensures var n := Leading(c, pieces); Basic(pieces[n..]) && (n < |pieces| ==> pieces[n] != Plain(c))
  {
    if pieces != [] && pieces[0] == Plain(c) {
      LeadingBasic(c, pieces[1..]);
      LeadingSplit(c, pieces);
    } else {
      assert pieces[0..] == pieces;
    }
  }

  lemma LeadingParts(c: char, pieces: seq<Piece>)
    requires Basic(pieces)
    ensures var n := Leading(c, pieces);
            && Sealed(pieces) == Repeat(c, n) + Sealed(pieces[n..])
            && Source(pieces) == Repeat(c, n) + Source(pieces[n..])
            && Basic(pieces[n..]) && (n < |pieces| ==> pieces[n] != Plain(c))
  {
    LeadingSealed(c, pieces);
    LeadingSource(c, pieces);
    LeadingBasic(c, pieces);
  }

  lemma NotInFront(c: char, pieces: seq<Piece>)
    requires Basic(pieces) && !IsWord(c) && (pieces != [] ==> pieces[0] != Plain(c))
    ensures Sealed(pieces) == "" || Sealed(pieces)[0] != c
  {
    if pieces != [] {
      SealedFront([], pieces);
    }
  }

  /** The run of a character in front of the sealed pieces. */
  lemma LeadingRun(c: char, pieces: seq<Piece>)
    requires Basic(pieces) && !IsWord(c)
    ensures CharRun(c, Sealed(pieces)) == Leading(c, pieces)
  {
    LeadingParts(c, pieces);
    var n := Leading(c, pieces);
    NotInFront(c, pieces[n..]);
    RepeatRun(c, n, Sealed(pieces[n..]));
  }

  function CutLines(line: nat, pieces: seq<Piece>): seq<Piece>
    decreases |pieces|
  {
    if pieces == [] then []
    else
      var n := Leading(LineChar(line), pieces);
      if n >= 2 then [Line(line, n)] + CutLines(line, pieces[n..])
      else [pieces[0]] + CutLines(line, pieces[1..])
  }

  lemma LineHit(line: nat, behind: bool, n: nat, rest: string, pieces: seq<Piece>)
    requires n >= 2 && (rest == "" || rest[0] != LineChar(line))
    requires forall b :: Sub(RunIn(line), b, rest) == Sealed(pieces)
    ensures Sub(RunIn(line), behind, Repeat(LineChar(line), n) + rest) == Sealed([Line(line, n)] + pieces)
  {
    RepeatRun(LineChar(line), n, rest);
    CutHit(RunIn(line), behind, Repeat(LineChar(line), n), rest, Line(line, n), pieces);
  }

  lemma LineKeep(line: nat, behind: bool, piece: Piece, rest: string, pieces: seq<Piece>)
    requires PieceOk([], piece) && line < 2
    requires piece == Plain(LineChar(line)) ==> CharRun(LineChar(line), rest) == 0
    requires forall b :: Sub(RunIn(line), b, rest) == Sealed(pieces)
    ensures Sub(RunIn(line), behind, Core(piece) + Trail(piece) + rest) == Sealed([piece] + pieces)
  {
    KeyedRules(line + 8);
    if piece == Plain(LineChar(line)) {
      assert Core(piece) + Trail(piece) == [piece.c];
      assert ([piece.c] + rest)[1..] == rest;
      CutKeep(RunIn(line), behind, piece, rest, pieces);
    } else {
      KeyedKeep(RunIn(line), LineChar(line), behind, piece, rest, pieces);
    }
  }

  lemma {:induction false} LinesSealed(line: nat, behind: bool, pieces: seq<Piece>)
    requires line < 2 && Basic(pieces)
    ensures Sub(RunIn(line), behind, Sealed(pieces)) == Sealed(CutLines(line, pieces))
    decreases |pieces|
  {
    if pieces != [] {
      var c, n := LineChar(line), Leading(LineChar(line), pieces);
      LeadingParts(c, pieces);
      if n >= 2 {
        var rest := pieces[n..];
        forall b ensures Sub(RunIn(line), b, Sealed(rest)) == Sealed(CutLines(line, rest)) {
          LinesSealed(line, b, rest);
        }
        NotInFront(c, rest);
        LineHit(line, behind, n, Sealed(rest), CutLines(line, rest));
      } else {
        var rest := pieces[1..];
        forall b ensures Sub(RunIn(line), b, Sealed(rest)) == Sealed(CutLines(line, rest)) {
          LinesSealed(line, b, rest);
        }
        LeadingRun(c, rest);
        LineKeep(line, behind, pieces[0], Sealed(rest), CutLines(line, rest));
      }
    }
  }

  lemma {:induction false} LinesSource(line: nat, pieces: seq<Piece>)
    requires line < 2 && Basic(pieces)
    ensures Source(CutLines(line, pieces)) == Source(pieces) && Basic(CutLines(line, pieces))
    decreases |pieces|
  {
    if pieces != [] {
      var n := Leading(LineChar(line), pieces);
      LeadingParts(LineChar(line), pieces);
      var cut, rest := if n >= 2 then Line(line, n) else pieces[0], if n >= 2 then pieces[n..] else pieces[1..];
      LinesSource(line, rest);
      ConsSealed(cut, CutLines(line, rest));
      BasicCons(cut, CutLines(line, rest));
    }
  }

  // ----- Mnemonics ------------------------------------------------------------

  function CutAccels(pieces: seq<Piece>): seq<Piece>
    decreases |pieces|
  {
    if pieces == [] then []
    else if pieces[0] == Plain('&') then
      var n := Leading(' ', pieces[1..]);
      [Accel(n)] + CutAccels(pieces[1..][n..])
    else [pieces[0]] + CutAccels(pieces[1..])
  }

  lemma SpacesQuiet(behind: bool, n: nat, rest: string)
    ensures Quiet(MnemonicIn(), behind, Repeat(' ', n), rest)
  {
    KeyedRules(10);
    RepeatChars(' ', n);
    KeyedQuiet(MnemonicIn(), '&', behind, Repeat(' ', n), rest);
  }

  lemma SpaceJoins(n: nat, rest: string)
    ensures "GLAMX " + (Repeat(' ', n) + rest) == "GLAMX" + Repeat(' ', n + 1) + rest
  {
  }

  lemma AccelHit(behind: bool, n: nat, rest: string, pieces: seq<Piece>)
    requires forall b :: Sub(MnemonicIn(), b, rest) == Sealed(pieces)
    ensures Sub(MnemonicIn(), behind, "&" + (Repeat(' ', n) + rest)) == Sealed([Accel(n)] + pieces)
  {
    var spaces := Repeat(' ', n);
    assert "&" <= "&" + (spaces + rest);
    SubHit(MnemonicIn(), behind, "&", spaces + rest);
    SpacesQuiet(Behind(behind, "&"), n, rest);
    SubQuiet(MnemonicIn(), Behind(behind, "&"), spaces, rest);
    SpaceJoins(n, Sealed(pieces));
    ConsSealed(Accel(n), pieces);
  }

  lemma {:induction false} AccelsSealed(behind: bool, pieces: seq<Piece>)
    requires Basic(pieces)
    ensures Sub(MnemonicIn(), behind, Sealed(pieces)) == Sealed(CutAccels(pieces))
    decreases |pieces|
  {
    if pieces != [] {
      var piece, rest := pieces[0], pieces[1..];
      if piece == Plain('&') {
        var n := Leading(' ', rest);
        LeadingParts(' ', rest);
        forall b ensures Sub(MnemonicIn(), b, Sealed(rest[n..])) == Sealed(CutAccels(rest[n..])) {
          AccelsSealed(b, rest[n..]);
        }
        AccelHit(behind, n, Sealed(rest[n..]), CutAccels(rest[n..]));
        assert Core(piece) + Trail(piece) == "&";
      } else {
        forall b ensures Sub(MnemonicIn(), b, Sealed(rest)) == Sealed(CutAccels(rest)) {
          AccelsSealed(b, rest);
        }
        KeyedRules(10);
        KeyedKeep(MnemonicIn(), '&', behind, piece, Sealed(rest), CutAccels(rest));
      }
    }
  }

  lemma {:induction false} AccelsSource(pieces: seq<Piece>)
    requires Basic(pieces)
    ensures Source(CutAccels(pieces)) == Source(pieces)
    decreases |pieces|
  {
    if pieces != [] {
      var piece, rest := pieces[0], pieces[1..];
      if piece == Plain('&') {
        var n := Leading(' ', rest);
        LeadingParts(' ', rest);
        AccelsSource(rest[n..]);
        ConsSealed(Accel(n), CutAccels(rest[n..]));
        Associative("&", Repeat(' ', n), Source(rest[n..]));
      } else {
        AccelsSource(rest);
        ConsSealed(piece, CutAccels(rest));
      }
    }
  }

  /** Neither names nor loose mnemonics, and all spaces inside the mnemonics. */
  predicate Nameless(pieces: seq<Piece>) {
    pieces == []
    || (&& PieceOk([], pieces[0]) && !pieces[0].Name? && pieces[0] != Plain('&')
        && (|pieces| > 1 && pieces[0].Accel? ==> pieces[1] != Plain(' '))
        && Nameless(pieces[1..]))
  }

  lemma NamelessCons(piece: Piece, pieces: seq<Piece>)
    requires PieceOk([], piece) && !piece.Name? && piece != Plain('&') && Nameless(pieces)
    requires piece.Accel? && pieces != [] ==> pieces[0] != Plain(' ')
    ensures Nameless([piece] + pieces)
  {
    assert ([piece] + pieces)[1..] == pieces;
  }

  lemma {:induction false} AccelsNameless(pieces: seq<Piece>)
    requires Basic(pieces)
    ensures Nameless(CutAccels(pieces))
    ensures pieces != [] && pieces[0] != Plain(' ') ==> CutAccels(pieces)[0] != Plain(' ')
    ensures pieces == [] ==> CutAccels(pieces) == []
    decreases |pieces|
  {
    if pieces != [] {
      var piece, rest := pieces[0], pieces[1..];
      if piece == Plain('&') {
        var n := Leading(' ', rest);
        LeadingParts(' ', rest);
        AccelsNameless(rest[n..]);
        NamelessCons(Accel(n), CutAccels(rest[n..]));
      } else {
        AccelsNameless(rest);
        NamelessCons(piece, CutAccels(rest));
      }
    }
  }

  lemma {:induction false} NamelessWellMade(terms: seq<string>, pieces: seq<Piece>)
    requires Nameless(pieces)
    ensures WellMade(terms, pieces) && Plain('&') !in pieces
  {
    if pieces != [] {
      NamelessWellMade(terms, pieces[1..]);
    }
  }
}
