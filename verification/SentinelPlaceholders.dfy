/** The placeholders of a restored line (tools/translate_ts.py, 515-517 and 582-630):
    they survive in their order, unless a term takes a lower-case n behind a percent
    sign. */
module SentinelPlaceholders {
  import opened SentinelRules
  import opened SentinelPieces
  import opened SentinelRestore
  import opened SentinelProtect
  import opened SentinelGlyphs
  import opened SentinelTerms
  import opened SentinelRoundTrip

  /** The placeholders among the pieces. */
  function Kept(pieces: seq<Piece>): seq<string> {
    if pieces == [] then []
    else (if pieces[0].Placeholder? then ["%" + pieces[0].body] else []) + Kept(pieces[1..])
  }

  // ----- The pieces tile the line's placeholders -------------------------------

  predicate NoWordNext(text: string) {
    text == "" || !IsWord(text[0])
  }

  /** The placeholders of the source are exactly the placeholder pieces, and no word goes
      on behind a possessive. */
  predicate Tiled(pieces: seq<Piece>) {
    pieces == []
    || (&& PlaceholderLength(Source(pieces)) == (if pieces[0].Placeholder? then 1 + |pieces[0].body| else 0)
        && (pieces[0].Placeholder? && pieces[0].possessive != "" ==> NoWordNext(Source(pieces[1..])))
        && Tiled(pieces[1..]))
  }

  lemma {:induction false} PlaceholdersTiled(line: string)
    ensures Tiled(CutPlaceholders(line))
    decreases |line|
  {
    PlaceholdersSource(line);
    if line != "" {
      var n := PlaceholderLength(line);
      if n > 0 {
        PlaceholderBody(line);
        PlaceholdersTiled(line[n..]);
      } else {
        PlaceholdersTiled(line[1..]);
      }
    }
  }

  lemma TiledCons(piece: Piece, pieces: seq<Piece>, was: seq<Piece>)
    requires Tiled(pieces) && was != [] && Tiled(was) && SourceOf(piece) + Source(pieces) == Source(was)
    requires if piece.Placeholder? then was[0].Placeholder? && was[0].body == piece.body else !was[0].Placeholder?
    requires piece.Placeholder? && piece.possessive != "" ==> NoWordNext(Source(pieces))
    ensures Tiled([piece] + pieces)
  {
    ConsSealed(piece, pieces);
    assert ([piece] + pieces)[1..] == pieces;
  }

  lemma PossessiveEnds(pieces: seq<Piece>)
    requires Fresh(pieces) && PossessivePieces(pieces)
    ensures NoWordNext(Source(pieces[2..]))
  {
    var quote, tail := PossessiveSplit(pieces);
    if tail != [] {
      SealedFront([], tail);
    }
  }

  lemma {:induction false} TiledRest(pieces: seq<Piece>, n: nat)
    requires Tiled(pieces) && n <= |pieces|
    ensures Tiled(pieces[n..])
  {
    if n == 0 {
      assert pieces[0..] == pieces;
    } else {
      TiledRest(pieces[1..], n - 1);
      assert pieces[1..][n - 1..] == pieces[n..];
    }
  }

  lemma {:induction false} PossessivesTiled(pieces: seq<Piece>)
    requires Fresh(pieces) && Tiled(pieces)
    ensures Tiled(CutPossessives(pieces))
    decreases |pieces|
  {
    if pieces != [] {
      var piece, rest := pieces[0], pieces[1..];
      assert pieces == [piece] + rest;
      PossessivesSource(pieces);
      if piece.Placeholder? && PossessivePieces(rest) {
        var quote, tail := PossessiveSplit(rest);
        assert tail == pieces[3..];
        TiledRest(pieces, 3);
        PossessivesTiled(tail);
        CutAtPossessive(piece, rest);
        PossessiveEnds(rest);
        PossessivesSource(tail);
        ConsSealed(Placeholder(piece.body, [quote, 's']), CutPossessives(tail));
        TiledCons(Placeholder(piece.body, [quote, 's']), CutPossessives(tail), pieces);
      } else {
        PossessivesTiled(rest);
        PossessivesSource(rest);
        NoCutAt(piece, rest);
        ConsSealed(piece, CutPossessives(rest));
        TiledCons(piece, CutPossessives(rest), pieces);
      }
    }
  }

  lemma {:induction false} MarksTiled(glyph: nat, pieces: seq<Piece>)
    requires glyph < 6 && Basic(pieces) && Tiled(pieces)
    ensures Tiled(CutMarks(glyph, pieces))
  {
    if pieces != [] {
      var piece := if pieces[0] == Plain(GlyphChar(glyph)) then Mark(glyph) else pieces[0];
      MarksTiled(glyph, pieces[1..]);
      MarksSource(glyph, pieces[1..]);
      TiledCons(piece, CutMarks(glyph, pieces[1..]), pieces);
    }
  }

  lemma {:induction false} LinesTiled(line: nat, pieces: seq<Piece>)
    requires line < 2 && Basic(pieces) && Tiled(pieces)
    ensures Tiled(CutLines(line, pieces))
    decreases |pieces|
  {
    if pieces != [] {
      var n := Leading(LineChar(line), pieces);
      LeadingParts(LineChar(line), pieces);
      var cut, rest := if n >= 2 then Line(line, n) else pieces[0], if n >= 2 then pieces[n..] else pieces[1..];
      TiledRest(pieces, if n >= 2 then n else 1);
      LinesTiled(line, rest);
      LinesSource(line, rest);
      TiledCons(cut, CutLines(line, rest), pieces);
    }
  }

  lemma {:induction false} AccelsTiled(pieces: seq<Piece>)
    requires Basic(pieces) && Tiled(pieces)
    ensures Tiled(CutAccels(pieces))
    decreases |pieces|
  {
    if pieces != [] {
      var piece, rest := pieces[0], pieces[1..];
      if piece == Plain('&') {
        var n := Leading(' ', rest);
        LeadingParts(' ', rest);
        TiledRest(rest, n);
        AccelsTiled(rest[n..]);
        AccelsSource(rest[n..]);
        Associative("&", Repeat(' ', n), Source(rest[n..]));
        TiledCons(Accel(n), CutAccels(rest[n..]), pieces);
      } else {
        AccelsTiled(rest);
        AccelsSource(rest);
        TiledCons(piece, CutAccels(rest), pieces);
      }
    }
  }

  lemma {:induction false} NamesTiled(index: nat, term: string, behind: bool, pieces: seq<Piece>)
    requires Tiled(pieces)
    ensures Tiled(CutNames(index, term, behind, pieces))
    decreases |pieces|
  {
    if pieces != [] {
      if NameAt(term, behind, pieces) {
        var spelled, rest := Source(pieces[..|term|]), pieces[|term|..];
        SpelledSplit(term, pieces);
        TiledRest(pieces, |term|);
        NamesTiled(index, term, Behind(behind, spelled), rest);
        NamesSource(index, term, Behind(behind, spelled), rest);
        TiledCons(Name(index, spelled), CutNames(index, term, Behind(behind, spelled), rest), pieces);
      } else {
        var after := Behind(behind, Core(pieces[0]) + Trail(pieces[0]));
        NamesTiled(index, term, after, pieces[1..]);
        NamesSource(index, term, after, pieces[1..]);
        TiledCons(pieces[0], CutNames(index, term, after, pieces[1..]), pieces);
      }
    }
  }

  lemma MarkTiled(terms: seq<string>, stage: nat, pieces: seq<Piece>)
    requires 2 <= stage < 8 && Basic(pieces) && Tiled(pieces)
    ensures Tiled(CutAt(terms, stage, pieces))
  {
    MarksTiled(stage - 2, pieces);
  }

  lemma LineTiled(terms: seq<string>, stage: nat, pieces: seq<Piece>)
    requires 8 <= stage < 10 && Basic(pieces) && Tiled(pieces)
    ensures Tiled(CutAt(terms, stage, pieces))
  {
    LinesTiled(stage - 8, pieces);
  }

  lemma NameTiled(terms: seq<string>, stage: nat, pieces: seq<Piece>)
    requires 11 <= stage < 11 + |terms| && Tiled(pieces)
    ensures Tiled(CutAt(terms, stage, pieces))
  {
    var index := stage - 11;
    var term := terms[index];
    assert CutAt(terms, stage, pieces) == CutNames(index, term, false, pieces);
    NamesTiled(index, term, false, pieces);
  }

  lemma CutTiled(terms: seq<string>, stage: nat, pieces: seq<Piece>)
    requires 1 <= stage < 11 + |terms| && Tiled(pieces)
    requires (stage == 1 ==> Fresh(pieces)) && (2 <= stage < 11 ==> Basic(pieces))
    ensures Tiled(CutAt(terms, stage, pieces))
  {
    if stage == 1 {
      PossessivesTiled(pieces);
    } else if stage < 8 {
      MarkTiled(terms, stage, pieces);
    } else if stage < 10 {
      LineTiled(terms, stage, pieces);
    } else if stage == 10 {
      AccelsTiled(pieces);
    } else {
      NameTiled(terms, stage, pieces);
    }
  }

  lemma TiledNext(terms: seq<string>, stage: nat, line: string)
    requires TableOk(terms) && Clean(line) && 1 <= stage < 11 + |terms| && Tiled(PiecesTo(terms, stage, line))
    ensures Tiled(PiecesTo(terms, stage + 1, line))
  {
    CutSteps(terms, stage, line);
    NextPieces(terms, stage, line);
    CutTiled(terms, stage, PiecesTo(terms, stage, line));
  }

  lemma {:induction false} PiecesTiled(terms: seq<string>, stage: nat, line: string)
    requires TableOk(terms) && Clean(line) && 1 <= stage <= 11 + |terms|
    ensures Tiled(PiecesTo(terms, stage, line))
    decreases stage
  {
    if stage == 1 {
      PlaceholdersTiled(line);
    } else {
      PiecesTiled(terms, stage - 1, line);
      TiledNext(terms, stage - 1, line);
    }
  }

  // ----- Counting placeholders ------------------------------------------------

  lemma {:induction false} NoPercent(front: string, rest: string)
    requires '%' !in front
    ensures PlaceholdersOf(front + rest) == PlaceholdersOf(rest)
    decreases |front|
  {
    if front == "" {
      assert front + rest == rest;
    } else {
      assert (front + rest)[1..] == front[1..] + rest;
      NoPercent(front[1..], rest);
    }
  }

  /** A placeholder in front. */
  lemma PercentBody(body: string, rest: string)
    requires PlaceholderLength("%" + body + rest) == 1 + |body|
    ensures PlaceholdersOf("%" + body + rest) == ["%" + body] + PlaceholdersOf(rest)
  {
    var text := "%" + body + rest;
    PlaceholderBody(text);
    assert text[..1 + |body|] == "%" + body && text[1 + |body|..] == rest;
  }

  lemma PieceNoPercent(terms: seq<string>, piece: Piece)
    requires TableOk(terms) && PieceOk(terms, piece) && !piece.Plain? && !piece.Placeholder?
    ensures '%' !in SourceOf(piece) && '%' !in CanonicalOf(terms, piece)
  {
    match piece
    case Mark(_) =>
    case Line(line, count) => RepeatChars(LineChar(line), count);
    case Accel(spaces) => RepeatChars(' ', spaces);
    case Name(index, spelled) =>
      SpelledChars(terms[index], spelled);
      assert forall i | 0 <= i < |spelled| :: terms[index][i] != '%';
  }

  lemma {:induction false} SourcePlaceholders(terms: seq<string>, pieces: seq<Piece>)
    requires TableOk(terms) && WellMade(terms, pieces) && Tiled(pieces)
    ensures PlaceholdersOf(Source(pieces)) == Kept(pieces)
  {
    if pieces != [] {
      var piece, rest := pieces[0], pieces[1..];
      SourcePlaceholders(terms, rest);
      if piece.Placeholder? {
        Associative("%" + piece.body, piece.possessive, Source(rest));
        PercentBody(piece.body, piece.possessive + Source(rest));
        NoPercent(piece.possessive, Source(rest));
      } else if piece.Plain? {
        assert Source(pieces)[1..] == Source(rest);
      } else {
        PieceNoPercent(terms, piece);
        NoPercent(SourceOf(piece), Source(rest));
      }
    }
  }

  // ----- The placeholders of the restored line --------------------------------

  /** A percent sign before a term whose canonical form starts with n. */
  predicate PercentN(terms: seq<string>, pieces: seq<Piece>) {
    && |pieces| > 1 && pieces[0] == Plain('%') && pieces[1].Name?
    && CanonicalOf(terms, pieces[1]) != "" && CanonicalOf(terms, pieces[1])[0] == 'n'
  }

  /** The placeholders among the pieces, and those that canonical terms make. */
  function Grown(terms: seq<string>, pieces: seq<Piece>): seq<string> {
    if pieces == [] then []
    else
      (if pieces[0].Placeholder? then ["%" + pieces[0].body] else if PercentN(terms, pieces) then ["%n"] else [])
      + Grown(terms, pieces[1..])
  }

  predicate MakesPlaceholder(terms: seq<string>, pieces: seq<Piece>) {
    pieces != [] && (PercentN(terms, pieces) || MakesPlaceholder(terms, pieces[1..]))
  }

  lemma {:induction false} GrownIffMade(terms: seq<string>, pieces: seq<Piece>)
    ensures |Grown(terms, pieces)| >= |Kept(pieces)|
    ensures Grown(terms, pieces) == Kept(pieces) <==> !MakesPlaceholder(terms, pieces)
  {
    if pieces != [] {
      GrownIffMade(terms, pieces[1..]);
      var more := Grown(terms, pieces[1..]);
      if pieces[0].Placeholder? {
        assert (["%" + pieces[0].body] + more)[1..] == more;
        assert (["%" + pieces[0].body] + Kept(pieces[1..]))[1..] == Kept(pieces[1..]);
      } else if PercentN(terms, pieces) {
        assert |Grown(terms, pieces)| == 1 + |more|;
        assert Kept(pieces) == Kept(pieces[1..]);
      } else {
        assert [] + more == more && [] + Kept(pieces[1..]) == Kept(pieces[1..]);
      }
    }
  }

  lemma PercentLength(text: string)
    ensures PlaceholderLength("%" + text)
            == if text == "" then 0
               else if text[0] == 'n' then 2
               else if DigitRun(text) > 0 then 1 + DigitRun(text) else 0
  {
    assert ("%" + text)[1..] == text;
  }

  lemma PercentHead(text: string)
    ensures PlaceholderLength("%" + text) > 0 <==> text != "" && (text[0] == 'n' || IsDigit(text[0]))
    ensures text != "" && text[0] == 'n' ==> PlaceholderLength("%" + text) == 2
  {
    PercentLength(text);
  }

  lemma {:induction false} RunStops(digits: string, rest: string)
    requires AllDigits(digits)
    ensures DigitRun(digits + rest) == |digits| + DigitRun(rest)
  {
    if digits == "" {
      assert digits + rest == rest;
    } else {
      assert (digits + rest)[1..] == digits[1..] + rest;
      RunStops(digits[1..], rest);
    }
  }

  lemma BodyStops(body: string, rest: string)
    requires body == "n" || (body != "" && AllDigits(body))
    ensures PlaceholderLength("%" + body + rest) == 1 + |body| <==> body == "n" || rest == "" || !IsDigit(rest[0])
  {
    Associative("%", body, rest);
    PercentLength(body + rest);
    assert (body + rest)[0] == body[0];
    if body != "n" {
      RunStops(body, rest);
    }
  }

  /** What comes back starts like the source, but for the case of a letter in a name. */
  lemma CanonicalHead(terms: seq<string>, pieces: seq<Piece>)
    requires TableOk(terms) && WellMade(terms, pieces) && pieces != []
    ensures var c, s := Canonical(terms, pieces), Source(pieces);
            c != "" && s != "" && Upper(c[0]) == Upper(s[0]) && (!pieces[0].Name? ==> c[0] == s[0])
  {
    var piece := pieces[0];
    match piece
    case Line(line, count) => RepeatChars(LineChar(line), count);
    case Name(index, spelled) => SpelledChars(terms[index], spelled);
    case _ =>
  }

  lemma GrownHere(terms: seq<string>, pieces: seq<Piece>)
    requires TableOk(terms) && WellMade(terms, pieces) && Tiled(pieces) && pieces != [] && pieces[0] == Plain('%')
    ensures PlaceholderLength(Canonical(terms, pieces)) == if PercentN(terms, pieces) then 2 else 0
  {
    var rest := pieces[1..];
    PercentHead(Source(rest));
    PercentHead(Canonical(terms, rest));
    if rest != [] {
      CanonicalHead(terms, rest);
    }
  }

  lemma KeptHere(terms: seq<string>, pieces: seq<Piece>)
    requires TableOk(terms) && WellMade(terms, pieces) && Tiled(pieces) && pieces != [] && pieces[0].Placeholder?
    ensures PlaceholderLength(Canonical(terms, pieces)) == 1 + |pieces[0].body|
  {
    var piece, rest := pieces[0], pieces[1..];
    Associative("%" + piece.body, piece.possessive, Source(rest));
    BodyStops(piece.body, piece.possessive + Source(rest));
    BodyStops(piece.body, Canonical(terms, rest));
    if rest != [] {
      CanonicalHead(terms, rest);
      if piece.possessive == "" {
        assert piece.possessive + Source(rest) == Source(rest);
      }
    }
  }

  lemma PercentTerm(text: string, rest: string)
    requires text != "" && text[0] == 'n' && '%' !in text
    ensures PlaceholdersOf("%" + (text + rest)) == ["%n"] + PlaceholdersOf(rest)
  {
    PercentHead(text + rest);
    var whole := "%" + (text + rest);
    assert whole[..2] == "%n" && whole[2..] == text[1..] + rest;
    NoPercent(text[1..], rest);
  }

  lemma {:induction false} CanonicalPlaceholders(terms: seq<string>, pieces: seq<Piece>)
    requires TableOk(terms) && WellMade(terms, pieces) && Tiled(pieces)
    ensures PlaceholdersOf(Canonical(terms, pieces)) == Grown(terms, pieces)
    decreases |pieces|
  {
    if pieces != [] {
      var piece, rest := pieces[0], pieces[1..];
      CanonicalPlaceholders(terms, rest);
      if piece.Placeholder? {
        KeptHere(terms, pieces);
        PercentBody(piece.body, Canonical(terms, rest));
      } else if piece == Plain('%') {
        GrownHere(terms, pieces);
        if PercentN(terms, pieces) {
          var text, last := CanonicalOf(terms, rest[0]), Canonical(terms, rest[1..]);
          PieceNoPercent(terms, rest[0]);
          PercentTerm(text, last);
          NoPercent(text, last);
        } else {
          assert Canonical(terms, pieces)[1..] == Canonical(terms, rest);
        }
      } else {
        if !piece.Plain? {
          PieceNoPercent(terms, piece);
        }
        NoPercent(CanonicalOf(terms, piece), Canonical(terms, rest));
      }
    }
  }

  /** The placeholders of a line come back in their order exactly when no percent sign
      stands before a term that takes a lower-case n. */
  lemma PlaceholdersSurviveIff(terms: seq<string>, line: string)
    requires TableOk(terms) && Clean(line)
    ensures PlaceholdersOf(RestoreSegment(terms, ProtectSegment(terms, line))) == PlaceholdersOf(line)
            <==> !MakesPlaceholder(terms, Pieces(terms, line))
  {
    var pieces := Pieces(terms, line);
    RoundTrip(terms, line);
    PiecesTiled(terms, 11 + |terms|, line);
    SourcePlaceholders(terms, pieces);
    CanonicalPlaceholders(terms, pieces);
    GrownIffMade(terms, pieces);
  }

  /** A percent sign before an upper-case N. */
  predicate HasPercentN(line: string) {
    exists i | 0 <= i < |line| - 1 :: line[i] == '%' && line[i + 1] == 'N'
  }

  lemma {:induction false} MadeHasPercentN(terms: seq<string>, pieces: seq<Piece>)
    requires WellMade(terms, pieces) && Tiled(pieces) && MakesPlaceholder(terms, pieces)
    ensures HasPercentN(Source(pieces))
  {
    var rest := pieces[1..];
    assert Source(pieces) == SourceOf(pieces[0]) + Source(rest);
    if PercentN(terms, pieces) {
      var name := rest[0];
      SpelledChars(terms[name.index], name.spelled);
      PercentHead(Source(rest));
      assert Source(rest)[0] == name.spelled[0];
      assert Source(pieces)[0] == '%' && Source(pieces)[1] == Source(rest)[0];
    } else {
      MadeHasPercentN(terms, rest);
      var i :| 0 <= i < |Source(rest)| - 1 && Source(rest)[i] == '%' && Source(rest)[i + 1] == 'N';
      var k := |SourceOf(pieces[0])| + i;
      assert Source(pieces)[k] == '%' && Source(pieces)[k + 1] == 'N';
    }
  }

  /** So the placeholders of every line in which no percent sign stands before an upper-case
      N come back in their order. */
  lemma PlaceholdersSurvive(terms: seq<string>, line: string)
    requires TableOk(terms) && Clean(line) && !HasPercentN(line)
    ensures PlaceholdersOf(RestoreSegment(terms, ProtectSegment(terms, line))) == PlaceholdersOf(line)
  {
    var pieces := Pieces(terms, line);
    RoundTrip(terms, line);
    PiecesTiled(terms, 11 + |terms|, line);
    PlaceholdersSurviveIff(terms, line);
    if MakesPlaceholder(terms, pieces) {
      MadeHasPercentN(terms, pieces);
    }
  }
}
