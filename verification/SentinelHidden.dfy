/** What protect_segment (tools/translate_ts.py, 582-610) keeps from the backends: in the
    protected line no placeholder, ampersand, glyph or separator run is left. */
module SentinelHidden {
  import opened SentinelRules
  import opened SentinelPieces
  import opened SentinelRestore
  import opened SentinelProtect
  import opened SentinelGlyphs
  import opened SentinelTerms
  import opened SentinelRoundTrip
  import opened SentinelPlaceholders

  // ----- Characters that are gone ---------------------------------------------

  /** Every plain piece of the one list is in the other. */
  ghost predicate OnlyFrom(after: seq<Piece>, before: seq<Piece>) {
    forall piece | piece in after && piece.Plain? :: piece in before
  }

  lemma OnlyFromCons(piece: Piece, after: seq<Piece>, rest: seq<Piece>, before: seq<Piece>)
    requires OnlyFrom(after, rest) && (piece.Plain? ==> piece in before) && forall p | p in rest :: p in before
    ensures OnlyFrom([piece] + after, before)
  {
  }

  lemma {:induction false} MarksFrom(glyph: nat, pieces: seq<Piece>)
    ensures OnlyFrom(CutMarks(glyph, pieces), pieces) && Plain(GlyphChar(glyph)) !in CutMarks(glyph, pieces)
  {
    if pieces != [] {
      var piece := if pieces[0] == Plain(GlyphChar(glyph)) then Mark(glyph) else pieces[0];
      MarksFrom(glyph, pieces[1..]);
      OnlyFromCons(piece, CutMarks(glyph, pieces[1..]), pieces[1..], pieces);
    }
  }

  lemma {:induction false} LinesFrom(line: nat, pieces: seq<Piece>)
    ensures OnlyFrom(CutLines(line, pieces), pieces)
    decreases |pieces|
  {
    if pieces != [] {
      var n := Leading(LineChar(line), pieces);
      var cut, rest := if n >= 2 then Line(line, n) else pieces[0], if n >= 2 then pieces[n..] else pieces[1..];
      LinesFrom(line, rest);
      OnlyFromCons(cut, CutLines(line, rest), rest, pieces);
    }
  }

  lemma {:induction false} AccelsFrom(pieces: seq<Piece>)
    ensures OnlyFrom(CutAccels(pieces), pieces) && Plain('&') !in CutAccels(pieces)
    decreases |pieces|
  {
    if pieces != [] {
      var rest := pieces[1..];
      if pieces[0] == Plain('&') {
        var n := Leading(' ', rest);
        AccelsFrom(rest[n..]);
        OnlyFromCons(Accel(n), CutAccels(rest[n..]), rest[n..], pieces);
      } else {
        AccelsFrom(rest);
        OnlyFromCons(pieces[0], CutAccels(rest), rest, pieces);
      }
    }
  }

  lemma {:induction false} NamesFrom(index: nat, term: string, behind: bool, pieces: seq<Piece>)
    ensures OnlyFrom(CutNames(index, term, behind, pieces), pieces)
    decreases |pieces|
  {
    if pieces != [] {
      if NameAt(term, behind, pieces) {
        var spelled, rest := Source(pieces[..|term|]), pieces[|term|..];
        NamesFrom(index, term, Behind(behind, spelled), rest);
        OnlyFromCons(Name(index, spelled), CutNames(index, term, Behind(behind, spelled), rest), rest, pieces);
      } else {
        var after := Behind(behind, Core(pieces[0]) + Trail(pieces[0]));
        NamesFrom(index, term, after, pieces[1..]);
        OnlyFromCons(pieces[0], CutNames(index, term, after, pieces[1..]), pieces[1..], pieces);
      }
    }
  }

  lemma CutFrom(terms: seq<string>, stage: nat, pieces: seq<Piece>)
    requires 2 <= stage < 11 + |terms|
    ensures OnlyFrom(CutAt(terms, stage, pieces), pieces)
  {
    if stage < 8 {
      MarksFrom(stage - 2, pieces);
    } else if stage < 10 {
      LinesFrom(stage - 8, pieces);
    } else if stage == 10 {
      AccelsFrom(pieces);
    } else {
      var index := stage - 11;
      NamesFrom(index, terms[index], false, pieces);
    }
  }

  /** A glyph is gone from the stage behind its own on. */
  lemma {:induction false} GlyphGone(terms: seq<string>, stage: nat, line: string, glyph: nat)
    requires glyph < 6 && 3 + glyph <= stage <= 11 + |terms|
    ensures Plain(GlyphChar(glyph)) !in PiecesTo(terms, stage, line)
    decreases stage
  {
    var before := PiecesTo(terms, stage - 1, line);
    NextPieces(terms, stage - 1, line);
    if stage == 3 + glyph {
      MarksFrom(glyph, before);
    } else {
      GlyphGone(terms, stage - 1, line, glyph);
      CutFrom(terms, stage - 1, before);
    }
  }

  // ----- The characters of a protected line -----------------------------------

  lemma CoreChars(terms: seq<string>, piece: Piece)
    requires PieceOk(terms, piece) && !piece.Plain?
    ensures forall i | 0 <= i < |Core(piece) + Trail(piece)| ::
              IsWord((Core(piece) + Trail(piece))[i]) || (Core(piece) + Trail(piece))[i] == ' '
  {
    ReadCore(terms, piece, "");
    assert Core(piece) + "" == Core(piece);
    ReadChars(Core(piece));
    if piece.Accel? {
      RepeatChars(' ', piece.spaces + 1);
    }
  }

  /** A character of a protected line that is neither a word character nor a space is a
      piece of its own. */
  lemma {:induction false} SealedChars(terms: seq<string>, pieces: seq<Piece>, c: char)
    requires WellMade(terms, pieces) && !IsWord(c) && c != ' ' && Plain(c) !in pieces
    ensures c !in Sealed(pieces)
  {
    if pieces != [] {
      var piece := pieces[0];
      SealedChars(terms, pieces[1..], c);
      if piece.Plain? {
        assert Core(piece) + Trail(piece) == [piece.c];
      } else {
        CoreChars(terms, piece);
      }
      assert c !in Core(piece) + Trail(piece);
    }
  }

  // ----- Placeholders ---------------------------------------------------------

  /** The text behind a percent sign that is a piece of its own goes on with no n and no
      digit. */
  lemma PercentAlone(terms: seq<string>, pieces: seq<Piece>)
    requires WellMade(terms, pieces) && Tiled(pieces) && pieces != [] && pieces[0] == Plain('%')
    ensures var rest := Sealed(pieces[1..]); rest == "" || (rest[0] != 'n' && !IsDigit(rest[0]))
  {
    var rest := pieces[1..];
    assert Source(pieces) == "%" + Source(rest);
    PercentHead(Source(rest));
    if rest != [] {
      SealedFront(terms, rest);
      if rest[0].Plain? {
        assert Source(rest)[0] == rest[0].c;
      }
    }
  }

  lemma NoPlaceholderHere(c: char, rest: string)
    requires c == '%' ==> rest == "" || (rest[0] != 'n' && !IsDigit(rest[0]))
    ensures PlaceholdersOf([c] + rest) == PlaceholdersOf(rest)
  {
    assert ([c] + rest)[1..] == rest;
  }

  lemma {:induction false} SealedPlaceholders(terms: seq<string>, pieces: seq<Piece>)
    requires WellMade(terms, pieces) && Tiled(pieces)
    ensures PlaceholdersOf(Sealed(pieces)) == []
  {
    if pieces != [] {
      var piece, rest := pieces[0], pieces[1..];
      SealedPlaceholders(terms, rest);
      if piece.Plain? {
        if piece.c == '%' {
          PercentAlone(terms, pieces);
        }
        assert Core(piece) + Trail(piece) == [piece.c];
        NoPlaceholderHere(piece.c, Sealed(rest));
      } else {
        CoreChars(terms, piece);
        NoPercent(Core(piece) + Trail(piece), Sealed(rest));
      }
    }
  }

  // ----- Separator runs -------------------------------------------------------

  predicate StartsWith(c: char, pieces: seq<Piece>) { pieces != [] && pieces[0] == Plain(c) }

  /** The character never stands twice in a row. */
  predicate NoRun(c: char, pieces: seq<Piece>) {
    pieces == [] || (!(StartsWith(c, pieces) && StartsWith(c, pieces[1..])) && NoRun(c, pieces[1..]))
  }

  lemma NoRunCons(c: char, piece: Piece, after: seq<Piece>)
    requires NoRun(c, after) && !(piece == Plain(c) && StartsWith(c, after))
    ensures NoRun(c, [piece] + after)
  {
    assert ([piece] + after)[1..] == after;
  }

  lemma {:induction false} NoRunRest(c: char, pieces: seq<Piece>, n: nat)
    requires NoRun(c, pieces) && n <= |pieces|
    ensures NoRun(c, pieces[n..])
  {
    if n == 0 {
      assert pieces[0..] == pieces;
    } else {
      NoRunRest(c, pieces[1..], n - 1);
      assert pieces[1..][n - 1..] == pieces[n..];
    }
  }

  /** The separator lines cut leave no run of their character, and no new run of another. */
  lemma {:induction false} LinesNoRun(line: nat, c: char, pieces: seq<Piece>)
    requires line < 2 && (c != LineChar(line) ==> NoRun(c, pieces))
    ensures NoRun(c, CutLines(line, pieces)) && (StartsWith(c, CutLines(line, pieces)) ==> StartsWith(c, pieces))
    decreases |pieces|
  {
    if pieces != [] {
      var n := Leading(LineChar(line), pieces);
      var cut, rest := if n >= 2 then Line(line, n) else pieces[0], if n >= 2 then pieces[n..] else pieces[1..];
      if c != LineChar(line) {
        NoRunRest(c, pieces, if n >= 2 then n else 1);
      }
      LinesNoRun(line, c, rest);
      NoRunCons(c, cut, CutLines(line, rest));
    }
  }

  lemma {:induction false} AccelsNoRun(c: char, pieces: seq<Piece>)
    requires NoRun(c, pieces)
    ensures NoRun(c, CutAccels(pieces)) && (StartsWith(c, CutAccels(pieces)) ==> StartsWith(c, pieces))
    decreases |pieces|
  {
    if pieces != [] {
      var rest := pieces[1..];
      if pieces[0] == Plain('&') {
        var n := Leading(' ', rest);
        NoRunRest(c, rest, n);
        AccelsNoRun(c, rest[n..]);
        NoRunCons(c, Accel(n), CutAccels(rest[n..]));
      } else {
        AccelsNoRun(c, rest);
        NoRunCons(c, pieces[0], CutAccels(rest));
      }
    }
  }

  lemma {:induction false} NamesNoRun(index: nat, term: string, behind: bool, c: char, pieces: seq<Piece>)
    requires NoRun(c, pieces)
    ensures NoRun(c, CutNames(index, term, behind, pieces))
    ensures StartsWith(c, CutNames(index, term, behind, pieces)) ==> StartsWith(c, pieces)
    decreases |pieces|
  {
    if pieces != [] {
      if NameAt(term, behind, pieces) {
        var spelled, rest := Source(pieces[..|term|]), pieces[|term|..];
        NoRunRest(c, pieces, |term|);
        NamesNoRun(index, term, Behind(behind, spelled), c, rest);
        NoRunCons(c, Name(index, spelled), CutNames(index, term, Behind(behind, spelled), rest));
      } else {
        var after := Behind(behind, Core(pieces[0]) + Trail(pieces[0]));
        NamesNoRun(index, term, after, c, pieces[1..]);
        NoRunCons(c, pieces[0], CutNames(index, term, after, pieces[1..]));
      }
    }
  }

  lemma CutNoRun(terms: seq<string>, stage: nat, c: char, pieces: seq<Piece>)
    requires 9 <= stage < 11 + |terms| && NoRun(c, pieces)
    ensures NoRun(c, CutAt(terms, stage, pieces))
  {
    if stage == 9 {
      LinesNoRun(1, c, pieces);
    } else if stage == 10 {
      AccelsNoRun(c, pieces);
    } else {
      var index := stage - 11;
      NamesNoRun(index, terms[index], false, c, pieces);
    }
  }

  lemma {:induction false} RunsGone(terms: seq<string>, stage: nat, text: string, line: nat)
    requires line < 2 && 9 + line <= stage <= 11 + |terms|
    ensures NoRun(LineChar(line), PiecesTo(terms, stage, text))
    decreases stage
  {
    var before := PiecesTo(terms, stage - 1, text);
    NextPieces(terms, stage - 1, text);
    if stage == 9 + line {
      LinesNoRun(line, LineChar(line), before);
    } else {
      RunsGone(terms, stage - 1, text, line);
      CutNoRun(terms, stage - 1, LineChar(line), before);
    }
  }

  /** The character stands twice in a row somewhere. */
  ghost predicate HasRun(c: char, text: string) {
    exists i | 0 <= i < |text| - 1 :: text[i] == c && text[i + 1] == c
  }

  lemma RunPlus(c: char, front: string, rest: string)
    requires HasRun(c, front + rest) && front != ""
    ensures HasRun(c, front) || HasRun(c, rest) || (front[|front| - 1] == c && rest != "" && rest[0] == c)
  {
    var text := front + rest;
    var i :| 0 <= i < |text| - 1 && text[i] == c && text[i + 1] == c;
    if i >= |front| {
      assert rest[i - |front|] == c && rest[i - |front| + 1] == c;
    } else if i + 1 < |front| {
      assert front[i] == c && front[i + 1] == c;
    }
  }

  lemma {:induction false} SealedNoRun(terms: seq<string>, c: char, pieces: seq<Piece>)
    requires WellMade(terms, pieces) && NoRun(c, pieces) && !IsWord(c) && c != ' '
    ensures !HasRun(c, Sealed(pieces))
  {
    if pieces != [] {
      var piece, rest := pieces[0], pieces[1..];
      var front := Core(piece) + Trail(piece);
      SealedNoRun(terms, c, rest);
      SealedFront(terms, pieces);
      if piece.Plain? {
        assert front == [piece.c];
      } else {
        CoreChars(terms, piece);
      }
      if rest != [] {
        SealedFront(terms, rest);
      }
      if HasRun(c, Sealed(pieces)) {
        RunPlus(c, front, Sealed(rest));
        assert c in front;
      }
    }
  }

  // ----- The whole line -------------------------------------------------------

  lemma NoRunsLeft(terms: seq<string>, line: string, c: nat)
    requires TableOk(terms) && Clean(line) && c < 2
    ensures !HasRun(LineChar(c), ProtectSegment(terms, line))
  {
    RoundTrip(terms, line);
    RunsGone(terms, 11 + |terms|, line, c);
    SealedNoRun(terms, LineChar(c), Pieces(terms, line));
  }

  lemma AllGlyphsGone(terms: seq<string>, line: string, p: string)
    requires TableOk(terms) && Clean(line) && p == ProtectSegment(terms, line)
    ensures forall glyph: nat | glyph < 6 :: GlyphChar(glyph) !in p
  {
    RoundTrip(terms, line);
    forall glyph: nat | glyph < 6 ensures GlyphChar(glyph) !in p {
      GlyphGone(terms, 11 + |terms|, line, glyph);
      GlyphNoWord(glyph);
      SealedChars(terms, Pieces(terms, line), GlyphChar(glyph));
    }
  }

  lemma GlyphNoWord(glyph: nat)
    ensures !IsWord(GlyphChar(glyph)) && GlyphChar(glyph) != ' '
  {
  }

  /** The backends see no placeholder, no ampersand, none of the six glyphs and no run of
      separator characters. */
  lemma ProtectedHides(terms: seq<string>, line: string)
    requires TableOk(terms) && Clean(line)
    ensures var p := ProtectSegment(terms, line);
            && PlaceholdersOf(p) == [] && '&' !in p
            && '\U{2026}' !in p && '\U{2022}' !in p && '\U{2192}' !in p
            && '\U{2713}' !in p && '\U{2717}' !in p && '\U{25aa}' !in p
            && !HasRun('\U{2500}', p) && !HasRun('\U{2550}', p)
  {
    var p, pieces := ProtectSegment(terms, line), Pieces(terms, line);
    RoundTrip(terms, line);
    CutSteps(terms, 11 + |terms|, line);
    PiecesTiled(terms, 11 + |terms|, line);
    SealedPlaceholders(terms, pieces);
    SealedChars(terms, pieces, '&');
    NoRunsLeft(terms, line, 0);
    NoRunsLeft(terms, line, 1);
    AllGlyphsGone(terms, line, p);
    assert GlyphChar(0) !in p && GlyphChar(1) !in p && GlyphChar(2) !in p;
    assert GlyphChar(3) !in p && GlyphChar(4) !in p && GlyphChar(5) !in p;
  }
}
